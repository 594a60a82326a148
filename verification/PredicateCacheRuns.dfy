/** The predicate cache over whole runs: what every step keeps, and exactly which steps
    leave a live row that is not true of the current value. */
module PredicateCacheRuns {
  import opened Wrappers
  import opened JsonText
  import opened JsStrings
  import opened CanonicalJson
  import opened CanonicalMeaning
  import opened TermVocabulary
  import opened PredicateClaims
  import opened PredicateCacheTheorems

  /** Each field's current value, the stored rows, the writes resolved but not yet stored,
      and the clock. */
  datatype State = State(values: map<(Text, Text), Json>, rows: seq<Row>, pending: seq<Row>, now: int)

  /** A resolution ends: `q` holds the value it was handed and the time it began, `rs` what
      was posed, and `seen` what each of its cache reads met on the way. */
  datatype Event =
    | Resolve(q: Query, rs: seq<Request>, seen: AllReads)
    | Persist(index: nat)
    | Tick(ms: nat)
    | Change(subject: Text, field: Text, value: Json)
    | Write(subject: Text, field: Text, value: Json)
    | Revoked(subject: Text, field: Text)

  function ValueOf(s: State, subject: Text, field: Text): Json {
    if (subject, field) in s.values then s.values[(subject, field)] else Null
  }

  function Revoke(rows: seq<Row>, subject: Text, field: Text): seq<Row> {
    seq(|rows|, i requires 0 <= i < |rows| =>
      if rows[i].subject == subject && rows[i].field == field then rows[i].(revoked := true) else rows[i])
  }

  ghost predicate ArePosable(rs: seq<Request>) {
    forall i :: 0 <= i < |rs| ==> WellFormedArg(rs[i].arg)
  }

  /** The rows a resolution wants stored; none if it throws. */
  ghost function Writes(g: Registry, q: Query, rs: seq<Request>, seen: AllReads): seq<Row> {
    var gathered := Gather(AnswersTo(g, seen, q, rs));
    if gathered.None? || !ArePosable(rs) then [] else RowsOf(q, gathered.value.1)
  }

  /** A field change stores the new value and revokes that field's rows. Where the
      revocation is late or fails, that is a Write, followed by a Revoked or not. Storing
      resolved answers is a step of its own, because the pipeline awaits in between. */
  ghost function Step(g: Registry, s: State, e: Event): State {
    match e
    case Resolve(q, rs, seen) => s.(pending := s.pending + Writes(g, q, rs, seen))
    case Persist(i) =>
      if i < |s.pending| then s.(rows := s.rows + [s.pending[i]], pending := s.pending[..i] + s.pending[i + 1..]) else s
    case Tick(ms) => s.(now := s.now + ms)
    case Change(subject, field, value) =>
      s.(values := s.values[(subject, field) := value], rows := Revoke(s.rows, subject, field))
    case Write(subject, field, value) => s.(values := s.values[(subject, field) := value])
    case Revoked(subject, field) => s.(rows := Revoke(s.rows, subject, field))
  }

  // ---- Sound states -----------------------------------------------------------------------

  /** The row's answer is the evaluation on this value. */
  predicate TrueOf(g: Registry, r: Row, value: Json) {
    Evaluate(g, r.field, value, r.kind, r.arg) == Some(r.result)
  }

  predicate Truthful(g: Registry, s: State, r: Row) {
    TrueOf(g, r, ValueOf(s, r.subject, r.field))
  }

  /** Filed under its own key; composed answers are never filed. */
  ghost predicate Keyed(g: Registry, r: Row) {
    WellFormedArg(r.arg) && r.kind != OverlapsSet && r.cacheKey == CacheKey(g.le, r.subject, r.field, r.kind, r.arg)
  }

  ghost predicate Sound(g: Registry, s: State) {
    && (forall r :: r in s.rows ==> Keyed(g, r) && (Live(r, s.now) ==> Truthful(g, s, r)))
    && (forall r :: r in s.pending ==> Keyed(g, r))
  }

  lemma {:induction false} SoundIsSoundAt(g: Registry, s: State, q: Query)
    requires Sound(g, s) && ValueOf(s, q.subject, q.field) == q.value
    ensures SoundAt(g, Snapshot(s.rows, s.now), q)
  {
    forall r, p, a | r in s.rows && p != OverlapsSet && WellFormedArg(a)
                     && Matches(r, q.subject, KeyFor(g, q, p, a), s.now)
      ensures Evaluate(g, q.field, q.value, p, a) == Some(r.result)
    {
      assert Keyed(g, r) && Truthful(g, s, r);
      CacheKeyIdentifies(g.le, r.subject, r.field, r.kind, r.arg, q.subject, q.field, p, a);
      EvaluateRespectsSameArg(g, q.field, q.value, p, r.arg, a);
    }
  }

  ghost predicate MetIn(g: Registry, at: Snapshot, q: Query, s: State) {
    Sound(g, s) && ValueOf(s, q.subject, q.field) == q.value && at == Snapshot(s.rows, s.now)
  }

  /** The read met the rows of a sound state in which the field had this value, or failed. */
  ghost predicate MetSound(g: Registry, at: Snapshot, q: Query) {
    at.rows == [] || exists s :: MetIn(g, at, q, s)
  }

  /** Whatever is posed, and whenever its cache reads happen: as long as they meet sound
      states in which the field has not changed, the requester is told the evaluation on
      that value. */
  lemma {:induction false} AnswersAreCurrent(g: Registry, seen: Reads, q: Query, r: Request)
    requires forall i: nat :: MetSound(g, seen(i), q)
    requires WellFormedArg(r.arg) && AnswersFaithfully(g, q.field, r)
    ensures var a := Answer(g, seen, q, r);
            && (a.Some? ==> Evaluate(g, q.field, q.value, r.kind, r.arg) == Some(a.value.0.claim.result))
            && (a.None? <==> !Allowed(g, q.field, r) || Evaluate(g, q.field, q.value, r.kind, r.arg) == None)
  {
    forall i: nat ensures SoundAt(g, seen(i), q) {
      if seen(i).rows != [] {
        var s :| MetIn(g, seen(i), q, s);
        SoundIsSoundAt(g, s, q);
      }
    }
    PosedAnswerIsCurrent(g, seen, q, r);
  }

  // ---- What a resolution wants stored -------------------------------------------------------

  lemma {:induction false} PrimitiveWrite(g: Registry, at: Snapshot, q: Query, t: Text)
    requires !ContainsPrimitive(g, at, q, t).cached
    ensures var r := RowOf(q, ContainsPrimitive(g, at, q, t));
            Keyed(g, r) && TrueOf(g, r, q.value) && r.subject == q.subject && r.field == q.field
  {
    ReadCachedFinds(at.rows, q.subject, KeyFor(g, q, ContainsTerm, Some(Str(t))), at.now);
  }

  lemma {:induction false} PosedWrite(g: Registry, at: Snapshot, q: Query, r: Request)
    requires r.kind != OverlapsSet && WellFormedArg(r.arg) && Primitive(g, at, q, r).Some?
    requires !Primitive(g, at, q, r).value.cached
    ensures var row := RowOf(q, Primitive(g, at, q, r).value);
            && Keyed(g, row) && row.subject == q.subject && row.field == q.field
            && (SettledArg(g, q.field, r) ==> TrueOf(g, row, q.value))
  {
    var a := NormalizeArg(g, q.field, r.kind, r.arg);
    if SettledArg(g, q.field, r) { FiledArgEvaluatesAlike(g, q.field, q.value, r); }
  }

  lemma {:induction false} AnswerWrites(g: Registry, seen: Reads, q: Query, r: Request, c: Claim)
    requires WellFormedArg(r.arg) && Answer(g, seen, q, r).Some? && c in Answer(g, seen, q, r).value.1
    ensures var row := RowOf(q, c);
            && Keyed(g, row) && row.subject == q.subject && row.field == q.field
            && (SettledArg(g, q.field, r) ==> TrueOf(g, row, q.value))
  {
    if r.kind == OverlapsSet {
      var terms := DeclaredTerms(g, q.field, r.arg);
      var inputs := Inputs(g, seen, q, terms);
      FreshMembers(inputs);
      var i :| 0 <= i < |inputs| && inputs[i] == c;
      PrimitiveWrite(g, seen(i), q, terms[i]);
    } else {
      PosedWrite(g, seen(0), q, r);
    }
  }

  ghost predicate AllSettled(g: Registry, field: Text, rs: seq<Request>) {
    forall i :: 0 <= i < |rs| ==> SettledArg(g, field, rs[i])
  }

  /** Everything a resolution wants stored is filed under its own key; and true of the value
      it was handed, if no posed argument evaluates otherwise under that key. */
  lemma {:induction false} WritesAreKeyed(g: Registry, q: Query, rs: seq<Request>, seen: AllReads, row: Row)
    requires row in Writes(g, q, rs, seen)
    ensures Keyed(g, row) && row.subject == q.subject && row.field == q.field
    ensures AllSettled(g, q.field, rs) ==> TrueOf(g, row, q.value)
  {
    var answers := AnswersTo(g, seen, q, rs);
    var cs := Gather(answers).value.1;
    var k :| 0 <= k < |cs| && RowOf(q, cs[k]) == row;
    var i := GatheredFrom(answers, cs[k]);
    AnswerWrites(g, seen(i), q, rs[i], cs[k]);
  }

  // ---- Every step -----------------------------------------------------------------------

  predicate Concerns(r: Row, subject: Text, field: Text) {
    r.subject == subject && r.field == field
  }

  /** An answer may be stored when it has expired or the value still gives it; a value may
      change without revocation when no live answer on it is different under the new one. */
  predicate Benign(g: Registry, s: State, e: Event) {
    match e
    case Persist(i) => i < |s.pending| ==> !Live(s.pending[i], s.now) || Truthful(g, s, s.pending[i])
    case Write(subject, field, value) =>
      forall i :: 0 <= i < |s.rows| && Concerns(s.rows[i], subject, field) && Live(s.rows[i], s.now)
        ==> TrueOf(g, s.rows[i], value)
    case _ => true
  }

  lemma {:induction false} RevokedRows(rows: seq<Row>, subject: Text, field: Text, r: Row, now: int) returns (was: Row)
    requires r in Revoke(rows, subject, field)
    ensures was in rows && (r == was || r == was.(revoked := true))
    ensures Live(r, now) ==> r == was && !Concerns(r, subject, field)
  {
    var i :| 0 <= i < |rows| && Revoke(rows, subject, field)[i] == r;
    was := rows[i];
  }

  lemma {:induction false} RevokedStaySound(g: Registry, s: State, t: State, subject: Text, field: Text)
    requires Sound(g, s)
    requires t.rows == Revoke(s.rows, subject, field) && t.now == s.now && t.pending == s.pending
    requires forall a, b :: (a, b) != (subject, field) ==> ValueOf(t, a, b) == ValueOf(s, a, b)
    ensures Sound(g, t)
  {
    forall r | r in t.rows ensures Keyed(g, r) && (Live(r, t.now) ==> Truthful(g, t, r)) {
      var was := RevokedRows(s.rows, subject, field, r, t.now);
      assert Keyed(g, was);
      if Live(r, t.now) { assert ValueOf(t, r.subject, r.field) == ValueOf(s, r.subject, r.field); }
    }
  }

  lemma {:induction false} WriteExact(g: Registry, s: State, subject: Text, field: Text, value: Json)
    requires Sound(g, s)
    ensures Sound(g, Step(g, s, Write(subject, field, value))) <==> Benign(g, s, Write(subject, field, value))
  {
    var t := Step(g, s, Write(subject, field, value));
    forall r | r in s.rows
      ensures Truthful(g, t, r) <==> if Concerns(r, subject, field) then TrueOf(g, r, value) else Truthful(g, s, r)
    {
    }
    if Benign(g, s, Write(subject, field, value)) {
      forall r | r in t.rows ensures Keyed(g, r) && (Live(r, t.now) ==> Truthful(g, t, r)) {
        var i :| 0 <= i < |s.rows| && s.rows[i] == r;
      }
    } else {
      var i :| 0 <= i < |s.rows| && Concerns(s.rows[i], subject, field) && Live(s.rows[i], s.now)
        && !TrueOf(g, s.rows[i], value);
      assert s.rows[i] in t.rows;
    }
  }

  lemma {:induction false} PersistKeeps(g: Registry, s: State, i: nat)
    requires Sound(g, s) && Benign(g, s, Persist(i))
    ensures Sound(g, Step(g, s, Persist(i)))
  {
    var t := Step(g, s, Persist(i));
    if i < |s.pending| {
      assert s.pending[i] in s.pending;
      assert forall r :: r in t.pending ==> r in s.pending;
      forall r | r in t.rows ensures Keyed(g, r) && (Live(r, t.now) ==> Truthful(g, t, r)) {
        assert r in s.rows || r == s.pending[i];
      }
    }
  }

  lemma {:induction false} PersistExact(g: Registry, s: State, i: nat)
    requires Sound(g, s)
    ensures Sound(g, Step(g, s, Persist(i))) <==> Benign(g, s, Persist(i))
  {
    if Benign(g, s, Persist(i)) {
      PersistKeeps(g, s, i);
    } else {
      assert s.pending[i] in Step(g, s, Persist(i)).rows;
    }
  }

  /** One step keeps every live row true of the current value if and only if it is benign. */
  lemma {:induction false} StepExact(g: Registry, s: State, e: Event)
    requires Sound(g, s)
    ensures Sound(g, Step(g, s, e)) <==> Benign(g, s, e)
  {
    var t := Step(g, s, e);
    match e {
      case Resolve(q, rs, seen) =>
        forall r | r in t.pending ensures Keyed(g, r) {
          if r !in s.pending { WritesAreKeyed(g, q, rs, seen, r); }
        }
      case Persist(i) => PersistExact(g, s, i);
      case Tick(ms) =>
        forall r | r in t.rows ensures Keyed(g, r) && (Live(r, t.now) ==> Truthful(g, t, r)) {
          assert Live(r, t.now) ==> Live(r, s.now);
        }
      case Change(subject, field, value) => RevokedStaySound(g, s, t, subject, field);
      case Write(subject, field, value) => WriteExact(g, s, subject, field, value);
      case Revoked(subject, field) => RevokedStaySound(g, s, t, subject, field);
    }
  }

  /** A change is a write and its revocation, so a late revocation repairs any write. */
  lemma {:induction false} ChangeIsWriteThenRevoked(g: Registry, s: State, subject: Text, field: Text, value: Json)
    requires Sound(g, s)
    ensures var t := Step(g, Step(g, s, Write(subject, field, value)), Revoked(subject, field));
            t == Step(g, s, Change(subject, field, value)) && Sound(g, t)
  {
    StepExact(g, s, Change(subject, field, value));
  }

  // ---- Every run ------------------------------------------------------------------------

  ghost predicate SoundThroughout(g: Registry, s: State, run: seq<Event>)
    decreases |run|
  {
    Sound(g, s) && (|run| > 0 ==> SoundThroughout(g, Step(g, s, run[0]), run[1..]))
  }

  ghost predicate BenignThroughout(g: Registry, s: State, run: seq<Event>)
    decreases |run|
  {
    |run| > 0 ==> Benign(g, s, run[0]) && BenignThroughout(g, Step(g, s, run[0]), run[1..])
  }

  /** Over every run: the cache is sound throughout exactly when every step was benign. */
  lemma {:induction false} EveryRun(g: Registry, s: State, run: seq<Event>)
    requires Sound(g, s)
    ensures SoundThroughout(g, s, run) <==> BenignThroughout(g, s, run)
    decreases |run|
  {
    if |run| > 0 {
      StepExact(g, s, run[0]);
      if Benign(g, s, run[0]) { EveryRun(g, Step(g, s, run[0]), run[1..]); }
    }
  }

  /** The discipline that suffices: a resolution ends while the value it was handed still
      stands and poses only settled arguments; a field changes only while no answer on its
      old value is waiting to be stored, and without revocation only if it has no live row. */
  ghost predicate Disciplined(g: Registry, s: State, e: Event) {
    match e
    case Resolve(q, rs, _) => q.value == ValueOf(s, q.subject, q.field) && AllSettled(g, q.field, rs)
    case Change(subject, field, _) => forall i :: 0 <= i < |s.pending| ==> !Concerns(s.pending[i], subject, field)
    case Write(subject, field, _) =>
      && (forall i :: 0 <= i < |s.pending| ==> !Concerns(s.pending[i], subject, field))
      && (forall i :: 0 <= i < |s.rows| && Concerns(s.rows[i], subject, field) ==> !Live(s.rows[i], s.now))
    case _ => true
  }

  ghost predicate DisciplinedThroughout(g: Registry, s: State, run: seq<Event>)
    decreases |run|
  {
    |run| > 0 ==> Disciplined(g, s, run[0]) && DisciplinedThroughout(g, Step(g, s, run[0]), run[1..])
  }

  ghost predicate PendingTrue(g: Registry, s: State) {
    forall r :: r in s.pending ==> Truthful(g, s, r)
  }

  lemma {:induction false} SettledRunsAreSound(g: Registry, s: State, run: seq<Event>)
    requires Sound(g, s) && PendingTrue(g, s) && DisciplinedThroughout(g, s, run)
    ensures SoundThroughout(g, s, run)
    decreases |run|
  {
    if |run| > 0 {
      var e := run[0];
      if e.Persist? && e.index < |s.pending| { assert s.pending[e.index] in s.pending; }
      StepExact(g, s, e);
      PendingStaysTrue(g, s, e);
      SettledRunsAreSound(g, Step(g, s, e), run[1..]);
    }
  }

  lemma {:induction false} PendingStaysTrue(g: Registry, s: State, e: Event)
    requires PendingTrue(g, s) && Disciplined(g, s, e)
    ensures PendingTrue(g, Step(g, s, e))
  {
    var t := Step(g, s, e);
    match e {
      case Resolve(q, rs, seen) =>
        forall r | r in t.pending ensures Truthful(g, t, r) {
          if r in s.pending {
            assert Truthful(g, s, r);
          } else {
            WritesAreKeyed(g, q, rs, seen, r);
          }
        }
      case Persist(i) =>
        assert forall r :: r in t.pending ==> r in s.pending;
      case Tick(_) =>
      case Change(subject, field, value) => OtherPendingStaysTrue(g, s, t, subject, field);
      case Write(subject, field, value) => OtherPendingStaysTrue(g, s, t, subject, field);
      case Revoked(_, _) =>
    }
  }

  lemma {:induction false} OtherPendingStaysTrue(g: Registry, s: State, t: State, subject: Text, field: Text)
    requires PendingTrue(g, s) && t.pending == s.pending
    requires forall i :: 0 <= i < |s.pending| ==> !Concerns(s.pending[i], subject, field)
    requires forall a, b :: (a, b) != (subject, field) ==> ValueOf(t, a, b) == ValueOf(s, a, b)
    ensures PendingTrue(g, t)
  {
    forall r | r in t.pending ensures Truthful(g, t, r) {
      var i :| 0 <= i < |s.pending| && s.pending[i] == r;
      assert Truthful(g, s, r) && ValueOf(t, r.subject, r.field) == ValueOf(s, r.subject, r.field);
    }
  }

  // ---- What every requester of a run is told -------------------------------------------------

  /** The states of a run, one before its first event and one after each. */
  ghost predicate IsRun(g: Registry, h: seq<State>, es: seq<Event>) {
    |h| == |es| + 1 && forall n :: 0 <= n < |es| ==> h[n + 1] == Step(g, h[n], es[n])
  }

  ghost predicate DisciplinedRun(g: Registry, h: seq<State>, es: seq<Event>)
    requires |h| == |es| + 1
  {
    && Sound(g, h[0]) && PendingTrue(g, h[0])
    && forall n :: 0 <= n < |es| ==> Disciplined(g, h[n], es[n])
  }

  lemma {:induction false} StatesAreSound(g: Registry, h: seq<State>, es: seq<Event>, n: nat)
    requires IsRun(g, h, es) && DisciplinedRun(g, h, es) && n <= |es|
    ensures Sound(g, h[n]) && PendingTrue(g, h[n])
  {
    if n > 0 {
      var s, e := h[n - 1], es[n - 1];
      StatesAreSound(g, h, es, n - 1);
      if e.Persist? && e.index < |s.pending| { assert s.pending[e.index] in s.pending; }
      StepExact(g, s, e);
      PendingStaysTrue(g, s, e);
    }
  }

  /** The read failed, or met the rows and the clock of one of the first states of the run,
      in which the field had this value already. */
  ghost predicate MetAmong(h: seq<State>, at: Snapshot, q: Query) {
    at.rows == [] || exists k :: 0 <= k < |h| && at == Snapshot(h[k].rows, h[k].now)
                                 && ValueOf(h[k], q.subject, q.field) == q.value
  }

  ghost predicate ReadsAmong(h: seq<State>, e: Event) {
    e.Resolve? ==> forall i: nat, k: nat :: MetAmong(h, e.seen(i)(k), e.q)
  }

  /** No resolution of the run reads from elsewhere, or across a change of its field. */
  ghost predicate ReadsItself(h: seq<State>, es: seq<Event>)
    requires |h| == |es| + 1
  {
    forall n :: 0 <= n < |es| ==> ReadsAmong(h[..n + 1], es[n])
  }

  lemma {:induction false} MetAmongIsMetSound(g: Registry, h: seq<State>, at: Snapshot, q: Query)
    requires MetAmong(h, at, q) && forall k :: 0 <= k < |h| ==> Sound(g, h[k])
    ensures MetSound(g, at, q)
  {
    if at.rows != [] {
      var k :| 0 <= k < |h| && at == Snapshot(h[k].rows, h[k].now) && ValueOf(h[k], q.subject, q.field) == q.value;
      assert MetIn(g, at, q, h[k]);
    }
  }

  ghost predicate Throws(g: Registry, value: Json, q: Query, r: Request) {
    !Allowed(g, q.field, r) || Evaluate(g, q.field, value, r.kind, r.arg) == None
  }

  ghost predicate IsTrueClaim(g: Registry, value: Json, q: Query, r: Request, a: Resolved) {
    Evaluate(g, q.field, value, r.kind, r.arg) == Some(a.claim.result)
  }

  /** One posed predicate is answered with its evaluation on this value; without one it is
      forbidden or throws. */
  ghost predicate Told(g: Registry, value: Json, q: Query, r: Request, a: Option<(Resolved, seq<Claim>)>) {
    (a.Some? ==> IsTrueClaim(g, value, q, r, a.value.0)) && (a.None? <==> Throws(g, value, q, r))
  }

  ghost predicate ComposesFaithfully(g: Registry, field: Text, rs: seq<Request>) {
    forall i :: 0 <= i < |rs| && rs[i].kind == OverlapsSet ==> Idempotent(g.vocabulary(field))
  }

  lemma {:induction false} RunAnswersAreCurrent(g: Registry, h: seq<State>, es: seq<Event>, n: nat, i: nat)
    requires IsRun(g, h, es) && DisciplinedRun(g, h, es) && ReadsItself(h, es)
    requires n < |es| && es[n].Resolve? && i < |es[n].rs| && ArePosable(es[n].rs)
    requires ComposesFaithfully(g, es[n].q.field, es[n].rs)
    ensures Told(g, ValueOf(h[n], es[n].q.subject, es[n].q.field), es[n].q, es[n].rs[i],
                 Answer(g, es[n].seen(i), es[n].q, es[n].rs[i]))
  {
    var q, r, seen := es[n].q, es[n].rs[i], es[n].seen(i);
    assert Disciplined(g, h[n], es[n]) && SettledArg(g, q.field, r);
    var past := h[..n + 1];
    forall k | 0 <= k < |past| ensures Sound(g, past[k]) {
      StatesAreSound(g, h, es, k);
    }
    assert ReadsAmong(h[..n + 1], es[n]);
    forall k: nat ensures MetSound(g, seen(k), q) {
      assert MetAmong(past, es[n].seen(i)(k), q);
      MetAmongIsMetSound(g, past, seen(k), q);
    }
    if r.kind != OverlapsSet { SettledIsFiledAlike(g, q.field, r); }
    AnswersAreCurrent(g, seen, q, r);
  }

  lemma {:induction false} GatherIsAll(answers: seq<Option<(Resolved, seq<Claim>)>>)
    ensures Gather(answers).None? <==> exists i :: 0 <= i < |answers| && answers[i].None?
    ensures Gather(answers).Some? ==>
              && |Gather(answers).value.0| == |answers|
              && forall i :: 0 <= i < |answers| ==>
                   answers[i].Some? && Gather(answers).value.0[i] == answers[i].value.0
  {
    if answers != [] {
      var front := answers[..|answers| - 1];
      GatherIsAll(front);
      assert answers == front + [answers[|answers| - 1]];
    }
  }

  /** What a whole resolution answers: every posed predicate its evaluation on this value,
      in the order posed; or it throws, exactly when one is forbidden or does. */
  ghost predicate AllTold(g: Registry, value: Json, q: Query, rs: seq<Request>,
                          result: Option<(seq<Resolved>, seq<Claim>)>) {
    && (result.None? <==> exists i :: 0 <= i < |rs| && Throws(g, value, q, rs[i]))
    && (result.Some? ==> |result.value.0| == |rs|)
    && (result.Some? ==> forall i :: 0 <= i < |rs| ==> IsTrueClaim(g, value, q, rs[i], result.value.0[i]))
  }

  lemma {:induction false} GatheredIsTold(g: Registry, value: Json, q: Query, rs: seq<Request>,
                                          answers: seq<Option<(Resolved, seq<Claim>)>>)
    requires |answers| == |rs| && forall i :: 0 <= i < |rs| ==> Told(g, value, q, rs[i], answers[i])
    ensures AllTold(g, value, q, rs, Gather(answers))
  {
    GatherIsAll(answers);
  }

  /** Over every run with that discipline, whose resolutions read what the run itself has
      stored by then: whatever is posed, whoever asks is told what is true of the field's
      current value when the answer is given. */
  lemma {:induction false} EveryRequesterIsToldTheTruth(g: Registry, h: seq<State>, es: seq<Event>, n: nat)
    requires IsRun(g, h, es) && DisciplinedRun(g, h, es) && ReadsItself(h, es)
    requires n < |es| && es[n].Resolve? && ArePosable(es[n].rs)
    requires ComposesFaithfully(g, es[n].q.field, es[n].rs)
    ensures var q := es[n].q;
            AllTold(g, ValueOf(h[n], q.subject, q.field), q, es[n].rs, Gather(AnswersTo(g, es[n].seen, q, es[n].rs)))
  {
    var q, rs := es[n].q, es[n].rs;
    var value, answers := ValueOf(h[n], q.subject, q.field), AnswersTo(g, es[n].seen, q, rs);
    forall i | 0 <= i < |rs| ensures Told(g, value, q, rs[i], answers[i]) {
      RunAnswersAreCurrent(g, h, es, n, i);
    }
    GatheredIsTold(g, value, q, rs, answers);
  }

  // ---- Runs that fail -----------------------------------------------------------------------

  const NOTHING_CACHED: AllReads := _ => NO_ROWS

  /** Nothing stored, and the field holds just this term. */
  function Holding(subject: Text, field: Text, term: Text): State {
    State(map[(subject, field) := Singleton(term)], [], [], 0)
  }

  /** `contains(term)` is posed and resolved, with nothing cached. */
  function PoseContains(subject: Text, field: Text, term: Text): Event {
    Resolve(Query(subject, field, Singleton(term), 0), [Request(ContainsTerm, Some(Str(term)))], NOTHING_CACHED)
  }

  lemma {:induction false} GatherOne(answers: seq<Option<(Resolved, seq<Claim>)>>)
    requires |answers| == 1 && answers[0].Some?
    ensures Gather(answers) == Some(([answers[0].value.0], answers[0].value.1))
  {
    assert Gather(answers[..0]) == Some(([], []));
    GatherSnoc(answers, [], [], 0);
    assert answers[..0 + 1] == answers;
    assert [] + [answers[0].value.0] == [answers[0].value.0] && [] + answers[0].value.1 == answers[0].value.1;
  }

  /** The claim that a set of one term contains that term. */
  function HoldingClaim(g: Registry, q: Query, term: Text): Claim {
    FreshClaim(g, q, ContainsTerm, Some(Str(NormalizeFieldTerm(g.vocabulary(q.field), term))), true)
  }

  lemma {:induction false} HoldingAnswer(g: Registry, q: Query, term: Text)
    requires g.permits(q.field, ContainsTerm) && !Blank(term) && q.value == Singleton(term)
    ensures var c := HoldingClaim(g, q, term);
            Answer(g, NO_ROWS, q, Request(ContainsTerm, Some(Str(term)))) == Some((Resolved(c, []), [c]))
  {
    SingletonSet(g.vocabulary(q.field), term);
    var filed := NormalizeFieldTerm(g.vocabulary(q.field), term);
    assert [filed][0] == filed;
  }

  lemma {:induction false} PosedContainsIsTrue(g: Registry, subject: Text, field: Text, term: Text)
    requires g.permits(field, ContainsTerm) && !Blank(term)
    ensures var t := Step(g, Holding(subject, field, term), PoseContains(subject, field, term));
            && t.rows == [] && |t.pending| == 1 && t.pending[0].result && Live(t.pending[0], t.now)
            && t.pending[0].kind == ContainsTerm && Concerns(t.pending[0], subject, field)
            && t.pending[0].arg == Some(Str(NormalizeFieldTerm(g.vocabulary(field), term)))
  {
    var q := Query(subject, field, Singleton(term), 0);
    HoldingAnswer(g, q, term);
    GatherOne(AnswersTo(g, NOTHING_CACHED, q, [Request(ContainsTerm, Some(Str(term)))]));
  }

  lemma {:induction false} StoringFalse(g: Registry, s: State)
    requires |s.pending| > 0 && Live(s.pending[0], s.now) && !Truthful(g, s, s.pending[0])
    ensures !BenignThroughout(g, s, [Persist(0)])
  {
    assert !Benign(g, s, Persist(0));
  }

  lemma {:induction false} UnsettledIsMissed(g: Registry, field: Text, term: Text)
    requires !Blank(term) && !Settled(g.vocabulary(field), term)
    ensures !Contains(g.vocabulary(field), Singleton(term), NormalizeFieldTerm(g.vocabulary(field), term))
  {
    SingletonSet(g.vocabulary(field), term);
  }

  /** An argument whose spelling is not settled, posed and stored while nothing else happens
      at all: the stored answer is false of the field's one value. */
  lemma {:induction false} UnsettledContainsLeavesAFalseRow(g: Registry, subject: Text, field: Text, term: Text)
    requires g.permits(field, ContainsTerm) && !Blank(term) && !Settled(g.vocabulary(field), term)
    ensures var start := Holding(subject, field, term);
            Sound(g, start) && !SoundThroughout(g, start, [PoseContains(subject, field, term)] + [Persist(0)])
  {
    var start, e := Holding(subject, field, term), PoseContains(subject, field, term);
    PosedContainsIsTrue(g, subject, field, term);
    UnsettledIsMissed(g, field, term);
    StoringFalse(g, Step(g, start, e));
    EveryRun(g, start, [e] + [Persist(0)]);
  }

  /** Such a registry and argument: "r", where p is also spelled q, and q also spelled r. */
  lemma {:induction false} ChainedVocabularyLeavesAFalseRow(g: Registry, subject: Text, field: Text)
    requires g.permits(field, ContainsTerm) && g.vocabulary(field) == Some(CHAINED)
    ensures !SoundThroughout(g, Holding(subject, field, R), [PoseContains(subject, field, R)] + [Persist(0)])
  {
    ChainedTerms();
    PlainLetter(R);
    UnsettledContainsLeavesAFalseRow(g, subject, field, R);
  }

  /** An answer waits to be stored that an empty set would no longer give. */
  ghost predicate AwaitsContains(g: Registry, s: State, subject: Text, field: Text) {
    && s.rows == [] && |s.pending| == 1 && s.pending[0].result && Live(s.pending[0], s.now)
    && Concerns(s.pending[0], subject, field) && !TrueOf(g, s.pending[0], Arr([]))
  }

  lemma {:induction false} PosedAwaits(g: Registry, subject: Text, field: Text, term: Text)
    requires g.permits(field, ContainsTerm) && !Blank(term)
    ensures Sound(g, Holding(subject, field, term))
    ensures var t := Step(g, Holding(subject, field, term), PoseContains(subject, field, term));
            AwaitsContains(g, t, subject, field)
  {
    PosedContainsIsTrue(g, subject, field, term);
  }

  lemma {:induction false} StoringAfterChange(g: Registry, s: State, subject: Text, field: Text)
    requires AwaitsContains(g, s, subject, field)
    ensures !BenignThroughout(g, s, [Change(subject, field, Arr([]))] + [Persist(0)])
  {
    StoringFalse(g, Step(g, s, Change(subject, field, Arr([]))));
  }

  /** The race the discipline rules out, on any registry: an answer is computed, the field
      changes and its rows are revoked, and only then is the answer stored. */
  lemma {:induction false} StaleWriteSurvives(g: Registry, subject: Text, field: Text, term: Text)
    requires g.permits(field, ContainsTerm) && !Blank(term)
    ensures var start := Holding(subject, field, term);
            var rest := [Change(subject, field, Arr([]))] + [Persist(0)];
            Sound(g, start) && !SoundThroughout(g, start, [PoseContains(subject, field, term)] + rest)
  {
    var start, pose := Holding(subject, field, term), PoseContains(subject, field, term);
    PosedAwaits(g, subject, field, term);
    StoringAfterChange(g, Step(g, start, pose), subject, field);
    EveryRun(g, start, [pose] + ([Change(subject, field, Arr([]))] + [Persist(0)]));
  }

  lemma {:induction false} WritingUnderARow(g: Registry, s: State, subject: Text, field: Text)
    requires AwaitsContains(g, s, subject, field)
    ensures !BenignThroughout(g, s, [Persist(0)] + [Write(subject, field, Arr([]))])
  {
    var t := Step(g, s, Persist(0));
    assert t.rows[0] == s.pending[0];
    assert !Benign(g, t, Write(subject, field, Arr([])));
  }

  /** A revocation that never comes, on any registry: an answer is computed, and stored while
      it is true, and then the field changes and its rows are not revoked. */
  lemma {:induction false} UnrevokedWriteLeavesAFalseRow(g: Registry, subject: Text, field: Text, term: Text)
    requires g.permits(field, ContainsTerm) && !Blank(term)
    ensures var start := Holding(subject, field, term);
            var rest := [Persist(0)] + [Write(subject, field, Arr([]))];
            Sound(g, start) && !SoundThroughout(g, start, [PoseContains(subject, field, term)] + rest)
  {
    var start, pose := Holding(subject, field, term), PoseContains(subject, field, term);
    PosedAwaits(g, subject, field, term);
    WritingUnderARow(g, Step(g, start, pose), subject, field);
    EveryRun(g, start, [pose] + ([Persist(0)] + [Write(subject, field, Arr([]))]));
  }
}
