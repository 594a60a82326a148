/** Verification of an intro funnel: events that each point back at the one they follow. */
module IntroFunnel {
  import opened Wrappers

  datatype Event = Event(id: string, kind: string, prevEventRef: Option<string>)

  datatype Reason =
    UnknownType | UnexpectedPrevEventRef | MissingPrevEventRef | MissingPredecessor | WrongPredecessorType

  datatype Verification = Ok | Bad(reason: Reason, eventId: string)

  const INTRO_PROPOSED := "intro_proposed"
  const CONSENT_GIVEN := "consent_given"
  const CONSENT_DECLINED := "consent_declined"
  const INTRO_MADE := "intro_made"
  const CONVERSATION_HAPPENED := "conversation_happened"

  predicate IsFunnelType(kind: string) {
    kind == INTRO_PROPOSED || kind == CONSENT_GIVEN || kind == CONSENT_DECLINED || kind == INTRO_MADE
        || kind == CONVERSATION_HAPPENED
  }

  /** The type an event must point back at; None for the one that starts a funnel. */
  function ExpectedPrevEventType(kind: string): Option<string>
    requires IsFunnelType(kind)
  {
    if kind == INTRO_PROPOSED then None
    else if kind == CONVERSATION_HAPPENED then Some(INTRO_MADE)
    else Some(INTRO_PROPOSED)
  }

  function VerifyFunnelChainLink(event: Event, predecessor: Option<Event>): Verification {
    if !IsFunnelType(event.kind) then Bad(UnknownType, event.id)
    else
      var expected := ExpectedPrevEventType(event.kind);
      if expected.None? then
        if event.prevEventRef.None? then Ok else Bad(UnexpectedPrevEventRef, event.id)
      else if event.prevEventRef.None? || event.prevEventRef.value == "" then Bad(MissingPrevEventRef, event.id)
      else if predecessor.None? || predecessor.value.id != event.prevEventRef.value then
        Bad(MissingPredecessor, event.id)
      else if predecessor.value.kind != expected.value then Bad(WrongPredecessorType, event.id)
      else Ok
  }

  /** `new Map(events.map(e => [e.id, e])).get(id)`: of events sharing an id, the last. */
  function ById(events: seq<Event>, id: string): Option<Event> {
    if events == [] then None
    else if events[|events| - 1].id == id then Some(events[|events| - 1])
    else ById(events[..|events| - 1], id)
  }

  function Predecessor(events: seq<Event>, event: Event): Option<Event> {
    if event.prevEventRef.None? || event.prevEventRef.value == "" then None else ById(events, event.prevEventRef.value)
  }

  function FirstBad(events: seq<Event>, from: nat): Verification
    requires from <= |events|
    decreases |events| - from
  {
    if from == |events| then Ok
    else
      var result := VerifyFunnelChainLink(events[from], Predecessor(events, events[from]));
      if result.Bad? then result else FirstBad(events, from + 1)
  }

  function VerifyFunnelChain(events: seq<Event>): Verification {
    FirstBad(events, 0)
  }

  // ---- Acceptance is every link holding ---------------------------------------------------

  /** The event starts a funnel and points nowhere, or points at an event of the expected type. */
  predicate LinkHolds(events: seq<Event>, e: Event) {
    && IsFunnelType(e.kind)
    && (match ExpectedPrevEventType(e.kind)
        case None => e.prevEventRef.None?
        case Some(expected) =>
          && e.prevEventRef.Some? && e.prevEventRef.value != ""
          && ById(events, e.prevEventRef.value).Some?
          && ById(events, e.prevEventRef.value).value.kind == expected)
  }

  lemma {:induction false} ByIdFinds(events: seq<Event>, id: string)
    ensures var found := ById(events, id);
            && (found.Some? ==> found.value in events && found.value.id == id)
            && (found.None? ==> forall e :: e in events ==> e.id != id)
  {
    if events != [] {
      ByIdFinds(events[..|events| - 1], id);
      assert events == events[..|events| - 1] + [events[|events| - 1]];
    }
  }

  lemma LinkVerifiesIff(events: seq<Event>, e: Event)
    ensures VerifyFunnelChainLink(e, Predecessor(events, e)).Ok? <==> LinkHolds(events, e)
  {
    if e.prevEventRef.Some? { ByIdFinds(events, e.prevEventRef.value); }
  }

  lemma {:induction false} FirstBadIff(events: seq<Event>, from: nat)
    requires from <= |events|
    ensures FirstBad(events, from).Ok? <==> forall i :: from <= i < |events| ==> LinkHolds(events, events[i])
    decreases |events| - from
  {
    if from < |events| {
      LinkVerifiesIff(events, events[from]);
      FirstBadIff(events, from + 1);
    }
  }

  predicate Accepted(events: seq<Event>) {
    VerifyFunnelChain(events).Ok?
  }

  /** A funnel is accepted exactly when every link in it holds. */
  lemma AcceptedIff(events: seq<Event>)
    ensures Accepted(events) <==> forall e :: e in events ==> LinkHolds(events, e)
  {
    FirstBadIff(events, 0);
    if forall i :: 0 <= i < |events| ==> LinkHolds(events, events[i]) {
      assert forall e :: e in events ==> LinkHolds(events, e);
    } else {
      var i :| 0 <= i < |events| && !LinkHolds(events, events[i]);
      assert events[i] in events;
    }
  }

  /** A refusal names the first event whose link fails, and why it fails. */
  lemma {:induction false} RefusalNamesTheFirst(events: seq<Event>, from: nat, i: nat)
    requires from <= i < |events| && !LinkHolds(events, events[i])
    requires forall k :: from <= k < i ==> LinkHolds(events, events[k])
    ensures FirstBad(events, from) == VerifyFunnelChainLink(events[i], Predecessor(events, events[i]))
    ensures FirstBad(events, from).Bad? && FirstBad(events, from).eventId == events[i].id
    decreases i - from
  {
    LinkVerifiesIff(events, events[from]);
    if from < i { RefusalNamesTheFirst(events, from + 1, i); }
  }

  // ---- Well-foundedness -----------------------------------------------------------------

  function Rank(kind: string): nat {
    if kind == INTRO_PROPOSED then 0 else if kind == CONVERSATION_HAPPENED then 2 else 1
  }

  /** Where following the references leads in `n` steps. */
  function Follow(events: seq<Event>, e: Event, n: nat): Option<Event>
    decreases n
  {
    if n == 0 then Some(e)
    else
      var before := Predecessor(events, e);
      if before.None? then None else Follow(events, before.value, n - 1)
  }

  lemma OneStepBack(events: seq<Event>, e: Event)
    requires Accepted(events) && e in events && e.kind != INTRO_PROPOSED
    ensures var before := Predecessor(events, e);
            && before.Some? && before.value in events && before.value.id == e.prevEventRef.value
            && Rank(before.value.kind) == Rank(e.kind) - 1
  {
    AcceptedIff(events);
    ByIdFinds(events, e.prevEventRef.value);
  }

  /** From every event of an accepted funnel, following the references loses one rank a
      step and ends, after at most two, at an intro_proposed that points nowhere. */
  lemma {:induction false} FollowDescends(events: seq<Event>, e: Event, n: nat)
    requires Accepted(events) && e in events && n <= Rank(e.kind)
    ensures var at := Follow(events, e, n); at.Some? && at.value in events && Rank(at.value.kind) == Rank(e.kind) - n
    decreases n
  {
    if n > 0 {
      OneStepBack(events, e);
      FollowDescends(events, Predecessor(events, e).value, n - 1);
    }
  }

  lemma AcceptedIsWellFounded(events: seq<Event>, e: Event)
    requires Accepted(events) && e in events
    ensures Rank(e.kind) <= 2
    ensures var start := Follow(events, e, Rank(e.kind));
            && start.Some? && start.value in events && start.value.kind == INTRO_PROPOSED
                && start.value.prevEventRef.None?
    ensures Follow(events, e, Rank(e.kind) + 1).None?
    ensures forall j, k :: 0 <= j < k <= Rank(e.kind) ==> Follow(events, e, j) != Follow(events, e, k)
  {
    FollowDescends(events, e, Rank(e.kind));
    AcceptedIff(events);
    FollowEnds(events, e, Rank(e.kind));
    forall j, k | 0 <= j < k <= Rank(e.kind) ensures Follow(events, e, j) != Follow(events, e, k) {
      FollowDescends(events, e, j);
      FollowDescends(events, e, k);
    }
  }

  lemma {:induction false} FollowEnds(events: seq<Event>, e: Event, n: nat)
    requires Follow(events, e, n).Some? && Predecessor(events, Follow(events, e, n).value).None?
    ensures Follow(events, e, n + 1).None?
    decreases n
  {
    if n > 0 { FollowEnds(events, Predecessor(events, e).value, n - 1); }
  }

  // ---- Growing a funnel -------------------------------------------------------------------

  /** Every event that points at this id expects this type. */
  predicate Fits(events: seq<Event>, e: Event) {
    forall i :: 0 <= i < |events| && events[i].prevEventRef == Some(e.id) && IsFunnelType(events[i].kind)
      ==> ExpectedPrevEventType(events[i].kind) == Some(e.kind)
  }

  /** Appending any event, its id new or not: what remains accepted is exactly a funnel
      whose new link holds and in which nothing pointing at that id expected another type. */
  lemma AppendAcceptedIff(events: seq<Event>, e: Event)
    requires Accepted(events)
    ensures Accepted(events + [e]) <==> LinkHolds(events + [e], e) && Fits(events, e)
  {
    var all := events + [e];
    AcceptedIff(events);
    AcceptedIff(all);
    forall d | d in events
      ensures LinkHolds(all, d) <==> (d.prevEventRef == Some(e.id) ==> ExpectedPrevEventType(d.kind) == Some(e.kind))
    {
    }
    if Accepted(all) {
      assert e in all;
      forall i | 0 <= i < |events| && events[i].prevEventRef == Some(e.id)
        ensures ExpectedPrevEventType(events[i].kind) == Some(e.kind)
      {
        assert events[i] in events && events[i] in all;
      }
    }
    if LinkHolds(all, e) && Fits(events, e) {
      forall d | d in all ensures LinkHolds(all, d) {
        if d in events {
          var i :| 0 <= i < |events| && events[i] == d;
          assert LinkHolds(events, d);
        }
      }
    }
  }

  /** With a fresh id, its own link is all that matters, checked against the old events. */
  lemma FreshAppendAcceptedIff(events: seq<Event>, e: Event)
    requires Accepted(events) && ById(events, e.id).None?
    ensures Accepted(events + [e]) <==> VerifyFunnelChainLink(e, Predecessor(events, e)).Ok?
  {
    AppendAcceptedIff(events, e);
    AcceptedIff(events);
    LinkVerifiesIff(events, e);
    forall i | 0 <= i < |events| ensures events[i].prevEventRef != Some(e.id) {
      assert events[i] in events && LinkHolds(events, events[i]);
    }
  }

  // ---- Order ------------------------------------------------------------------------------

  ghost predicate DistinctIds(events: seq<Event>) {
    forall i, j :: 0 <= i < j < |events| ==> events[i].id != events[j].id
  }

  lemma {:induction false} ByIdIsTheOne(events: seq<Event>, e: Event)
    requires DistinctIds(events) && e in events
    ensures ById(events, e.id) == Some(e)
  {
    ByIdFinds(events, e.id);
    var found := ById(events, e.id).value;
    var i :| 0 <= i < |events| && events[i] == e;
    var j :| 0 <= j < |events| && events[j] == found;
    assert !(i < j) && !(j < i);
  }

  /** With distinct ids acceptance depends on which events there are, not on their order:
      an event may come before the one it follows. */
  lemma AcceptanceIgnoresOrder(a: seq<Event>, b: seq<Event>)
    requires DistinctIds(a) && DistinctIds(b) && (forall e :: e in a <==> e in b)
    ensures Accepted(a) <==> Accepted(b)
  {
    AcceptedIff(a);
    AcceptedIff(b);
    forall e | e in a ensures LinkHolds(a, e) <==> LinkHolds(b, e) {
      if e.prevEventRef.Some? { SameLookup(a, b, e.prevEventRef.value); }
    }
  }

  lemma SameLookup(a: seq<Event>, b: seq<Event>, id: string)
    requires DistinctIds(a) && DistinctIds(b) && (forall e :: e in a <==> e in b)
    ensures ById(a, id) == ById(b, id)
  {
    ByIdFinds(a, id);
    ByIdFinds(b, id);
    if ById(a, id).Some? { ByIdIsTheOne(b, ById(a, id).value); }
  }

  // ---- What a verdict says ------------------------------------------------------------------

  /** Of the events that share this id, the last: what a reference to it means. */
  ghost predicate Means(events: seq<Event>, id: string, p: Event) {
    exists i :: 0 <= i < |events| && events[i] == p && p.id == id && NoneAfter(events, id, i)
  }

  predicate NoneAfter(events: seq<Event>, id: string, i: nat) {
    forall k :: i < k < |events| ==> events[k].id != id
  }

  ghost predicate MeansNothing(events: seq<Event>, id: string) {
    forall k :: 0 <= k < |events| ==> events[k].id != id
  }

  ghost predicate PointsAt(events: seq<Event>, e: Event, kind: string) {
    && e.prevEventRef.Some? && e.prevEventRef.value != ""
    && exists p :: Means(events, e.prevEventRef.value, p) && p.kind == kind
  }

  predicate Starts(kind: string) {
    kind == "intro_proposed"
  }

  /** The types that answer a proposal. */
  predicate Answers(kind: string) {
    kind == "consent_given" || kind == "consent_declined" || kind == "intro_made"
  }

  predicate Closes(kind: string) {
    kind == "conversation_happened"
  }

  /** A proposal points nowhere, its answers point at a proposal, and a conversation at the
      introduction it followed. */
  ghost predicate IsInPlace(events: seq<Event>, e: Event) {
    || (Starts(e.kind) && e.prevEventRef == None)
    || (Answers(e.kind) && PointsAt(events, e, "intro_proposed"))
    || (Closes(e.kind) && PointsAt(events, e, "intro_made"))
  }

  /** What is wrong with an event, by the reason given. */
  ghost predicate IsWrongBecause(events: seq<Event>, e: Event, reason: Reason) {
    match reason
    case UnknownType => !Starts(e.kind) && !Answers(e.kind) && !Closes(e.kind)
    case UnexpectedPrevEventRef => Starts(e.kind) && e.prevEventRef.Some?
    case MissingPrevEventRef =>
      (Answers(e.kind) || Closes(e.kind)) && (e.prevEventRef == None || e.prevEventRef == Some(""))
    case MissingPredecessor =>
      && (Answers(e.kind) || Closes(e.kind)) && e.prevEventRef.Some? && e.prevEventRef.value != ""
      && MeansNothing(events, e.prevEventRef.value)
    case WrongPredecessorType =>
      && e.prevEventRef.Some? && e.prevEventRef.value != "" && (Answers(e.kind) || Closes(e.kind))
      && exists p :: Means(events, e.prevEventRef.value, p)
                     && p.kind != Needs(e.kind)
  }

  lemma {:induction false} ByIdMeans(events: seq<Event>, id: string)
    ensures ById(events, id).None? <==> MeansNothing(events, id)
    ensures forall p :: Means(events, id, p) <==> ById(events, id) == Some(p)
  {
    if events != [] {
      var front, last := events[..|events| - 1], events[|events| - 1];
      ByIdMeans(front, id);
      assert events == front + [last];
      if last.id == id {
        assert NoneAfter(events, id, |front|);
      } else {
        forall p ensures Means(events, id, p) <==> Means(front, id, p) { MeansBefore(front, last, id, p); }
      }
    }
  }

  lemma {:induction false} MeansBefore(front: seq<Event>, last: Event, id: string, p: Event)
    requires last.id != id
    ensures Means(front + [last], id, p) <==> Means(front, id, p)
  {
    var all := front + [last];
    if i :| 0 <= i < |all| && all[i] == p && p.id == id && NoneAfter(all, id, i) {
      assert i < |front| && front[i] == p;
      assert forall k :: i < k < |front| ==> front[k] == all[k];
      assert NoneAfter(front, id, i);
    }
    if i :| 0 <= i < |front| && front[i] == p && p.id == id && NoneAfter(front, id, i) {
      assert all[i] == p && all[|front|] == last;
      assert NoneAfter(all, id, i);
    }
  }

  /** One event's link verifies exactly when it is in place, and is refused for what is wrong. */
  lemma {:induction false} LinkVerdictIs(events: seq<Event>, e: Event)
    ensures var v := VerifyFunnelChainLink(e, Predecessor(events, e));
            && (v.Ok? <==> IsInPlace(events, e))
            && (v.Bad? ==> v.eventId == e.id && IsWrongBecause(events, e, v.reason))
  {
    if e.prevEventRef.Some? { ByIdMeans(events, e.prevEventRef.value); }
  }

  /** The type an event's reference must identify. */
  function Needs(kind: string): string {
    if Closes(kind) then "intro_made" else "intro_proposed"
  }

  /** Checked against whatever predecessor a caller holds, or none: the event must point at
      that very event, and it must be of the type needed. */
  lemma {:induction false} LinkAgainst(e: Event, held: Option<Event>)
    ensures var v := VerifyFunnelChainLink(e, held);
            var known := Answers(e.kind) || Closes(e.kind);
            var pointing := known && e.prevEventRef != None && e.prevEventRef != Some("");
            var found := pointing && held.Some? && Some(held.value.id) == e.prevEventRef;
            && (v.Bad? ==> v.eventId == e.id)
            && (v.Ok? <==> (Starts(e.kind) && e.prevEventRef == None) || (found && held.value.kind == Needs(e.kind)))
            && (v == Bad(UnknownType, e.id) <==> !Starts(e.kind) && !known)
            && (v == Bad(UnexpectedPrevEventRef, e.id) <==> Starts(e.kind) && e.prevEventRef != None)
            && (v == Bad(MissingPrevEventRef, e.id) <==> known && !pointing)
            && (v == Bad(MissingPredecessor, e.id) <==> pointing && !found)
            && (v == Bad(WrongPredecessorType, e.id) <==> found && held.value.kind != Needs(e.kind))
  {
  }

  ghost predicate FirstWrong(events: seq<Event>, from: nat, i: nat) {
    from <= i < |events| && !IsInPlace(events, events[i]) && forall k :: from <= k < i ==> IsInPlace(events, events[k])
  }

  lemma {:induction false} VerdictFrom(events: seq<Event>, from: nat)
    requires from <= |events|
    ensures var v := FirstBad(events, from);
            && (v.Ok? <==> forall i :: from <= i < |events| ==> IsInPlace(events, events[i]))
            && (v.Bad? ==> exists i: nat :: FirstWrong(events, from, i) && v.eventId == events[i].id
                                            && IsWrongBecause(events, events[i], v.reason))
    decreases |events| - from
  {
    if from < |events| {
      LinkVerdictIs(events, events[from]);
      VerdictFrom(events, from + 1);
      if !IsInPlace(events, events[from]) {
        assert FirstWrong(events, from, from);
      } else if FirstBad(events, from + 1).Bad? {
        var v := FirstBad(events, from + 1);
        var i: nat :| FirstWrong(events, from + 1, i) && v.eventId == events[i].id
                      && IsWrongBecause(events, events[i], v.reason);
        assert FirstWrong(events, from, i);
      }
    }
  }

  /** A funnel is accepted exactly when every event is in place; otherwise the first that is
      not is named, with what is wrong with it. */
  lemma {:induction false} VerdictIs(events: seq<Event>)
    ensures var v := VerifyFunnelChain(events);
            && (v.Ok? <==> forall i :: 0 <= i < |events| ==> IsInPlace(events, events[i]))
            && (v.Bad? ==> exists i: nat :: FirstWrong(events, 0, i) && v.eventId == events[i].id
                                            && IsWrongBecause(events, events[i], v.reason))
  {
    VerdictFrom(events, 0);
  }
}
