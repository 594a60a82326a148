/** Signing a message and verifying it, with the signature primitive and the clock as
    parameters. `check(signature, text, publicKey)` is the Ed25519 verification. */
module SignedMessage {
  import opened Wrappers
  import opened JsonText
  import opened StableSort
  import opened CanonicalJson
  import opened CanonicalMeaning

  const FROM: Text := [102, 114, 111, 109]
  const TYPE: Text := [116, 121, 112, 101]
  const TIMESTAMP: Text := [116, 105, 109, 101, 115, 116, 97, 109, 112]
  const PAYLOAD: Text := [112, 97, 121, 108, 111, 97, 100]
  const SIGNATURE: Text := [115, 105, 103, 110, 97, 116, 117, 114, 101]
  const HUMAN: Text := [104, 117, 109, 97, 110]
  const AGENT: Text := [97, 103, 101, 110, 116]

  const DEFAULT_MAX_AGE_MS := 300_000.0
  const DEFAULT_MAX_FUTURE_MS := 30_000.0

  datatype Error = BadStructure | BadPublicKey | BadSignatureFormat | Expired | InFuture | BadSignature

  datatype Verdict = Valid | Invalid(error: Error)

  datatype Options = Options(maxAge: Option<real>, maxFuture: Option<real>, skipTimestampCheck: bool)

  function Field(fs: seq<Entry<Json>>, k: Text): Option<Json> {
    if fs == [] then None else if fs[0].key == k then Some(fs[0].value) else Field(fs[1..], k)
  }

  function Without(fs: seq<Entry<Json>>, k: Text): seq<Entry<Json>> {
    if fs == [] then []
    else (if fs[0].key == k then [] else [fs[0]]) + Without(fs[1..], k)
  }

  // ---- Signing ----------------------------------------------------------------------

  function Unsigned(from: Text, kind: Text, timestamp: Text, payload: Json): seq<Entry<Json>> {
    [Entry(FROM, Str(from)), Entry(TYPE, Str(kind)), Entry(TIMESTAMP, Num(timestamp)), Entry(PAYLOAD, payload)]
  }

  function SignSync(le: (Text, Text) -> bool, sign: Text -> Text,
                    from: Text, kind: Text, timestamp: Text, payload: Json): Json
  {
    var message := Unsigned(from, kind, timestamp, payload);
    Obj(message + [Entry(SIGNATURE, Str(sign(Canonicalize(le, Obj(message)))))])
  }

  // ---- Verifying --------------------------------------------------------------------

  predicate IsHexUnit(u: Unit) {
    48 <= u <= 57 || 97 <= u <= 102 || 65 <= u <= 70
  }

  predicate IsHexOfLength(t: Text, n: nat) {
    |t| == n && forall i :: 0 <= i < |t| ==> IsHexUnit(t[i])
  }

  predicate ValidStructure(m: Json) {
    && m.Obj?
    && var from, kind := Field(m.fields, FROM), Field(m.fields, TYPE);
    var time, sig := Field(m.fields, TIMESTAMP), Field(m.fields, SIGNATURE);
    && from.Some? && from.value.Str?
    && (kind == Some(Str(HUMAN)) || kind == Some(Str(AGENT)))
    && time.Some? && time.value.Num?
    && sig.Some? && sig.value.Str?
    && Field(m.fields, PAYLOAD).Some?
  }

  function OrDefault(o: Option<real>, d: real): real {
    if o.Some? then o.value else d
  }

  /** `numberOf` reads the number a literal denotes, in milliseconds. */
  function VerifySync(le: (Text, Text) -> bool, check: (Text, Text, Text) -> bool, numberOf: Text -> real,
                      m: Json, publicKey: Text, options: Options, now: real): Verdict
  {
    if !ValidStructure(m) then Invalid(BadStructure)
    else if !IsHexOfLength(publicKey, 64) then Invalid(BadPublicKey)
    else
      var signature := Field(m.fields, SIGNATURE).value.text;
      if !IsHexOfLength(signature, 128) then Invalid(BadSignatureFormat)
      else
        var age := now - numberOf(Field(m.fields, TIMESTAMP).value.literal);
        var maxAge := OrDefault(options.maxAge, DEFAULT_MAX_AGE_MS);
        var maxFuture := OrDefault(options.maxFuture, DEFAULT_MAX_FUTURE_MS);
        if !options.skipTimestampCheck && maxAge > 0.0 && age > maxAge then Invalid(Expired)
        else if !options.skipTimestampCheck && age < -maxFuture then Invalid(InFuture)
        else if !check(signature, Canonicalize(le, Obj(Without(m.fields, SIGNATURE))), publicKey) then
          Invalid(BadSignature)
        else Valid
  }

  // ---- Fields -----------------------------------------------------------------------

  lemma {:induction false} FieldIsTheEntry(fs: seq<Entry<Json>>, k: Text)
    ensures Field(fs, k).None? <==> !HasKey(fs, k)
    ensures Field(fs, k).Some? ==> Entry(k, Field(fs, k).value) in fs
  {
    if fs != [] {
      FieldIsTheEntry(fs[1..], k);
      if fs[0].key == k {
        assert fs[0] in fs;
      } else {
        if HasKey(fs, k) {
          var i :| 0 <= i < |fs| && fs[i].key == k;
          assert fs[1..][i - 1].key == k;
        }
        if HasKey(fs[1..], k) {
          var i :| 0 <= i < |fs[1..]| && fs[1..][i].key == k;
          assert fs[i + 1].key == k;
        }
      }
    }
  }

  lemma {:induction false} WithoutMembers(fs: seq<Entry<Json>>, k: Text)
    ensures forall e :: e in Without(fs, k) <==> e in fs && e.key != k
  {
    if fs != [] {
      WithoutMembers(fs[1..], k);
      forall e ensures e in fs <==> e == fs[0] || e in fs[1..] {
        assert fs == [fs[0]] + fs[1..];
      }
    }
  }

  lemma {:induction false} WithoutIsWellFormed(fs: seq<Entry<Json>>, k: Text)
    requires WellFormed(Obj(fs))
    ensures WellFormed(Obj(Without(fs, k)))
  {
    if fs != [] {
      TailIsWellFormed(fs);
      WithoutIsWellFormed(fs[1..], k);
      WithoutMembers(fs[1..], k);
      var rest := Without(fs[1..], k);
      forall i | 0 <= i < |rest| ensures rest[i].key != fs[0].key {
        assert rest[i] in fs[1..];
      }
    }
  }

  lemma {:induction false} TailIsWellFormed(fs: seq<Entry<Json>>)
    requires fs != [] && WellFormed(Obj(fs))
    ensures WellFormed(Obj(fs[1..]))
  {
    var t := fs[1..];
    forall i | 0 <= i < |t| ensures WellFormed(t[i].value) { assert t[i] == fs[i + 1]; }
  }

  /** Two objects that agree on one key are the same value exactly when they are
      without that key. */
  lemma {:induction false} SameValueWithout(fs: seq<Entry<Json>>, gs: seq<Entry<Json>>, k: Text)
    requires WellFormed(Obj(fs)) && WellFormed(Obj(gs))
    requires Field(fs, k).Some? && Field(gs, k) == Field(fs, k)
    ensures SameValue(Obj(fs), Obj(gs)) <==> SameValue(Obj(Without(fs, k)), Obj(Without(gs, k)))
  {
    FieldIsTheEntry(fs, k);
    FieldIsTheEntry(gs, k);
    if SameValue(Obj(fs), Obj(gs)) {
      SameValueDropsKey(fs, gs, k);
    }
    if SameValue(Obj(Without(fs, k)), Obj(Without(gs, k))) {
      SameValueAddsKey(fs, gs, k, Field(fs, k).value);
    }
  }

  lemma {:induction false} IndexOfMember(fs: seq<Entry<Json>>, e: Entry<Json>) returns (i: nat)
    requires e in fs
    ensures i < |fs| && fs[i] == e
  {
    i :| 0 <= i < |fs| && fs[i] == e;
  }

  lemma {:induction false} DropHasKey(fs: seq<Entry<Json>>, k: Text, l: Text)
    ensures HasKey(Without(fs, k), l) <==> HasKey(fs, l) && l != k
  {
    WithoutMembers(fs, k);
    var ws := Without(fs, k);
    if HasKey(ws, l) {
      var i :| 0 <= i < |ws| && ws[i].key == l;
      assert ws[i] in ws;
      var x := IndexOfMember(fs, ws[i]);
    }
    if HasKey(fs, l) && l != k {
      var i :| 0 <= i < |fs| && fs[i].key == l;
      assert fs[i] in fs;
      var x := IndexOfMember(ws, fs[i]);
    }
  }

  lemma {:induction false} SameValueDropsKey(fs: seq<Entry<Json>>, gs: seq<Entry<Json>>, k: Text)
    requires WellFormed(Obj(fs)) && WellFormed(Obj(gs)) && SameValue(Obj(fs), Obj(gs))
    ensures SameValue(Obj(Without(fs, k)), Obj(Without(gs, k)))
  {
    var us, vs := Without(fs, k), Without(gs, k);
    WithoutMembers(fs, k);
    WithoutMembers(gs, k);
    forall i | 0 <= i < |us| ensures HasKey(vs, us[i].key) {
      assert us[i] in us;
      var x := IndexOfMember(fs, us[i]);
      assert HasKey(gs, fs[x].key);
      DropHasKey(gs, k, us[i].key);
    }
    forall i | 0 <= i < |vs| ensures HasKey(us, vs[i].key) {
      assert vs[i] in vs;
      var x := IndexOfMember(gs, vs[i]);
      assert HasKey(fs, gs[x].key);
      DropHasKey(fs, k, vs[i].key);
    }
    forall i, j | 0 <= i < |us| && 0 <= j < |vs| && us[i].key == vs[j].key ensures SameValue(us[i].value, vs[j].value) {
      assert us[i] in us && vs[j] in vs;
      var x := IndexOfMember(fs, us[i]);
      var y := IndexOfMember(gs, vs[j]);
    }
  }

  ghost predicate KeysWithin(fs: seq<Entry<Json>>, gs: seq<Entry<Json>>) {
    forall i :: 0 <= i < |fs| ==> HasKey(gs, fs[i].key)
  }

  ghost predicate ValuesAgree(fs: seq<Entry<Json>>, gs: seq<Entry<Json>>) {
    forall i, k :: 0 <= i < |fs| && 0 <= k < |gs| && fs[i].key == gs[k].key ==> SameValue(fs[i].value, gs[k].value)
  }

  lemma {:induction false} SameObjectsIff(fs: seq<Entry<Json>>, gs: seq<Entry<Json>>)
    ensures SameValue(Obj(fs), Obj(gs)) <==> KeysWithin(fs, gs) && KeysWithin(gs, fs) && ValuesAgree(fs, gs)
  {
  }

  lemma {:induction false} SameValueAddsKey(fs: seq<Entry<Json>>, gs: seq<Entry<Json>>, k: Text, v: Json)
    requires WellFormed(Obj(fs)) && WellFormed(Obj(gs))
    requires Entry(k, v) in fs && Entry(k, v) in gs
    requires SameValue(Obj(Without(fs, k)), Obj(Without(gs, k)))
    ensures SameValue(Obj(fs), Obj(gs))
  {
    SameObjectsIff(Without(fs, k), Without(gs, k));
    AllKeysAdded(fs, gs, k, v);
    AllKeysAdded(gs, fs, k, v);
    assert ValuesAgree(fs, gs) by {
      forall i, j | 0 <= i < |fs| && 0 <= j < |gs| && fs[i].key == gs[j].key
        ensures SameValue(fs[i].value, gs[j].value)
      {
        AddedValues(fs, gs, k, v, fs[i], gs[j]);
      }
    }
    SameObjectsIff(fs, gs);
  }

  lemma {:induction false} AllKeysAdded(fs: seq<Entry<Json>>, gs: seq<Entry<Json>>, k: Text, v: Json)
    requires Entry(k, v) in gs && KeysWithin(Without(fs, k), Without(gs, k))
    ensures KeysWithin(fs, gs)
  {
    forall i | 0 <= i < |fs| ensures HasKey(gs, fs[i].key) { AddedKeys(fs, gs, k, v, fs[i]); }
  }

  lemma {:induction false} AddedKeys(fs: seq<Entry<Json>>, gs: seq<Entry<Json>>, k: Text, v: Json, e: Entry<Json>)
    requires Entry(k, v) in gs && e in fs
    requires forall i :: 0 <= i < |Without(fs, k)| ==> HasKey(Without(gs, k), Without(fs, k)[i].key)
    ensures HasKey(gs, e.key)
  {
    if e.key == k {
    } else {
      WithoutMembers(fs, k);
      var x := IndexOfMember(Without(fs, k), e);
      DropHasKey(gs, k, e.key);
    }
  }

  lemma {:induction false} AddedValues(fs: seq<Entry<Json>>, gs: seq<Entry<Json>>, k: Text, v: Json, d: Entry<Json>,
                                       e: Entry<Json>)
    requires WellFormed(Obj(fs)) && WellFormed(Obj(gs))
    requires Entry(k, v) in fs && Entry(k, v) in gs && d in fs && e in gs && d.key == e.key
    requires SameValue(Obj(Without(fs, k)), Obj(Without(gs, k)))
    ensures SameValue(d.value, e.value)
  {
    if d.key == k {
      var x := IndexOfMember(fs, d);
      SameValueReflexive(v);
    } else {
      WithoutMembers(fs, k);
      WithoutMembers(gs, k);
      var x := IndexOfMember(Without(fs, k), d);
      var y := IndexOfMember(Without(gs, k), e);
    }
  }

  // ---- The theorem ------------------------------------------------------------------

  lemma {:induction false} SignedFields(fs: seq<Entry<Json>>, from: Text, kind: Text, timestamp: Text, payload: Json,
                                        sig: Text)
    requires fs == Unsigned(from, kind, timestamp, payload) + [Entry(SIGNATURE, Str(sig))]
    ensures Field(fs, FROM) == Some(Str(from)) && Field(fs, TYPE) == Some(Str(kind))
    ensures Field(fs, TIMESTAMP) == Some(Num(timestamp)) && Field(fs, PAYLOAD) == Some(payload)
    ensures Field(fs, SIGNATURE) == Some(Str(sig))
    ensures Without(fs, SIGNATURE) == Unsigned(from, kind, timestamp, payload)
  {
    assert |FROM| == 4 && |TYPE| == 4 && |TIMESTAMP| == 9 && |PAYLOAD| == 7 && |SIGNATURE| == 9;
    assert FROM[0] != TYPE[0] && TIMESTAMP[0] != SIGNATURE[0];
    var t1, t2, t3, t4 := fs[1..], fs[2..], fs[3..], fs[4..];
    assert t4 == [Entry(SIGNATURE, Str(sig))] + [];
    assert t3 == [Entry(PAYLOAD, payload)] + t4;
    assert t2 == [Entry(TIMESTAMP, Num(timestamp))] + t3;
    assert t1 == [Entry(TYPE, Str(kind))] + t2;
    assert fs == [Entry(FROM, Str(from))] + t1;
    FieldCons(Entry(SIGNATURE, Str(sig)), [], SIGNATURE);
    FieldCons(Entry(PAYLOAD, payload), t4, SIGNATURE);
    FieldCons(Entry(TIMESTAMP, Num(timestamp)), t3, SIGNATURE);
    FieldCons(Entry(TYPE, Str(kind)), t2, SIGNATURE);
    FieldCons(Entry(FROM, Str(from)), t1, SIGNATURE);
    FieldCons(Entry(PAYLOAD, payload), t4, PAYLOAD);
    FieldCons(Entry(TIMESTAMP, Num(timestamp)), t3, PAYLOAD);
    FieldCons(Entry(TYPE, Str(kind)), t2, PAYLOAD);
    FieldCons(Entry(FROM, Str(from)), t1, PAYLOAD);
    FieldCons(Entry(TIMESTAMP, Num(timestamp)), t3, TIMESTAMP);
    FieldCons(Entry(TYPE, Str(kind)), t2, TIMESTAMP);
    FieldCons(Entry(FROM, Str(from)), t1, TIMESTAMP);
    FieldCons(Entry(TYPE, Str(kind)), t2, TYPE);
    FieldCons(Entry(FROM, Str(from)), t1, TYPE);
  }

  lemma {:induction false} FieldCons(e: Entry<Json>, fs: seq<Entry<Json>>, k: Text)
    ensures Field([e] + fs, k) == if e.key == k then Some(e.value) else Field(fs, k)
    ensures Without([e] + fs, k) == (if e.key == k then [] else [e]) + Without(fs, k)
  {
    assert ([e] + fs)[1..] == fs;
  }

  ghost predicate InWindow(options: Options, now: real, time: real) {
    options.skipTimestampCheck ||
    (var age := now - time;
     && (OrDefault(options.maxAge, DEFAULT_MAX_AGE_MS) > 0.0 ==> age <= OrDefault(options.maxAge, DEFAULT_MAX_AGE_MS))
     && age >= -OrDefault(options.maxFuture, DEFAULT_MAX_FUTURE_MS))
  }

  /** The signature scheme is not broken on the text presented: the signature checks
      out on that text only if it is the text that was signed. */
  ghost predicate BindsTo(check: (Text, Text, Text) -> bool, sig: Text, signed: Text, presented: Text,
                          publicKey: Text)
  {
    check(sig, presented, publicKey) <==> presented == signed
  }

  /** End to end: a message carrying the signature of a signed message is accepted
      exactly when it is that message up to key order at any depth, in good form and
      inside the time window. Any other change of content is refused. */
  lemma {:induction false} VerifyAcceptsExactlyTheSignedMessage(
      le: (Text, Text) -> bool, sign: Text -> Text, check: (Text, Text, Text) -> bool, numberOf: Text -> real,
      from: Text, kind: Text, timestamp: Text, payload: Json, m: Json, publicKey: Text, options: Options, now: real)
    requires TotalPreorder(le)
    requires kind == HUMAN || kind == AGENT
    requires IsNumberLiteral(timestamp) && WellFormed(payload)
    requires var s := SignSync(le, sign, from, kind, timestamp, payload);
             && TieFree(le, Obj(Unsigned(from, kind, timestamp, payload)))
             && m.Obj? && WellFormed(m) && Field(m.fields, SIGNATURE) == Field(s.fields, SIGNATURE)
    requires BindsTo(check, sign(Canonicalize(le, Obj(Unsigned(from, kind, timestamp, payload)))),
                     Canonicalize(le, Obj(Unsigned(from, kind, timestamp, payload))),
                     Canonicalize(le, Obj(Without(m.fields, SIGNATURE))), publicKey)
    requires IsHexOfLength(sign(Canonicalize(le, Obj(Unsigned(from, kind, timestamp, payload)))), 128)
    requires IsHexOfLength(publicKey, 64)
    ensures VerifySync(le, check, numberOf, m, publicKey, options, now) == Valid
       <==> && SameValue(SignSync(le, sign, from, kind, timestamp, payload), m)
            && InWindow(options, now, numberOf(timestamp))
  {
    var s := SignSync(le, sign, from, kind, timestamp, payload);
    var sig := sign(Canonicalize(le, Obj(Unsigned(from, kind, timestamp, payload))));
    SignedFields(s.fields, from, kind, timestamp, payload, sig);
    SameTextIsSameMessage(le, from, kind, timestamp, payload, sig, s.fields, m.fields);
    VerifiesIff(le, check, numberOf, m, publicKey, options, now, sig);
    if SameValue(s, m) { SameHeader(s.fields, m.fields, from, kind, timestamp, payload); }
  }

  /** What verification comes to, once the key and the signature are in good form. */
  lemma {:induction false} VerifiesIff(le: (Text, Text) -> bool, check: (Text, Text, Text) -> bool,
                                       numberOf: Text -> real, m: Json, publicKey: Text, options: Options, now: real,
                                       sig: Text)
    requires m.Obj? && Field(m.fields, SIGNATURE) == Some(Str(sig))
    requires IsHexOfLength(sig, 128) && IsHexOfLength(publicKey, 64)
    ensures VerifySync(le, check, numberOf, m, publicKey, options, now) == Valid
       <==> && ValidStructure(m)
            && InWindow(options, now, numberOf(Field(m.fields, TIMESTAMP).value.literal))
            && check(sig, Canonicalize(le, Obj(Without(m.fields, SIGNATURE))), publicKey)
  {
  }

  /** The signed text and the presented one are equal exactly for the same message. */
  lemma {:induction false} SameTextIsSameMessage(
      le: (Text, Text) -> bool, from: Text, kind: Text, timestamp: Text, payload: Json, sig: Text,
      fs: seq<Entry<Json>>, gs: seq<Entry<Json>>)
    requires TotalPreorder(le) && TieFree(le, Obj(Unsigned(from, kind, timestamp, payload)))
    requires IsNumberLiteral(timestamp) && WellFormed(payload) && WellFormed(Obj(gs))
    requires fs == Unsigned(from, kind, timestamp, payload) + [Entry(SIGNATURE, Str(sig))]
    requires Field(gs, SIGNATURE) == Some(Str(sig))
    ensures Canonicalize(le, Obj(Without(gs, SIGNATURE)))
            == Canonicalize(le, Obj(Unsigned(from, kind, timestamp, payload)))
       <==> SameValue(Obj(fs), Obj(gs))
  {
    SignedFields(fs, from, kind, timestamp, payload, sig);
    SignedIsWellFormed(from, kind, timestamp, payload, sig);
    WithoutIsWellFormed(gs, SIGNATURE);
    WithoutIsWellFormed(fs, SIGNATURE);
    SameTextIffSameValue(le, Obj(Without(fs, SIGNATURE)), Obj(Without(gs, SIGNATURE)));
    SameValueWithout(fs, gs, SIGNATURE);
  }

  lemma {:induction false} SameHeader(fs: seq<Entry<Json>>, gs: seq<Entry<Json>>, from: Text, kind: Text,
                                      timestamp: Text, payload: Json)
    requires SameValue(Obj(fs), Obj(gs)) && (kind == HUMAN || kind == AGENT)
    requires Field(fs, FROM) == Some(Str(from)) && Field(fs, TYPE) == Some(Str(kind))
    requires Field(fs, TIMESTAMP) == Some(Num(timestamp)) && Field(fs, PAYLOAD) == Some(payload)
    requires Field(gs, SIGNATURE).Some? && Field(gs, SIGNATURE).value.Str?
    ensures ValidStructure(Obj(gs)) && Field(gs, TIMESTAMP) == Some(Num(timestamp))
  {
    SameFields(fs, gs, FROM);
    SameFields(fs, gs, TYPE);
    SameFields(fs, gs, TIMESTAMP);
    SameFields(fs, gs, PAYLOAD);
  }

  /** Safety needs nothing of the key comparison: an accepted message has the signed content. */
  lemma {:induction false} AcceptedContentIsSignedContent(
      le: (Text, Text) -> bool, sign: Text -> Text, check: (Text, Text, Text) -> bool, numberOf: Text -> real,
      message: Json, m: Json, publicKey: Text, options: Options, now: real)
    requires WellFormed(message) && m.Obj? && WellFormed(m)
    requires Field(m.fields, SIGNATURE) == Some(Str(sign(Canonicalize(le, message))))
    requires BindsTo(check, sign(Canonicalize(le, message)), Canonicalize(le, message),
                     Canonicalize(le, Obj(Without(m.fields, SIGNATURE))), publicKey)
    requires VerifySync(le, check, numberOf, m, publicKey, options, now) == Valid
    ensures SameValue(message, Obj(Without(m.fields, SIGNATURE)))
  {
    WithoutIsWellFormed(m.fields, SIGNATURE);
    CanonicalTextDeterminesValue(le, message, Obj(Without(m.fields, SIGNATURE)));
  }

  lemma {:induction false} SignedIsWellFormed(from: Text, kind: Text, timestamp: Text, payload: Json, sig: Text)
    requires IsNumberLiteral(timestamp) && WellFormed(payload)
    ensures WellFormed(Obj(Unsigned(from, kind, timestamp, payload) + [Entry(SIGNATURE, Str(sig))]))
  {
    var fs := Unsigned(from, kind, timestamp, payload) + [Entry(SIGNATURE, Str(sig))];
    assert |FROM| == 4 && |TYPE| == 4 && |TIMESTAMP| == 9 && |PAYLOAD| == 7 && |SIGNATURE| == 9;
    assert FROM[0] != TYPE[0] && TIMESTAMP[0] != SIGNATURE[0];
    assert DistinctKeys(fs);
  }

  /** Same value: same field under each key, scalars literally equal. */
  lemma {:induction false} SameFields(fs: seq<Entry<Json>>, gs: seq<Entry<Json>>, k: Text)
    requires SameValue(Obj(fs), Obj(gs)) && Field(fs, k).Some?
    ensures Field(gs, k).Some? && SameValue(Field(fs, k).value, Field(gs, k).value)
  {
    FieldIsTheEntry(fs, k);
    FieldIsTheEntry(gs, k);
    var i := IndexOfMember(fs, Entry(k, Field(fs, k).value));
    assert HasKey(gs, fs[i].key);
    var j := IndexOfMember(gs, Entry(k, Field(gs, k).value));
    assert SameValue(fs[i].value, gs[j].value);
  }
}
