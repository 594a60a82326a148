/** What signing produces and what each verdict on a message means, field by field. */
module MessageVerdicts {
  import opened Wrappers
  import opened JsonText
  import opened JsStrings
  import opened CanonicalJson
  import opened CanonicalMeaning
  import opened SignedMessage

  // The names of a message's fields, and of the two kinds of sender.
  const NAME_FROM: Text := Ascii("from")
  const NAME_TYPE: Text := Ascii("type")
  const NAME_TIMESTAMP: Text := Ascii("timestamp")
  const NAME_PAYLOAD: Text := Ascii("payload")
  const NAME_SIGNATURE: Text := Ascii("signature")
  const NAME_HUMAN: Text := Ascii("human")
  const NAME_AGENT: Text := Ascii("agent")

  predicate HasEntry(m: Json, key: Text, v: Json)
    requires m.Obj?
  {
    Entry(key, v) in m.fields
  }

  /** A message: its sender and signature are strings, it is by a human or an agent, it has
      a time and a payload. */
  ghost predicate Formed(m: Json) {
    && m.Obj?
    && (exists s :: HasEntry(m, NAME_FROM, Str(s)))
    && (HasEntry(m, NAME_TYPE, Str(NAME_HUMAN)) || HasEntry(m, NAME_TYPE, Str(NAME_AGENT)))
    && (exists n :: HasEntry(m, NAME_TIMESTAMP, Num(n)))
    && (exists v :: HasEntry(m, NAME_PAYLOAD, v))
    && (exists s :: HasEntry(m, NAME_SIGNATURE, Str(s)))
  }

  predicate HexChar(u: Unit) {
    || '0' as int <= u <= '9' as int
    || 'a' as int <= u <= 'f' as int
    || 'A' as int <= u <= 'F' as int
  }

  predicate Hex(t: Text, n: nat) {
    |t| == n && forall i :: 0 <= i < n ==> HexChar(t[i])
  }

  /** Older than the age allowed, five minutes unless given; zero or less allows any. */
  predicate TooOld(options: Options, now: real, time: real) {
    var allowed := if options.maxAge.Some? then options.maxAge.value else 5.0 * 60.0 * 1000.0;
    !options.skipTimestampCheck && allowed > 0.0 && now - time > allowed
  }

  /** Further ahead of the clock than allowed, half a minute unless given. */
  predicate TooEarly(options: Options, now: real, time: real) {
    var allowed := if options.maxFuture.Some? then options.maxFuture.value else 30.0 * 1000.0;
    !options.skipTimestampCheck && time - now > allowed
  }

  /** The fields but the one with this key. */
  ghost predicate IsRest(fs: seq<Entry<Json>>, key: Text, rest: seq<Entry<Json>>) {
    exists i :: 0 <= i < |fs| && fs[i].key == key && rest == fs[..i] + fs[i + 1..]
  }

  lemma {:induction false} Names()
    ensures NAME_FROM == FROM && NAME_TYPE == TYPE && NAME_TIMESTAMP == TIMESTAMP
    ensures NAME_PAYLOAD == PAYLOAD && NAME_SIGNATURE == SIGNATURE
    ensures NAME_HUMAN == HUMAN && NAME_AGENT == AGENT
  {
  }

  lemma {:induction false} FieldIff(m: Json, key: Text, v: Json)
    requires m.Obj? && WellFormed(m)
    ensures Field(m.fields, key) == Some(v) <==> HasEntry(m, key, v)
  {
    FieldIsTheEntry(m.fields, key);
    if HasEntry(m, key, v) {
      var i := IndexOfMember(m.fields, Entry(key, v));
      var j := IndexOfMember(m.fields, Entry(key, Field(m.fields, key).value));
    }
  }

  lemma {:induction false} NothingToDrop(fs: seq<Entry<Json>>, key: Text)
    requires forall i :: 0 <= i < |fs| ==> fs[i].key != key
    ensures Without(fs, key) == fs
  {
    if fs != [] {
      NothingToDrop(fs[1..], key);
      assert fs == [fs[0]] + fs[1..];
    }
  }

  lemma {:induction false} DropsOne(fs: seq<Entry<Json>>, key: Text, i: nat)
    requires i < |fs| && fs[i].key == key && DistinctKeys(fs)
    ensures Without(fs, key) == fs[..i] + fs[i + 1..]
  {
    if i == 0 {
      NothingToDrop(fs[1..], key);
      assert [] + fs[1..] == fs[1..];
    } else {
      DropsOne(fs[1..], key, i - 1);
      assert fs[..i] == [fs[0]] + fs[1..][..i - 1];
      assert fs[i + 1..] == fs[1..][i..];
    }
  }

  lemma {:induction false} RestIsWithout(fs: seq<Entry<Json>>, key: Text, rest: seq<Entry<Json>>)
    requires DistinctKeys(fs) && IsRest(fs, key, rest)
    ensures rest == Without(fs, key)
  {
    var i :| 0 <= i < |fs| && fs[i].key == key && rest == fs[..i] + fs[i + 1..];
    DropsOne(fs, key, i);
  }

  lemma {:induction false} StructureIff(m: Json)
    requires WellFormed(m)
    ensures ValidStructure(m) <==> Formed(m)
  {
    Names();
    if m.Obj? {
      forall key, v ensures Field(m.fields, key) == Some(v) <==> HasEntry(m, key, v) { FieldIff(m, key, v); }
    }
  }

  lemma {:induction false} HexIff(t: Text, n: nat)
    ensures IsHexOfLength(t, n) <==> Hex(t, n)
  {
    assert forall u: Unit :: IsHexUnit(u) <==> HexChar(u);
  }

  /** The verdict on a well-formed message with this time and signature, whose other fields
      are `rest`: the first thing that is wrong with it, or valid. */
  function VerdictOn(le: (Text, Text) -> bool, check: (Text, Text, Text) -> bool, numberOf: Text -> real,
                     time: Text, signature: Text, rest: seq<Entry<Json>>, publicKey: Text, options: Options,
                     now: real): Verdict
  {
    if !Hex(publicKey, 64) then Invalid(BadPublicKey)
    else if !Hex(signature, 128) then Invalid(BadSignatureFormat)
    else if TooOld(options, now, numberOf(time)) then Invalid(Expired)
    else if TooEarly(options, now, numberOf(time)) then Invalid(InFuture)
    else if check(signature, Canonicalize(le, Obj(rest)), publicKey) then Valid
    else Invalid(BadSignature)
  }

  /** What a verification looks at: the message is formed, and these are its time, its
      signature and its other fields. */
  ghost predicate Presents(m: Json, time: Text, signature: Text, rest: seq<Entry<Json>>) {
    && Formed(m) && HasEntry(m, NAME_TIMESTAMP, Num(time)) && HasEntry(m, NAME_SIGNATURE, Str(signature))
    && IsRest(m.fields, NAME_SIGNATURE, rest)
  }

  lemma {:induction false} LooksAt(m: Json, time: Text, signature: Text, rest: seq<Entry<Json>>)
    requires WellFormed(m) && Presents(m, time, signature, rest)
    ensures ValidStructure(m) && Field(m.fields, TIMESTAMP).value == Num(time)
    ensures Field(m.fields, SIGNATURE).value == Str(signature) && Without(m.fields, SIGNATURE) == rest
  {
    Names();
    StructureIff(m);
    FieldIff(m, TIMESTAMP, Num(time));
    FieldIff(m, SIGNATURE, Str(signature));
    RestIsWithout(m.fields, SIGNATURE, rest);
  }

  lemma {:induction false} FormedVerdict(
      le: (Text, Text) -> bool, check: (Text, Text, Text) -> bool, numberOf: Text -> real, m: Json, time: Text,
      signature: Text, rest: seq<Entry<Json>>, publicKey: Text, options: Options, now: real)
    requires WellFormed(m) && Presents(m, time, signature, rest)
    ensures VerifySync(le, check, numberOf, m, publicKey, options, now)
         == VerdictOn(le, check, numberOf, time, signature, rest, publicKey, options, now)
  {
    LooksAt(m, time, signature, rest);
    HexIff(publicKey, 64);
    HexIff(signature, 128);
  }

  /** What a verdict means, for every message, key, clock and set of options. */
  lemma {:induction false} VerdictMeans(le: (Text, Text) -> bool, check: (Text, Text, Text) -> bool,
                                        numberOf: Text -> real, m: Json, publicKey: Text, options: Options, now: real)
    requires WellFormed(m)
    ensures VerifySync(le, check, numberOf, m, publicKey, options, now) == Invalid(BadStructure) <==> !Formed(m)
    ensures forall time, signature, rest | Presents(m, time, signature, rest) ::
              VerifySync(le, check, numberOf, m, publicKey, options, now)
              == VerdictOn(le, check, numberOf, time, signature, rest, publicKey, options, now)
  {
    StructureIff(m);
    forall time, signature, rest | Presents(m, time, signature, rest)
      ensures VerifySync(le, check, numberOf, m, publicKey, options, now)
           == VerdictOn(le, check, numberOf, time, signature, rest, publicKey, options, now)
    {
      FormedVerdict(le, check, numberOf, m, time, signature, rest, publicKey, options, now);
    }
  }

  /** What signing produces: the sender, its type, the time and the payload under their
      names, and the signature of the canonical text of those four. */
  lemma {:induction false} SignedIs(le: (Text, Text) -> bool, sign: Text -> Text, from: Text, kind: Text,
                                    timestamp: Text, payload: Json)
    ensures var s := SignSync(le, sign, from, kind, timestamp, payload);
            && s.Obj? && |s.fields| == 5
            && HasEntry(s, NAME_FROM, Str(from)) && HasEntry(s, NAME_TYPE, Str(kind))
            && HasEntry(s, NAME_TIMESTAMP, Num(timestamp)) && HasEntry(s, NAME_PAYLOAD, payload)
            && s.fields[4] == Entry(NAME_SIGNATURE, Str(sign(Canonicalize(le, Obj(s.fields[..4])))))
  {
    Names();
    var s := SignSync(le, sign, from, kind, timestamp, payload);
    assert s.fields[..4] == Unsigned(from, kind, timestamp, payload);
    assert s.fields[0].key == FROM && s.fields[1].key == TYPE;
    assert s.fields[2].key == TIMESTAMP && s.fields[3].key == PAYLOAD;
  }
}
