/** The key encodings character by character: the alphabets, and what each pair of hex
    characters and each private-key form is read as. */
module KeyForms {
  import opened Wrappers
  import opened JsonText
  import opened JsStrings
  import opened KeyEncoding

  // ---- Base58 -------------------------------------------------------------------------------

  predicate Alphanumeric(u: Unit) {
    || '0' as int <= u <= '9' as int
    || 'A' as int <= u <= 'Z' as int
    || 'a' as int <= u <= 'z' as int
  }

  /** The characters left out because they look alike. */
  predicate Ambiguous(u: Unit) {
    u == '0' as int || u == 'O' as int || u == 'I' as int || u == 'l' as int
  }

  /** The alphabet (draft-msporny-base58, section 2): all ASCII digits and letters that are
      not ambiguous, in code order. */
  lemma {:induction false} AlphabetIs(u: Unit)
    ensures forall d, e :: 0 <= d < e < 58 ==> Letter(d) < Letter(e)
    ensures (exists d :: 0 <= d < 58 && Letter(d) == u) <==> Alphanumeric(u) && !Ambiguous(u)
  {
    if Alphanumeric(u) && !Ambiguous(u) {
      var d := if u <= 57 then u - 49
               else if u <= 72 then u - 65 + 9
               else if u <= 78 then u - 74 + 17
               else if u <= 90 then u - 80 + 22
               else if u <= 107 then u - 97 + 33
               else u - 109 + 44;
      assert 0 <= d < 58 && Letter(d) == u;
    }
  }

  // ---- Hex ----------------------------------------------------------------------------------

  const LOWER_HEX := "0123456789abcdef"

  /** Two characters for each byte, the high half first. */
  lemma {:induction false} HexIs(bytes: seq<Byte>, i: nat)
    requires i < |bytes|
    ensures |BytesToHex(bytes)| == 2 * |bytes|
    ensures BytesToHex(bytes)[2 * i..2 * i + 2] == [LOWER_HEX[bytes[i] / 16] as int, LOWER_HEX[bytes[i] % 16] as int]
  {
    BytesToHexIsLowerHex(bytes);
    HalvesAre(bytes[0]);
    var h, rest := BytesToHex(bytes), BytesToHex(bytes[1..]);
    assert h == HexByte(bytes[0]) + rest;
    if i == 0 {
      assert h[..2] == HexByte(bytes[0]);
    } else {
      HexIs(bytes[1..], i - 1);
      assert h[2 * i..2 * i + 2] == rest[2 * (i - 1)..2 * (i - 1) + 2];
    }
  }

  lemma {:induction false} HalvesAre(b: Byte)
    ensures HexByte(b) == [LOWER_HEX[b / 16] as int, LOWER_HEX[b % 16] as int]
  {
  }

  /** The value of a hex digit, in either case; -1 for anything else. */
  function DigitValue(u: Unit): int {
    if '0' as int <= u <= '9' as int then u - '0' as int
    else if 'a' as int <= u <= 'f' as int then 10 + u - 'a' as int
    else if 'A' as int <= u <= 'F' as int then 10 + u - 'A' as int
    else -1
  }

  /** What a pair of characters is read as: two digits; one digit and then something else;
      white space or a sign and then a digit, a minus sign wrapping around; otherwise zero. */
  function PairValue(a: Unit, b: Unit): int {
    if DigitValue(a) >= 0 then (if DigitValue(b) >= 0 then DigitValue(a) * 16 + DigitValue(b) else DigitValue(a))
    else if DigitValue(b) <= 0 then 0
    else if a == '-' as int then 256 - DigitValue(b)
    else if a == '+' as int || IsSpace(a) then DigitValue(b)
    else 0
  }

  lemma {:induction false} DigitIs(u: Unit)
    ensures AnyHexValue(u) == DigitValue(u) && -1 <= DigitValue(u) < 16
    ensures DigitValue(u) >= 0 ==> !IsSpace(u) && u != '-' as int && u != '+' as int
  {
  }

  lemma {:induction false} RunOfOne(u: Unit)
    ensures HexRun([u], 0) == if DigitValue(u) >= 0 then DigitValue(u) else 0
    ensures HexRun([], 0) == 0
  {
    DigitIs(u);
    assert [u][1..] == [];
  }

  lemma {:induction false} RunOfTwo(a: Unit, b: Unit)
    requires DigitValue(a) >= 0
    ensures HexRun([a, b], 0) == if DigitValue(b) >= 0 then DigitValue(a) * 16 + DigitValue(b) else DigitValue(a)
  {
    DigitIs(a);
    DigitIs(b);
    assert [a, b][1..] == [b] && [b][1..] == [];
    assert HexRun([a, b], 0) == HexRun([b], DigitValue(a));
  }

  lemma {:induction false} TrimmedPair(a: Unit, b: Unit)
    ensures TrimStart([a, b]) == if !IsSpace(a) then [a, b] else if !IsSpace(b) then [b] else []
  {
    assert [a, b][1..] == [b] && [b][1..] == [];
    assert IsSpace(a) ==> TrimStart([a, b]) == TrimStart([b]);
  }

  lemma {:induction false} DigitFirst(a: Unit, b: Unit)
    requires DigitValue(a) >= 0
    ensures ParseByte([a, b]) == PairValue(a, b)
  {
    DigitIs(a);
    DigitIs(b);
    TrimmedPair(a, b);
    RunOfTwo(a, b);
  }

  lemma {:induction false} MinusFirst(b: Unit)
    ensures ParseByte(['-' as int, b]) == PairValue('-' as int, b)
  {
    DigitIs(b);
    TrimmedPair('-' as int, b);
    RunOfOne(b);
    assert ['-' as int, b][1..] == [b];
  }

  lemma {:induction false} PlusFirst(b: Unit)
    ensures ParseByte(['+' as int, b]) == PairValue('+' as int, b)
  {
    DigitIs(b);
    TrimmedPair('+' as int, b);
    RunOfOne(b);
    assert ['+' as int, b][1..] == [b];
  }

  lemma {:induction false} SpaceFirst(a: Unit, b: Unit)
    requires IsSpace(a)
    ensures ParseByte([a, b]) == PairValue(a, b)
  {
    DigitIs(a);
    DigitIs(b);
    TrimmedPair(a, b);
    RunOfOne(b);
    assert [b][1..] == [];
  }

  lemma {:induction false} OtherFirst(a: Unit, b: Unit)
    requires DigitValue(a) < 0 && !IsSpace(a) && a != '-' as int && a != '+' as int
    ensures ParseByte([a, b]) == PairValue(a, b)
  {
    DigitIs(a);
    TrimmedPair(a, b);
    assert HexRun([a, b], 0) == 0;
  }

  /** Every pair of characters, well formed or not. */
  lemma {:induction false} ParseByteIs(a: Unit, b: Unit)
    ensures ParseByte([a, b]) == PairValue(a, b)
  {
    if DigitValue(a) >= 0 {
      DigitFirst(a, b);
    } else if IsSpace(a) {
      SpaceFirst(a, b);
    } else if a == '-' as int {
      MinusFirst(b);
    } else if a == '+' as int {
      PlusFirst(b);
    } else {
      OtherFirst(a, b);
    }
  }

  /** What HexToBytes makes of an even-length string. */
  lemma {:induction false} HexToBytesReads(hex: Text, i: nat)
    requires |hex| % 2 == 0 && 2 * i < |hex|
    ensures |ParsePairs(hex)| == |hex| / 2 && ParsePairs(hex)[i] == PairValue(hex[2 * i], hex[2 * i + 1])
  {
    assert hex[..2] == [hex[0], hex[1]];
    ParseByteIs(hex[0], hex[1]);
    if i > 0 {
      HexToBytesReads(hex[2..], i - 1);
    } else if |hex| > 2 {
      HexToBytesReads(hex[2..], 0);
    }
  }

  // ---- Private keys -------------------------------------------------------------------------

  /** The seed of a private key: 64 characters, alone or after the PKCS#8 header of an
      Ed25519 key, whatever their case and the white space around them. */
  lemma {:induction false} SeedIs(s: Text)
    ensures var c, r := Trim(Lower(s)), ExtractPrivateKeySeed(s);
            && (|c| == 64 ==> r == Value(c))
            && (|c| == 96 && c[..32] == Ascii("302e020100300506032b657004220420") ==> r == Value(c[32..]))
            && (r.Throws? <==>
                  |c| != 64 && (|c| != 96 || c[..32] != Ascii("302e020100300506032b657004220420")))
  {
    HeaderIs();
    var c := Trim(Lower(s));
    assert |c| == 96 ==> (PKCS8_PREFIX <= c <==> c[..32] == PKCS8_PREFIX);
  }

  lemma {:induction false} HeaderIs()
    ensures |PKCS8_PREFIX| == 32 && PKCS8_PREFIX == Ascii("302e020100300506032b657004220420")
  {
  }

  /** Lower-casing changes the letters A to Z and nothing else. */
  lemma {:induction false} LowerIs(s: Text, i: nat)
    requires i < |s|
    ensures |Lower(s)| == |s|
    ensures Lower(s)[i] == if 'A' as int <= s[i] <= 'Z' as int then s[i] - 'A' as int + 'a' as int else s[i]
  {
  }
}
