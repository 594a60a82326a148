/** Key encodings: base58btc, Multikey and hex. Strings are sequences of UTF-16 code
    units, byte arrays are sequences of bytes. */
module KeyEncoding {
  import opened JsonText
  import opened JsStrings
  import opened Radix

  type Byte = b: int | 0 <= b < 256

  datatype Decoded<+T> = Throws | Value(value: T)

  // ---- Base58btc --------------------------------------------------------------------

  /** The alphabet 123456789ABCDEFGHJKLMNPQRSTUVWXYZabcdefghijkmnopqrstuvwxyz, by its
      runs: 1-9, A-H, J-N, P-Z, a-k, m-z. */
  function Letter(d: int): Unit
    requires 0 <= d < 58
  {
    if d < 9 then 49 + d
    else if d < 17 then 65 + (d - 9)
    else if d < 22 then 74 + (d - 17)
    else if d < 33 then 80 + (d - 22)
    else if d < 44 then 97 + (d - 33)
    else 109 + (d - 44)
  }

  const ONE: Unit := 49

  /** `indexOf`: the first position holding `u` at or after `from`, or -1. */
  function IndexFrom(u: Unit, from: nat): int
    decreases 58 - from
  {
    if from >= 58 then -1 else if Letter(from) == u then from else IndexFrom(u, from + 1)
  }

  function IndexOf(u: Unit): int { IndexFrom(u, 0) }

  function Indices(s: Text): seq<int> {
    seq(|s|, i requires 0 <= i < |s| => IndexOf(s[i]))
  }

  predicate OverAlphabet(s: Text) {
    forall i :: 0 <= i < |s| ==> IndexOf(s[i]) >= 0
  }

  function Letters(ds: seq<int>): Text
    requires Digits(58, ds)
  {
    seq(|ds|, i requires 0 <= i < |ds| => Letter(ds[i]))
  }

  /** The base58 text of a byte string: one '1' for each leading zero byte, then the
      digits of the bytes read as one big-endian integer. */
  function EncodeBase58(bytes: seq<Byte>): Text
  {
    FromDigitsNonNegative(256, bytes);
    ToDigitsAreDigits(58, FromDigits(256, bytes));
    Letters(Zeros(LeadingZeros(bytes)) + ToDigits(58, FromDigits(256, bytes)))
  }

  function DecodeBase58(s: Text): Decoded<seq<Byte>> {
    if !OverAlphabet(s) then Throws
    else
      IndicesAreDigits(s);
      FromDigitsNonNegative(58, Indices(s));
      ToDigitsAreDigits(256, FromDigits(58, Indices(s)));
      Value(Zeros(LeadingZeros(Indices(s))) + ToDigits(256, FromDigits(58, Indices(s))))
  }

  method Base58Encode(bytes: seq<Byte>) returns (result: Text)
    ensures result == EncodeBase58(bytes)
  {
    var num: int := 0;
    for i := 0 to |bytes|
      invariant num == FromDigits(256, bytes[..i]) && num >= 0
    {
      assert bytes[..i + 1] == bytes[..i] + [bytes[i]];
      num := num * 256 + bytes[i];
    }
    assert bytes[..|bytes|] == bytes;
    ghost var digits := ToDigits(58, num);
    ToDigitsAreDigits(58, num);
    result := [];
    while num > 0
      invariant num >= 0 && Digits(58, ToDigits(58, num)) && Digits(58, digits)
      invariant Letters(digits) == Letters(ToDigits(58, num)) + result
      decreases num
    {
      QuotientSmaller(num, 58);
      LettersOfQuotient(num);
      Assoc(Letters(ToDigits(58, num / 58)), [Letter(num % 58)], result);
      result := [Letter(num % 58)] + result;
      num := num / 58;
    }
    result := PrefixOnes(bytes, digits, result);
  }

  lemma LettersOfQuotient(num: nat)
    requires num > 0 && Digits(58, ToDigits(58, num))
    ensures Digits(58, ToDigits(58, num / 58))
    ensures Letters(ToDigits(58, num)) == Letters(ToDigits(58, num / 58)) + [Letter(num % 58)]
  {
    ToDigitsAreDigits(58, num / 58);
    assert ToDigits(58, num) == ToDigits(58, num / 58) + [num % 58];
  }

  lemma LettersOfZero(i: nat, digits: seq<int>)
    requires Digits(58, digits)
    ensures Letters(Zeros(i + 1) + digits) == [ONE] + Letters(Zeros(i) + digits)
  {
    assert Zeros(i + 1) + digits == [0] + (Zeros(i) + digits);
  }

  /** The last loop: one '1' in front for each leading zero byte. */
  method PrefixOnes(bytes: seq<Byte>, ghost digits: seq<int>, body: Text) returns (result: Text)
    requires Digits(58, digits) && body == Letters(digits)
    ensures Digits(58, Zeros(LeadingZeros(bytes)) + digits)
    ensures result == Letters(Zeros(LeadingZeros(bytes)) + digits)
  {
    result := body;
    var i := 0;
    assert Zeros(0) + digits == digits;
    assert bytes[0..] == bytes;
    while i < |bytes| && bytes[i] == 0
      invariant 0 <= i <= |bytes| && i + LeadingZeros(bytes[i..]) == LeadingZeros(bytes)
      invariant result == Letters(Zeros(i) + digits)
    {
      assert bytes[i..][1..] == bytes[i + 1..];
      LettersOfZero(i, digits);
      result := [ONE] + result;
      i := i + 1;
    }
  }

  method Base58Decode(str: Text) returns (result: Decoded<seq<Byte>>)
    ensures result == DecodeBase58(str)
  {
    var num: int := 0;
    for i := 0 to |str|
      invariant num == FromDigits(58, Indices(str[..i])) && num >= 0
      invariant forall k :: 0 <= k < i ==> IndexOf(str[k]) >= 0
    {
      var idx := IndexOf(str[i]);
      if idx < 0 {
        assert !OverAlphabet(str);
        return Throws;
      }
      assert Indices(str[..i + 1]) == Indices(str[..i]) + [idx];
      num := num * 58 + idx;
    }
    assert str[..|str|] == str;
    assert OverAlphabet(str) && num == FromDigits(58, Indices(str));
    ghost var digits := ToDigits(256, num);
    ToDigitsAreDigits(256, num);
    var bytes: seq<Byte> := [];
    while num > 0
      invariant num >= 0 && digits == ToDigits(256, num) + bytes
      decreases num
    {
      QuotientSmaller(num, 256);
      bytes := [num % 256] + bytes;
      num := num / 256;
    }
    assert digits == bytes;
    bytes := PrefixZeros(str, bytes);
    result := Value(bytes);
  }

  /** The last loop: one zero byte in front for each leading '1'. */
  method PrefixZeros(str: Text, body: seq<Byte>) returns (bytes: seq<Byte>)
    requires OverAlphabet(str)
    ensures bytes == Zeros(LeadingZeros(Indices(str))) + body
  {
    bytes := body;
    var i := 0;
    assert Zeros(0) + body == body;
    assert Indices(str)[0..] == Indices(str);
    while i < |str| && str[i] == ONE
      invariant 0 <= i <= |str| && i + LeadingZeros(Indices(str)[i..]) == LeadingZeros(Indices(str))
      invariant bytes == Zeros(i) + body
    {
      assert Indices(str)[i..][1..] == Indices(str)[i + 1..];
      assert Indices(str)[i] == 0;
      assert Zeros(i + 1) + body == [0] + (Zeros(i) + body);
      bytes := [0] + bytes;
      i := i + 1;
    }
    if i < |str| {
      OnlyOneIsZero(str[i]);
    }
  }

  // ---- The alphabet is a bijection ----------------------------------------------------

  lemma {:induction false} IndexFromFinds(u: Unit, from: nat, d: nat)
    requires from <= d < 58 && Letter(d) == u
    ensures IndexFrom(u, from) == d
    decreases d - from
  {
    if from < d {
      IndexFromFinds(u, from + 1, d);
    }
  }

  lemma {:induction false} IndexFromSound(u: Unit, from: nat)
    ensures IndexFrom(u, from) >= 0 ==> from <= IndexFrom(u, from) < 58 && Letter(IndexFrom(u, from)) == u
    decreases 58 - from
  {
    if from < 58 { IndexFromSound(u, from + 1); }
  }

  lemma OnlyOneIsZero(u: Unit)
    ensures IndexOf(u) == 0 <==> u == ONE
  {
    IndexFromSound(u, 0);
    IndexFromFinds(ONE, 0, 0);
  }

  lemma IndicesAreDigits(s: Text)
    requires OverAlphabet(s)
    ensures Digits(58, Indices(s))
  {
    forall i | 0 <= i < |s| ensures 0 <= Indices(s)[i] < 58 { IndexFromSound(s[i], 0); }
  }

  lemma IndicesOfLetters(ds: seq<int>)
    requires Digits(58, ds)
    ensures OverAlphabet(Letters(ds)) && Indices(Letters(ds)) == ds
  {
    forall i | 0 <= i < |ds| ensures IndexOf(Letters(ds)[i]) == ds[i] {
      IndexFromFinds(Letter(ds[i]), 0, ds[i]);
    }
  }

  lemma LettersOfIndices(s: Text)
    requires OverAlphabet(s)
    ensures Digits(58, Indices(s)) && Letters(Indices(s)) == s
  {
    IndicesAreDigits(s);
    forall i | 0 <= i < |s| ensures Letters(Indices(s))[i] == s[i] { IndexFromSound(s[i], 0); }
  }

  // ---- Base58 round trips -------------------------------------------------------------

  /** Decoding undoes encoding on every byte string, leading zeros and empty included. */
  lemma DecodeEncodeBase58(bytes: seq<Byte>)
    ensures DecodeBase58(EncodeBase58(bytes)) == Value(bytes)
  {
    var k := LeadingZeros(bytes);
    FromDigitsNonNegative(256, bytes);
    var n := FromDigits(256, bytes);
    ToDigitsAreDigits(58, n);
    var ds := Zeros(k) + ToDigits(58, n);
    IndicesOfLetters(ds);
    LeadingZerosOf(k, ToDigits(58, n));
    LeadingZerosAreWorthless(58, k, ToDigits(58, n));
    ReadsBack(58, n);
    WritesBackAfterZeros(256, bytes);
  }

  /** Encoding undoes decoding on exactly the strings over the alphabet. */
  lemma EncodeDecodeBase58(s: Text)
    ensures DecodeBase58(s).Value? <==> OverAlphabet(s)
    ensures OverAlphabet(s) ==> EncodeBase58(DecodeBase58(s).value) == s
  {
    if OverAlphabet(s) {
      LettersOfIndices(s);
      var ds := Indices(s);
      var k := LeadingZeros(ds);
      FromDigitsNonNegative(58, ds);
      var n := FromDigits(58, ds);
      ToDigitsAreDigits(256, n);
      LeadingZerosOf(k, ToDigits(256, n));
      LeadingZerosAreWorthless(256, k, ToDigits(256, n));
      ReadsBack(256, n);
      WritesBackAfterZeros(58, ds);
    }
  }

  // ---- Multikey -----------------------------------------------------------------------

  const HEADER: seq<Byte> := [0xed, 0x01]
  const LOWER_Z: Unit := 122
  const DID_KEY_PREFIX: Text := [122, 54, 77, 107]  // z6Mk

  function BytesToMultibase(publicKey: seq<Byte>): Decoded<Text> {
    if |publicKey| != 32 then Throws
    else Value([LOWER_Z] + EncodeBase58(HEADER + publicKey))
  }

  function MultibaseToPubkey(multibase: Text): Decoded<seq<Byte>> {
    if multibase == [] || multibase[0] != LOWER_Z then Throws
    else
      var decoded := DecodeBase58(multibase[1..]);
      if decoded.Throws? || |decoded.value| != 34 then Throws
      else if decoded.value[0] != 0xed || decoded.value[1] != 0x01 then Throws
      else Value(decoded.value[2..])
  }

  /** Every 32-byte key survives the trip through Multikey. */
  lemma MultikeyRoundTrip(publicKey: seq<Byte>)
    requires |publicKey| == 32
    ensures BytesToMultibase(publicKey).Value?
    ensures MultibaseToPubkey(BytesToMultibase(publicKey).value) == Value(publicKey)
  {
    var m := BytesToMultibase(publicKey).value;
    assert m[1..] == EncodeBase58(HEADER + publicKey);
    DecodeEncodeBase58(HEADER + publicKey);
    assert (HEADER + publicKey)[2..] == publicKey;
  }

  /** And every string that decodes to a key is that key's own encoding. */
  lemma MultikeyIsCanonical(multibase: Text)
    requires MultibaseToPubkey(multibase).Value?
    ensures BytesToMultibase(MultibaseToPubkey(multibase).value) == Value(multibase)
  {
    EncodeDecodeBase58(multibase[1..]);
    var decoded := DecodeBase58(multibase[1..]).value;
    assert decoded == HEADER + decoded[2..];
    assert multibase == [LOWER_Z] + multibase[1..];
  }

  const TWO_TO_256 := 0x1_0000_0000_0000_0000_0000_0000_0000_0000_0000_0000_0000_0000_0000_0000_0000_0000
  const P11 := 24986644000165537792
  const P22 := 624332378391008467754527498760580235264
  const P44 := 389790918707373377135528568990913592653094657612049369038476873218241589149696

  lemma {:induction false} PowUnfold(base: nat, n: nat)
    requires n > 0
    ensures Pow(base, n) == base * Pow(base, n - 1)
  {
  }

  lemma PowersOf58()
    ensures Pow(58, 44) == P44
  {
    PowUnfold(58, 11); PowUnfold(58, 10); PowUnfold(58, 9); PowUnfold(58, 8); PowUnfold(58, 7); PowUnfold(58, 6);
    PowUnfold(58, 5); PowUnfold(58, 4); PowUnfold(58, 3); PowUnfold(58, 2); PowUnfold(58, 1);
    assert Pow(58, 11) == P11;
    PowAdd(58, 11, 11);
    PowAdd(58, 22, 22);
    assert P11 * P11 == P22;
    assert P22 * P22 == P44;
  }

  lemma PowersOf256()
    ensures Pow(256, 32) == TWO_TO_256
  {
    PowUnfold(256, 4); PowUnfold(256, 3); PowUnfold(256, 2); PowUnfold(256, 1);
    assert Pow(256, 4) == 0x1_0000_0000;
    PowAdd(256, 4, 4);
    PowAdd(256, 8, 8);
    PowAdd(256, 16, 16);
  }

  /** The header and any key, read as a number, lie between 18023 and 18024 times 58^44. */
  lemma MultikeyMagnitude(publicKey: seq<Byte>)
    requires |publicKey| == 32
    ensures FromDigits(256, HEADER + publicKey) >= 0
    ensures 18023 * P44 <= FromDigits(256, HEADER + publicKey) < 18024 * P44
  {
    FromDigitsConcat(256, HEADER, publicKey);
    FromDigitsBound(256, publicKey);
    PowersOf256();
    assert HEADER == [0xed] + [0x01];
    assert [0xed] == [] + [0xed];
    assert FromDigits(256, HEADER) == 0xed01;
  }

  lemma TopDigits()
    ensures ToDigits(58, 18023) == [5, 20, 43]
  {
    assert ToDigits(58, 5) == [5];
    assert ToDigits(58, 310) == [5, 20];
  }

  /** Every Multikey is exactly 48 characters and begins with z6Mk. */
  lemma MultikeyShape(publicKey: seq<Byte>)
    requires |publicKey| == 32
    ensures var m := BytesToMultibase(publicKey);
            m.Value? && |m.value| == 48 && DID_KEY_PREFIX <= m.value
  {
    var bytes := HEADER + publicKey;
    var n := FromDigits(256, bytes);
    MultikeyMagnitude(publicKey);
    PowersOf58();
    QuotientIs(n, P44, 18023, n - 18023 * P44);
    ToDigitsSplit(58, n, 44);
    TopDigits();
    ToDigitsAreDigits(58, n);
    var ds := ToDigits(58, n);
    assert LeadingZeros(bytes) == 0;
    assert Zeros(0) + ds == ds;
    assert ds[..3] == [5, 20, 43];
    assert ds[0] == ds[..3][0] && ds[1] == ds[..3][1] && ds[2] == ds[..3][2];
    var t := Letters(ds);
    assert t[0] == Letter(5) && t[1] == Letter(20) && t[2] == Letter(43);
    var m := [LOWER_Z] + t;
    assert m[..4] == DID_KEY_PREFIX;
  }

  // ---- Hex ----------------------------------------------------------------------------

  function HexByte(b: Byte): Text {
    // b.toString(16).padStart(2, '0')
    var s := if b < 16 then [HexDigit(b)] else [HexDigit(b / 16), HexDigit(b % 16)];
    if |s| < 2 then [48] + s else s
  }

  function BytesToHex(bytes: seq<Byte>): Text {
    if bytes == [] then [] else HexByte(bytes[0]) + BytesToHex(bytes[1..])
  }

  function AnyHexValue(u: Unit): int {
    if 65 <= u <= 70 then u - 55 else HexValue(u)
  }

  /** The value of the longest run of hex digits `s` begins with, after `acc`. */
  function HexRun(s: Text, acc: nat): nat {
    if s == [] || AnyHexValue(s[0]) < 0 then acc else HexRun(s[1..], acc * 16 + AnyHexValue(s[0]))
  }

  /** `parseInt(s, 16)` stored into a Uint8Array: NaN becomes 0, a sign wraps around.
      (A leading 0x reads as 0 either way.) */
  function ParseByte(s: Text): Byte {
    var t := TrimStart(s);
    if t != [] && t[0] == 45 then (var v: int := HexRun(t[1..], 0); -v % 256)
    else if t != [] && t[0] == 43 then HexRun(t[1..], 0) % 256
    else HexRun(t, 0) % 256
  }

  function ParsePairs(hex: Text): seq<Byte>
    requires |hex| % 2 == 0
  {
    if hex == [] then [] else [ParseByte(hex[..2])] + ParsePairs(hex[2..])
  }

  lemma {:induction false} ParsePairsStep(hex: Text, i: nat)
    requires |hex| % 2 == 0 && i < |hex| / 2
    ensures ParsePairs(hex[i * 2..]) == [ParseByte(hex[i * 2..i * 2 + 2])] + ParsePairs(hex[(i + 1) * 2..])
  {
    assert hex[i * 2..][..2] == hex[i * 2..i * 2 + 2];
    assert hex[i * 2..][2..] == hex[(i + 1) * 2..];
  }

  method HexToBytes(hex: Text) returns (r: Decoded<seq<Byte>>)
    ensures r.Value? <==> |hex| % 2 == 0
    ensures r.Value? ==> r.value == ParsePairs(hex)
  {
    if |hex| % 2 != 0 { return Throws; }
    var bytes: seq<Byte> := [];
    var n := |hex| / 2;
    assert hex[0..] == hex;
    for i := 0 to n
      invariant ParsePairs(hex) == bytes + ParsePairs(hex[i * 2..])
    {
      ParsePairsStep(hex, i);
      bytes := bytes + [ParseByte(hex[i * 2..i * 2 + 2])];
    }
    assert hex[n * 2..] == [];
    r := Value(bytes);
  }

  predicate IsLowerHex(s: Text) {
    forall i :: 0 <= i < |s| ==> HexValue(s[i]) >= 0
  }

  lemma {:induction false} HexRunOfTwo(a: Unit, b: Unit)
    requires HexValue(a) >= 0 && HexValue(b) >= 0
    ensures HexRun([a, b], 0) == HexValue(a) * 16 + HexValue(b)
  {
    assert [a, b][1..] == [b] && [b][1..] == [];
    assert HexRun([b], HexValue(a)) == HexValue(a) * 16 + HexValue(b);
  }

  lemma {:induction false} ParseOfHexDigits(a: Unit, b: Unit)
    requires HexValue(a) >= 0 && HexValue(b) >= 0
    ensures ParseByte([a, b]) == HexValue(a) * 16 + HexValue(b)
  {
    HexRunOfTwo(a, b);
    assert !IsSpace(a) && TrimStart([a, b]) == [a, b];
  }

  lemma ParseOfHexByte(b: Byte)
    ensures |HexByte(b)| == 2 && IsLowerHex(HexByte(b)) && ParseByte(HexByte(b)) == b
  {
    var s := HexByte(b);
    assert s == [HexDigit(b / 16), HexDigit(b % 16)];
    ParseOfHexDigits(s[0], s[1]);
  }

  lemma HexByteOfParse(s: Text)
    requires |s| == 2 && IsLowerHex(s)
    ensures HexByte(ParseByte(s)) == s
  {
    assert s == [s[0], s[1]];
    assert HexValue(s[0]) >= 0 && HexValue(s[1]) >= 0;
    ParseOfHexDigits(s[0], s[1]);
  }

  lemma {:induction false} BytesToHexIsLowerHex(bytes: seq<Byte>)
    ensures |BytesToHex(bytes)| == 2 * |bytes| && IsLowerHex(BytesToHex(bytes))
  {
    if bytes != [] {
      BytesToHexIsLowerHex(bytes[1..]);
      ParseOfHexByte(bytes[0]);
    }
  }

  /** Bytes survive hex. */
  lemma {:induction false} HexRoundTrip(bytes: seq<Byte>)
    ensures |BytesToHex(bytes)| % 2 == 0
    ensures ParsePairs(BytesToHex(bytes)) == bytes
  {
    BytesToHexIsLowerHex(bytes);
    if bytes != [] {
      HexRoundTrip(bytes[1..]);
      ParseOfHexByte(bytes[0]);
      var h := BytesToHex(bytes);
      assert h[..2] == HexByte(bytes[0]) && h[2..] == BytesToHex(bytes[1..]);
    }
  }

  /** A string survives the trip through bytes exactly when it is lowercase hex. */
  lemma {:induction false} HexStringRoundTrip(hex: Text)
    requires |hex| % 2 == 0
    ensures BytesToHex(ParsePairs(hex)) == hex <==> IsLowerHex(hex)
  {
    BytesToHexIsLowerHex(ParsePairs(hex));
    if IsLowerHex(hex) && hex != [] {
      HexStringRoundTrip(hex[2..]);
      HexByteOfParse(hex[..2]);
      assert hex == hex[..2] + hex[2..];
      ParsePairsCons(hex);
    }
  }

  lemma {:induction false} BytesToHexCons(b: Byte, rest: seq<Byte>)
    ensures BytesToHex([b] + rest) == HexByte(b) + BytesToHex(rest)
  {
    assert ([b] + rest)[1..] == rest;
  }

  lemma {:induction false} ParsePairsCons(hex: Text)
    requires |hex| % 2 == 0 && hex != []
    ensures BytesToHex(ParsePairs(hex)) == HexByte(ParseByte(hex[..2])) + BytesToHex(ParsePairs(hex[2..]))
  {
    BytesToHexCons(ParseByte(hex[..2]), ParsePairs(hex[2..]));
  }

  // ---- Private key seeds --------------------------------------------------------------

  /** 302e020100300506032b657004220420 */
  const PKCS8_PREFIX: Text := [
    51, 48, 50, 101, 48, 50, 48, 49, 48, 48, 51, 48, 48, 53, 48, 54,
    48, 51, 50, 98, 54, 53, 55, 48, 48, 52, 50, 50, 48, 52, 50, 48]

  function ExtractPrivateKeySeed(privateKeyHex: Text): Decoded<Text> {
    var cleaned := Trim(Lower(privateKeyHex));
    if |cleaned| == 64 then Value(cleaned)
    else if |cleaned| == 96 && PKCS8_PREFIX <= cleaned then Value(cleaned[32..])
    else Throws
  }

  lemma CleanLower(s: Text)
    ensures Lower(Trim(Lower(s))) == Trim(Lower(s))
  {
    var c := Trim(Lower(s));
    TrimResult(Lower(s));
    forall i | 0 <= i < |c| ensures LowerUnit(c[i]) == c[i] {
      assert c[i] in Lower(s);
      var k :| 0 <= k < |s| && Lower(s)[k] == c[i];
    }
  }

  lemma CleanedIsClean(s: Text)
    ensures Trim(Lower(Trim(Lower(s)))) == Trim(Lower(s))
  {
    CleanLower(s);
    TrimResult(Lower(s));
  }

  /** The wrapping of a clean seed is clean. */
  lemma WrappedIsClean(c: Text)
    requires Lower(c) == c && c != [] && !IsSpace(c[|c| - 1])
    ensures Trim(Lower(PKCS8_PREFIX + c)) == PKCS8_PREFIX + c
  {
    var w := PKCS8_PREFIX + c;
    assert |PKCS8_PREFIX| == 32;
    forall i | 0 <= i < |w| ensures LowerUnit(w[i]) == w[i] {
      if i >= 32 { assert w[i] == c[i - 32] && Lower(c)[i - 32] == c[i - 32]; }
    }
    assert Lower(w) == w;
    assert w[0] == PKCS8_PREFIX[0] == 51 && w[|w| - 1] == c[|c| - 1];
  }

  /** A raw seed and its PKCS#8 wrapping extract to the same seed, and extracting from
      that seed again gives it back. */
  lemma SeedFormsAgree(s: Text)
    requires |Trim(Lower(s))| == 64
    ensures ExtractPrivateKeySeed(s) == Value(Trim(Lower(s)))
    ensures ExtractPrivateKeySeed(PKCS8_PREFIX + Trim(Lower(s))) == ExtractPrivateKeySeed(s)
    ensures ExtractPrivateKeySeed(Trim(Lower(s))) == ExtractPrivateKeySeed(s)
  {
    var c := Trim(Lower(s));
    TrimResult(Lower(s));
    CleanedIsClean(s);
    CleanLower(s);
    WrappedIsClean(c);
    var w := PKCS8_PREFIX + c;
    assert |PKCS8_PREFIX| == 32;
    assert PKCS8_PREFIX <= w && w[32..] == c;
  }
}
