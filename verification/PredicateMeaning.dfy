/** What direct evaluation says of a value, on its text: which items a set has, when two
    terms are the same term, and what each predicate asks. */
module PredicateMeaning {
  import opened Wrappers
  import opened JsonText
  import opened JsStrings
  import opened CanonicalJson
  import opened TermVocabulary
  import opened PredicateClaims
  import opened PredicateCacheTheorems

  // ---- Trimming -----------------------------------------------------------------------------

  /** The ECMAScript white space and line terminators. */
  const WHITE_SPACE: set<int> :=
    {0x09, 0x0A, 0x0B, 0x0C, 0x0D, 0x20, 0xA0, 0x1680, 0x2000, 0x2001, 0x2002, 0x2003, 0x2004, 0x2005, 0x2006, 0x2007,
     0x2008, 0x2009, 0x200A, 0x2028, 0x2029, 0x202F, 0x205F, 0x3000, 0xFEFF}

  predicate AllSpace(s: Text) {
    forall i :: 0 <= i < |s| ==> s[i] in WHITE_SPACE
  }

  /** The part of `s` from `i` to `j` is what is left without white space at either end. */
  predicate TrimsTo(s: Text, i: nat, j: nat) {
    && i <= j <= |s| && AllSpace(s[..i]) && AllSpace(s[j..])
    && (i < j ==> s[i] !in WHITE_SPACE && s[j - 1] !in WHITE_SPACE)
  }

  lemma {:induction false} SpaceIsListed(u: Unit)
    ensures IsSpace(u) <==> u in WHITE_SPACE
  {
  }

  lemma {:induction false} TrimStartAt(s: Text) returns (i: nat)
    ensures i <= |s| && AllSpace(s[..i]) && TrimStart(s) == s[i..] && (i < |s| ==> s[i] !in WHITE_SPACE)
  {
    if s != [] && IsSpace(s[0]) {
      SpaceIsListed(s[0]);
      var k := TrimStartAt(s[1..]);
      i := k + 1;
      assert s[..i] == [s[0]] + s[1..][..k];
    } else {
      i := 0;
      if s != [] { SpaceIsListed(s[0]); }
    }
  }

  lemma {:induction false} TrimEndAt(s: Text) returns (j: nat)
    ensures j <= |s| && AllSpace(s[j..]) && TrimEnd(s) == s[..j] && (j > 0 ==> s[j - 1] !in WHITE_SPACE)
  {
    if s != [] && IsSpace(s[|s| - 1]) {
      SpaceIsListed(s[|s| - 1]);
      j := TrimEndAt(s[..|s| - 1]);
      assert s[j..] == s[..|s| - 1][j..] + [s[|s| - 1]];
    } else {
      j := |s|;
      if s != [] { SpaceIsListed(s[|s| - 1]); }
    }
  }

  /** Trimming takes white space off both ends, all of it, and nothing else. */
  lemma {:induction false} TrimIs(s: Text) returns (i: nat, j: nat)
    ensures TrimsTo(s, i, j) && Trim(s) == s[i..j]
  {
    i := TrimStartAt(s);
    var k := TrimEndAt(s[i..]);
    j := i + k;
    assert s[i..][..k] == s[i..j] && s[i..][k..] == s[j..];
  }

  // ---- Terms --------------------------------------------------------------------------------

  /** How one unit of a spelling is compared. */
  predicate ComparedAs(u: Unit, v: Unit) {
    if 'A' as int <= u <= 'Z' as int then v - u == 'a' as int - 'A' as int
    else if u == '-' as int || u == ' ' as int then v == '_' as int
    else v == u
  }

  /** A spelling is compared without case, without white space at its ends, and with hyphens
      and spaces as underscores. */
  lemma {:induction false} SpellingIs(s: Text) returns (i: nat, j: nat)
    ensures TrimsTo(s, i, j) && |NormalizeTermValue(s)| == j - i
    ensures forall k :: 0 <= k < j - i ==> ComparedAs(s[i + k], NormalizeTermValue(s)[k])
  {
    i, j := TrimIs(s);
  }

  /** The entry lists a spelling that is compared as this one is. */
  ghost predicate Lists(e: TermEntry, spelling: Text) {
    exists w :: (w == e.term || w in e.aliases) && NormalizeTermValue(w) == NormalizeTermValue(spelling)
  }

  ghost predicate FirstToList(terms: Vocabulary, spelling: Text, i: nat) {
    i < |terms| && Lists(terms[i], spelling) && forall k :: 0 <= k < i ==> !Lists(terms[k], spelling)
  }

  ghost predicate NobodyLists(terms: Vocabulary, spelling: Text) {
    forall k :: 0 <= k < |terms| ==> !Lists(terms[k], spelling)
  }

  lemma {:induction false} AcceptsIsLists(e: TermEntry, spelling: Text)
    ensures Accepts(e, NormalizeTermValue(spelling)) <==> Lists(e, spelling)
  {
    if w :| (w == e.term || w in e.aliases) && NormalizeTermValue(w) == NormalizeTermValue(spelling) {
      if w == e.term {
        assert Spellings(e)[0] == w;
      } else {
        var k :| 0 <= k < |e.aliases| && e.aliases[k] == w;
        assert Spellings(e)[k + 1] == w;
      }
    }
    if Accepts(e, NormalizeTermValue(spelling)) {
      var k :| 0 <= k < |Spellings(e)| && NormalizeTermValue(Spellings(e)[k]) == NormalizeTermValue(spelling);
      assert k > 0 ==> Spellings(e)[k] in e.aliases;
    }
  }

  lemma {:induction false} CanonicalIsFirst(terms: Vocabulary, spelling: Text)
    ensures var found := Canonical(terms, NormalizeTermValue(spelling));
            && (found.None? <==> NobodyLists(terms, spelling))
            && (found.Some? ==> exists i: nat :: FirstToList(terms, spelling, i) && found.value == terms[i].term)
  {
    if terms != [] {
      var rest := terms[1..];
      AcceptsIsLists(terms[0], spelling);
      CanonicalIsFirst(rest, spelling);
      if Lists(terms[0], spelling) {
        assert FirstToList(terms, spelling, 0);
      } else if NobodyLists(rest, spelling) {
        assert forall k :: 1 <= k < |terms| ==> terms[k] == rest[k - 1];
      } else {
        var found := Canonical(rest, NormalizeTermValue(spelling)).value;
        var i: nat :| FirstToList(rest, spelling, i) && found == rest[i].term;
        assert forall k :: 1 <= k < |terms| ==> terms[k] == rest[k - 1];
        assert FirstToList(terms, spelling, i + 1);
      }
    }
  }

  /** The term a spelling stands for: the registry's, of the first entry that lists it, or
      else the spelling as it is compared. */
  lemma {:induction false} TermIs(vocabulary: Option<Vocabulary>, spelling: Text)
    ensures vocabulary.None? || NobodyLists(vocabulary.value, spelling) ==>
              NormalizeFieldTerm(vocabulary, spelling) == NormalizeTermValue(spelling)
    ensures vocabulary.Some? && !NobodyLists(vocabulary.value, spelling) ==>
              exists i: nat :: FirstToList(vocabulary.value, spelling, i)
                          && NormalizeFieldTerm(vocabulary, spelling) == vocabulary.value[i].term
  {
    if vocabulary.Some? { CanonicalIsFirst(vocabulary.value, spelling); }
  }

  // ---- Items of a set -----------------------------------------------------------------------

  predicate Separates(u: Unit) {
    u == ';' as int || u == ',' as int
  }

  /** The part of `s` from `i` to `j` lies between two separators next to each other, or an
      end of the text. */
  predicate IsPiece(s: Text, i: nat, j: nat) {
    && i <= j <= |s| && (i > 0 ==> Separates(s[i - 1])) && (j < |s| ==> Separates(s[j]))
    && forall k :: i <= k < j ==> !Separates(s[k])
  }

  /** The text of a string, number or boolean. */
  predicate HasText(j: Json, t: Text) {
    match j
    case Str(s) => t == s
    case Num(n) => t == n
    case Bool(b) => t == if b then Ascii("true") else Ascii("false")
    case _ => false
  }

  /** The texts a value is made of, as a set: a string's pieces, an array's scalars, another
      scalar's own text, an object's JSON text. */
  ghost predicate HasPart(value: Json, t: Text) {
    match value
    case Null => false
    case Str(s) => exists i: nat, j: nat :: IsPiece(s, i, j) && t == s[i..j]
    case Arr(es) => exists i :: 0 <= i < |es| && HasText(es[i], t)
    case Obj(_) => t == Print(value)
    case _ => HasText(value, t)
  }

  /** An item of the set: a part that is not blank, trimmed. */
  ghost predicate HasItem(value: Json, t: Text) {
    t != [] && exists part :: HasPart(value, part) && t == Trim(part)
  }

  lemma {:induction false} PieceShifts(s: Text, i: nat, j: nat)
    requires s != [] && 1 <= i <= j <= |s|
    ensures IsPiece(s, i, j) <==> IsPiece(s[1..], i - 1, j - 1) && (i == 1 ==> Separates(s[0]))
    ensures s[i..j] == s[1..][i - 1..j - 1]
  {
    var rest := s[1..];
    assert forall k :: 0 <= k < |rest| ==> rest[k] == s[k + 1];
    if IsPiece(rest, i - 1, j - 1) {
      forall k | i <= k < j ensures !Separates(s[k]) { assert !Separates(rest[k - 1]); }
    }
  }

  /** The first piece of a text. */
  lemma {:induction false} FirstPiece(s: Text) returns (j: nat)
    ensures IsPiece(s, 0, j) && Pieces(s)[0] == s[..j]
  {
    if s == [] || Separates(s[0]) {
      j := 0;
    } else {
      var k := FirstPiece(s[1..]);
      j := k + 1;
      forall i | 0 <= i < j ensures !Separates(s[i]) { assert i > 0 ==> !Separates(s[1..][i - 1]); }
      assert s[..j] == [s[0]] + s[1..][..k];
    }
  }

  lemma {:induction false} FirstPieceIsUnique(s: Text, j: nat, k: nat)
    requires IsPiece(s, 0, j) && IsPiece(s, 0, k)
    ensures j == k
  {
  }

  ghost predicate LaterPiece(s: Text, t: Text) {
    exists i: nat, j: nat :: i > 0 && IsPiece(s, i, j) && t == s[i..j]
  }

  ghost predicate SomePiece(s: Text, t: Text) {
    exists i: nat, j: nat :: IsPiece(s, i, j) && t == s[i..j]
  }

  lemma {:induction false} FirstOrLater(s: Text, t: Text)
    ensures SomePiece(s, t) <==> t == Pieces(s)[0] || LaterPiece(s, t)
  {
    var j := FirstPiece(s);
    if i: nat, k: nat :| IsPiece(s, i, k) && t == s[i..k] {
      if i == 0 { FirstPieceIsUnique(s, j, k); }
    }
  }

  lemma {:induction false} LaterPieceShifts(s: Text, t: Text)
    requires s != []
    ensures LaterPiece(s, t) <==> if Separates(s[0]) then SomePiece(s[1..], t) else LaterPiece(s[1..], t)
  {
    if i: nat, j: nat :| i > 0 && IsPiece(s, i, j) && t == s[i..j] { PieceShifts(s, i, j); }
    if Separates(s[0]) {
      if i: nat, j: nat :| IsPiece(s[1..], i, j) && t == s[1..][i..j] { PieceShifts(s, i + 1, j + 1); }
    } else {
      if i: nat, j: nat :| i > 0 && IsPiece(s[1..], i, j) && t == s[1..][i..j] { PieceShifts(s, i + 1, j + 1); }
    }
  }

  lemma {:induction false} LaterPieces(s: Text, t: Text)
    ensures t in Pieces(s)[1..] <==> LaterPiece(s, t)
  {
    if s != [] {
      var rest := Pieces(s[1..]);
      LaterPieceShifts(s, t);
      LaterPieces(s[1..], t);
      FirstOrLater(s[1..], t);
      assert rest == [rest[0]] + rest[1..];
      assert Separates(s[0]) ==> Pieces(s)[1..] == rest;
      assert !Separates(s[0]) ==> Pieces(s)[1..] == rest[1..];
    }
  }

  lemma {:induction false} PiecesAre(s: Text, t: Text)
    ensures t in Pieces(s) <==> HasPart(Str(s), t)
  {
    LaterPieces(s, t);
    FirstOrLater(s, t);
    assert Pieces(s) == [Pieces(s)[0]] + Pieces(s)[1..];
  }

  lemma {:induction false} StringifyIsText(j: Json, t: Text)
    requires j.Str? || j.Num? || j.Bool?
    ensures HasText(j, t) <==> t == if j.Str? then j.text else Stringify(j)
  {
    assert Ascii("true") == [116, 114, 117, 101] && Ascii("false") == [102, 97, 108, 115, 101];
  }

  lemma {:induction false} ScalarTextsAre(es: seq<Json>, t: Text)
    ensures t in ScalarTexts(es) <==> HasPart(Arr(es), t)
  {
    if es != [] {
      ScalarTextsAre(es[1..], t);
      if es[0].Str? || es[0].Num? || es[0].Bool? { StringifyIsText(es[0], t); }
      if i :| 0 <= i < |es| && HasText(es[i], t) { assert i > 0 ==> es[1..][i - 1] == es[i]; }
      if i :| 0 <= i < |es[1..]| && HasText(es[1..][i], t) { assert es[i + 1] == es[1..][i]; }
    }
  }

  lemma {:induction false} TrimmedItemsAre(ts: seq<Text>, t: Text)
    ensures t in TrimmedItems(ts) <==> t != [] && exists part :: part in ts && t == Trim(part)
  {
    if ts != [] {
      TrimmedItemsAre(ts[1..], t);
      assert ts == [ts[0]] + ts[1..];
    }
  }

  function PartsOf(value: Json): seq<Text> {
    match value
    case Arr(es) => ScalarTexts(es)
    case Str(s) => Pieces(s)
    case Null => []
    case Obj(_) => [Print(value)]
    case _ => [Stringify(value)]
  }

  lemma {:induction false} PartsAre(value: Json, t: Text)
    ensures t in PartsOf(value) <==> HasPart(value, t)
  {
    match value {
      case Arr(es) => ScalarTextsAre(es, t);
      case Str(s) => PiecesAre(s, t);
      case Null =>
      case Obj(_) =>
      case _ => StringifyIsText(value, t);
    }
  }

  /** The items of a value, as a set. */
  lemma {:induction false} ItemsAre(value: Json, t: Text)
    ensures t in SplitSetValue(value) <==> HasItem(value, t)
  {
    TrimmedItemsAre(PartsOf(value), t);
    forall part ensures part in PartsOf(value) <==> HasPart(value, part) { PartsAre(value, part); }
    if value.Null? { PartsAre(value, t); }
  }

  // ---- The predicates -----------------------------------------------------------------------

  ghost predicate SameTerm(vocabulary: Option<Vocabulary>, a: Text, b: Text) {
    NormalizeFieldTerm(vocabulary, a) == NormalizeFieldTerm(vocabulary, b)
  }

  ghost predicate HasTerm(vocabulary: Option<Vocabulary>, value: Json, arg: Text) {
    exists t :: HasItem(value, t) && SameTerm(vocabulary, t, arg)
  }

  ghost predicate ShareATerm(vocabulary: Option<Vocabulary>, value: Json, declared: Json) {
    exists t :: HasItem(declared, t) && HasTerm(vocabulary, value, t)
  }

  lemma {:induction false} ContainsMeans(vocabulary: Option<Vocabulary>, value: Json, arg: Text)
    ensures Contains(vocabulary, value, arg) <==> HasTerm(vocabulary, value, arg)
  {
    var items := SplitSetValue(value);
    if Contains(vocabulary, value, arg) {
      var i :| 0 <= i < |items| && NormalizeSet(vocabulary, value)[i] == NormalizeFieldTerm(vocabulary, arg);
      ItemsAre(value, items[i]);
      assert SameTerm(vocabulary, items[i], arg);
    }
    if t :| HasItem(value, t) && SameTerm(vocabulary, t, arg) {
      ItemsAre(value, t);
      var i :| 0 <= i < |items| && items[i] == t;
      assert NormalizeSet(vocabulary, value)[i] == NormalizeFieldTerm(vocabulary, t);
    }
  }

  lemma {:induction false} DeclaredTerm(vocabulary: Option<Vocabulary>, value: Json, t: Text)
    ensures NormalizeFieldTerm(vocabulary, t) in NormalizeSet(vocabulary, value) <==> HasTerm(vocabulary, value, t)
  {
    ContainsMeans(vocabulary, value, t);
  }

  lemma {:induction false} OverlapIsShared(vocabulary: Option<Vocabulary>, value: Json, declared: Json)
    requires Overlaps(vocabulary, value, declared)
    ensures ShareATerm(vocabulary, value, declared)
  {
    var items, ds := SplitSetValue(declared), NormalizeSet(vocabulary, declared);
    var i :| 0 <= i < |ds| && ds[i] in NormalizeSet(vocabulary, value);
    ItemsAre(declared, items[i]);
    DeclaredTerm(vocabulary, value, items[i]);
  }

  lemma {:induction false} SharedIsOverlap(vocabulary: Option<Vocabulary>, value: Json, declared: Json, t: Text)
    requires HasItem(declared, t) && HasTerm(vocabulary, value, t)
    ensures Overlaps(vocabulary, value, declared)
  {
    var items := SplitSetValue(declared);
    ItemsAre(declared, t);
    DeclaredTerm(vocabulary, value, t);
    var i :| 0 <= i < |items| && items[i] == t;
    assert NormalizeSet(vocabulary, declared)[i] == NormalizeFieldTerm(vocabulary, t);
  }

  lemma {:induction false} OverlapsMeans(vocabulary: Option<Vocabulary>, value: Json, declared: Json)
    ensures Overlaps(vocabulary, value, declared) <==> ShareATerm(vocabulary, value, declared)
  {
    if Overlaps(vocabulary, value, declared) { OverlapIsShared(vocabulary, value, declared); }
    if t :| HasItem(declared, t) && HasTerm(vocabulary, value, t) { SharedIsOverlap(vocabulary, value, declared, t); }
  }

  /** The same scalar: strings up to white space at their ends, anything else exactly;
      arrays and objects are never the same. */
  predicate Equal(a: Json, b: Json) {
    match (a, b)
    case (Str(s), Str(t)) => Trim(s) == Trim(t)
    case (Arr(_), _) => false
    case (Obj(_), _) => false
    case _ => a == b
  }

  predicate Empty(value: Json) {
    value == Null || value == Arr([]) || value == Obj([]) || (value.Str? && AllSpace(value.text))
  }

  lemma {:induction false} BlankIsAllSpace(s: Text)
    ensures Trim(s) == [] <==> AllSpace(s)
  {
    var i, j := TrimIs(s);
    if Trim(s) == [] {
      assert s == s[..i] + s[j..];
    } else {
      assert s[i] !in WHITE_SPACE;
    }
  }

  /** What each predicate asks of a value; None: the evaluation throws. */
  lemma {:induction false} EvaluateMeans(g: Registry, field: Text, value: Json, kind: Predicate, arg: Option<Json>)
    ensures var r := Evaluate(g, field, value, kind, arg);
            match kind
            case Eq => r.Some? && (r.value <==> arg.Some? && Equal(value, arg.value))
            case IsEmpty => r.Some? && (r.value <==> Empty(value))
            case ContainsTerm =>
              && (r.Some? <==> arg.Some? && arg.value.Str?)
              && (r.Some? ==> (r.value <==> HasTerm(g.vocabulary(field), value, arg.value.text)))
            case OverlapsSet =>
              r.Some? && (r.value <==> arg.Some? && ShareATerm(g.vocabulary(field), value, arg.value))
            case Gte =>
              r == if arg.Some? && (value.Num? || value.Str?) && (arg.value.Num? || arg.value.Str?)
                   then g.ordered(field, value, arg.value, true) else None
            case Lte =>
              r == if arg.Some? && (value.Num? || value.Str?) && (arg.value.Num? || arg.value.Str?)
                   then g.ordered(field, value, arg.value, false) else None
  {
    match kind {
      case ContainsTerm =>
        if arg.Some? && arg.value.Str? { ContainsMeans(g.vocabulary(field), value, arg.value.text); }
      case OverlapsSet => if arg.Some? { OverlapsMeans(g.vocabulary(field), value, arg.value); }
      case IsEmpty => if value.Str? { BlankIsAllSpace(value.text); }
      case _ =>
    }
  }
}
