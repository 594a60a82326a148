/** Canonical JSON: the three independent canonicalizers, and the trees they print.
    The key comparison (`localeCompare`) is a parameter: `le(a, b)` says that `a`
    does not sort after `b`. A number is represented by the text JSON.stringify
    gives it, which is injective on the finite numbers other than -0. */
module CanonicalJson {
  import opened JsonText
  import opened StableSort

  datatype Entry<+V> = Entry(key: Text, value: V)

  datatype Json =
    | Null
    | Bool(b: bool)
    | Num(literal: Text)
    | Str(text: Text)
    | Arr(elems: seq<Json>)
    | Obj(fields: seq<Entry<Json>>)  // in Object.keys order

  const COMMA: Unit := 44
  const COLON: Unit := 58
  const OPEN_ARRAY: Unit := 91
  const CLOSE_ARRAY: Unit := 93
  const OPEN_OBJECT: Unit := 123
  const CLOSE_OBJECT: Unit := 125

  const NULL_TEXT: Text := [110, 117, 108, 108]
  const TRUE_TEXT: Text := [116, 114, 117, 101]
  const FALSE_TEXT: Text := [102, 97, 108, 115, 101]

  predicate IsNumberUnit(u: Unit) {
    48 <= u <= 57 || u == 43 || u == 45 || u == 46 || u == 101
  }

  predicate IsNumberLiteral(t: Text) {
    && t != []
    && (48 <= t[0] <= 57 || t[0] == 45)
    && forall i :: 0 <= i < |t| ==> IsNumberUnit(t[i])
  }

  ghost predicate DistinctKeys<V>(s: seq<Entry<V>>) {
    forall i, j :: 0 <= i < j < |s| ==> s[i].key != s[j].key
  }

  /** JSON trees proper: number texts are number texts, and an object has no key twice. */
  ghost predicate WellFormed(j: Json) {
    match j
    case Num(t) => IsNumberLiteral(t)
    case Arr(es) => forall i :: 0 <= i < |es| ==> WellFormed(es[i])
    case Obj(fs) => DistinctKeys(fs) && forall i :: 0 <= i < |fs| ==> WellFormed(fs[i].value)
    case _ => true
  }

  // ---- The canonicalizers -----------------------------------------------------------

  /** JSON.stringify on a value that is not an object or array. */
  function Stringify(j: Json): Text
    requires !j.Arr? && !j.Obj?
  {
    match j
    case Null => NULL_TEXT
    case Bool(b) => if b then TRUE_TEXT else FALSE_TEXT
    case Num(t) => t
    case Str(s) => Quote(s)
  }

  function Join(ts: seq<Text>): Text {
    if ts == [] then []
    else if |ts| == 1 then ts[0]
    else ts[0] + ([COMMA] + Join(ts[1..]))
  }

  function Pair(e: Entry<Text>): Text {
    Quote(e.key) + ([COLON] + e.value)
  }

  function Pairs(s: seq<Entry<Text>>): seq<Text> {
    seq(|s|, i requires 0 <= i < |s| => Pair(s[i]))
  }

  function ByKey<V>(le: (Text, Text) -> bool): (Entry<V>, Entry<V>) -> bool {
    (a: Entry<V>, b: Entry<V>) => le(a.key, b.key)
  }

  function Brackets(open: Unit, body: Text, close: Unit): Text {
    [open] + (body + [close])
  }

  /** `canonicalize` of the message-signing code. */
  function Canonicalize(le: (Text, Text) -> bool, j: Json): Text
    decreases j, 1
  {
    if j.Null? then NULL_TEXT
    else if j.Bool? || j.Num? then Stringify(j)
    else if j.Str? then Stringify(j)
    else if j.Arr? then Brackets(OPEN_ARRAY, Join(CanonicalizeAll(le, j.elems)), CLOSE_ARRAY)
    else Brackets(OPEN_OBJECT, Join(Pairs(Sort(ByKey(le), CanonicalizeFields(le, j.fields)))), CLOSE_OBJECT)
  }

  function CanonicalizeAll(le: (Text, Text) -> bool, es: seq<Json>): seq<Text>
    decreases es, 0
  {
    if es == [] then [] else [Canonicalize(le, es[0])] + CanonicalizeAll(le, es[1..])
  }

  function CanonicalizeFields(le: (Text, Text) -> bool, fs: seq<Entry<Json>>): seq<Entry<Text>>
    decreases fs, 0
  {
    if fs == [] then []
    else [Entry(fs[0].key, Canonicalize(le, fs[0].value))] + CanonicalizeFields(le, fs[1..])
  }

  /** `stableJson` of the predicate claims and the private `canonicalize` of the
      content publisher: one test for scalars, then arrays, then sorted objects. */
  function StableJson(le: (Text, Text) -> bool, j: Json): Text
    decreases j, 1
  {
    if !j.Arr? && !j.Obj? then Stringify(j)
    else if j.Arr? then Brackets(OPEN_ARRAY, Join(StableJsonAll(le, j.elems)), CLOSE_ARRAY)
    else Brackets(OPEN_OBJECT, Join(Pairs(Sort(ByKey(le), StableJsonFields(le, j.fields)))), CLOSE_OBJECT)
  }

  function StableJsonAll(le: (Text, Text) -> bool, es: seq<Json>): seq<Text>
    decreases es, 0
  {
    if es == [] then [] else [StableJson(le, es[0])] + StableJsonAll(le, es[1..])
  }

  function StableJsonFields(le: (Text, Text) -> bool, fs: seq<Entry<Json>>): seq<Entry<Text>>
    decreases fs, 0
  {
    if fs == [] then []
    else [Entry(fs[0].key, StableJson(le, fs[0].value))] + StableJsonFields(le, fs[1..])
  }

  /** The independent canonicalizers print every JSON tree alike. */
  lemma {:induction false} CanonicalizersAgree(le: (Text, Text) -> bool, j: Json)
    ensures Canonicalize(le, j) == StableJson(le, j)
    decreases j, 1
  {
    match j {
      case Arr(es) => CanonicalizersAgreeOnAll(le, es);
      case Obj(fs) => CanonicalizersAgreeOnFields(le, fs);
      case _ =>
    }
  }

  lemma {:induction false} CanonicalizersAgreeOnAll(le: (Text, Text) -> bool, es: seq<Json>)
    ensures CanonicalizeAll(le, es) == StableJsonAll(le, es)
    decreases es, 0
  {
    if es != [] {
      CanonicalizersAgree(le, es[0]);
      CanonicalizersAgreeOnAll(le, es[1..]);
    }
  }

  lemma {:induction false} CanonicalizersAgreeOnFields(le: (Text, Text) -> bool, fs: seq<Entry<Json>>)
    ensures CanonicalizeFields(le, fs) == StableJsonFields(le, fs)
    decreases fs, 0
  {
    if fs != [] {
      CanonicalizersAgree(le, fs[0].value);
      CanonicalizersAgreeOnFields(le, fs[1..]);
    }
  }

  // ---- Printing without sorting, and the normal form --------------------------------

  function Print(j: Json): Text
    decreases j, 1
  {
    match j
    case Arr(es) => Brackets(OPEN_ARRAY, Join(PrintAll(es)), CLOSE_ARRAY)
    case Obj(fs) => Brackets(OPEN_OBJECT, Join(Pairs(PrintFields(fs))), CLOSE_OBJECT)
    case _ => Stringify(j)
  }

  function PrintAll(es: seq<Json>): (ts: seq<Text>)
    ensures |ts| == |es|
    ensures forall i :: 0 <= i < |es| ==> ts[i] == Print(es[i])
    decreases es, 0
  {
    if es == [] then [] else [Print(es[0])] + PrintAll(es[1..])
  }

  function PrintFields(fs: seq<Entry<Json>>): (ts: seq<Entry<Text>>)
    ensures |ts| == |fs|
    ensures forall i :: 0 <= i < |fs| ==> ts[i] == Entry(fs[i].key, Print(fs[i].value))
    decreases fs, 0
  {
    if fs == [] then []
    else [Entry(fs[0].key, Print(fs[0].value))] + PrintFields(fs[1..])
  }

  /** The same tree with every object's fields in sorted order. */
  function Norm(le: (Text, Text) -> bool, j: Json): Json
    decreases j, 1
  {
    match j
    case Arr(es) => Arr(NormAll(le, es))
    case Obj(fs) => Obj(Sort(ByKey(le), NormFields(le, fs)))
    case _ => j
  }

  function NormAll(le: (Text, Text) -> bool, es: seq<Json>): (ns: seq<Json>)
    ensures |ns| == |es|
    ensures forall i :: 0 <= i < |es| ==> ns[i] == Norm(le, es[i])
    decreases es, 0
  {
    if es == [] then [] else [Norm(le, es[0])] + NormAll(le, es[1..])
  }

  function NormFields(le: (Text, Text) -> bool, fs: seq<Entry<Json>>): (ns: seq<Entry<Json>>)
    ensures |ns| == |fs|
    ensures forall i :: 0 <= i < |fs| ==> ns[i] == Entry(fs[i].key, Norm(le, fs[i].value))
    decreases fs, 0
  {
    if fs == [] then []
    else [Entry(fs[0].key, Norm(le, fs[0].value))] + NormFields(le, fs[1..])
  }

  lemma {:induction false} CanonicalizeIsPrintOfNorm(le: (Text, Text) -> bool, j: Json)
    ensures Canonicalize(le, j) == Print(Norm(le, j))
    decreases j, 1
  {
    match j {
      case Arr(es) => CanonicalizeAllIsPrintOfNorm(le, es);
      case Obj(fs) =>
        CanonicalizeFieldsIsPrintOfNorm(le, fs);
        SortCommutesWithPrint(le, NormFields(le, fs));
      case _ =>
    }
  }

  lemma {:induction false} CanonicalizeAllIsPrintOfNorm(le: (Text, Text) -> bool, es: seq<Json>)
    ensures CanonicalizeAll(le, es) == PrintAll(NormAll(le, es))
    decreases es, 0
  {
    if es != [] {
      CanonicalizeIsPrintOfNorm(le, es[0]);
      CanonicalizeAllIsPrintOfNorm(le, es[1..]);
      assert NormAll(le, es)[1..] == NormAll(le, es[1..]);
    }
  }

  lemma {:induction false} CanonicalizeFieldsIsPrintOfNorm(le: (Text, Text) -> bool, fs: seq<Entry<Json>>)
    ensures CanonicalizeFields(le, fs) == PrintFields(NormFields(le, fs))
    decreases fs, 0
  {
    if fs != [] {
      CanonicalizeIsPrintOfNorm(le, fs[0].value);
      CanonicalizeFieldsIsPrintOfNorm(le, fs[1..]);
      assert NormFields(le, fs)[1..] == NormFields(le, fs[1..]);
    }
  }

  lemma {:induction false} SortCommutesWithPrint(le: (Text, Text) -> bool, fs: seq<Entry<Json>>)
    ensures Sort(ByKey(le), PrintFields(fs)) == PrintFields(Sort(ByKey(le), fs))
  {
    if fs != [] {
      SortCommutesWithPrint(le, fs[1..]);
      InsertCommutesWithPrint(le, fs[0], Sort(ByKey(le), fs[1..]));
      assert PrintFields(fs)[1..] == PrintFields(fs[1..]);
    }
  }

  lemma {:induction false} InsertCommutesWithPrint(le: (Text, Text) -> bool, f: Entry<Json>, fs: seq<Entry<Json>>)
    ensures Insert(ByKey(le), Entry(f.key, Print(f.value)), PrintFields(fs))
         == PrintFields(Insert(ByKey(le), f, fs))
  {
    if fs != [] {
      assert PrintFields(fs)[1..] == PrintFields(fs[1..]);
      InsertCommutesWithPrint(le, f, fs[1..]);
    }
  }
}
