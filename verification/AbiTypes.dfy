/** Canonical ABI types and signatures: user-defined names are rewritten away, and what is
    printed can be read back. */
module AbiTypes {
  import opened Wrappers
  import opened AbiText

  // ---------------------------------------------------------------------------
  // Array suffixes
  // ---------------------------------------------------------------------------

  function DigitsEnd(s: string, i: nat): (r: nat)
    requires i <= |s|
    ensures i <= r <= |s|
    decreases |s| - i
  {
    if i < |s| && '0' <= s[i] <= '9' then DigitsEnd(s, i + 1) else i
  }

  /** The length of the array dimension that begins a text, or 0. */
  function Dimension(s: string): (r: nat)
    ensures r <= |s|
  {
    if s == "" || s[0] != '[' then 0
    else
      var k := DigitsEnd(s, 1);
      if k < |s| && s[k] == ']' then k + 1 else 0
  }

  /** Zero or more array dimensions and nothing else. */
  predicate IsSuffix(s: string)
    decreases |s|
  {
    s == "" || (Dimension(s) > 0 && IsSuffix(s[Dimension(s)..]))
  }

  /** The last dimension of a suffix, which is what a repeated capture keeps. */
  function LastDimension(s: string): string
    requires IsSuffix(s)
    decreases |s|
  {
    if s == "" || Dimension(s) == |s| then s else LastDimension(s[Dimension(s)..])
  }

  /** Where the longest suffix of dimensions begins, at `i` or later. */
  function SuffixFrom(s: string, i: nat): (r: nat)
    requires i <= |s|
    ensures i <= r <= |s| && IsSuffix(s[r..])
    ensures forall j | i <= j < r :: !IsSuffix(s[j..])
    decreases |s| - i
  {
    if IsSuffix(s[i..]) then i else SuffixFrom(s, i + 1)
  }

  function BaseOf(s: string): string {
    s[..SuffixFrom(s, 0)]
  }

  function SuffixOf(s: string): (r: string)
    ensures IsSuffix(r)
  {
    s[SuffixFrom(s, 0)..]
  }

  lemma {:induction false} DimensionPrefix(x: string, y: string)
    requires x != "" && (y != "" ==> y[0] == '[') && Dimension(x + y) > 0
    ensures Dimension(x + y) == Dimension(x) > 0
  {
    var k := DigitsEnd(x + y, 1);
    DigitsEndStops(x + y, 1);
    assert y != "" ==> (x + y)[|x|] == '[';
    DigitsEndPrefix(x, y, 1);
  }

  lemma {:induction false} DigitsEndStops(s: string, i: nat)
    requires i <= |s|
    ensures forall j | i <= j < DigitsEnd(s, i) :: '0' <= s[j] <= '9'
    decreases |s| - i
  {
    if i < |s| && '0' <= s[i] <= '9' {
      DigitsEndStops(s, i + 1);
    }
  }

  lemma {:induction false} DigitsEndPrefix(x: string, y: string, i: nat)
    requires i <= |x| && DigitsEnd(x + y, i) < |x|
    ensures DigitsEnd(x, i) == DigitsEnd(x + y, i)
    decreases |x| - i
  {
    if i < |x| && '0' <= x[i] <= '9' {
      DigitsEndPrefix(x, y, i + 1);
    }
  }

  lemma {:induction false} SuffixPrefix(x: string, y: string)
    requires IsSuffix(x + y) && IsSuffix(y)
    ensures IsSuffix(x)
    decreases |x|
  {
    if x != "" {
      DimensionPrefix(x, y);
      var n := Dimension(x);
      assert (x + y)[n..] == x[n..] + y;
      SuffixPrefix(x[n..], y);
    }
  }

  /** A text without dimensions of its own, followed by a suffix, is split exactly there. */
  lemma BaseAndSuffix(base: string, suffix: string)
    requires BaseOf(base) == base && IsSuffix(suffix)
    ensures BaseOf(base + suffix) == base && SuffixOf(base + suffix) == suffix
  {
    var s := base + suffix;
    assert s[|base|..] == suffix;
    forall j | 0 <= j < |base| ensures !IsSuffix(s[j..]) {
      assert SuffixFrom(base, 0) == |base|;
      if IsSuffix(s[j..]) {
        assert s[j..] == base[j..] + suffix;
        SuffixPrefix(base[j..], suffix);
        assert false;
      }
    }
    assert SuffixFrom(s, 0) == |base|;
    assert s[..|base|] == base;
  }

  lemma BaseHasNoSuffix(s: string)
    ensures BaseOf(BaseOf(s)) == BaseOf(s) && s == BaseOf(s) + SuffixOf(s)
  {
    var base, suffix := BaseOf(s), SuffixOf(s);
    forall j | 0 <= j < |base| ensures !IsSuffix(base[j..]) {
      if IsSuffix(base[j..]) {
        assert s[j..] == base[j..] + suffix;
        SuffixConcat(base[j..], suffix);
        assert false;
      }
    }
    assert SuffixFrom(base, 0) == |base|;
  }

  lemma {:induction false} SuffixConcat(x: string, y: string)
    requires IsSuffix(x) && IsSuffix(y)
    ensures IsSuffix(x + y)
    decreases |x|
  {
    if x == "" {
      assert x + y == y;
    } else {
      var n := Dimension(x);
      DimensionExtends(x, y);
      assert (x + y)[n..] == x[n..] + y;
      SuffixConcat(x[n..], y);
    }
  }

  lemma DimensionExtends(x: string, y: string)
    requires Dimension(x) > 0
    ensures Dimension(x + y) == Dimension(x)
  {
    DigitsEndExtends(x, y, 1);
  }

  lemma {:induction false} DigitsEndExtends(x: string, y: string, i: nat)
    requires i <= |x| && DigitsEnd(x, i) < |x|
    ensures DigitsEnd(x + y, i) == DigitsEnd(x, i)
    decreases |x| - i
  {
    if i < |x| && '0' <= x[i] <= '9' {
      DigitsEndExtends(x, y, i + 1);
    }
  }

  // ---------------------------------------------------------------------------
  // Canonicalization
  // ---------------------------------------------------------------------------

  const ELEMENTARY_TYPES: set<string> := {
    "bool", "string", "bytes", "address",
    "uint8", "uint16", "uint32", "uint64", "uint128", "uint256",
    "int8", "int16", "int32", "int64", "int128", "int256",
    "bytes1", "bytes2", "bytes4", "bytes8", "bytes16", "bytes20", "bytes32"
  }

  /** The bare integer types get their width; of several dimensions only the last is kept. */
  function BaseElementaryType(raw: string): string {
    if BaseOf(raw) == "uint" || BaseOf(raw) == "int"
    then BaseOf(raw) + "256" + LastDimension(SuffixOf(raw))
    else raw
  }

  datatype RawParameter = RawParameter(name: string, rawType: string, indexed: bool)

  datatype Registry = Registry(enums: set<string>, structs: map<string, seq<RawParameter>>)

  /** `Diverges` stands for the recursion that never ends and so overflows the call stack. */
  datatype Outcome<T> = Canonical(value: T) | UnknownType(raw: string) | Diverges

  /** Canonicalization with the structs that are being expanded on the stack. */
  function Canonicalize(raw: string, r: Registry, stack: seq<string>): Outcome<string>
    decreases |r.structs.Keys - Elements(stack)|, 1, 0
  {
    var normalized := BaseElementaryType(raw);
    var base, suffix := BaseOf(normalized), SuffixOf(normalized);
    if base in ELEMENTARY_TYPES then Canonical(base + suffix)
    else if base in r.enums then Canonical("uint8" + suffix)
    else if base !in r.structs then UnknownType(raw)
    else if base in stack then Diverges
    else
      StackGrows(r, stack, base);
      match CanonicalizeAll(r.structs[base], r, stack + [base])
      case Canonical(components) => Canonical("(" + Join(components, ',') + ")" + suffix)
      case UnknownType(field) => UnknownType(field)
      case Diverges => Diverges
  }

  /** The fields in order; the first that fails ends it. */
  function CanonicalizeAll(fields: seq<RawParameter>, r: Registry, stack: seq<string>): (o: Outcome<seq<string>>)
    ensures o.Canonical? ==> |o.value| == |fields|
    decreases |r.structs.Keys - Elements(stack)|, 2, |fields|
  {
    if fields == [] then Canonical([])
    else
      match Canonicalize(fields[0].rawType, r, stack)
      case UnknownType(field) => UnknownType(field)
      case Diverges => Diverges
      case Canonical(head) =>
        match CanonicalizeAll(fields[1..], r, stack)
        case UnknownType(field) => UnknownType(field)
        case Diverges => Diverges
        case Canonical(tail) => Canonical([head] + tail)
  }

  function Elements(stack: seq<string>): set<string> {
    set s | s in stack
  }

  lemma StackGrows(r: Registry, stack: seq<string>, base: string)
    requires base in r.structs && base !in stack
    ensures |r.structs.Keys - Elements(stack + [base])| < |r.structs.Keys - Elements(stack)|
  {
    var before, after := r.structs.Keys - Elements(stack), r.structs.Keys - Elements(stack + [base]);
    assert after == before - {base};
  }

  function CanonicalType(raw: string, r: Registry): Outcome<string> {
    Canonicalize(raw, r, [])
  }

  // ---------------------------------------------------------------------------
  // The types that canonical texts denote
  // ---------------------------------------------------------------------------

  datatype AbiType = Elementary(name: string, suffix: string) | Tuple(items: seq<AbiType>, suffix: string)

  predicate ValidType(t: AbiType) {
    match t
    case Elementary(name, suffix) => name in ELEMENTARY_TYPES && IsSuffix(suffix)
    case Tuple(items, suffix) => IsSuffix(suffix) && forall i | 0 <= i < |items| :: ValidType(items[i])
  }

  function Print(t: AbiType): string
    decreases t, 0
  {
    match t
    case Elementary(name, suffix) => name + suffix
    case Tuple(items, suffix) => "(" + Join(PrintAll(items), ',') + ")" + suffix
  }

  function PrintAll(items: seq<AbiType>): (texts: seq<string>)
    ensures |texts| == |items|
    ensures forall i | 0 <= i < |items| :: texts[i] == Print(items[i])
    decreases items, 0
  {
    if items == [] then [] else [Print(items[0])] + PrintAll(items[1..])
  }

  predicate ValidTypes(items: seq<AbiType>) {
    forall i | 0 <= i < |items| :: ValidType(items[i])
  }

  /** Every canonical text is the print of a valid type: elementary names, commas, parentheses and
      array dimensions, and so no user-defined name. */
  lemma {:induction false} CanonicalDenotesType(raw: string, r: Registry, stack: seq<string>) returns (t: AbiType)
    requires Canonicalize(raw, r, stack).Canonical?
    ensures ValidType(t) && Canonicalize(raw, r, stack) == Canonical(Print(t))
    decreases |r.structs.Keys - Elements(stack)|, 1, 0
  {
    var normalized := BaseElementaryType(raw);
    var base, suffix := BaseOf(normalized), SuffixOf(normalized);
    if base in ELEMENTARY_TYPES {
      t := Elementary(base, suffix);
    } else if base in r.enums {
      t := Elementary("uint8", suffix);
    } else {
      StackGrows(r, stack, base);
      var items := CanonicalDenotesTypes(r.structs[base], r, stack + [base]);
      t := Tuple(items, suffix);
    }
  }

  lemma {:induction false} CanonicalDenotesTypes(fields: seq<RawParameter>, r: Registry, stack: seq<string>)
    returns (items: seq<AbiType>)
    requires CanonicalizeAll(fields, r, stack).Canonical?
    ensures ValidTypes(items) && CanonicalizeAll(fields, r, stack) == Canonical(PrintAll(items))
    decreases |r.structs.Keys - Elements(stack)|, 2, |fields|
  {
    if fields == [] {
      items := [];
    } else {
      var head := CanonicalDenotesType(fields[0].rawType, r, stack);
      var tail := CanonicalDenotesTypes(fields[1..], r, stack);
      items := [head] + tail;
      assert items[1..] == tail;
    }
  }

  // ---------------------------------------------------------------------------
  // Printed types are whole
  // ---------------------------------------------------------------------------

  predicate Plain(c: char) {
    'a' <= c <= 'z' || '0' <= c <= '9'
  }

  lemma ElementaryIsPlain(name: string)
    requires name in ELEMENTARY_TYPES
    ensures name != "" && forall i | 0 <= i < |name| :: Plain(name[i])
  {
  }

  lemma {:induction false} PlainWalk(b: Brackets, s: string, d: nat)
    requires b == ROUND || b == ROUND_AND_SQUARE
    requires forall i | 0 <= i < |s| :: Plain(s[i])
    ensures Walk(b, s, d) == Some(d) && Unsplit(b, ',', s, d)
  {
    if s != "" {
      PlainWalk(b, s[1..], d);
    }
  }

  lemma DimensionWalk(b: Brackets, s: string, d: nat)
    requires b == ROUND || b == ROUND_AND_SQUARE
    requires Dimension(s) == |s| > 0
    ensures Walk(b, s, d) == Some(d) && Unsplit(b, ',', s, d)
  {
    var digits := s[1..|s| - 1];
    DigitsEndStops(s, 1);
    assert s == "[" + (digits + "]");
    var up := if b == ROUND then d else d + 1;
    PlainWalk(b, digits, up);
    WalkAppend(b, digits, "]", up);
    UnsplitAppend(b, ',', digits, "]", up);
    assert "]"[1..] == "" && ("[" + (digits + "]"))[1..] == digits + "]";
  }

  lemma {:induction false} SuffixWalk(b: Brackets, s: string, d: nat)
    requires b == ROUND || b == ROUND_AND_SQUARE
    requires IsSuffix(s)
    ensures Walk(b, s, d) == Some(d) && Unsplit(b, ',', s, d)
    decreases |s|
  {
    if s != "" {
      var n := Dimension(s);
      assert s == s[..n] + s[n..];
      DimensionExact(s);
      DimensionWalk(b, s[..n], d);
      SuffixWalk(b, s[n..], d);
      WalkAppend(b, s[..n], s[n..], d);
      UnsplitAppend(b, ',', s[..n], s[n..], d);
    }
  }

  lemma DimensionExact(s: string)
    requires Dimension(s) > 0
    ensures Dimension(s[..Dimension(s)]) == Dimension(s)
  {
    var n := Dimension(s);
    assert s[..n] + s[n..] == s;
    DigitsEndPrefix(s[..n], s[n..], 1);
  }

  /** Printed types keep every bracket depth and show no comma at the depth they start at. */
  lemma {:induction false} TypeWalk(b: Brackets, t: AbiType, d: nat)
    requires b == ROUND || b == ROUND_AND_SQUARE
    requires ValidType(t)
    ensures Walk(b, Print(t), d) == Some(d) && Unsplit(b, ',', Print(t), d)
    decreases t, 0
  {
    SuffixWalk(b, t.suffix, d);
    match t {
      case Elementary(name, suffix) =>
        ElementaryIsPlain(name);
        PlainWalk(b, name, d);
        WalkAppend(b, name, suffix, d);
        UnsplitAppend(b, ',', name, suffix, d);
      case Tuple(items, suffix) =>
        TypesWalk(b, items, d + 1);
        GroupWalk(b, Join(PrintAll(items), ','), suffix, d);
    }
  }

  lemma GroupWalk(b: Brackets, inner: string, suffix: string, d: nat)
    requires b == ROUND || b == ROUND_AND_SQUARE
    requires Walk(b, inner, d + 1) == Some(d + 1) && Unsplit(b, ',', inner, d + 1)
    requires Walk(b, suffix, d) == Some(d) && Unsplit(b, ',', suffix, d)
    ensures Walk(b, "(" + inner + ")" + suffix, d) == Some(d) && Unsplit(b, ',', "(" + inner + ")" + suffix, d)
  {
    var tail := ")" + suffix;
    assert "(" + inner + ")" + suffix == "(" + (inner + tail);
    assert ("(" + (inner + tail))[1..] == inner + tail && tail[1..] == suffix;
    WalkAppend(b, inner, tail, d + 1);
    UnsplitAppend(b, ',', inner, tail, d + 1);
  }

  lemma {:induction false} TypesWalk(b: Brackets, items: seq<AbiType>, d: nat)
    requires b == ROUND || b == ROUND_AND_SQUARE
    requires ValidTypes(items)
    ensures Walk(b, Join(PrintAll(items), ','), d) == Some(d)
    ensures d > 0 ==> Unsplit(b, ',', Join(PrintAll(items), ','), d)
    decreases items, 1
  {
    if items != [] {
      TypeWalk(b, items[0], d);
      if |items| > 1 {
        TypesWalk(b, items[1..], d);
        assert PrintAll(items)[1..] == PrintAll(items[1..]);
        CommaWalk(b, Print(items[0]), Join(PrintAll(items[1..]), ','), d);
      }
    }
  }

  lemma CommaWalk(b: Brackets, head: string, tail: string, d: nat)
    requires b == ROUND || b == ROUND_AND_SQUARE
    requires Walk(b, head, d) == Some(d) && Walk(b, tail, d) == Some(d)
    ensures Walk(b, head + "," + tail, d) == Some(d)
    ensures d > 0 && Unsplit(b, ',', head, d) && Unsplit(b, ',', tail, d) ==> Unsplit(b, ',', head + "," + tail, d)
  {
    assert head + "," + tail == head + ("," + tail) && ("," + tail)[1..] == tail;
    WalkAppend(b, head, "," + tail, d);
    UnsplitAppend(b, ',', head, "," + tail, d);
  }

  lemma TypeStarts(t: AbiType)
    requires ValidType(t)
    ensures Print(t) != "" && !IsSpace(Print(t)[0]) && (Print(t)[0] == '(' <==> t.Tuple?)
  {
    if t.Elementary? {
      ElementaryIsPlain(t.name);
    }
  }

  lemma PrintedIsWhole(t: AbiType)
    requires ValidType(t)
    ensures Whole(',', Print(t)) && !Blank(Print(t))
  {
    TypeWalk(ROUND_AND_SQUARE, t, 0);
    TypeStarts(t);
  }

  /** A printed argument list splits back into exactly the printed types. */
  lemma TypeListReadsBack(items: seq<AbiType>)
    requires ValidTypes(items)
    ensures Split(Join(PrintAll(items), ','), ',') == PrintAll(items)
  {
    var texts := PrintAll(items);
    forall i | 0 <= i < |items| ensures Whole(',', texts[i]) && !Blank(texts[i]) {
      PrintedIsWhole(items[i]);
      assert texts[i] == Print(items[i]);
    }
    JoiningIsUndone(PrintAll(items), ',');
  }

  // ---------------------------------------------------------------------------
  // Texts determine types and signatures
  // ---------------------------------------------------------------------------

  /** Two balanced groups with something behind them are equal texts only as equal parts. */
  lemma GroupsAgree(a: string, x: string, b: string, y: string)
    requires Balanced(ROUND, a) && Balanced(ROUND, b)
    requires "(" + a + ")" + x == "(" + b + ")" + y
    ensures a == b && x == y
  {
    var s, t := "(" + a + ")" + x, "(" + b + ")" + y;
    assert s == "" + "(" + a + ")" + x && t == "" + "(" + b + ")" + y;
    BracketingIsUndone("", a, x, '(', ')', 1 + |b|);
    BracketingIsUndone("", b, y, '(', ')', 1 + |a|);
    assert |a| == |b|;
    assert a == s[1..1 + |a|] && b == t[1..1 + |b|];
    assert x == s[|a| + 2..] && y == t[|b| + 2..];
  }

  lemma {:induction false} PlainHasNoSuffix(s: string)
    requires forall i | 0 <= i < |s| :: Plain(s[i])
    ensures BaseOf(s) == s
  {
    forall j | 0 <= j < |s| ensures !IsSuffix(s[j..]) {
      assert s[j..][0] == s[j];
    }
    assert SuffixFrom(s, 0) == |s|;
  }

  /** Printing types is injective: a canonical text denotes one ABI type. */
  lemma {:induction false} PrintDeterminesType(t: AbiType, u: AbiType)
    requires ValidType(t) && ValidType(u) && Print(t) == Print(u)
    ensures t == u
    decreases t, 0
  {
    TypeStarts(t);
    TypeStarts(u);
    match t {
      case Elementary(name, suffix) =>
        ElementaryIsPlain(name);
        ElementaryIsPlain(u.name);
        PlainHasNoSuffix(name);
        PlainHasNoSuffix(u.name);
        BaseAndSuffix(name, suffix);
        BaseAndSuffix(u.name, u.suffix);
      case Tuple(items, suffix) =>
        var a, b := Join(PrintAll(items), ','), Join(PrintAll(u.items), ',');
        TypesWalk(ROUND, items, 0);
        TypesWalk(ROUND, u.items, 0);
        GroupsAgree(a, suffix, b, u.suffix);
        ListDeterminesTypes(items, u.items);
    }
  }

  lemma {:induction false} ListDeterminesTypes(a: seq<AbiType>, b: seq<AbiType>)
    requires ValidTypes(a) && ValidTypes(b) && Join(PrintAll(a), ',') == Join(PrintAll(b), ',')
    ensures a == b
    decreases a, 1
  {
    TypeListReadsBack(a);
    TypeListReadsBack(b);
    assert PrintAll(a) == PrintAll(b);
    forall i | 0 <= i < |a| ensures a[i] == b[i] {
      assert PrintAll(a)[i] == PrintAll(b)[i];
      PrintDeterminesType(a[i], b[i]);
    }
  }

  /** `name(type,type,...)` */
  function Signature(name: string, types: seq<string>): string {
    name + "(" + Join(types, ',') + ")"
  }

  predicate Identifier(name: string) {
    name != "" && forall i | 0 <= i < |name| ::
      'a' <= name[i] <= 'z' || 'A' <= name[i] <= 'Z' || name[i] == '_' || (i > 0 && '0' <= name[i] <= '9')
  }

  /** Two signatures are one text if and only if they have one name and the same argument types,
      nested structure included. */
  lemma SignatureExactly(name: string, types: seq<AbiType>, name': string, types': seq<AbiType>)
    requires Identifier(name) && Identifier(name') && ValidTypes(types) && ValidTypes(types')
    ensures Signature(name, PrintAll(types)) == Signature(name', PrintAll(types')) <==> name == name' && types == types'
  {
    var s, s' := Signature(name, PrintAll(types)), Signature(name', PrintAll(types'));
    var args, args' := Join(PrintAll(types), ','), Join(PrintAll(types'), ',');
    if s == s' {
      assert s[|name|] == '(' && s'[|name'|] == '(';
      assert forall i | 0 <= i < |name| :: s[i] == name[i];
      assert forall i | 0 <= i < |name'| :: s'[i] == name'[i];
      assert |name| == |name'|;
      assert name == s[..|name|] == s'[..|name|] == name';
      assert args == s[|name| + 1..|s| - 1] && args' == s'[|name| + 1..|s'| - 1];
      ListDeterminesTypes(types, types');
    }
  }
}
