/** Laws of type canonicalization: when it ends, what it keeps, and when signatures coincide. */
module AbiTypeLaws {
  import opened Wrappers
  import opened AbiText
  import opened AbiTypes

  // ---------------------------------------------------------------------------
  // Termination
  // ---------------------------------------------------------------------------

  /** The program's own recursion with at most `calls` nested calls; `Diverges` says that they ran out. */
  function Expand(raw: string, r: Registry, calls: nat): Outcome<string>
    decreases calls, 0
  {
    var normalized := BaseElementaryType(raw);
    var base, suffix := BaseOf(normalized), SuffixOf(normalized);
    if calls == 0 then Diverges
    else if base in ELEMENTARY_TYPES then Canonical(base + suffix)
    else if base in r.enums then Canonical("uint8" + suffix)
    else if base !in r.structs then UnknownType(raw)
    else
      match ExpandAll(r.structs[base], r, calls - 1)
      case Canonical(components) => Canonical("(" + Join(components, ',') + ")" + suffix)
      case UnknownType(field) => UnknownType(field)
      case Diverges => Diverges
  }

  function ExpandAll(fields: seq<RawParameter>, r: Registry, calls: nat): Outcome<seq<string>>
    decreases calls, 1, |fields|
  {
    if fields == [] then Canonical([])
    else
      match Expand(fields[0].rawType, r, calls)
      case UnknownType(field) => UnknownType(field)
      case Diverges => Diverges
      case Canonical(head) =>
        match ExpandAll(fields[1..], r, calls)
        case UnknownType(field) => UnknownType(field)
        case Diverges => Diverges
        case Canonical(tail) => Canonical([head] + tail)
  }

  /** Where canonicalization ends, the recursion agrees with it, within one call per struct and one more. */
  lemma {:induction false} EndsWithinStructs(raw: string, r: Registry, stack: seq<string>, calls: nat)
    requires !Canonicalize(raw, r, stack).Diverges?
    ensures Expand(raw, r, calls).Diverges? || Expand(raw, r, calls) == Canonicalize(raw, r, stack)
    ensures calls > |r.structs.Keys - Elements(stack)| ==> Expand(raw, r, calls) == Canonicalize(raw, r, stack)
    decreases calls, 0
  {
    var base := BaseOf(BaseElementaryType(raw));
    if calls > 0 && base !in ELEMENTARY_TYPES && base !in r.enums && base in r.structs {
      StackGrows(r, stack, base);
      AllEndWithinStructs(r.structs[base], r, stack + [base], calls - 1);
    }
  }

  lemma {:induction false} AllEndWithinStructs(fields: seq<RawParameter>, r: Registry, stack: seq<string>, calls: nat)
    requires !CanonicalizeAll(fields, r, stack).Diverges?
    ensures ExpandAll(fields, r, calls).Diverges? || ExpandAll(fields, r, calls) == CanonicalizeAll(fields, r, stack)
    ensures calls > |r.structs.Keys - Elements(stack)| ==>
            ExpandAll(fields, r, calls) == CanonicalizeAll(fields, r, stack)
    decreases calls, 1, |fields|
  {
    if fields != [] {
      EndsWithinStructs(fields[0].rawType, r, stack, calls);
      if Canonicalize(fields[0].rawType, r, stack).Canonical? {
        AllEndWithinStructs(fields[1..], r, stack, calls);
      }
    }
  }

  /** The structs being expanded do not fit in `calls` nested calls. */
  ghost predicate Endless(r: Registry, stack: seq<string>, calls: nat) {
    && (forall s | s in stack :: s in r.structs)
    && (forall s, n: nat | s in stack && n < calls :: ExpandAll(r.structs[s], r, n).Diverges?)
  }

  lemma {:induction false} NeverEnds(raw: string, r: Registry, stack: seq<string>, calls: nat)
    requires Canonicalize(raw, r, stack).Diverges? && Endless(r, stack, calls)
    ensures Expand(raw, r, calls).Diverges?
    decreases calls, 0
  {
    hide BaseOf, SuffixOf, BaseElementaryType, Join;
    var base := BaseOf(BaseElementaryType(raw));
    if calls > 0 && base !in stack {
      forall n: nat | n < calls - 1 ensures ExpandAll(r.structs[base], r, n).Diverges? {
        NeverEnds(raw, r, stack, n + 1);
        assert Expand(raw, r, n + 1).Diverges?;
      }
      assert Endless(r, stack + [base], calls - 1);
      SomeFieldNeverEnds(r.structs[base], r, stack + [base], calls - 1);
    }
  }

  lemma {:induction false} SomeFieldNeverEnds(fields: seq<RawParameter>, r: Registry, stack: seq<string>, calls: nat)
    requires CanonicalizeAll(fields, r, stack).Diverges? && Endless(r, stack, calls)
    ensures ExpandAll(fields, r, calls).Diverges?
    decreases calls, 1, |fields|
  {
    if Canonicalize(fields[0].rawType, r, stack).Diverges? {
      NeverEnds(fields[0].rawType, r, stack, calls);
    } else {
      EndsWithinStructs(fields[0].rawType, r, stack, calls);
      SomeFieldNeverEnds(fields[1..], r, stack, calls);
    }
  }

  lemma NothingEndless(r: Registry)
    ensures forall calls: nat :: Endless(r, [], calls)
  {
  }

  /** The recursion ends, exactly when it does: `Diverges` stands for no depth of calls being
      enough, and any other outcome is reached within one call per struct and one more. */
  lemma RecursionEndsExactly(raw: string, r: Registry)
    ensures CanonicalType(raw, r).Diverges? <==> forall calls: nat :: Expand(raw, r, calls).Diverges?
    ensures !CanonicalType(raw, r).Diverges? ==>
              forall calls: nat | calls > |r.structs| :: Expand(raw, r, calls) == CanonicalType(raw, r)
  {
    assert r.structs.Keys - Elements([]) == r.structs.Keys;
    hide Expand, Canonicalize, Elements;
    if CanonicalType(raw, r).Diverges? {
      NothingEndless(r);
      forall calls: nat ensures Expand(raw, r, calls).Diverges? {
        NeverEnds(raw, r, [], calls);
      }
    } else {
      forall calls: nat | calls > |r.structs| ensures Expand(raw, r, calls) == CanonicalType(raw, r) {
        EndsWithinStructs(raw, r, [], calls);
      }
      var enough: nat := |r.structs| + 1;
      assert !Expand(raw, r, enough).Diverges?;
    }
  }

  /** The struct that a raw type stands for, if it is one. */
  function StructOf(raw: string, r: Registry): Option<string> {
    var base := BaseOf(BaseElementaryType(raw));
    if base !in ELEMENTARY_TYPES && base !in r.enums && base in r.structs then Some(base) else None
  }

  /** Struct `s` has a field of struct `t`, or of arrays of it. */
  ghost predicate Uses(r: Registry, s: string, t: string) {
    s in r.structs && exists f :: f in r.structs[s] && StructOf(f.rawType, r) == Some(t)
  }

  ghost predicate IsPath(r: Registry, path: seq<string>) {
    forall i | 0 <= i < |path| - 1 :: Uses(r, path[i], path[i + 1])
  }

  /** Structs each using the next, and the last the first. */
  ghost predicate IsCycle(r: Registry, cycle: seq<string>) {
    cycle != [] && IsPath(r, cycle) && Uses(r, cycle[|cycle| - 1], cycle[0])
  }

  /** Structs each using the next, and the last one of them. */
  ghost predicate Loops(r: Registry, path: seq<string>, back: nat) {
    IsPath(r, path) && back < |path| && Uses(r, path[|path| - 1], path[back])
  }

  /** A type is a struct from which using leads into a cycle. */
  ghost predicate ReachesCycle(r: Registry, raw: string) {
    exists path, back: nat :: Loops(r, path, back) && StructOf(raw, r) == Some(path[0])
  }

  /** A recursion that never ends runs from the structs on the stack into a cycle. */
  lemma {:induction false} DivergenceLoops(raw: string, r: Registry, stack: seq<string>)
    returns (path: seq<string>, back: nat)
    requires Canonicalize(raw, r, stack).Diverges? && IsPath(r, stack)
    requires stack != [] && StructOf(raw, r).Some? ==> Uses(r, stack[|stack| - 1], StructOf(raw, r).value)
    ensures Loops(r, path, back) && stack <= path
    ensures stack == [] ==> StructOf(raw, r) == Some(path[0])
    decreases |r.structs.Keys - Elements(stack)|, 0, 0
  {
    var base := StructOf(raw, r).value;
    if base in stack {
      path := stack;
      back :| 0 <= back < |stack| && stack[back] == base;
    } else {
      StackGrows(r, stack, base);
      PathGrows(r, stack, base);
      path, back := FieldDivergenceLoops(r.structs[base], r, stack + [base]);
    }
  }

  /** In particular there is a cycle. */
  lemma DivergenceHasCycle(raw: string, r: Registry) returns (cycle: seq<string>)
    requires CanonicalType(raw, r).Diverges?
    ensures IsCycle(r, cycle)
  {
    hide Canonicalize, StructOf, Uses, Elements;
    var path, back := DivergenceLoops(raw, r, []);
    PathTail(r, path, back);
    cycle := path[back..];
  }

  lemma PathTail(r: Registry, path: seq<string>, k: nat)
    requires IsPath(r, path) && k < |path|
    ensures IsPath(r, path[k..])
  {
    forall i | 0 <= i < |path| - k - 1 ensures Uses(r, path[k..][i], path[k..][i + 1]) {
      assert Uses(r, path[k + i], path[k + i + 1]);
    }
  }

  lemma PathGrows(r: Registry, path: seq<string>, s: string)
    requires IsPath(r, path) && (path != [] ==> Uses(r, path[|path| - 1], s))
    ensures IsPath(r, path + [s])
  {
    var longer := path + [s];
    forall i | 0 <= i < |longer| - 1 ensures Uses(r, longer[i], longer[i + 1]) {
      assert i < |path| - 1 ==> Uses(r, path[i], path[i + 1]);
    }
  }

  lemma {:induction false} FieldDivergenceLoops(fields: seq<RawParameter>, r: Registry, stack: seq<string>)
    returns (path: seq<string>, back: nat)
    requires CanonicalizeAll(fields, r, stack).Diverges? && IsPath(r, stack)
    requires stack != [] && stack[|stack| - 1] in r.structs
    requires forall f | f in fields :: f in r.structs[stack[|stack| - 1]]
    ensures Loops(r, path, back) && stack <= path
    decreases |r.structs.Keys - Elements(stack)|, 1, |fields|
  {
    assert fields[0] in fields;
    if Canonicalize(fields[0].rawType, r, stack).Diverges? {
      path, back := DivergenceLoops(fields[0].rawType, r, stack);
    } else {
      assert forall f | f in fields[1..] :: f in fields;
      path, back := FieldDivergenceLoops(fields[1..], r, stack);
    }
  }

  /** On a registry where no struct contains itself, directly or through others, every type is
      canonicalized or rejected by name. */
  lemma AcyclicNeverDiverges(raw: string, r: Registry)
    requires forall cycle :: !IsCycle(r, cycle)
    ensures !CanonicalType(raw, r).Diverges?
  {
    if CanonicalType(raw, r).Diverges? {
      var cycle := DivergenceHasCycle(raw, r);
    }
  }

  /** Elementary, or registered. */
  predicate KnownType(raw: string, r: Registry) {
    var base := BaseOf(BaseElementaryType(raw));
    base in ELEMENTARY_TYPES || base in r.enums || base in r.structs
  }

  predicate KnownFields(fields: seq<RawParameter>, r: Registry) {
    forall f | f in fields :: KnownType(f.rawType, r)
  }

  predicate AllFieldsKnown(r: Registry) {
    forall s | s in r.structs :: KnownFields(r.structs[s], r)
  }

  lemma {:induction false} KnownIsNotRejected(raw: string, r: Registry, calls: nat)
    requires AllFieldsKnown(r) && KnownType(raw, r)
    ensures !Expand(raw, r, calls).UnknownType?
    decreases calls, 0
  {
    var base := BaseOf(BaseElementaryType(raw));
    if calls > 0 && base in r.structs {
      KnownFieldsNotRejected(r.structs[base], r, calls - 1);
    }
  }

  lemma {:induction false} KnownFieldsNotRejected(fields: seq<RawParameter>, r: Registry, calls: nat)
    requires AllFieldsKnown(r) && KnownFields(fields, r)
    ensures !ExpandAll(fields, r, calls).UnknownType?
    decreases calls, 1, |fields|
  {
    if fields != [] {
      assert fields[0] in fields && forall f | f in fields[1..] :: f in fields;
      KnownIsNotRejected(fields[0].rawType, r, calls);
      KnownFieldsNotRejected(fields[1..], r, calls);
    }
  }

  /** One field that does not end keeps the whole struct from ending. */
  lemma {:induction false} EndlessField(fields: seq<RawParameter>, r: Registry, calls: nat, f: RawParameter)
    requires AllFieldsKnown(r) && KnownFields(fields, r)
    requires f in fields && Expand(f.rawType, r, calls).Diverges?
    ensures ExpandAll(fields, r, calls).Diverges?
    decreases |fields|
  {
    KnownIsNotRejected(fields[0].rawType, r, calls);
    if f != fields[0] {
      assert forall g | g in fields[1..] :: g in fields;
      EndlessField(fields[1..], r, calls, f);
    }
  }

  /** No number of calls is enough for a struct on a path into a cycle. */
  lemma {:induction false} LoopNeverEnds(r: Registry, path: seq<string>, back: nat, i: nat, calls: nat)
    requires AllFieldsKnown(r) && Loops(r, path, back) && i < |path|
    ensures path[i] in r.structs && ExpandAll(r.structs[path[i]], r, calls).Diverges?
    decreases calls
  {
    hide BaseOf, SuffixOf, BaseElementaryType, Join;
    var j := if i + 1 < |path| then i + 1 else back;
    assert Uses(r, path[i], path[j]);
    var f :| f in r.structs[path[i]] && StructOf(f.rawType, r) == Some(path[j]);
    if calls > 0 {
      LoopNeverEnds(r, path, back, j, calls - 1);
    }
    EndlessField(r.structs[path[i]], r, calls, f);
  }

  lemma LoopingTypeNeverEnds(raw: string, r: Registry, path: seq<string>, back: nat, calls: nat)
    requires AllFieldsKnown(r) && Loops(r, path, back) && StructOf(raw, r) == Some(path[0])
    ensures Expand(raw, r, calls).Diverges?
  {
    hide BaseOf, SuffixOf, BaseElementaryType, Join, Uses, IsPath;
    if calls > 0 {
      LoopNeverEnds(r, path, back, 0, calls - 1);
    }
  }

  /** On a registry whose field types are all known, exactly the types that reach a cycle of structs
      keep the recursion from ending. */
  lemma DivergesExactly(raw: string, r: Registry)
    requires AllFieldsKnown(r)
    ensures CanonicalType(raw, r).Diverges? <==> ReachesCycle(r, raw)
  {
    hide Canonicalize, Expand, StructOf, Uses, Elements, AllFieldsKnown;
    if CanonicalType(raw, r).Diverges? {
      var path, back := DivergenceLoops(raw, r, []);
    }
    if ReachesCycle(r, raw) {
      var path, back: nat :| Loops(r, path, back) && StructOf(raw, r) == Some(path[0]);
      forall calls: nat ensures Expand(raw, r, calls).Diverges? {
        LoopingTypeNeverEnds(raw, r, path, back, calls);
      }
      RecursionEndsExactly(raw, r);
    }
  }

  // ---------------------------------------------------------------------------
  // Base types
  // ---------------------------------------------------------------------------

  /** The names that are canonical as they are. */
  lemma CanonicalAsIs(name: string)
    requires BaseOf(name) == name
    ensures CanonicalType(name, Registry({}, map[])) == Canonical(name) <==>
            name in { "bool", "string", "bytes", "address",
                      "uint8", "uint16", "uint32", "uint64", "uint128", "uint256",
                      "int8", "int16", "int32", "int64", "int128", "int256",
                      "bytes1", "bytes2", "bytes4", "bytes8", "bytes16", "bytes20", "bytes32" }
  {
    hide SuffixFrom, Canonicalize;
    NoStructs(name);
  }

  lemma NoStructs(name: string)
    requires BaseOf(name) == name
    ensures CanonicalType(name, Registry({}, map[])) == Canonical(name) <==> name in ELEMENTARY_TYPES
  {
    hide SuffixFrom, Canonicalize;
    var r := Registry({}, map[]);
    assert name + "" == name;
    if name == "uint" || name == "int" {
      BareIntegerCanonical(name, "", r);
      assert |name + "256" + LastDimension("")| > |name|;
    } else {
      BaseTypes(name, "", r);
    }
  }

  /** An elementary base is kept in every registry; an enum is a `uint8`; and an unknown base is named. */
  lemma BaseTypes(base: string, suffix: string, r: Registry)
    requires BaseOf(base) == base && IsSuffix(suffix) && base != "uint" && base != "int"
    ensures base in ELEMENTARY_TYPES ==> CanonicalType(base + suffix, r) == Canonical(base + suffix)
    ensures base !in ELEMENTARY_TYPES && base in r.enums ==>
              CanonicalType(base + suffix, r) == Canonical("uint8" + suffix)
    ensures base !in ELEMENTARY_TYPES && base !in r.enums && base !in r.structs ==>
              CanonicalType(base + suffix, r) == UnknownType(base + suffix)
  {
    ArrayOf(base, suffix);
  }

  // ---------------------------------------------------------------------------
  // Array dimensions
  // ---------------------------------------------------------------------------

  /** Array dimensions are kept in full, for every base type but the bare integer names. */
  lemma DimensionsKept(base: string, suffix: string, r: Registry)
    requires BaseOf(base) == base && IsSuffix(suffix) && base != "uint" && base != "int"
    ensures var plain, arrayed := CanonicalType(base, r), CanonicalType(base + suffix, r);
            && (plain.Canonical? <==> arrayed.Canonical?) && (plain.Diverges? <==> arrayed.Diverges?)
            && (plain.Canonical? ==> arrayed.value == plain.value + suffix)
  {
    ArrayOf(base, suffix);
    ArrayOf(base, "");
    assert base + "" == base;
    if base in ELEMENTARY_TYPES {
      assert CanonicalType(base, r) == Canonical(base + "");
    } else if base in r.enums {
      assert CanonicalType(base, r) == Canonical("uint8" + "");
      assert "uint8" + "" == "uint8";
    } else if base in r.structs {
      StructDimensionsKept(base, suffix, r);
    }
  }

  lemma ArrayOf(base: string, suffix: string)
    requires BaseOf(base) == base && IsSuffix(suffix) && base != "uint" && base != "int"
    ensures var s := BaseElementaryType(base + suffix); BaseOf(s) == base && SuffixOf(s) == suffix
  {
    BaseAndSuffix(base, suffix);
  }

  lemma StructDimensionsKept(base: string, suffix: string, r: Registry)
    requires BaseOf(base) == base && IsSuffix(suffix) && base != "uint" && base != "int"
    requires base !in ELEMENTARY_TYPES && base !in r.enums && base in r.structs
    ensures var plain, arrayed := CanonicalType(base, r), CanonicalType(base + suffix, r);
            && (plain.Canonical? <==> arrayed.Canonical?) && (plain.Diverges? <==> arrayed.Diverges?)
            && (plain.Canonical? ==> arrayed.value == plain.value + suffix)
  {
    ArrayOf(base, suffix);
    ArrayOf(base, "");
    assert base + "" == base;
    var fields := CanonicalizeAll(r.structs[base], r, [] + [base]);
    if fields.Canonical? {
      var inner := "(" + Join(fields.value, ',') + ")";
      assert inner + "" == inner;
    }
  }

  lemma {:induction false} LastDimensionIsOne(suffix: string)
    requires IsSuffix(suffix) && suffix != ""
    ensures IsSuffix(LastDimension(suffix)) && Dimension(LastDimension(suffix)) == |LastDimension(suffix)| > 0
    ensures |LastDimension(suffix)| <= |suffix|
    decreases |suffix|
  {
    if Dimension(suffix) < |suffix| {
      LastDimensionIsOne(suffix[Dimension(suffix)..]);
    }
  }

  /** A bare integer name takes its width and keeps only the last dimension. */
  lemma BareIntegerCanonical(name: string, suffix: string, r: Registry)
    requires name == "uint" || name == "int"
    requires IsSuffix(suffix)
    ensures CanonicalType(name + suffix, r) == Canonical(name + "256" + LastDimension(suffix))
  {
    assert forall i | 0 <= i < |name| :: Plain(name[i]);
    PlainHasNoSuffix(name);
    BaseAndSuffix(name, suffix);
    var wide := name + "256";
    assert wide == "uint256" || wide == "int256";
    assert wide in ELEMENTARY_TYPES;
    ElementaryIsPlain(wide);
    PlainHasNoSuffix(wide);
    if suffix != "" {
      LastDimensionIsOne(suffix);
    }
    BaseAndSuffix(wide, LastDimension(suffix));
  }

  /** So its dimensions are all kept if and only if there is at most one. */
  lemma BareIntegerKeepsDimensionsExactly(name: string, suffix: string, r: Registry)
    requires name == "uint" || name == "int"
    requires IsSuffix(suffix)
    ensures CanonicalType(name + suffix, r) == Canonical(name + "256" + suffix) <==>
            suffix == "" || Dimension(suffix) == |suffix|
  {
    BareIntegerCanonical(name, suffix, r);
    LastIsAllExactly(suffix);
    SameHead(name + "256", LastDimension(suffix), suffix);
  }

  lemma SameHead(head: string, x: string, y: string)
    ensures head + x == head + y <==> x == y
  {
    assert (head + x)[|head|..] == x && (head + y)[|head|..] == y;
  }

  lemma LastIsAllExactly(suffix: string)
    requires IsSuffix(suffix)
    ensures LastDimension(suffix) == suffix <==> suffix == "" || Dimension(suffix) == |suffix|
  {
    if suffix != "" && Dimension(suffix) < |suffix| {
      LastDimensionIsOne(suffix[Dimension(suffix)..]);
    }
  }

  // ---------------------------------------------------------------------------
  // Canonicalizing again, and larger registries
  // ---------------------------------------------------------------------------

  /** Registered names are identifiers, possibly qualified: none has a parenthesis. */
  predicate NamedWithoutParentheses(r: Registry) {
    forall name | name in r.enums + r.structs.Keys :: '(' !in name
  }

  /** A canonical text is canonical again, in whatever registry, exactly when it has no tuple. */
  lemma CanonicalAgainExactly(t: AbiType, r: Registry)
    requires ValidType(t) && NamedWithoutParentheses(r)
    ensures CanonicalType(Print(t), r) == Canonical(Print(t)) <==> t.Elementary?
  {
    var s := Print(t);
    TypeStarts(t);
    match t {
      case Elementary(name, suffix) =>
        ElementaryIsPlain(name);
        PlainHasNoSuffix(name);
        BaseAndSuffix(name, suffix);
        assert name != "uint" && name != "int";
      case Tuple(_, _) =>
        assert SuffixFrom(s, 0) > 0 by {
          assert s[0..] == s && !IsSuffix(s);
        }
        assert BaseOf(s)[0] == '(';
        if BaseOf(s) in ELEMENTARY_TYPES {
          ElementaryIsPlain(BaseOf(s));
        }
        assert '(' in BaseOf(s);
    }
  }

  /** `r'` adds names to `r` and redefines none: no new enum takes the name of a struct. */
  predicate Extends(r: Registry, r': Registry) {
    ExtendsBeyond(r, r', [])
  }

  /** The same, but the structs on the stack may be redefined. */
  predicate ExtendsBeyond(r: Registry, r': Registry, stack: seq<string>) {
    && r.enums <= r'.enums
    && (forall name | name in r.structs :: name in r'.structs && (name in stack || r'.structs[name] == r.structs[name]))
    && (forall name | name in r.structs && name in r'.enums :: name in r.enums)
  }

  /** Registering fresh names never changes a type that canonicalization already knew, nor does
      redefining a struct that is being expanded: it is not looked up again. */
  lemma {:induction false} FreshNamesChangeNothing(raw: string, r: Registry, r': Registry, stack: seq<string>)
    requires ExtendsBeyond(r, r', stack) && !Canonicalize(raw, r, stack).UnknownType?
    ensures Canonicalize(raw, r', stack) == Canonicalize(raw, r, stack)
    decreases |r.structs.Keys - Elements(stack)|, 0, 0
  {
    if StructOf(raw, r).Some? && StructOf(raw, r).value !in stack {
      var base := StructOf(raw, r).value;
      StackGrows(r, stack, base);
      FreshNamesChangeNoField(r.structs[base], r, r', stack + [base]);
    }
  }

  lemma {:induction false} FreshNamesChangeNoField(fields: seq<RawParameter>, r: Registry, r': Registry,
                                                  stack: seq<string>)
    requires ExtendsBeyond(r, r', stack) && !CanonicalizeAll(fields, r, stack).UnknownType?
    ensures CanonicalizeAll(fields, r', stack) == CanonicalizeAll(fields, r, stack)
    decreases |r.structs.Keys - Elements(stack)|, 1, |fields|
  {
    if fields != [] {
      FreshNamesChangeNothing(fields[0].rawType, r, r', stack);
      if Canonicalize(fields[0].rawType, r, stack).Canonical? {
        FreshNamesChangeNoField(fields[1..], r, r', stack);
      }
    }
  }

  // ---------------------------------------------------------------------------
  // Registering types
  // ---------------------------------------------------------------------------

  datatype Struct = Struct(name: string, fields: seq<RawParameter>)

  /** The types that one parsed interface declares. */
  datatype ParsedTypes = ParsedTypes(name: string, enums: seq<string>, structs: seq<Struct>)

  /** Each type is registered under its own name and under the interface's. */
  function AddEnums(r: Registry, owner: string, enums: seq<string>): Registry {
    if enums == [] then r
    else
      var last := enums[|enums| - 1];
      var s := AddEnums(r, owner, enums[..|enums| - 1]);
      s.(enums := s.enums + {last, owner + "." + last})
  }

  function AddStructs(r: Registry, owner: string, structs: seq<Struct>): Registry {
    if structs == [] then r
    else
      var last := structs[|structs| - 1];
      var s := AddStructs(r, owner, structs[..|structs| - 1]);
      s.(structs := s.structs[last.name := last.fields][owner + "." + last.name := last.fields])
  }

  function Register(parsed: seq<ParsedTypes>, r: Registry): Registry {
    if parsed == [] then r
    else
      var last := parsed[|parsed| - 1];
      AddStructs(AddEnums(Register(parsed[..|parsed| - 1], r), last.name, last.enums), last.name, last.structs)
  }

  method RegisterTypes(parsed: seq<ParsedTypes>, before: Registry) returns (registry: Registry)
    ensures registry == Register(parsed, before)
  {
    registry := before;
    for i := 0 to |parsed|
      invariant registry == Register(parsed[..i], before)
    {
      assert parsed[..i + 1][..i] == parsed[..i];
      var entry := parsed[i];
      ghost var start := registry;
      for j := 0 to |entry.enums|
        invariant registry == AddEnums(start, entry.name, entry.enums[..j])
      {
        assert entry.enums[..j + 1][..j] == entry.enums[..j];
        registry := registry.(enums := registry.enums + {entry.enums[j], entry.name + "." + entry.enums[j]});
      }
      assert entry.enums[..|entry.enums|] == entry.enums;
      ghost var middle := registry;
      for k := 0 to |entry.structs|
        invariant registry == AddStructs(middle, entry.name, entry.structs[..k])
      {
        assert entry.structs[..k + 1][..k] == entry.structs[..k];
        var struct := entry.structs[k];
        registry := registry.(structs := registry.structs[struct.name := struct.fields]);
        registry := registry.(structs := registry.structs[entry.name + "." + struct.name := struct.fields]);
      }
      assert entry.structs[..|entry.structs|] == entry.structs;
    }
    assert parsed[..|parsed|] == parsed;
  }

  lemma {:induction false} EnumsAdded(r: Registry, owner: string, enums: seq<string>, name: string)
    ensures AddEnums(r, owner, enums).structs == r.structs
    ensures name in AddEnums(r, owner, enums).enums <==>
            name in r.enums || exists e :: e in enums && (name == e || name == owner + "." + e)
  {
    if enums != [] {
      var init, last := enums[..|enums| - 1], enums[|enums| - 1];
      EnumsAdded(r, owner, init, name);
      assert forall e :: e in enums <==> e in init || e == last;
      assert name in AddEnums(r, owner, enums).enums <==>
             name in AddEnums(r, owner, init).enums || name == last || name == owner + "." + last;
    }
  }

  lemma {:induction false} StructsAdded(r: Registry, owner: string, structs: seq<Struct>, name: string)
    ensures AddStructs(r, owner, structs).enums == r.enums
    ensures name in AddStructs(r, owner, structs).structs <==>
            name in r.structs || exists s :: s in structs && (name == s.name || name == owner + "." + s.name)
  {
    if structs != [] {
      StructsAdded(r, owner, structs[..|structs| - 1], name);
      assert forall s :: s in structs <==> s in structs[..|structs| - 1] || s == structs[|structs| - 1];
    }
  }

  /** The names that are registered, exactly: those there before, and every declared enum and struct,
      bare and qualified by its interface. */
  lemma {:induction false} RegisteredExactly(parsed: seq<ParsedTypes>, r: Registry, name: string)
    ensures name in Register(parsed, r).enums <==>
            name in r.enums
            || exists p, e :: p in parsed && e in p.enums && (name == e || name == p.name + "." + e)
    ensures name in Register(parsed, r).structs <==>
            name in r.structs
            || exists p, s :: p in parsed && s in p.structs && (name == s.name || name == p.name + "." + s.name)
  {
    if parsed != [] {
      var init, last := parsed[..|parsed| - 1], parsed[|parsed| - 1];
      RegisteredExactly(init, r, name);
      EnumsAdded(Register(init, r), last.name, last.enums, name);
      StructsAdded(AddEnums(Register(init, r), last.name, last.enums), last.name, last.structs, name);
      assert forall p :: p in parsed <==> p in init || p == last;
    }
  }

  /** None of an interface's types, bare or qualified, has the name of a registered struct. */
  ghost predicate Fresh(p: ParsedTypes, r: Registry) {
    && (forall e | e in p.enums :: e !in r.structs && p.name + "." + e !in r.structs)
    && (forall s | s in p.structs :: s.name !in r.structs && p.name + "." + s.name !in r.structs)
  }

  lemma {:induction false} EnumsOnlyAdd(r: Registry, q: Registry, owner: string, enums: seq<string>)
    requires Extends(r, q) && forall e | e in enums :: e !in r.structs && owner + "." + e !in r.structs
    ensures Extends(r, AddEnums(q, owner, enums))
  {
    if enums != [] {
      EnumsOnlyAdd(r, q, owner, enums[..|enums| - 1]);
    }
  }

  lemma {:induction false} StructsOnlyAdd(r: Registry, q: Registry, owner: string, structs: seq<Struct>)
    requires Extends(r, q) && forall s | s in structs :: s.name !in r.structs && owner + "." + s.name !in r.structs
    ensures Extends(r, AddStructs(q, owner, structs))
  {
    if structs != [] {
      StructsOnlyAdd(r, q, owner, structs[..|structs| - 1]);
    }
  }

  lemma {:induction false} FreshTypesOnlyAdd(parsed: seq<ParsedTypes>, r: Registry)
    requires forall p | p in parsed :: Fresh(p, r)
    ensures Extends(r, Register(parsed, r))
  {
    if parsed != [] {
      var last := parsed[|parsed| - 1];
      FreshTypesOnlyAdd(parsed[..|parsed| - 1], r);
      assert last in parsed && Fresh(last, r);
      EnumsOnlyAdd(r, Register(parsed[..|parsed| - 1], r), last.name, last.enums);
      StructsOnlyAdd(r, AddEnums(Register(parsed[..|parsed| - 1], r), last.name, last.enums), last.name, last.structs);
    }
  }

  /** Registering further interfaces leaves every known type as it was, as long as their names are
      fresh; they may clash among themselves. */
  lemma RegisteringFreshTypesKeepsTypes(parsed: seq<ParsedTypes>, r: Registry, raw: string)
    requires forall p | p in parsed :: Fresh(p, r)
    requires !CanonicalType(raw, r).UnknownType?
    ensures CanonicalType(raw, Register(parsed, r)) == CanonicalType(raw, r)
  {
    FreshTypesOnlyAdd(parsed, r);
    FreshNamesChangeNothing(raw, r, Register(parsed, r), []);
  }

  /** What a struct's own name canonicalizes to. */
  lemma TypeOfStruct(name: string, r: Registry)
    requires StructOf(name, r) == Some(name)
    ensures CanonicalType(name, r) ==
            match CanonicalizeAll(r.structs[name], r, [name])
            case Canonical(types) => Canonical("(" + Join(types, ',') + ")")
            case UnknownType(field) => UnknownType(field)
            case Diverges => Diverges
  {
    BaseAndSuffix(name, "");
    assert name + "" == name;
    assert [] + [name] == [name];
    var all := CanonicalizeAll(r.structs[name], r, [name]);
    if all.Canonical? {
      assert "(" + Join(all.value, ',') + ")" + "" == "(" + Join(all.value, ',') + ")";
    }
  }

  lemma ListsOfFieldsDiffer(a: seq<RawParameter>, r: Registry, b: seq<RawParameter>, q: Registry, stack: seq<string>)
    requires CanonicalizeAll(a, r, stack).Canonical? && CanonicalizeAll(b, q, stack).Canonical?
    requires Join(CanonicalizeAll(a, r, stack).value, ',') == Join(CanonicalizeAll(b, q, stack).value, ',')
    ensures CanonicalizeAll(a, r, stack) == CanonicalizeAll(b, q, stack)
  {
    var types := CanonicalDenotesTypes(a, r, stack);
    var types' := CanonicalDenotesTypes(b, q, stack);
    ListDeterminesTypes(types, types');
  }

  /** In two registries a struct's name stands for one type exactly when its fields do. */
  lemma SameStructTypeExactly(name: string, r: Registry, q: Registry)
    requires StructOf(name, r) == Some(name) && StructOf(name, q) == Some(name)
    ensures CanonicalType(name, r) == CanonicalType(name, q) <==>
            CanonicalizeAll(r.structs[name], r, [name]) == CanonicalizeAll(q.structs[name], q, [name])
  {
    TypeOfStruct(name, r);
    TypeOfStruct(name, q);
    hide CanonicalizeAll;
    var a, b := CanonicalizeAll(r.structs[name], r, [name]), CanonicalizeAll(q.structs[name], q, [name]);
    if a.Canonical? && b.Canonical? && CanonicalType(name, r) == CanonicalType(name, q) {
      var x, y := Join(a.value, ','), Join(b.value, ',');
      assert ("(" + x + ")")[1..|x| + 1] == x && ("(" + y + ")")[1..|y| + 1] == y;
      ListsOfFieldsDiffer(r.structs[name], r, q.structs[name], q, [name]);
    }
  }

  /** The registry after an interface declared one more struct. */
  function Redeclared(r: Registry, owner: string, name: string, fields: seq<RawParameter>): Registry {
    Register([ParsedTypes(owner, [], [Struct(name, fields)])], r)
  }

  lemma RedeclaredIs(r: Registry, owner: string, name: string, fields: seq<RawParameter>)
    ensures Redeclared(r, owner, name, fields) == r.(structs := r.structs[name := fields][owner + "." + name := fields])
    ensures owner + "." + name != name
  {
    var structs := [Struct(name, fields)];
    var later := [ParsedTypes(owner, [], structs)];
    assert later[..0] == [] && structs[..0] == [];
    assert Register([], r) == r && AddEnums(r, owner, []) == r && AddStructs(r, owner, []) == r;
    assert |owner + "." + name| > |name|;
  }

  /** Freshness is needed: bare names are shared by all interfaces, and the last registration wins.
      Registering a struct under a name that is taken changes the type of that name if and only if the
      new fields canonicalize differently. When its qualified name is fresh, fields that were known
      before canonicalize as they did. */
  lemma RedeclaredStructChangesType(name: string, owner: string, fields: seq<RawParameter>, r: Registry)
    requires StructOf(name, r) == Some(name)
    ensures var q := Redeclared(r, owner, name, fields);
            && (CanonicalType(name, q) != CanonicalType(name, r) <==>
                CanonicalizeAll(fields, q, [name]) != CanonicalizeAll(r.structs[name], r, [name]))
            && (owner + "." + name !in r.structs && !CanonicalizeAll(fields, r, [name]).UnknownType? ==>
                CanonicalizeAll(fields, q, [name]) == CanonicalizeAll(fields, r, [name]))
  {
    var q := Redeclared(r, owner, name, fields);
    RedeclaredIs(r, owner, name, fields);
    hide Redeclared, CanonicalizeAll;
    SameStructTypeExactly(name, r, q);
    if owner + "." + name !in r.structs && !CanonicalizeAll(fields, r, [name]).UnknownType? {
      FreshNamesChangeNoField(fields, r, q, [name]);
    }
  }

  /** So a struct declared again with more or fewer fields always changes its type. */
  lemma FieldCountShows(name: string, owner: string, fields: seq<RawParameter>, r: Registry)
    requires StructOf(name, r) == Some(name) && |fields| != |r.structs[name]|
    requires CanonicalType(name, r).Canonical?
    ensures CanonicalType(name, Redeclared(r, owner, name, fields)) != CanonicalType(name, r)
  {
    RedeclaredStructChangesType(name, owner, fields, r);
    TypeOfStruct(name, r);
  }

  // ---------------------------------------------------------------------------
  // Entries
  // ---------------------------------------------------------------------------

  /** A declared function, error or event: its name and its inputs as written. */
  datatype RawEntry = RawEntry(name: string, inputs: seq<RawParameter>)

  /** The canonical signature of an entry, or the first input that has none. */
  function EntrySignature(e: RawEntry, r: Registry): Outcome<string> {
    match CanonicalizeAll(e.inputs, r, [])
    case Canonical(types) => Canonical(Signature(e.name, types))
    case UnknownType(raw) => UnknownType(raw)
    case Diverges => Diverges
  }

  /** The canonical types of a list are those of its fields, in order; and it fails as the first of its
      fields that does. */
  lemma {:induction false} FieldsInOrder(fields: seq<RawParameter>, r: Registry, stack: seq<string>)
    ensures var all := CanonicalizeAll(fields, r, stack);
            && (all.Canonical? <==> forall f | f in fields :: Canonicalize(f.rawType, r, stack).Canonical?)
            && (all.Canonical? ==> forall i | 0 <= i < |fields| ::
                  Canonicalize(fields[i].rawType, r, stack) == Canonical(all.value[i]))
            && (forall i | 0 <= i < |fields| && !Canonicalize(fields[i].rawType, r, stack).Canonical?
                           && (forall j | 0 <= j < i :: Canonicalize(fields[j].rawType, r, stack).Canonical?) ::
                  all == match Canonicalize(fields[i].rawType, r, stack)
                         case UnknownType(raw) => UnknownType(raw)
                         case _ => Diverges)
    decreases |fields|
  {
    hide Canonicalize;
    if fields != [] {
      var rest := fields[1..];
      FieldsInOrder(rest, r, stack);
      assert forall f :: f in fields <==> f == fields[0] || f in rest;
      assert forall i | 0 < i < |fields| :: fields[i] == rest[i - 1];
    }
  }

  /** A signature's text. */
  lemma SignatureText(name: string, a: string, b: string)
    ensures Signature(name, []) == name + "()" && Signature(name, [a]) == name + "(" + a + ")"
    ensures Signature(name, [a, b]) == name + "(" + a + "," + b + ")"
  {
    assert [a, b][1..] == [b];
    assert Join([a, b], ',') == a + "," + b;
    assert name + "(" + (a + "," + b) + ")" == name + "(" + a + "," + b + ")";
    assert name + "(" + "" + ")" == name + "()";
  }

  /** Two resolved entries share a signature if and only if they share the name and the list of
      canonical input types; the signature's argument list splits back into that list. */
  lemma EntriesShareSignatureExactly(e: RawEntry, f: RawEntry, r: Registry, q: Registry)
    requires Identifier(e.name) && Identifier(f.name)
    requires EntrySignature(e, r).Canonical? && EntrySignature(f, q).Canonical?
    ensures EntrySignature(e, r) == EntrySignature(f, q) <==>
            e.name == f.name && CanonicalizeAll(e.inputs, r, []) == CanonicalizeAll(f.inputs, q, [])
    ensures var s := EntrySignature(e, r).value;
            && |e.name| + 2 <= |s|
            && Split(s[|e.name| + 1..|s| - 1], ',') == CanonicalizeAll(e.inputs, r, []).value
  {
    var types := CanonicalDenotesTypes(e.inputs, r, []);
    var types' := CanonicalDenotesTypes(f.inputs, q, []);
    SignatureExactly(e.name, types, f.name, types');
    if PrintAll(types) == PrintAll(types') {
      ListDeterminesTypes(types, types');
    }
    TypeListReadsBack(types);
    var s := EntrySignature(e, r).value;
    assert s[|e.name| + 1..|s| - 1] == Join(PrintAll(types), ',');
  }
}
