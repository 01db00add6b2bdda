/** From parsed entries to resolved fragments, and what the digest of their module sees of them. */
module AbiEntries {
  import opened Wrappers
  import opened Sequences
  import opened AbiTypes
  import opened AbiTypeLaws
  import opened AbiExport
  import opened AbiModule

  // ---------------------------------------------------------------------------
  // Resolving an entry
  // ---------------------------------------------------------------------------

  /** A parsed function, error or event. */
  datatype Entry = Entry(kind: Kind, raw: RawEntry, outputs: seq<RawParameter>, stateMutability: string)

  function ParameterOfType(p: RawParameter, abiType: string): Parameter {
    Parameter(p.name, abiType, if p.indexed then Some(true) else None)
  }

  function ResolveParameters(ps: seq<RawParameter>, r: Registry): Outcome<seq<Parameter>> {
    match CanonicalizeAll(ps, r, [])
    case Canonical(types) => Canonical(seq(|ps|, i requires 0 <= i < |ps| => ParameterOfType(ps[i], types[i])))
    case UnknownType(raw) => UnknownType(raw)
    case Diverges => Diverges
  }

  /** Inputs first, then, for a function, outputs; the first type that has none ends it. */
  function ResolveEntry(e: Entry, r: Registry): Outcome<Fragment> {
    match ResolveParameters(e.raw.inputs, r)
    case UnknownType(raw) => UnknownType(raw)
    case Diverges => Diverges
    case Canonical(inputs) =>
      var fragment := Fragment(e.kind, e.raw.name, Signature(e.raw.name, TypesOf(inputs)), inputs, None, None);
      if e.kind != Function then Canonical(fragment)
      else
        match ResolveParameters(e.outputs, r)
        case UnknownType(raw) => UnknownType(raw)
        case Diverges => Diverges
        case Canonical(outputs) =>
          Canonical(fragment.(outputs := Some(outputs), stateMutability := Some(e.stateMutability)))
  }

  function TypesOf(ps: seq<Parameter>): seq<string> {
    Mapped((p: Parameter) => p.abiType, ps)
  }

  function ResolveAll(entries: seq<Entry>, r: Registry): Outcome<seq<Fragment>> {
    if entries == [] then Canonical([])
    else
      match ResolveEntry(entries[0], r)
      case UnknownType(raw) => UnknownType(raw)
      case Diverges => Diverges
      case Canonical(head) =>
        match ResolveAll(entries[1..], r)
        case UnknownType(raw) => UnknownType(raw)
        case Diverges => Diverges
        case Canonical(tail) => Canonical([head] + tail)
  }

  // ---------------------------------------------------------------------------
  // What a resolved entry says
  // ---------------------------------------------------------------------------

  /** The name of an entry and its canonical input types. */
  type Interface = (string, seq<string>)

  ghost predicate Resolves(e: Entry, r: Registry) {
    Identifier(e.raw.name) && ResolveEntry(e, r).Canonical?
  }

  ghost predicate AllResolve(entries: seq<Entry>, r: Registry) {
    forall e | e in entries :: Resolves(e, r)
  }

  ghost function InterfaceOf(e: Entry, r: Registry): Interface
    requires Resolves(e, r)
  {
    InputsCanonical(e, r);
    (e.raw.name, CanonicalizeAll(e.raw.inputs, r, []).value)
  }

  function SignatureOf(i: Interface): string {
    Signature(i.0, i.1)
  }

  lemma InputsCanonical(e: Entry, r: Registry)
    requires ResolveEntry(e, r).Canonical?
    ensures CanonicalizeAll(e.raw.inputs, r, []).Canonical?
  {
  }

  /** `ps` are the parameters `raw`, in order: the names, the canonical types, and a true `indexed`
      exactly where the flag is set. */
  ghost predicate Carries(raw: seq<RawParameter>, ps: seq<Parameter>, r: Registry) {
    && CanonicalizeAll(raw, r, []) == Canonical(TypesOf(ps)) && |ps| == |raw|
    && (forall i | 0 <= i < |ps| :: ps[i].name == raw[i].name)
    && (forall i | 0 <= i < |ps| :: ps[i].indexed == if raw[i].indexed then Some(true) else None)
  }

  lemma ResolvedParameters(raw: seq<RawParameter>, r: Registry)
    requires ResolveParameters(raw, r).Canonical?
    ensures Carries(raw, ResolveParameters(raw, r).value, r)
  {
    assert TypesOf(ResolveParameters(raw, r).value) == CanonicalizeAll(raw, r, []).value;
  }

  /** A fragment carries its entry's name, kind and inputs, the signature of its name and canonical
      input types, and, for a function and nothing else, its outputs and its mutability. */
  lemma ResolvedEntry(e: Entry, r: Registry)
    requires ResolveEntry(e, r).Canonical?
    ensures var f := ResolveEntry(e, r).value;
            && f.kind == e.kind && f.name == e.raw.name
            && EntrySignature(e.raw, r) == Canonical(f.signature)
            && Carries(e.raw.inputs, f.inputs, r)
            && (f.outputs.Some? <==> e.kind == Function)
            && (e.kind == Function ==> Carries(e.outputs, f.outputs.value, r))
            && f.stateMutability == if e.kind == Function then Some(e.stateMutability) else None
  {
    ResolvedParameters(e.raw.inputs, r);
    if e.kind == Function {
      ResolvedParameters(e.outputs, r);
    }
  }

  /** And an entry is rejected exactly for the first of its types that has no canonical text. */
  lemma RejectedEntry(e: Entry, r: Registry)
    ensures var inputs, outputs := CanonicalizeAll(e.raw.inputs, r, []), CanonicalizeAll(e.outputs, r, []);
            && (ResolveEntry(e, r).Canonical? <==> inputs.Canonical? && (e.kind == Function ==> outputs.Canonical?))
            && (forall raw :: ResolveEntry(e, r) == UnknownType(raw) <==>
                  inputs == UnknownType(raw)
                  || (inputs.Canonical? && e.kind == Function && outputs == UnknownType(raw)))
  {
  }

  lemma SignatureOfEntry(e: Entry, r: Registry)
    requires Resolves(e, r)
    ensures ResolveEntry(e, r).value.signature == SignatureOf(InterfaceOf(e, r))
  {
    ResolvedEntry(e, r);
  }

  /** Two resolved entries have one signature exactly when they have one interface. */
  lemma InterfaceTells(e: Entry, r: Registry, f: Entry, q: Registry)
    requires Resolves(e, r) && Resolves(f, q)
    ensures SignatureOf(InterfaceOf(e, r)) == SignatureOf(InterfaceOf(f, q)) <==> InterfaceOf(e, r) == InterfaceOf(f, q)
  {
    ResolvedEntry(e, r);
    ResolvedEntry(f, q);
    hide ResolveEntry, CanonicalizeAll, Signature, Identifier;
    EntriesShareSignatureExactly(e.raw, f.raw, r, q);
  }

  ghost function Interfaces(entries: seq<Entry>, r: Registry): (all: seq<Interface>)
    requires AllResolve(entries, r)
    ensures |all| == |entries| && forall i | 0 <= i < |all| :: all[i] == InterfaceOf(entries[i], r)
  {
    seq(|entries|, i requires 0 <= i < |entries| => InterfaceOf(entries[i], r))
  }

  lemma OneMoreSignature(head: Fragment, tail: seq<Fragment>)
    ensures Signatures([head] + tail) == [head.signature] + Signatures(tail)
  {
  }

  lemma OneMoreInterface(entries: seq<Entry>, r: Registry)
    requires entries != [] && AllResolve(entries, r) && AllResolve(entries[1..], r) && Resolves(entries[0], r)
    ensures Mapped(SignatureOf, Interfaces(entries, r)) ==
            [SignatureOf(InterfaceOf(entries[0], r))] + Mapped(SignatureOf, Interfaces(entries[1..], r))
  {
    hide InterfaceOf, SignatureOf, Resolves, AllResolve;
  }

  /** Entries that all resolve have the signatures of their interfaces, in order. */
  lemma {:induction false} AllResolved(entries: seq<Entry>, r: Registry)
    requires AllResolve(entries, r)
    ensures ResolveAll(entries, r).Canonical?
    ensures Signatures(ResolveAll(entries, r).value) == Mapped(SignatureOf, Interfaces(entries, r))
  {
    if entries != [] {
      assert entries[0] in entries && forall e | e in entries[1..] :: e in entries;
      assert Resolves(entries[0], r);
      hide ResolveEntry, InterfaceOf, SignatureOf, Signatures, Interfaces;
      AllResolved(entries[1..], r);
      SignatureOfEntry(entries[0], r);
      OneMoreSignature(ResolveEntry(entries[0], r).value, ResolveAll(entries[1..], r).value);
      OneMoreInterface(entries, r);
    }
  }

  /** The signatures of resolved entries tell their interfaces, up to their order. */
  lemma SignaturesTell(a: seq<Entry>, r: Registry, b: seq<Entry>, q: Registry)
    requires AllResolve(a, r) && AllResolve(b, q)
    ensures ResolveAll(a, r).Canonical? && ResolveAll(b, q).Canonical?
    ensures SameSignatures(ResolveAll(a, r).value, ResolveAll(b, q).value) <==>
            multiset(Interfaces(a, r)) == multiset(Interfaces(b, q))
  {
    AllResolved(a, r);
    AllResolved(b, q);
    hide ResolveAll, Resolves, InterfaceOf, SignatureOf;
    var x, y := Interfaces(a, r), Interfaces(b, q);
    if multiset(x) == multiset(y) {
      ImagesPermuted(SignatureOf, x, y);
    }
    if multiset(Mapped(SignatureOf, x)) == multiset(Mapped(SignatureOf, y)) {
      forall i, j | i in x && j in y && SignatureOf(i) == SignatureOf(j) ensures i == j {
        var m :| 0 <= m < |x| && x[m] == i;
        var n :| 0 <= n < |y| && y[n] == j;
        assert a[m] in a && b[n] in b;
        InterfaceTells(a[m], r, b[n], q);
      }
      ImagesTell(SignatureOf, x, y);
    }
  }

  // ---------------------------------------------------------------------------
  // Modules
  // ---------------------------------------------------------------------------

  /** A parsed interface declaration. */
  datatype ParsedInterface = ParsedInterface(
    name: string, source: string, inherits: seq<string>,
    functions: seq<Entry>, errors: seq<Entry>, events: seq<Entry>,
    structs: seq<string>, enums: seq<string>)

  ghost predicate ModuleResolves(p: ParsedInterface, r: Registry) {
    AllResolve(p.functions, r) && AllResolve(p.errors, r) && AllResolve(p.events, r)
  }

  ghost function ResolvedModule(p: ParsedInterface, r: Registry): Resolved
    requires ModuleResolves(p, r)
  {
    AllResolved(p.functions, r);
    AllResolved(p.errors, r);
    AllResolved(p.events, r);
    Resolved(p.name, p.source, p.inherits, ResolveAll(p.functions, r).value, ResolveAll(p.errors, r).value,
             ResolveAll(p.events, r).value, p.structs, p.enums)
  }

  /** Two parsed modules, each in its registry, that differ at most in order and in what is not a
      name or a canonical input type. */
  ghost predicate SameInterfaces(p: ParsedInterface, r: Registry, p': ParsedInterface, q: Registry)
    requires ModuleResolves(p, r) && ModuleResolves(p', q)
  {
    && p.name == p'.name && p.source == p'.source && p.inherits == p'.inherits
    && multiset(p.structs) == multiset(p'.structs) && multiset(p.enums) == multiset(p'.enums)
    && multiset(Interfaces(p.functions, r)) == multiset(Interfaces(p'.functions, q))
    && multiset(Interfaces(p.errors, r)) == multiset(Interfaces(p'.errors, q))
    && multiset(Interfaces(p.events, r)) == multiset(Interfaces(p'.events, q))
  }

  lemma ModulesAlikeExactly(p: ParsedInterface, r: Registry, p': ParsedInterface, q: Registry)
    requires ModuleResolves(p, r) && ModuleResolves(p', q)
    ensures AlikeBySignature(ResolvedModule(p, r), ResolvedModule(p', q)) <==> SameInterfaces(p, r, p', q)
  {
    hide AllResolve, ResolveAll, Interfaces, SameSignatures;
    SignaturesTell(p.functions, r, p'.functions, q);
    SignaturesTell(p.errors, r, p'.errors, q);
    SignaturesTell(p.events, r, p'.events, q);
  }

  /** From parsed entries to digests: two modules have one digest exactly when they agree in name,
      source and inheritance and, up to order, in their struct and enum names and in the names and
      canonical input types of their functions, errors and events. */
  lemma DigestSeesInterfaces(id: Keccak, collate: Collation, p: ParsedInterface, r: Registry,
                             p': ParsedInterface, q: Registry)
    requires PrintsHashes(id) && Sorts(collate) && ModuleResolves(p, r) && ModuleResolves(p', q)
    requires ToldApart(id, DigestText(Undigested(id, collate, ResolvedModule(p, r))),
                       DigestText(Undigested(id, collate, ResolvedModule(p', q))))
    ensures ResolveModule(id, collate, ResolvedModule(p, r)).digest ==
            ResolveModule(id, collate, ResolvedModule(p', q)).digest
            <==> SameInterfaces(p, r, p', q)
  {
    hide PrintsHashes, Sorts, ModuleResolves, Undigested, DigestText, SameInterfaces, AlikeBySignature, ResolveModule,
         ResolvedModule;
    DigestSeesSignatures(id, collate, ResolvedModule(p, r), ResolvedModule(p', q));
    ModulesAlikeExactly(p, r, p', q);
  }
}
