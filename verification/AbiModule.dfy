/** Building the bundle from resolved fragments: a module's published lists, its digest, and the
    deduplicated ABI. */
module AbiModule {
  import opened AbiExport
  import opened Sequences
  import InterfaceId
  import StableJson

  /** Keccak, as its hex text. */
  type Keccak = string -> string

  ghost predicate PrintsHashes(id: Keccak) {
    forall s :: |id(s)| >= 10
  }

  /** Sorting by signature, by the rules of the locale. */
  datatype Collation = Collation(
    members: seq<Member> -> seq<Member>, topics: seq<Topic> -> seq<Topic>, fragments: seq<Fragment> -> seq<Fragment>)

  /** Sorting loses and invents nothing, and what it yields depends only on what it is given. */
  ghost predicate Sorts(collate: Collation) {
    && (forall ms :: multiset(collate.members(ms)) == multiset(ms))
    && (forall ts :: multiset(collate.topics(ts)) == multiset(ts))
    && (forall fs :: multiset(collate.fragments(fs)) == multiset(fs))
    && (forall a, b :: multiset(a) == multiset(b) ==> collate.members(a) == collate.members(b))
    && (forall a, b :: multiset(a) == multiset(b) ==> collate.topics(a) == collate.topics(b))
  }

  datatype Resolved = Resolved(
    name: string, source: string, inherits: seq<string>,
    functions: seq<Fragment>, errors: seq<Fragment>, events: seq<Fragment>,
    structs: seq<string>, enums: seq<string>)

  function Signatures(fragments: seq<Fragment>): seq<string> {
    Mapped((f: Fragment) => f.signature, fragments)
  }

  /** `id(signature).slice(0, 10)` */
  function Selector(id: Keccak, signature: string): string {
    if |id(signature)| < 10 then id(signature) else id(signature)[..10]
  }

  function Selectors(id: Keccak, signatures: seq<string>): seq<string> {
    Mapped((s: string) => Selector(id, s), signatures)
  }

  function Members(id: Keccak, declaredIn: string, signatures: seq<string>): seq<Member> {
    Mapped((s: string) => Member(s, Selector(id, s), declaredIn), signatures)
  }

  function Topics(id: Keccak, declaredIn: string, signatures: seq<string>): seq<Topic> {
    Mapped((s: string) => Topic(s, id(s), declaredIn), signatures)
  }

  ghost function ResolveModule(id: Keccak, collate: Collation, d: Resolved): Module
    requires PrintsHashes(id)
  {
    var m := Undigested(id, collate, d);
    m.(digest := id(DigestText(m)))
  }

  /** The module as its digest is computed over it. */
  ghost function Undigested(id: Keccak, collate: Collation, d: Resolved): Module
    requires PrintsHashes(id)
  {
    Module(
      d.name, d.source, InterfaceId.ComputeInterfaceId(Selectors(id, Signatures(d.functions))), d.inherits,
      collate.members(Members(id, d.name, Signatures(d.functions))),
      collate.members(Members(id, d.name, Signatures(d.errors))),
      collate.topics(Topics(id, d.name, Signatures(d.events))),
      StableJson.Sort(d.structs), StableJson.Sort(d.enums), "")
  }

  ghost predicate SameSignatures(a: seq<Fragment>, b: seq<Fragment>) {
    multiset(Signatures(a)) == multiset(Signatures(b))
  }

  /** Declarations that differ at most in what a signature does not show and in the order of things. */
  ghost predicate AlikeBySignature(d: Resolved, e: Resolved) {
    && d.name == e.name && d.source == e.source && d.inherits == e.inherits
    && multiset(d.structs) == multiset(e.structs) && multiset(d.enums) == multiset(e.enums)
    && SameSignatures(d.functions, e.functions)
    && SameSignatures(d.errors, e.errors)
    && SameSignatures(d.events, e.events)
  }

  /** The published members tell the signatures, up to their order, and are told by them. */
  lemma MembersShowSignatures(id: Keccak, collate: Collation, name: string, a: seq<string>, b: seq<string>)
    requires Sorts(collate)
    ensures collate.members(Members(id, name, a)) == collate.members(Members(id, name, b)) <==>
            multiset(a) == multiset(b)
  {
    var f := (s: string) => Member(s, Selector(id, s), name);
    if multiset(a) == multiset(b) {
      ImagesPermuted(f, a, b);
    }
    if collate.members(Members(id, name, a)) == collate.members(Members(id, name, b)) {
      assert multiset(Members(id, name, a)) == multiset(Members(id, name, b));
      ImagesTell(f, a, b);
    }
  }

  lemma TopicsShowSignatures(id: Keccak, collate: Collation, name: string, a: seq<string>, b: seq<string>)
    requires Sorts(collate)
    ensures collate.topics(Topics(id, name, a)) == collate.topics(Topics(id, name, b)) <==> multiset(a) == multiset(b)
  {
    var f := (s: string) => Topic(s, id(s), name);
    if multiset(a) == multiset(b) {
      ImagesPermuted(f, a, b);
    }
    if collate.topics(Topics(id, name, a)) == collate.topics(Topics(id, name, b)) {
      assert multiset(Topics(id, name, a)) == multiset(Topics(id, name, b));
      ImagesTell(f, a, b);
    }
  }

  /** The interface id depends on the signatures of the functions, not on their order. */
  lemma SignaturesFixId(id: Keccak, a: seq<string>, b: seq<string>)
    requires PrintsHashes(id) && multiset(a) == multiset(b)
    ensures InterfaceId.ComputeInterfaceId(Selectors(id, a)) == InterfaceId.ComputeInterfaceId(Selectors(id, b))
  {
    ImagesPermuted((s: string) => Selector(id, s), a, b);
    InterfaceId.ValuesPermuted(Selectors(id, a), Selectors(id, b));
    InterfaceId.IdIgnoresOrder(Selectors(id, a), Selectors(id, b));
  }

  lemma ModuleShowsSignatures(id: Keccak, collate: Collation, d: Resolved, e: Resolved)
    requires PrintsHashes(id) && Sorts(collate)
    ensures Undigested(id, collate, d) == Undigested(id, collate, e) <==> AlikeBySignature(d, e)
  {
    hide Signatures, Members, Topics, Selectors, StableJson.Sort, Sorts, InterfaceId.ComputeInterfaceId;
    StableJson.SortTellsExactly(d.structs, e.structs);
    StableJson.SortTellsExactly(d.enums, e.enums);
    if d.name == e.name {
      MembersShowSignatures(id, collate, d.name, Signatures(d.functions), Signatures(e.functions));
      MembersShowSignatures(id, collate, d.name, Signatures(d.errors), Signatures(e.errors));
      TopicsShowSignatures(id, collate, d.name, Signatures(d.events), Signatures(e.events));
      if SameSignatures(d.functions, e.functions) {
        SignaturesFixId(id, Signatures(d.functions), Signatures(e.functions));
      }
    }
  }

  lemma {:induction false} SignatureListed(fragments: seq<Fragment>, s: string)
    ensures s in Signatures(fragments) <==> exists f :: f in fragments && f.signature == s
  {
    assert forall i | 0 <= i < |fragments| :: Signatures(fragments)[i] == fragments[i].signature;
    if s in Signatures(fragments) {
      var i :| 0 <= i < |fragments| && Signatures(fragments)[i] == s;
      assert fragments[i] in fragments;
    }
    if f :| f in fragments && f.signature == s {
      var i :| 0 <= i < |fragments| && fragments[i] == f;
      assert Signatures(fragments)[i] == s;
    }
  }

  lemma MembersPublish(id: Keccak, collate: Collation, name: string, fragments: seq<Fragment>, m: Member)
    requires PrintsHashes(id) && Sorts(collate)
    ensures m in collate.members(Members(id, name, Signatures(fragments))) <==>
            && m.declaredIn == name && m.selector == id(m.signature)[..10]
            && exists f :: f in fragments && f.signature == m.signature
  {
    var signatures := Signatures(fragments);
    var all := Members(id, name, signatures);
    SameElements(collate.members(all), all, m);
    SignatureListed(fragments, m.signature);
    assert forall i | 0 <= i < |signatures| :: all[i] == Member(signatures[i], id(signatures[i])[..10], name);
    if m.signature in signatures {
      var i :| 0 <= i < |signatures| && signatures[i] == m.signature;
      assert all[i] in all;
    }
  }

  lemma TopicsPublish(id: Keccak, collate: Collation, name: string, fragments: seq<Fragment>, t: Topic)
    requires Sorts(collate)
    ensures t in collate.topics(Topics(id, name, Signatures(fragments))) <==>
            && t.declaredIn == name && t.topic0 == id(t.signature)
            && exists f :: f in fragments && f.signature == t.signature
  {
    var signatures := Signatures(fragments);
    var all := Topics(id, name, signatures);
    SameElements(collate.topics(all), all, t);
    SignatureListed(fragments, t.signature);
    assert forall i | 0 <= i < |signatures| :: all[i] == Topic(signatures[i], id(signatures[i]), name);
    if t.signature in signatures {
      var i :| 0 <= i < |signatures| && signatures[i] == t.signature;
      assert all[i] in all;
    }
  }

  /** What a module publishes: each function and error with the first ten characters of its signature's
      hash, each event with the whole hash, and as interface id the XOR of the functions' selectors. */
  lemma ModulePublishes(id: Keccak, collate: Collation, d: Resolved, member: Member, topic: Topic)
    requires PrintsHashes(id) && Sorts(collate)
    ensures var m := ResolveModule(id, collate, d);
            && m.name == d.name && m.source == d.source && m.inherits == d.inherits
            && (member in m.functions <==>
                  && member.declaredIn == d.name && member.selector == id(member.signature)[..10]
                  && exists f :: f in d.functions && f.signature == member.signature)
            && (member in m.errors <==>
                  && member.declaredIn == d.name && member.selector == id(member.signature)[..10]
                  && exists f :: f in d.errors && f.signature == member.signature)
            && (topic in m.events <==>
                  && topic.declaredIn == d.name && topic.topic0 == id(topic.signature)
                  && exists f :: f in d.events && f.signature == topic.signature)
            && multiset(m.structs) == multiset(d.structs) && multiset(m.enums) == multiset(d.enums)
  {
    MembersPublish(id, collate, d.name, d.functions, member);
    MembersPublish(id, collate, d.name, d.errors, member);
    TopicsPublish(id, collate, d.name, d.events, topic);
    StableJson.SortKeeps(d.structs);
    StableJson.SortKeeps(d.enums);
  }

  lemma InterfaceIdPublished(id: Keccak, collate: Collation, d: Resolved, selectors: seq<string>)
    requires PrintsHashes(id) && |selectors| == |d.functions|
    requires forall i | 0 <= i < |selectors| :: selectors[i] == id(d.functions[i].signature)[..10]
    ensures InterfaceId.Read(ResolveModule(id, collate, d).interfaceId) ==
            InterfaceId.XorAll(InterfaceId.Values(selectors))
  {
    var published := Selectors(id, Signatures(d.functions));
    assert published == selectors;
    InterfaceId.IdIsXor(selectors);
  }

  /** What a module digest sees, exactly: name, source and inheritance, and, up to their order, the
      struct and enum names and the signatures of functions, errors and events. A parameter name, an
      indexed flag, an output or a mutability is none of these. */
  lemma DigestSeesSignatures(id: Keccak, collate: Collation, d: Resolved, e: Resolved)
    requires PrintsHashes(id) && Sorts(collate)
    requires ToldApart(id, DigestText(Undigested(id, collate, d)), DigestText(Undigested(id, collate, e)))
    ensures ResolveModule(id, collate, d).digest == ResolveModule(id, collate, e).digest <==> AlikeBySignature(d, e)
    ensures AlikeBySignature(d, e) ==> ResolveModule(id, collate, d) == ResolveModule(id, collate, e)
  {
    hide DigestText, AlikeBySignature, Undigested;
    DigestPinsModule(id, Undigested(id, collate, d), Undigested(id, collate, e));
    NoDigestYet(id, collate, d);
    NoDigestYet(id, collate, e);
    ModuleShowsSignatures(id, collate, d, e);
  }

  lemma NoDigestYet(id: Keccak, collate: Collation, d: Resolved)
    requires PrintsHashes(id)
    ensures Undigested(id, collate, d).digest == ""
  {
  }

  // ---------------------------------------------------------------------------
  // The deduplicated ABI
  // ---------------------------------------------------------------------------

  function SignatureSet(fragments: seq<Fragment>): set<string> {
    set f | f in fragments :: f.signature
  }

  /** The first fragment of each signature not in `seen`, in order. */
  function FirstOfEach(fragments: seq<Fragment>, seen: set<string>): seq<Fragment> {
    if fragments == [] then []
    else if fragments[0].signature in seen then FirstOfEach(fragments[1..], seen)
    else [fragments[0]] + FirstOfEach(fragments[1..], seen + {fragments[0].signature})
  }

  function Published(collate: Collation, fragments: seq<Fragment>): seq<Fragment> {
    collate.fragments(FirstOfEach(fragments, {}))
  }

  method Dedupe(collate: Collation, fragments: seq<Fragment>) returns (published: seq<Fragment>)
    ensures published == Published(collate, fragments)
  {
    var kept, seen := [], {};
    for i := 0 to |fragments|
      invariant kept + FirstOfEach(fragments[i..], seen) == FirstOfEach(fragments, {})
    {
      assert fragments[i..][1..] == fragments[i + 1..];
      if fragments[i].signature !in seen {
        seen := seen + {fragments[i].signature};
        kept := kept + [fragments[i]];
      }
    }
    assert fragments[|fragments|..] == [] && kept + [] == kept;
    published := collate.fragments(kept);
  }

  lemma SignatureSetSplits(fragments: seq<Fragment>, i: nat)
    requires 0 < i <= |fragments|
    ensures SignatureSet(fragments[..i]) == {fragments[0].signature} + SignatureSet(fragments[1..][..i - 1])
  {
    assert fragments[..i] == [fragments[0]] + fragments[1..][..i - 1];
    assert forall f :: f in fragments[..i] <==> f == fragments[0] || f in fragments[1..][..i - 1];
  }

  /** `f` is the first fragment of its signature. */
  ghost predicate IsFirst(fragments: seq<Fragment>, i: nat, f: Fragment) {
    i < |fragments| && fragments[i] == f && f.signature !in SignatureSet(fragments[..i])
  }

  lemma {:induction false} KeptExactly(fragments: seq<Fragment>, seen: set<string>, f: Fragment)
    ensures f in FirstOfEach(fragments, seen) <==> f.signature !in seen && exists i: nat :: IsFirst(fragments, i, f)
  {
    if fragments != [] {
      var head, rest := fragments[0], fragments[1..];
      var seen' := if head.signature in seen then seen else seen + {head.signature};
      KeptExactly(rest, seen', f);
      assert SignatureSet(fragments[..0]) == {};
      if i: nat :| IsFirst(rest, i, f) && f.signature != head.signature {
        SignatureSetSplits(fragments, i + 1);
        assert fragments[1..][..i] == rest[..i];
        assert IsFirst(fragments, i + 1, f);
      }
      if i: nat :| IsFirst(fragments, i, f) && i > 0 {
        SignatureSetSplits(fragments, i);
        assert IsFirst(rest, i - 1, f);
      }
      assert head == f ==> IsFirst(fragments, 0, f);
    }
  }

  /** A fragment is published exactly when it is the first with its signature. */
  lemma PublishedExactly(collate: Collation, fragments: seq<Fragment>, f: Fragment)
    requires Sorts(collate)
    ensures f in Published(collate, fragments) <==> exists i: nat :: IsFirst(fragments, i, f)
  {
    KeptExactly(fragments, {}, f);
    SameElements(collate.fragments(FirstOfEach(fragments, {})), FirstOfEach(fragments, {}), f);
  }

  lemma SameElements<T>(a: seq<T>, b: seq<T>, x: T)
    requires multiset(a) == multiset(b)
    ensures x in a <==> x in b
  {
    assert x in a <==> x in multiset(a);
    assert x in b <==> x in multiset(b);
  }

  lemma {:induction false} LaterDuplicateIsSkipped(fragments: seq<Fragment>, seen: set<string>, i: nat, g: Fragment)
    requires i < |fragments| && g.signature == fragments[i].signature
    requires g.signature in seen || g.signature in SignatureSet(fragments[..i])
    ensures FirstOfEach(fragments[i := g], seen) == FirstOfEach(fragments, seen)
  {
    var changed := fragments[i := g];
    if i == 0 {
      assert changed[1..] == fragments[1..];
    } else {
      assert changed[1..] == fragments[1..][i - 1 := g];
      SignatureSetSplits(fragments, i);
      var head := fragments[0];
      var seen' := if head.signature in seen then seen else seen + {head.signature};
      LaterDuplicateIsSkipped(fragments[1..], seen', i - 1, g);
    }
  }

  /** A change to one fragment that keeps its signature shows in the published ABI exactly when no
      earlier fragment has that signature. */
  lemma ChangeShowsExactly(collate: Collation, fragments: seq<Fragment>, i: nat, g: Fragment)
    requires Sorts(collate)
    requires i < |fragments| && g.signature == fragments[i].signature && g != fragments[i]
    ensures Published(collate, fragments[i := g]) != Published(collate, fragments) <==>
            g.signature !in SignatureSet(fragments[..i])
  {
    var changed := fragments[i := g];
    if g.signature in SignatureSet(fragments[..i]) {
      LaterDuplicateIsSkipped(fragments, {}, i, g);
    } else {
      assert IsFirst(fragments, i, fragments[i]);
      PublishedExactly(collate, fragments, fragments[i]);
      forall j: nat ensures !IsFirst(changed, j, fragments[i]) {
        if i < j < |changed| {
          assert changed[..j][i] == g;
          assert g in changed[..j];
        } else if j < i {
          assert fragments[..i][j] == changed[j];
        }
      }
      PublishedExactly(collate, changed, fragments[i]);
    }
  }
}
