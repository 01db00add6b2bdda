/** The frozen export bundle: its serialization, its checksum and digests, and the drift gate. */
module AbiExport {
  import opened Wrappers
  import opened StableJson
  import opened Sequences

  // ---------------------------------------------------------------------------
  // The bundle
  // ---------------------------------------------------------------------------

  datatype Kind = Function | Error | Event

  datatype Parameter = Parameter(name: string, abiType: string, indexed: Option<bool>)

  datatype Fragment = Fragment(
    kind: Kind, name: string, signature: string, inputs: seq<Parameter>,
    outputs: Option<seq<Parameter>>, stateMutability: Option<string>)

  /** A function or error with its selector. */
  datatype Member = Member(signature: string, selector: string, declaredIn: string)

  datatype Topic = Topic(signature: string, topic0: string, declaredIn: string)

  datatype Module = Module(
    name: string, source: string, interfaceId: string, inherits: seq<string>,
    functions: seq<Member>, errors: seq<Member>, events: seq<Topic>,
    structs: seq<string>, enums: seq<string>, digest: string)

  datatype Network = Network(name: string, chainId: int, config: string)

  datatype Deployed = Deployed(
    name: string, moduleId: string, interfaceId: string,
    implementation: Option<string>, implementationSource: Option<string>)

  datatype Manifest = Manifest(note: string, networks: seq<Network>, modules: seq<Deployed>)

  /** The bundle without its checksum. */
  datatype Content = Content(
    schemaVersion: int, kind: string, protocol: string, releaseVersion: string, major: int, minor: int,
    sourceRoot: string, aggregate: string, modules: seq<Module>, canonicalAbi: seq<Fragment>, manifest: Manifest)

  datatype Export = Export(content: Content, checksum: string)

  // ---------------------------------------------------------------------------
  // As JavaScript values
  // ---------------------------------------------------------------------------

  function KindName(k: Kind): string {
    match k
    case Function => "function"
    case Error => "error"
    case Event => "event"
  }

  function TextOrNull(s: Option<string>): Js {
    if s.Some? then Text(s.value) else Null
  }

  function ListJs<T>(js: T -> Js, items: seq<T>): Js {
    Array(Mapped(js, items))
  }

  /** The fields with these keys and these values, in order. */
  function Zip(keys: seq<string>, values: seq<Js>): (fields: seq<Field>)
    requires |keys| == |values|
    ensures |fields| == |keys| && forall i | 0 <= i < |keys| :: fields[i] == Field(keys[i], values[i])
  {
    seq(|keys|, i requires 0 <= i < |keys| => Field(keys[i], values[i]))
  }

  function TextJs(s: string): Js {
    Text(s)
  }

  function ParameterKeys(p: Parameter): seq<string> {
    ["name", "type"] + if p.indexed.Some? then ["indexed"] else []
  }

  function ParameterValues(p: Parameter): seq<Js> {
    [Text(p.name), Text(p.abiType)] + if p.indexed.Some? then [Bool(p.indexed.value)] else []
  }

  function ParameterJs(p: Parameter): Js {
    Object(Zip(ParameterKeys(p), ParameterValues(p)))
  }

  function FragmentKeys(f: Fragment): seq<string> {
    ["type", "name", "signature", "inputs"]
    + (if f.outputs.Some? then ["outputs"] else [])
    + (if f.stateMutability.Some? then ["stateMutability"] else [])
  }

  function FragmentValues(f: Fragment): seq<Js> {
    [Text(KindName(f.kind)), Text(f.name), Text(f.signature), ListJs(ParameterJs, f.inputs)]
    + (if f.outputs.Some? then [ListJs(ParameterJs, f.outputs.value)] else [])
    + (if f.stateMutability.Some? then [Text(f.stateMutability.value)] else [])
  }

  function FragmentJs(f: Fragment): Js {
    Object(Zip(FragmentKeys(f), FragmentValues(f)))
  }

  const MEMBER_KEYS: seq<string> := [
    "signature", "selector", "declaredIn"]

  function MemberValues(m: Member): seq<Js> {
    [Text(m.signature), Text(m.selector), Text(m.declaredIn)]
  }

  function MemberJs(m: Member): Js {
    Object(Zip(MEMBER_KEYS, MemberValues(m)))
  }

  const TOPIC_KEYS: seq<string> := [
    "signature", "topic0", "declaredIn"]

  function TopicValues(t: Topic): seq<Js> {
    [Text(t.signature), Text(t.topic0), Text(t.declaredIn)]
  }

  function TopicJs(t: Topic): Js {
    Object(Zip(TOPIC_KEYS, TopicValues(t)))
  }

  const MODULE_KEYS: seq<string> := [
    "name", "source", "interfaceId", "inherits", "functions", "errors", "events", "structs", "enums",
    "digest"]

  /** A module is serialized with its digest, once that is computed, and with `undefined` before. */
  function ModuleValues(m: Module, digested: bool): seq<Js> {
    [Text(m.name), Text(m.source), Text(m.interfaceId), ListJs(TextJs, m.inherits), ListJs(MemberJs, m.functions),
     ListJs(MemberJs, m.errors), ListJs(TopicJs, m.events), ListJs(TextJs, m.structs), ListJs(TextJs, m.enums),
     if digested then Text(m.digest) else Undefined]
  }

  function ModuleJs(m: Module, digested: bool): Js {
    Object(Zip(MODULE_KEYS, ModuleValues(m, digested)))
  }

  function SealedJs(m: Module): Js {
    ModuleJs(m, true)
  }

  const NETWORK_KEYS: seq<string> := [
    "name", "chainId", "config"]

  function NetworkValues(n: Network): seq<Js> {
    [Text(n.name), Number(n.chainId), Text(n.config)]
  }

  function NetworkJs(n: Network): Js {
    Object(Zip(NETWORK_KEYS, NetworkValues(n)))
  }

  const DEPLOYED_KEYS: seq<string> := [
    "name", "moduleId", "interfaceId", "implementation", "implementationSource"]

  function DeployedValues(d: Deployed): seq<Js> {
    [Text(d.name), Text(d.moduleId), Text(d.interfaceId), TextOrNull(d.implementation),
     TextOrNull(d.implementationSource)]
  }

  function DeployedJs(d: Deployed): Js {
    Object(Zip(DEPLOYED_KEYS, DeployedValues(d)))
  }

  const MANIFEST_KEYS: seq<string> := [
    "note", "networks", "modules"]

  function ManifestValues(m: Manifest): seq<Js> {
    [Text(m.note), ListJs(NetworkJs, m.networks), ListJs(DeployedJs, m.modules)]
  }

  function ManifestJs(m: Manifest): Js {
    Object(Zip(MANIFEST_KEYS, ManifestValues(m)))
  }

  const VERSION_KEYS: seq<string> := ["major", "minor"]

  function VersionJs(major: int, minor: int): Js {
    Object(Zip(VERSION_KEYS, [Number(major), Number(minor)]))
  }

  const CONTENT_KEYS: seq<string> := [
    "schemaVersion", "kind", "protocol", "releaseVersion", "protocolVersion", "sourceRoot", "aggregate",
    "modules", "canonicalAbi", "addressManifest"]

  function ContentValues(c: Content): seq<Js> {
    [Number(c.schemaVersion), Text(c.kind), Text(c.protocol), Text(c.releaseVersion),
     VersionJs(c.major, c.minor), Text(c.sourceRoot), Text(c.aggregate), ListJs(SealedJs, c.modules),
     ListJs(FragmentJs, c.canonicalAbi), ManifestJs(c.manifest)]
  }

  function ContentJs(c: Content): Js {
    Object(Zip(CONTENT_KEYS, ContentValues(c)))
  }

  // ---------------------------------------------------------------------------
  // Objects with distinct keys say each of their fields
  // ---------------------------------------------------------------------------

  predicate DistinctFields(fields: seq<Field>) {
    forall i, j | 0 <= i < j < |fields| :: fields[i].key != fields[j].key
  }

  lemma {:induction false} KeyHasField(fields: seq<Field>, key: string)
    ensures key in Keys(fields) <==> exists i :: 0 <= i < |fields| && fields[i].key == key
  {
    if fields != [] {
      KeyHasField(fields[..|fields| - 1], key);
    }
  }

  lemma {:induction false} FieldAt(fields: seq<Field>, i: nat)
    requires i < |fields| && DistinctFields(fields)
    ensures fields[i].key in Keys(fields) && Lookup(fields, fields[i].key) == fields[i].value
  {
    if i < |fields| - 1 {
      FieldAt(fields[..|fields| - 1], i);
    }
  }

  /** Objects that say the same say the same under each key. */
  lemma SameField(f: seq<Field>, g: seq<Field>, i: nat, j: nat)
    requires DistinctFields(f) && DistinctFields(g) && Meaning(Object(f)) == Meaning(Object(g))
    requires i < |f| && j < |g| && f[i].key == g[j].key
    ensures Meaning(f[i].value) == Meaning(g[j].value)
  {
    FieldAt(f, i);
    FieldAt(g, j);
    assert Record(f, Keys(f)) == Record(g, Keys(g));
    assert Record(f, Keys(f))[f[i].key] == Record(g, Keys(g))[f[i].key];
  }

  // ---------------------------------------------------------------------------
  // Nothing of the bundle is lost
  // ---------------------------------------------------------------------------

  /** What `js` makes of a thing says which thing it is. */
  ghost predicate Tells<T(!new)>(js: T -> Js) {
    forall x, y :: Meaning(js(x)) == Meaning(js(y)) ==> x == y
  }

  lemma ListTells<T(!new)>(js: T -> Js, a: seq<T>, b: seq<T>)
    requires Tells(js) && Meaning(ListJs(js, a)) == Meaning(ListJs(js, b))
    ensures a == b
  {
    assert Meanings(Mapped(js, a)) == Meanings(Mapped(js, b));
    forall i | 0 <= i < |a| ensures a[i] == b[i] {
      assert Meaning(js(a[i])) == Meanings(Mapped(js, a))[i] == Meanings(Mapped(js, b))[i] == Meaning(js(b[i]));
    }
  }

  lemma TextTells()
    ensures Tells(TextJs)
  {
  }

  /** Scalars say which scalar they are. */
  lemma ScalarsTell()
    ensures forall x, y :: Meaning(Text(x)) == Meaning(Text(y)) ==> x == y
    ensures forall x, y :: Meaning(Number(x)) == Meaning(Number(y)) ==> x == y
    ensures forall x, y :: Meaning(Bool(x)) == Meaning(Bool(y)) ==> x == y
    ensures forall x, y :: Meaning(TextOrNull(x)) == Meaning(TextOrNull(y)) ==> x == y
    ensures forall x, y :: Meaning(Text(KindName(x))) == Meaning(Text(KindName(y))) ==> x == y
  {
  }

  /** The first `n` fields of two objects that say the same say the same, one by one. */
  lemma SameValues(f: seq<Field>, g: seq<Field>, n: nat)
    requires DistinctFields(f) && DistinctFields(g) && Meaning(Object(f)) == Meaning(Object(g))
    requires n <= |f| && n <= |g| && forall i | 0 <= i < n :: f[i].key == g[i].key
    ensures forall i | 0 <= i < n :: Meaning(f[i].value) == Meaning(g[i].value)
  {
    hide Meaning;
    forall i | 0 <= i < n {
      SameField(f, g, i, i);
    }
  }

  /** Records with the same keys that say the same have values that say the same. */
  lemma SameRecord(keys: seq<string>, v: seq<Js>, w: seq<Js>)
    requires Distinct(keys) && |v| == |w| == |keys| && Meaning(Object(Zip(keys, v))) == Meaning(Object(Zip(keys, w)))
    ensures forall i | 0 <= i < |keys| :: Meaning(v[i]) == Meaning(w[i])
  {
    hide Meaning;
    SameValues(Zip(keys, v), Zip(keys, w), |keys|);
    forall i | 0 <= i < |keys| ensures Meaning(v[i]) == Meaning(w[i]) {
      assert Meaning(Zip(keys, v)[i].value) == Meaning(Zip(keys, w)[i].value);
    }
  }

  /** Records that say the same have the same keys. */
  lemma SameKeys(keys: seq<string>, v: seq<Js>, keys': seq<string>, w: seq<Js>, key: string)
    requires |v| == |keys| && |w| == |keys'|
    requires Meaning(Object(Zip(keys, v))) == Meaning(Object(Zip(keys', w)))
    ensures key in keys <==> key in keys'
  {
    var f, g := Zip(keys, v), Zip(keys', w);
    KeyHasField(f, key);
    KeyHasField(g, key);
    assert key in Record(f, Keys(f)) <==> key in Record(g, Keys(g));
  }

  lemma ParameterShape(p: Parameter)
    ensures Distinct(ParameterKeys(p)) && ("indexed" in ParameterKeys(p) <==> p.indexed.Some?)
  {
    assert p.indexed.Some? ==> ParameterKeys(p)[2] == "indexed";
  }

  lemma ParameterTells()
    ensures Tells(ParameterJs)
  {
    hide Meaning, Zip, Distinct;
    ScalarsTell();
    forall a, b | Meaning(ParameterJs(a)) == Meaning(ParameterJs(b)) ensures a == b {
      var v, w := ParameterValues(a), ParameterValues(b);
      ParameterShape(a);
      ParameterShape(b);
      SameKeys(ParameterKeys(a), v, ParameterKeys(b), w, "indexed");
      SameRecord(ParameterKeys(a), v, w);
      assert Meaning(v[0]) == Meaning(w[0]) && Meaning(v[1]) == Meaning(w[1]);
      assert a.indexed.Some? ==> Meaning(v[2]) == Meaning(w[2]);
    }
  }

  lemma FragmentShape(f: Fragment)
    ensures Distinct(FragmentKeys(f)) && |FragmentKeys(f)| == |FragmentValues(f)|
    ensures "outputs" in FragmentKeys(f) <==> f.outputs.Some?
    ensures "stateMutability" in FragmentKeys(f) <==> f.stateMutability.Some?
  {
    var keys := FragmentKeys(f);
    assert f.outputs.Some? ==> keys[4] == "outputs";
    assert f.stateMutability.Some? ==> keys[|keys| - 1] == "stateMutability";
  }

  lemma SameFragmentKeys(a: Fragment, b: Fragment)
    requires Meaning(FragmentJs(a)) == Meaning(FragmentJs(b))
    ensures FragmentKeys(a) == FragmentKeys(b)
    ensures (a.outputs.Some? <==> b.outputs.Some?) && (a.stateMutability.Some? <==> b.stateMutability.Some?)
  {
    hide Meaning, Zip, Distinct, ListJs;
    FragmentShape(a);
    FragmentShape(b);
    SameKeys(FragmentKeys(a), FragmentValues(a), FragmentKeys(b), FragmentValues(b), "outputs");
    SameKeys(FragmentKeys(a), FragmentValues(a), FragmentKeys(b), FragmentValues(b), "stateMutability");
  }

  lemma FragmentTells()
    ensures Tells(FragmentJs)
  {
    hide Meaning, Zip, Distinct, ListJs, FragmentKeys;
    ScalarsTell();
    ParameterTells();
    forall a, b | Meaning(FragmentJs(a)) == Meaning(FragmentJs(b)) ensures a == b {
      var v, w := FragmentValues(a), FragmentValues(b);
      FragmentShape(a);
      SameFragmentKeys(a, b);
      SameRecord(FragmentKeys(a), v, w);
      assert Meaning(v[0]) == Meaning(w[0]) && Meaning(v[1]) == Meaning(w[1]);
      assert Meaning(v[2]) == Meaning(w[2]) && Meaning(v[3]) == Meaning(w[3]);
      ListTells(ParameterJs, a.inputs, b.inputs);
      if a.outputs.Some? {
        assert Meaning(v[4]) == Meaning(w[4]);
        ListTells(ParameterJs, a.outputs.value, b.outputs.value);
      }
      assert a.stateMutability.Some? ==> Meaning(v[|v| - 1]) == Meaning(w[|w| - 1]);
    }
  }

  lemma MemberTells()
    ensures Tells(MemberJs)
  {
    hide Meaning, Zip;
    ScalarsTell();
    forall a, b | Meaning(MemberJs(a)) == Meaning(MemberJs(b)) ensures a == b {
      var v, w := MemberValues(a), MemberValues(b);
      SameRecord(MEMBER_KEYS, v, w);
      assert Meaning(v[0]) == Meaning(w[0]) && Meaning(v[1]) == Meaning(w[1]);
      assert Meaning(v[2]) == Meaning(w[2]);
    }
  }

  lemma TopicTells()
    ensures Tells(TopicJs)
  {
    hide Meaning, Zip;
    ScalarsTell();
    forall a, b | Meaning(TopicJs(a)) == Meaning(TopicJs(b)) ensures a == b {
      var v, w := TopicValues(a), TopicValues(b);
      SameRecord(TOPIC_KEYS, v, w);
      assert Meaning(v[0]) == Meaning(w[0]) && Meaning(v[1]) == Meaning(w[1]);
      assert Meaning(v[2]) == Meaning(w[2]);
    }
  }

  lemma NetworkTells()
    ensures Tells(NetworkJs)
  {
    hide Meaning, Zip;
    ScalarsTell();
    forall a, b | Meaning(NetworkJs(a)) == Meaning(NetworkJs(b)) ensures a == b {
      var v, w := NetworkValues(a), NetworkValues(b);
      SameRecord(NETWORK_KEYS, v, w);
      assert Meaning(v[0]) == Meaning(w[0]) && Meaning(v[1]) == Meaning(w[1]);
      assert Meaning(v[2]) == Meaning(w[2]);
    }
  }

  lemma DeployedTells()
    ensures Tells(DeployedJs)
  {
    hide Meaning, Zip;
    ScalarsTell();
    forall a, b | Meaning(DeployedJs(a)) == Meaning(DeployedJs(b)) ensures a == b {
      var v, w := DeployedValues(a), DeployedValues(b);
      SameRecord(DEPLOYED_KEYS, v, w);
      assert Meaning(v[0]) == Meaning(w[0]) && Meaning(v[1]) == Meaning(w[1]);
      assert Meaning(v[2]) == Meaning(w[2]) && Meaning(v[3]) == Meaning(w[3]);
      assert Meaning(v[4]) == Meaning(w[4]);
    }
  }

  lemma TextsTell(a: seq<string>, b: seq<string>)
    requires Meaning(ListJs(TextJs, a)) == Meaning(ListJs(TextJs, b))
    ensures a == b
  {
    TextTells();
    hide Meaning, ListJs, Tells;
    ListTells(TextJs, a, b);
  }

  lemma ModuleListsTell(a: Module, b: Module)
    requires Meaning(ListJs(MemberJs, a.functions)) == Meaning(ListJs(MemberJs, b.functions))
    requires Meaning(ListJs(MemberJs, a.errors)) == Meaning(ListJs(MemberJs, b.errors))
    requires Meaning(ListJs(TopicJs, a.events)) == Meaning(ListJs(TopicJs, b.events))
    ensures a.functions == b.functions && a.errors == b.errors && a.events == b.events
  {
    MemberTells();
    TopicTells();
    hide Meaning, ListJs, Tells;
    ListTells(MemberJs, a.functions, b.functions);
    ListTells(MemberJs, a.errors, b.errors);
    ListTells(TopicJs, a.events, b.events);
  }

  lemma ModuleKeysDiffer()
    ensures Distinct(MODULE_KEYS)
  {
  }

  /** A serialized module says everything but the digest, and the digest if it has one. */
  lemma ModuleKept(a: Module, b: Module, digested: bool)
    requires Meaning(ModuleJs(a, digested)) == Meaning(ModuleJs(b, digested))
    ensures a == b.(digest := a.digest) && (digested ==> a == b)
  {
    hide Meaning, ListJs, Zip, Distinct;
    ModuleKeysDiffer();
    ScalarsTell();
    var v, w := ModuleValues(a, digested), ModuleValues(b, digested);
    SameRecord(MODULE_KEYS, v, w);
    assert Meaning(v[0]) == Meaning(w[0]) && Meaning(v[1]) == Meaning(w[1]);
    assert Meaning(v[2]) == Meaning(w[2]) && Meaning(v[3]) == Meaning(w[3]);
    assert Meaning(v[4]) == Meaning(w[4]) && Meaning(v[5]) == Meaning(w[5]);
    assert Meaning(v[6]) == Meaning(w[6]) && Meaning(v[7]) == Meaning(w[7]);
    assert Meaning(v[8]) == Meaning(w[8]) && Meaning(v[9]) == Meaning(w[9]);
    ModuleListsTell(a, b);
    TextsTell(a.inherits, b.inherits);
    TextsTell(a.structs, b.structs);
    TextsTell(a.enums, b.enums);
  }

  lemma SealedTells()
    ensures Tells(SealedJs)
  {
    hide Meaning, ModuleJs;
    forall a, b | Meaning(SealedJs(a)) == Meaning(SealedJs(b)) ensures a == b {
      ModuleKept(a, b, true);
    }
  }

  lemma ManifestTells()
    ensures Tells(ManifestJs)
  {
    hide Meaning, ListJs, Zip;
    ScalarsTell();
    NetworkTells();
    DeployedTells();
    forall a, b | Meaning(ManifestJs(a)) == Meaning(ManifestJs(b)) ensures a == b {
      var v, w := ManifestValues(a), ManifestValues(b);
      SameRecord(MANIFEST_KEYS, v, w);
      assert Meaning(v[0]) == Meaning(w[0]) && Meaning(v[1]) == Meaning(w[1]);
      assert Meaning(v[2]) == Meaning(w[2]);
      ListTells(NetworkJs, a.networks, b.networks);
      ListTells(DeployedJs, a.modules, b.modules);
    }
  }

  lemma VersionTells(a: Content, b: Content)
    requires Meaning(VersionJs(a.major, a.minor)) == Meaning(VersionJs(b.major, b.minor))
    ensures a.major == b.major && a.minor == b.minor
  {
    hide Meaning, Zip;
    ScalarsTell();
    var v, w := [Number(a.major), Number(a.minor)], [Number(b.major), Number(b.minor)];
    SameRecord(VERSION_KEYS, v, w);
    assert Meaning(v[0]) == Meaning(w[0]) && Meaning(v[1]) == Meaning(w[1]);
  }

  lemma ContentKeysDiffer()
    ensures Distinct(CONTENT_KEYS)
  {
  }

  /** The serialized bundle says the whole bundle. */
  lemma ContentKept(a: Content, b: Content)
    requires Meaning(ContentJs(a)) == Meaning(ContentJs(b))
    ensures a == b
  {
    hide Meaning, ListJs, VersionJs, ManifestJs, Zip, Distinct;
    ContentKeysDiffer();
    ScalarsTell();
    SealedTells();
    FragmentTells();
    ManifestTells();
    var v, w := ContentValues(a), ContentValues(b);
    SameRecord(CONTENT_KEYS, v, w);
    assert Meaning(v[0]) == Meaning(w[0]) && Meaning(v[1]) == Meaning(w[1]);
    assert Meaning(v[2]) == Meaning(w[2]) && Meaning(v[3]) == Meaning(w[3]);
    assert Meaning(v[4]) == Meaning(w[4]) && Meaning(v[5]) == Meaning(w[5]);
    assert Meaning(v[6]) == Meaning(w[6]) && Meaning(v[7]) == Meaning(w[7]);
    assert Meaning(v[8]) == Meaning(w[8]) && Meaning(v[9]) == Meaning(w[9]);
    VersionTells(a, b);
    ListTells(SealedJs, a.modules, b.modules);
    ListTells(FragmentJs, a.canonicalAbi, b.canonicalAbi);
  }

  // ---------------------------------------------------------------------------
  // Checksum and digest
  // ---------------------------------------------------------------------------

  /** The text that the release pin is computed over. */
  function ChecksumText(c: Content): string {
    Stringify(ContentJs(c))
  }

  /** The text of a module's digest: the module with its digest undefined. */
  function DigestText(m: Module): string {
    Stringify(ModuleJs(m, false))
  }

  /** Two hashed texts that the hash tells apart unless they are equal. */
  ghost predicate ToldApart(id: string -> string, a: string, b: string) {
    id(a) == id(b) ==> a == b
  }

  /** The checksum pins the bundle: equal checksums, equal bundles. */
  lemma ChecksumPinsContent(id: string -> string, a: Content, b: Content)
    requires ToldApart(id, ChecksumText(a), ChecksumText(b))
    ensures id(ChecksumText(a)) == id(ChecksumText(b)) <==> a == b
  {
    hide Stringify, Meaning, ContentJs;
    StringifyExactly(ContentJs(a), ContentJs(b));
    if ChecksumText(a) == ChecksumText(b) {
      ContentKept(a, b);
    }
  }

  /** A digest pins its module, and nothing of the digest field it is later stored in. */
  lemma DigestPinsModule(id: string -> string, a: Module, b: Module)
    requires ToldApart(id, DigestText(a), DigestText(b))
    ensures id(DigestText(a)) == id(DigestText(b)) <==> a == b.(digest := a.digest)
  {
    hide Stringify, Meaning;
    StringifyExactly(ModuleJs(a, false), ModuleJs(b, false));
    if DigestText(a) == DigestText(b) {
      ModuleKept(a, b, false);
    }
  }

  // ---------------------------------------------------------------------------
  // The drift gate
  // ---------------------------------------------------------------------------

  datatype Drift =
    | ChecksumDrift(frozen: string, current: string)
    | NotFrozen(name: string)
    | Missing(name: string)
    | DigestDrift(name: string, frozen: string, current: string)
    | InterfaceIdDrift(name: string, frozen: string, current: string)
    | SizeDrift(frozenSize: nat, currentSize: nat)

  /** Modules by name; of two with one name the later counts. */
  function ByName(modules: seq<Module>): map<string, Module> {
    if modules == [] then map[]
    else
      var last := modules[|modules| - 1];
      ByName(modules[..|modules| - 1])[last.name := last]
  }

  /** Each name once, in order of first appearance. */
  function Names(modules: seq<Module>): seq<string> {
    if modules == [] then []
    else
      var init, name := Names(modules[..|modules| - 1]), modules[|modules| - 1].name;
      if name in init then init else init + [name]
  }

  lemma {:induction false} NamesAreKeys(modules: seq<Module>)
    ensures Distinct(Names(modules))
    ensures forall name :: name in Names(modules) <==> name in ByName(modules)
  {
    if modules != [] {
      NamesAreKeys(modules[..|modules| - 1]);
    }
  }

  function ModuleDrifts(frozen: map<string, Module>, current: map<string, Module>, name: string): seq<Drift> {
    if name !in frozen then [NotFrozen(name)]
    else if name !in current then [Missing(name)]
    else
      (if frozen[name].digest != current[name].digest
       then [DigestDrift(name, frozen[name].digest, current[name].digest)] else [])
      + (if frozen[name].interfaceId != current[name].interfaceId
         then [InterfaceIdDrift(name, frozen[name].interfaceId, current[name].interfaceId)] else [])
  }

  function AllModuleDrifts(frozen: map<string, Module>, current: map<string, Module>, names: seq<string>): seq<Drift> {
    if names == [] then []
    else AllModuleDrifts(frozen, current, names[..|names| - 1]) + ModuleDrifts(frozen, current, names[|names| - 1])
  }

  function Diff(frozen: Export, current: Export): seq<Drift> {
    var f, c := frozen.content, current.content;
    (if frozen.checksum != current.checksum then [ChecksumDrift(frozen.checksum, current.checksum)] else [])
    + AllModuleDrifts(ByName(f.modules), ByName(c.modules), Sort(Names(f.modules + c.modules)))
    + (if |f.canonicalAbi| != |c.canonicalAbi| then [SizeDrift(|f.canonicalAbi|, |c.canonicalAbi|)] else [])
  }

  method DiffAgainstFreeze(frozen: Export, current: Export) returns (drifts: seq<Drift>)
    ensures drifts == Diff(frozen, current)
  {
    drifts := [];
    if frozen.checksum != current.checksum {
      drifts := drifts + [ChecksumDrift(frozen.checksum, current.checksum)];
    }
    ghost var head := drifts;
    var frozenModules, currentModules := ByName(frozen.content.modules), ByName(current.content.modules);
    var names := Sort(Names(frozen.content.modules + current.content.modules));
    var found := CompareModules(frozenModules, currentModules, names);
    drifts := drifts + found;
    ghost var modules := drifts;
    if |frozen.content.canonicalAbi| != |current.content.canonicalAbi| {
      drifts := drifts + [SizeDrift(|frozen.content.canonicalAbi|, |current.content.canonicalAbi|)];
    } else {
      assert modules + [] == modules;
    }
    assert modules == head + found;
  }

  /** The gate's loop over the module names. */
  method CompareModules(frozen: map<string, Module>, current: map<string, Module>, names: seq<string>)
    returns (drifts: seq<Drift>)
    ensures drifts == AllModuleDrifts(frozen, current, names)
  {
    drifts := [];
    for i := 0 to |names|
      invariant drifts == AllModuleDrifts(frozen, current, names[..i])
    {
      assert names[..i + 1][..i] == names[..i];
      var name := names[i];
      if name !in frozen {
        drifts := drifts + [NotFrozen(name)];
        continue;
      }
      if name !in current {
        drifts := drifts + [Missing(name)];
        continue;
      }
      var expected, actual := frozen[name], current[name];
      ghost var start := drifts;
      if expected.digest != actual.digest {
        drifts := drifts + [DigestDrift(name, expected.digest, actual.digest)];
      }
      if expected.interfaceId != actual.interfaceId {
        drifts := drifts + [InterfaceIdDrift(name, expected.interfaceId, actual.interfaceId)];
      }
      assert drifts == start + ModuleDrifts(frozen, current, name);
    }
    assert names[..|names|] == names;
  }

  /** Module `k` is the one that counts under its name: the last of the list that has it. */
  predicate LastNamed(modules: seq<Module>, name: string, k: int) {
    0 <= k < |modules| && modules[k].name == name && forall j | k < j < |modules| :: modules[j].name != name
  }

  predicate HasModule(modules: seq<Module>, name: string) {
    exists k :: 0 <= k < |modules| && modules[k].name == name
  }

  lemma {:induction false} LastIndex(modules: seq<Module>, name: string)
    ensures name in ByName(modules) <==> HasModule(modules, name)
    ensures name in ByName(modules) <==> exists k :: LastNamed(modules, name, k)
  {
    if modules != [] {
      var n := |modules| - 1;
      var init := modules[..n];
      LastIndex(init, name);
      if modules[n].name == name {
        assert LastNamed(modules, name, n);
      } else {
        LastBefore(modules, name);
      }
    }
  }

  /** When the last module has another name, what counts is found before it. */
  lemma LastBefore(modules: seq<Module>, name: string)
    requires modules != [] && modules[|modules| - 1].name != name
    ensures var init := modules[..|modules| - 1];
            && (HasModule(modules, name) <==> HasModule(init, name))
            && forall k :: LastNamed(modules, name, k) <==> LastNamed(init, name, k)
  {
    var n := |modules| - 1;
    assert forall k | 0 <= k < n :: modules[..n][k] == modules[k];
    if HasModule(modules, name) {
      var k :| 0 <= k < |modules| && modules[k].name == name;
      assert modules[..n][k].name == name;
    }
  }

  lemma {:induction false} ByNameIsLast(modules: seq<Module>, name: string, k: int)
    requires LastNamed(modules, name, k)
    ensures name in ByName(modules) && ByName(modules)[name] == modules[k]
  {
    var n := |modules| - 1;
    if k < n {
      LastBefore(modules, name);
      ByNameIsLast(modules[..n], name, k);
    }
  }

  /** The difference that a drift claims is there, in the exports' own lists. */
  ghost predicate Real(frozen: Export, current: Export, d: Drift) {
    var f, c := frozen.content.modules, current.content.modules;
    match d
    case ChecksumDrift(x, y) => x == frozen.checksum && y == current.checksum && x != y
    case NotFrozen(name) => HasModule(c, name) && !HasModule(f, name)
    case Missing(name) => HasModule(f, name) && !HasModule(c, name)
    case DigestDrift(name, x, y) =>
      exists k, m :: LastNamed(f, name, k) && LastNamed(c, name, m) && x == f[k].digest && y == c[m].digest && x != y
    case InterfaceIdDrift(name, x, y) =>
      exists k, m :: LastNamed(f, name, k) && LastNamed(c, name, m)
                     && x == f[k].interfaceId && y == c[m].interfaceId && x != y
    case SizeDrift(m, n) => m == |frozen.content.canonicalAbi| && n == |current.content.canonicalAbi| && m != n
  }

  /** The same, read through the modules by name. */
  predicate RealByName(frozen: Export, current: Export, d: Drift) {
    var f, c := ByName(frozen.content.modules), ByName(current.content.modules);
    match d
    case ChecksumDrift(x, y) => x == frozen.checksum && y == current.checksum && x != y
    case NotFrozen(name) => name in c && name !in f
    case Missing(name) => name in f && name !in c
    case DigestDrift(name, x, y) => name in f && name in c && x == f[name].digest && y == c[name].digest && x != y
    case InterfaceIdDrift(name, x, y) =>
      name in f && name in c && x == f[name].interfaceId && y == c[name].interfaceId && x != y
    case SizeDrift(m, n) => m == |frozen.content.canonicalAbi| && n == |current.content.canonicalAbi| && m != n
  }

  lemma RealIsByName(frozen: Export, current: Export, d: Drift)
    ensures Real(frozen, current, d) <==> RealByName(frozen, current, d)
  {
    hide ByName, HasModule, LastNamed;
    var f, c := frozen.content.modules, current.content.modules;
    if !d.ChecksumDrift? && !d.SizeDrift? {
      LastIndex(f, d.name);
      LastIndex(c, d.name);
      forall k | LastNamed(f, d.name, k) {
        ByNameIsLast(f, d.name, k);
      }
      forall k | LastNamed(c, d.name, k) {
        ByNameIsLast(c, d.name, k);
      }
      if (d.DigestDrift? || d.InterfaceIdDrift?) && d.name in ByName(f) && d.name in ByName(c) {
        LastInRange(f, d.name);
        LastInRange(c, d.name);
        var k :| LastNamed(f, d.name, k);
        var m :| LastNamed(c, d.name, m);
        assert ByName(f)[d.name] == f[k] && ByName(c)[d.name] == c[m];
      }
    }
  }

  lemma LastInRange(modules: seq<Module>, name: string)
    ensures forall k | LastNamed(modules, name, k) :: 0 <= k < |modules|
  {
  }

  lemma {:induction false} ModuleDriftsReported(frozen: map<string, Module>, current: map<string, Module>,
                                              names: seq<string>, d: Drift)
    ensures d in AllModuleDrifts(frozen, current, names) <==>
            exists name :: name in names && d in ModuleDrifts(frozen, current, name)
  {
    if names != [] {
      var init, last := names[..|names| - 1], names[|names| - 1];
      ModuleDriftsReported(frozen, current, init, d);
      assert forall name :: name in names <==> name in init || name == last;
    }
  }

  lemma {:induction false} UnionNames(a: seq<Module>, b: seq<Module>, name: string)
    ensures name in Names(a + b) <==> name in Names(a) || name in Names(b)
  {
    if b == [] {
      assert a + b == a;
    } else {
      assert (a + b)[..|a + b| - 1] == a + b[..|b| - 1];
      UnionNames(a, b[..|b| - 1], name);
    }
  }

  /** Which drifts the turn of one name adds. */
  lemma ModuleDriftsExactly(frozen: Export, current: Export, name: string, d: Drift)
    requires var f, c := ByName(frozen.content.modules), ByName(current.content.modules); name in f || name in c
    ensures d in ModuleDrifts(ByName(frozen.content.modules), ByName(current.content.modules), name) <==>
            !d.ChecksumDrift? && !d.SizeDrift? && d.name == name && RealByName(frozen, current, d)
  {
  }

  lemma CompareName(f: seq<Module>, c: seq<Module>, name: string)
    ensures name in Sort(Names(f + c)) <==> name in ByName(f) || name in ByName(c)
  {
    NamesAreKeys(f);
    NamesAreKeys(c);
    NamesAreKeys(f + c);
    SortSorts(Names(f + c));
    UnionNames(f, c, name);
  }

  /** The gate reports exactly the differences there are. */
  lemma DiffReportsExactly(frozen: Export, current: Export, d: Drift)
    ensures d in Diff(frozen, current) <==> Real(frozen, current, d)
  {
    RealIsByName(frozen, current, d);
    var f, c := frozen.content.modules, current.content.modules;
    var names := Sort(Names(f + c));
    hide Real, ByName, Sort, Names;
    ModuleDriftsReported(ByName(f), ByName(c), names, d);
    forall name ensures name in names <==> name in ByName(f) || name in ByName(c) {
      CompareName(f, c, name);
    }
    forall name | name in names {
      ModuleDriftsExactly(frozen, current, name, d);
    }
  }

  /** `a` is reported before `b`: the checksum first, the sizes last, and between them the modules in
      the order of their names, each with its digest before its interface id. */
  ghost predicate InOrder(a: Drift, b: Drift) {
    || (a.ChecksumDrift? && !b.ChecksumDrift?)
    || (b.SizeDrift? && !a.SizeDrift?)
    || (!a.ChecksumDrift? && !a.SizeDrift? && !b.ChecksumDrift? && !b.SizeDrift?
        && (ComesFirst(a.name, b.name) || (a.name == b.name && a.DigestDrift? && b.InterfaceIdDrift?)))
  }

  ghost predicate AllInOrder(ds: seq<Drift>) {
    forall i, j | 0 <= i < j < |ds| :: InOrder(ds[i], ds[j])
  }

  lemma ConcatInOrder(a: seq<Drift>, b: seq<Drift>)
    requires AllInOrder(a) && AllInOrder(b) && forall x, y | x in a && y in b :: InOrder(x, y)
    ensures AllInOrder(a + b)
  {
    hide InOrder;
    var ds := a + b;
    forall i, j | 0 <= i < j < |ds| ensures InOrder(ds[i], ds[j]) {
      if j < |a| {
        assert ds[i] == a[i] && ds[j] == a[j];
      } else if i < |a| {
        assert ds[i] in a && ds[j] in b;
      } else {
        assert ds[i] == b[i - |a|] && ds[j] == b[j - |a|];
      }
    }
  }

  ghost predicate OfModule(d: Drift) {
    !d.ChecksumDrift? && !d.SizeDrift?
  }

  lemma {:induction false} ModuleDriftsInOrder(f: map<string, Module>, c: map<string, Module>, names: seq<string>)
    requires forall i, j | 0 <= i < j < |names| :: ComesFirst(names[i], names[j])
    ensures var ds := AllModuleDrifts(f, c, names);
            AllInOrder(ds) && forall d | d in ds :: OfModule(d) && d.name in names
  {
    hide ComesFirst;
    if names != [] {
      var init, last := names[..|names| - 1], names[|names| - 1];
      ModuleDriftsInOrder(f, c, init);
      var ds, ms := AllModuleDrifts(f, c, init), ModuleDrifts(f, c, last);
      OneModuleInOrder(f, c, last);
      assert forall name | name in init :: ComesFirst(name, last);
      assert last in names && forall name | name in init :: name in names;
      hide ModuleDrifts, AllInOrder;
      ConcatInOrder(ds, ms);
    }
  }

  lemma OneModuleInOrder(f: map<string, Module>, c: map<string, Module>, name: string)
    ensures AllInOrder(ModuleDrifts(f, c, name))
    ensures forall d | d in ModuleDrifts(f, c, name) :: OfModule(d) && d.name == name
  {
  }

  /** The drifts come in this order, so each is reported once. */
  lemma DriftsInOrder(frozen: Export, current: Export)
    ensures AllInOrder(Diff(frozen, current))
  {
    var f, c := frozen.content.modules, current.content.modules;
    var names := Sort(Names(f + c));
    NamesAreKeys(f + c);
    SortSorts(Names(f + c));
    hide ComesFirst, Sort, Names, ByName, ModuleDrifts, AllModuleDrifts;
    ModuleDriftsInOrder(ByName(f), ByName(c), names);
    var head := if frozen.checksum != current.checksum then [ChecksumDrift(frozen.checksum, current.checksum)] else [];
    var middle := AllModuleDrifts(ByName(f), ByName(c), names);
    var m, n := |frozen.content.canonicalAbi|, |current.content.canonicalAbi|;
    var tail := if m != n then [SizeDrift(m, n)] else [];
    ConcatInOrder(head, middle);
    ConcatInOrder(head + middle, tail);
    assert Diff(frozen, current) == head + middle + tail;
  }

  /** An export whose checksum was computed the way the exporter computes it. */
  predicate Checksummed(id: string -> string, e: Export) {
    e.checksum == id(ChecksumText(e.content))
  }

  /** The freeze gate is sound and complete: for computed checksums, no drift is reported if and
      only if the frozen export is the current one. */
  lemma NoDriftMeansSameExport(id: string -> string, frozen: Export, current: Export)
    requires Checksummed(id, frozen) && Checksummed(id, current)
    requires ToldApart(id, ChecksumText(frozen.content), ChecksumText(current.content))
    ensures Diff(frozen, current) == [] <==> frozen == current
  {
    ChecksumPinsContent(id, frozen.content, current.content);
    var drifts := Diff(frozen, current);
    if drifts == [] {
      DiffReportsExactly(frozen, current, ChecksumDrift(frozen.checksum, current.checksum));
    } else {
      assert drifts[0] in drifts;
      DiffReportsExactly(frozen, current, drifts[0]);
    }
  }
}
