/** What the serialized bundle says, record by record: which keys, and what under each. */
module AbiMeaning {
  import opened Wrappers
  import opened Sequences
  import opened StableJson
  import opened AbiExport

  /** `v` is an object with exactly these keys, and these values under them. */
  ghost predicate IsRecord(v: Json, keys: seq<string>, values: seq<Json>) {
    && v.JObject? && |keys| == |values|
    && (forall k :: k in v.record <==> k in keys)
    && (forall i | 0 <= i < |keys| :: keys[i] in v.record && v.record[keys[i]] == values[i])
  }

  /** The list of what `js` makes of each item. */
  ghost function Each<T>(js: T -> Js, items: seq<T>): Json {
    JArray(Mapped((x: T) => Meaning(js(x)), items))
  }

  ghost function Strings(texts: seq<string>): Json {
    JArray(Mapped((s: string) => JText(s), texts))
  }

  ghost function StringOrNull(s: Option<string>): Json {
    if s.Some? then JText(s.value) else JNull
  }

  lemma ListMeans<T>(js: T -> Js, items: seq<T>)
    ensures Meaning(ListJs(js, items)) == Each(js, items)
  {
    assert Meanings(Mapped(js, items)) == Mapped((x: T) => Meaning(js(x)), items);
  }

  lemma TextsMean(texts: seq<string>)
    ensures Meaning(ListJs(TextJs, texts)) == Strings(texts)
  {
    ListMeans(TextJs, texts);
    assert Mapped((s: string) => Meaning(TextJs(s)), texts) == Mapped((s: string) => JText(s), texts);
  }

  lemma FieldMeans(fields: seq<Field>, i: nat)
    requires DistinctFields(fields) && i < |fields|
    ensures var v := Meaning(Object(fields));
            v.JObject? && fields[i].key in v.record && v.record[fields[i].key] == Meaning(fields[i].value)
  {
    FieldAt(fields, i);
  }

  lemma KeyMeans(fields: seq<Field>, key: string)
    ensures var v := Meaning(Object(fields));
            v.JObject? && (key in v.record <==> exists i :: 0 <= i < |fields| && fields[i].key == key)
  {
    KeyHasField(fields, key);
  }

  lemma RecordMeans(keys: seq<string>, values: seq<Js>, said: seq<Json>)
    requires Distinct(keys) && |keys| == |values| == |said|
    requires forall i | 0 <= i < |said| :: Meaning(values[i]) == said[i]
    ensures IsRecord(Meaning(Object(Zip(keys, values))), keys, said)
  {
    hide Meaning;
    var fields := Zip(keys, values);
    KeyMeans(fields, "");
    var v := Meaning(Object(fields));
    forall k ensures k in v.record <==> k in keys {
      KeyMeans(fields, k);
      assert forall i | 0 <= i < |keys| :: fields[i].key == keys[i];
    }
    forall i | 0 <= i < |keys| ensures keys[i] in v.record && v.record[keys[i]] == said[i] {
      FieldMeans(fields, i);
    }
  }

  lemma ParameterMeans(p: Parameter)
    ensures IsRecord(Meaning(ParameterJs(p)),
                     ["name", "type"] + if p.indexed.Some? then ["indexed"] else [],
                     [JText(p.name), JText(p.abiType)] + if p.indexed.Some? then [JBool(p.indexed.value)] else [])
  {
    ParameterShape(p);
    var said := [JText(p.name), JText(p.abiType)] + if p.indexed.Some? then [JBool(p.indexed.value)] else [];
    RecordMeans(ParameterKeys(p), ParameterValues(p), said);
  }

  function KindText(k: Kind): string {
    match k
    case Function => "function"
    case Error => "error"
    case Event => "event"
  }

  /** What a fragment says of its inputs, outputs and mutability, the last two only where it has them. */
  ghost function FragmentSays(f: Fragment): seq<Json> {
    [JText(KindText(f.kind)), JText(f.name), JText(f.signature), Each(ParameterJs, f.inputs)]
    + (if f.outputs.Some? then [Each(ParameterJs, f.outputs.value)] else [])
    + (if f.stateMutability.Some? then [JText(f.stateMutability.value)] else [])
  }

  lemma FragmentValuesMean(f: Fragment)
    ensures var values, said := FragmentValues(f), FragmentSays(f);
            |values| == |said| && forall i | 0 <= i < |said| :: Meaning(values[i]) == said[i]
  {
    ListMeans(ParameterJs, f.inputs);
    if f.outputs.Some? {
      ListMeans(ParameterJs, f.outputs.value);
    }
    hide ListJs, Each;
  }

  lemma FragmentMeans(f: Fragment)
    ensures IsRecord(Meaning(FragmentJs(f)),
                     ["type", "name", "signature", "inputs"]
                     + (if f.outputs.Some? then ["outputs"] else [])
                     + (if f.stateMutability.Some? then ["stateMutability"] else []),
                     FragmentSays(f))
  {
    FragmentShape(f);
    FragmentValuesMean(f);
    hide Distinct, IsRecord, Zip, FragmentValues, FragmentSays, Meaning;
    RecordMeans(FragmentKeys(f), FragmentValues(f), FragmentSays(f));
  }

  lemma MemberMeans(m: Member)
    ensures IsRecord(Meaning(MemberJs(m)), ["signature", "selector", "declaredIn"],
                     [JText(m.signature), JText(m.selector), JText(m.declaredIn)])
  {
    hide IsRecord, Zip;
    var said := [JText(m.signature), JText(m.selector), JText(m.declaredIn)];
    RecordMeans(MEMBER_KEYS, MemberValues(m), said);
  }

  lemma TopicMeans(t: Topic)
    ensures IsRecord(Meaning(TopicJs(t)), ["signature", "topic0", "declaredIn"],
                     [JText(t.signature), JText(t.topic0), JText(t.declaredIn)])
  {
    hide IsRecord, Zip;
    var said := [JText(t.signature), JText(t.topic0), JText(t.declaredIn)];
    RecordMeans(TOPIC_KEYS, TopicValues(t), said);
  }

  lemma ModuleMeans(m: Module, digested: bool)
    ensures IsRecord(Meaning(ModuleJs(m, digested)),
                     ["name", "source", "interfaceId", "inherits", "functions", "errors", "events", "structs", "enums",
                      "digest"],
                     [JText(m.name), JText(m.source), JText(m.interfaceId), Strings(m.inherits),
                      Each(MemberJs, m.functions), Each(MemberJs, m.errors), Each(TopicJs, m.events),
                      Strings(m.structs), Strings(m.enums), if digested then JText(m.digest) else JNull])
  {
    ModuleKeysDiffer();
    TextsMean(m.inherits);
    ListMeans(MemberJs, m.functions);
    ListMeans(MemberJs, m.errors);
    ListMeans(TopicJs, m.events);
    TextsMean(m.structs);
    TextsMean(m.enums);
    hide Distinct, ListJs, Each, Strings, IsRecord, Zip;
    var said := [JText(m.name), JText(m.source), JText(m.interfaceId), Strings(m.inherits),
                      Each(MemberJs, m.functions), Each(MemberJs, m.errors), Each(TopicJs, m.events),
                      Strings(m.structs), Strings(m.enums), if digested then JText(m.digest) else JNull];
    RecordMeans(MODULE_KEYS, ModuleValues(m, digested), said);
  }

  lemma NetworkMeans(n: Network)
    ensures IsRecord(Meaning(NetworkJs(n)), ["name", "chainId", "config"],
                     [JText(n.name), JNumber(n.chainId), JText(n.config)])
  {
    hide IsRecord, Zip;
    var said := [JText(n.name), JNumber(n.chainId), JText(n.config)];
    RecordMeans(NETWORK_KEYS, NetworkValues(n), said);
  }

  lemma TextOrNullMeans(s: Option<string>)
    ensures Meaning(TextOrNull(s)) == StringOrNull(s)
  {
  }

  lemma DeployedMeans(d: Deployed)
    ensures IsRecord(Meaning(DeployedJs(d)),
                     ["name", "moduleId", "interfaceId", "implementation", "implementationSource"],
                     [JText(d.name), JText(d.moduleId), JText(d.interfaceId), StringOrNull(d.implementation),
                      StringOrNull(d.implementationSource)])
  {
    TextOrNullMeans(d.implementation);
    TextOrNullMeans(d.implementationSource);
    hide IsRecord, Zip, TextOrNull, StringOrNull;
    var said := [JText(d.name), JText(d.moduleId), JText(d.interfaceId), StringOrNull(d.implementation),
                      StringOrNull(d.implementationSource)];
    RecordMeans(DEPLOYED_KEYS, DeployedValues(d), said);
  }

  lemma ManifestMeans(m: Manifest)
    ensures IsRecord(Meaning(ManifestJs(m)), ["note", "networks", "modules"],
                     [JText(m.note), Each(NetworkJs, m.networks), Each(DeployedJs, m.modules)])
  {
    ListMeans(NetworkJs, m.networks);
    ListMeans(DeployedJs, m.modules);
    hide ListJs, Each, IsRecord, Zip;
    var said := [JText(m.note), Each(NetworkJs, m.networks), Each(DeployedJs, m.modules)];
    RecordMeans(MANIFEST_KEYS, ManifestValues(m), said);
  }

  lemma VersionMeans(major: int, minor: int)
    ensures IsRecord(Meaning(VersionJs(major, minor)), ["major", "minor"], [JNumber(major), JNumber(minor)])
  {
    var said := [JNumber(major), JNumber(minor)];
    RecordMeans(VERSION_KEYS, [Number(major), Number(minor)], said);
  }

  lemma ContentMeans(c: Content)
    ensures IsRecord(Meaning(ContentJs(c)),
                     ["schemaVersion", "kind", "protocol", "releaseVersion", "protocolVersion", "sourceRoot",
                      "aggregate", "modules", "canonicalAbi", "addressManifest"],
                     [JNumber(c.schemaVersion), JText(c.kind), JText(c.protocol), JText(c.releaseVersion),
                      Meaning(VersionJs(c.major, c.minor)), JText(c.sourceRoot), JText(c.aggregate),
                      Each(SealedJs, c.modules), Each(FragmentJs, c.canonicalAbi), Meaning(ManifestJs(c.manifest))])
  {
    ContentKeysDiffer();
    ListMeans(SealedJs, c.modules);
    ListMeans(FragmentJs, c.canonicalAbi);
    hide Distinct, ListJs, Each, VersionJs, ManifestJs, IsRecord, Zip;
    var said := [JNumber(c.schemaVersion), JText(c.kind), JText(c.protocol), JText(c.releaseVersion),
                      Meaning(VersionJs(c.major, c.minor)), JText(c.sourceRoot), JText(c.aggregate),
                      Each(SealedJs, c.modules), Each(FragmentJs, c.canonicalAbi), Meaning(ManifestJs(c.manifest))];
    RecordMeans(CONTENT_KEYS, ContentValues(c), said);
  }
}
