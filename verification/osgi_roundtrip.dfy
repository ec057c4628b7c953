/**
 * The reader and the writer agree: rendering any document the reader can
 * produce and reading the rendering back yields a document with the same
 * value under every key. Only the order of the top-level sections may
 * differ, since the reader keeps document order and the writer a fixed one.
 */
module OsgiRoundTrip {
  import opened Wrappers
  import opened Text
  import opened Dmr
  import opened Xml
  import opened OsgiDialect
  import opened OsgiReader
  import opened OsgiWriter
  import opened Seqs

  // ---------------------------------------------------------------- properties

  /** What the writer emits for the members of a property block. */
  function PropertyContent(ms: seq<Member>): (r: seq<XmlContent>)
    ensures |r| == |ms|
    ensures forall i :: 0 <= i < |ms| ==> r[i] == Child(PropertyElement(ms[i].key, TextOf(ms[i].value)))
  {
    if ms == [] then []
    else
      assert forall i :: 1 <= i < |ms| ==> ms[i] == ms[1..][i - 1];
      [Child(PropertyElement(ms[0].key, TextOf(ms[0].value)))] + PropertyContent(ms[1..])
  }

  /** The text of a string value; property values are always strings. */
  function TextOf(v: Node): string {
    if v.Str? then v.text else ""
  }

  lemma WritePropertiesExact(n: Node)
    requires n.Object? && PropertyMembers(n.members)
    ensures WriteProperties(n) == Ok(PropertyContent(n.members))
  {
    var ms := n.members;
    forall i | 0 <= i < |ms| ensures Lookup(n, KeysOf(ms)[i]) == ms[i].value {
      FindAt(ms, i);
    }
    var r := WritePropertyElements(n, KeysOf(ms));
    assert r.Ok?;
    assert r.value == PropertyContent(ms);
  }

  /** The block the reader holds after the first `j` members. */
  function Prefix(ms: seq<Member>, j: nat): Node
    requires j <= |ms|
  {
    if j == 0 then Undefined else Object(ms[..j])
  }

  lemma PrefixStep(ms: seq<Member>, j: nat)
    requires UniqueKeys(ms) && j < |ms|
    ensures !Has(Prefix(ms, j), ms[j].key)
    ensures Put(Prefix(ms, j), ms[j].key, ms[j].value) == Prefix(ms, j + 1)
  {
    if j > 0 {
      var keys := KeysOf(ms);
      assert KeysOf(ms[..j]) == keys[..j];
      assert forall i :: 0 <= i < j ==> keys[..j][i] != keys[j];
      assert ms[j].key !in keys[..j];
      assert ms[..j] + [ms[j]] == ms[..j + 1];
    } else {
      assert ms[..1] == [ms[0]];
    }
  }

  lemma PrefixUnique(ms: seq<Member>, j: nat)
    requires UniqueKeys(ms) && j <= |ms|
    ensures Prefix(ms, j).Undefined? || UniqueKeys(Prefix(ms, j).members)
  {
    if j > 0 {
      assert KeysOf(ms[..j]) == KeysOf(ms)[..j];
    }
  }

  lemma NameAttributeRead(name: string, block: Node)
    requires !Has(block, name)
    ensures ReadPropertyName([XmlAttr(None, AttributeName(Name), name)], block, None) == Ok(Some(name))
  {
    var attribute := XmlAttr(None, AttributeName(Name), name);
    assert Plain(attribute, {Name});
    assert [attribute][1..] == [];
  }

  lemma TextRead(value: string)
    ensures ElementText([Chars(value)]) == Some(value)
  {
    assert ElementText([Chars(value)][1..]) == Some("");
    assert value + "" == value;
  }

  /** Once the name scan has found `name`, a `property` reads as its value step. */
  lemma ReadPropertyNamed(e: XmlElement, block: Node, name: string)
    requires PropertyBlock(block) && ReadPropertyName(e.attrs, block, None) == Ok(Some(name))
    ensures !Has(block, name)
    ensures ReadProperty(e, block) == StoreProperty(block, name, e.name, ElementText(e.content))
  {
  }

  /** A trimmed, non-empty text is stored unchanged under its name. */
  lemma TrimmedTextStored(block: Node, name: string, elementName: string, value: string)
    requires PropertyBlock(block) && !Has(block, name)
    requires value != "" && Trimmed(value)
    ensures StoreProperty(block, name, elementName, Some(value)) == Ok(Put(block, name, Str(value)))
  {
    assert Trim(value) == value;
  }

  /** A `property` child whose name scan finds `name` and whose text is `value` hands the block, with `name` stored, on to the rest. */
  lemma PropertyBlockStored(e: XmlElement, rest: seq<XmlContent>, block: Node, name: string, value: string)
    requires PropertyBlock(block) && InDialect(e, Property)
    requires ReadPropertyName(e.attrs, block, None) == Ok(Some(name))
    requires ElementText(e.content) == Some(value) && value != "" && Trimmed(value)
    ensures PropertyBlock(Put(block, name, Str(value)))
    ensures ReadPropertyBlock([Child(e)] + rest, block) == ReadPropertyBlock(rest, Put(block, name, Str(value)))
  {
    ReadPropertyNamed(e, block, name);
    TrimmedTextStored(block, name, e.name, value);
    var content := [Child(e)] + rest;
    assert content[0] == Child(e) && content[1..] == rest;
    PropertyBlockCons(content, block, Put(block, name, Str(value)));
  }

  /** A `property` child that reads successfully hands its block on to the rest of the content. */
  lemma PropertyBlockCons(content: seq<XmlContent>, block: Node, next: Node)
    requires PropertyBlock(block) && content != [] && content[0].Child? && InDialect(content[0].elem, Property)
    requires ReadProperty(content[0].elem, block) == Ok(next)
    ensures PropertyBlock(next)
    ensures ReadPropertyBlock(content, block) == ReadPropertyBlock(content[1..], next)
  {
  }

  /** A written `property` child adds its member to the block and hands the block on to the rest of the content. */
  lemma PropertyElementCons(name: string, value: string, rest: seq<XmlContent>, block: Node)
    requires PropertyBlock(block) && !Has(block, name)
    requires value != "" && Trimmed(value)
    ensures PropertyBlock(Put(block, name, Str(value)))
    ensures ReadPropertyBlock([Child(PropertyElement(name, value))] + rest, block)
      == ReadPropertyBlock(rest, Put(block, name, Str(value)))
  {
    NameAttributeRead(name, block);
    TextRead(value);
    PropertyBlockStored(PropertyElement(name, value), rest, block, name, value);
  }

  lemma PrefixProperties(ms: seq<Member>, j: nat)
    requires PropertyMembers(ms) && j <= |ms|
    ensures PropertyBlock(Prefix(ms, j))
  {
    PrefixUnique(ms, j);
    assert Prefix(ms, j).Object? ==> forall i :: 0 <= i < j ==> Prefix(ms, j).members[i] == ms[i];
  }

  /** Reading the element written for member `j` moves the block from the first `j` members to the first `j + 1`. */
  lemma PropertiesReadStep(ms: seq<Member>, j: nat)
    requires PropertyMembers(ms) && j < |ms|
    ensures PropertyBlock(Prefix(ms, j)) && PropertyBlock(Prefix(ms, j + 1))
    ensures ReadPropertyBlock(PropertyContent(ms[j..]), Prefix(ms, j))
      == ReadPropertyBlock(PropertyContent(ms[j + 1..]), Prefix(ms, j + 1))
  {
    PrefixProperties(ms, j);
    PrefixProperties(ms, j + 1);
    var m := ms[j];
    assert ms[j..][1..] == ms[j + 1..];
    assert PropertyContent(ms[j..]) == [Child(PropertyElement(m.key, TextOf(m.value)))] + PropertyContent(ms[j + 1..]);
    PrefixStep(ms, j);
    PropertyElementCons(m.key, m.value.text, PropertyContent(ms[j + 1..]), Prefix(ms, j));
  }

  lemma {:induction false} PropertiesRead(ms: seq<Member>, j: nat)
    requires PropertyMembers(ms) && ms != [] && j <= |ms|
    ensures PropertyBlock(Prefix(ms, j))
    ensures ReadPropertyBlock(PropertyContent(ms[j..]), Prefix(ms, j)) == Ok(Object(ms))
    decreases |ms| - j
  {
    PrefixProperties(ms, j);
    if j == |ms| {
      assert ms[..j] == ms;
      assert PropertyContent(ms[j..]) == [];
    } else {
      PropertiesReadStep(ms, j);
      PropertiesRead(ms, j + 1);
    }
  }

  /** A property block survives being written and read back. */
  lemma PropertiesRoundTrip(n: Node)
    requires n.Object? && PropertyBlock(n)
    ensures WriteProperties(n).Ok?
    ensures ReadPropertyBlock(WriteProperties(n).value, Undefined) == Ok(n)
  {
    WritePropertiesExact(n);
    PropertiesRead(n.members, 0);
    assert n.members[0..] == n.members;
  }

  // ---------------------------------------------------------------- configuration

  /** What the writer emits for a `configuration` node with properties: its pid, then its properties. */
  lemma WithPropertiesWritten(n: Node)
    requires ConfigurationNode(n) && |n.members| == 2
    ensures WriteProperties(n.members[1].value).Ok?
    ensures WriteConfiguration(n) == Ok(DialectElement(Configuration, [XmlAttr(None, "pid", n.members[0].value.text)],
      WriteProperties(n.members[1].value).value))
  {
    assert Keys(n)[0] == PidKey;
    assert Lookup(n, PidKey) == n.members[0].value;
    assert n.members[1..] == [n.members[1]];
    assert Find(n.members[1..], ConfigurationPropertiesKey) == n.members[1].value;
    PropertiesRoundTrip(n.members[1].value);
  }

  /** What the writer emits for a `configuration` node without properties: its pid alone. */
  lemma PidOnlyWritten(n: Node)
    requires ConfigurationNode(n) && |n.members| == 1
    ensures WriteConfiguration(n) == Ok(DialectElement(Configuration, [XmlAttr(None, "pid", n.members[0].value.text)], []))
  {
    assert Keys(n) == [PidKey];
    assert Lookup(n, PidKey) == n.members[0].value;
  }

  lemma PidAttributeRead(pid: string)
    ensures ReadPid([XmlAttr(None, "pid", pid)], None) == Ok(Some(pid))
  {
    assert ReadPid([XmlAttr(None, "pid", pid)][1..], Some(pid)) == Ok(Some(pid));
  }

  /** What the reader makes of a `configuration` element with one `pid` attribute and some properties. */
  lemma ConfigurationRead(pid: string, content: seq<XmlContent>, properties: Node)
    requires ReadPropertyBlock(content, Undefined) == Ok(properties) && properties.Object?
    ensures ReadConfiguration(DialectElement(Configuration, [XmlAttr(None, "pid", pid)], content)) ==
      Ok(Object([Member(PidKey, Str(pid)), Member(ConfigurationPropertiesKey, properties)]))
  {
    PidAttributeRead(pid);
    PutSecondMember(PidKey, Str(pid), ConfigurationPropertiesKey, properties);
  }

  /** What the reader makes of a `configuration` element with one `pid` attribute and nothing else. */
  lemma PidOnlyRead(pid: string)
    ensures ReadConfiguration(DialectElement(Configuration, [XmlAttr(None, "pid", pid)], [])) ==
      Ok(Object([Member(PidKey, Str(pid))]))
  {
    PidAttributeRead(pid);
    assert ReadPropertyBlock([], Undefined) == Ok(Undefined);
  }

  lemma ConfigurationWithPropertiesRoundTrip(n: Node)
    requires ConfigurationNode(n) && |n.members| == 2
    ensures WriteConfiguration(n).Ok?
    ensures ReadConfiguration(WriteConfiguration(n).value) == Ok(n)
  {
    WithPropertiesWritten(n);
    var pid := n.members[0].value.text;
    var properties := n.members[1].value;
    PropertiesRoundTrip(properties);
    ConfigurationRead(pid, WriteProperties(properties).value, properties);
    assert n.members == [Member(PidKey, Str(pid)), Member(ConfigurationPropertiesKey, properties)];
  }

  lemma ConfigurationPidOnlyRoundTrip(n: Node)
    requires ConfigurationNode(n) && |n.members| == 1
    ensures WriteConfiguration(n).Ok?
    ensures ReadConfiguration(WriteConfiguration(n).value) == Ok(n)
  {
    PidOnlyWritten(n);
    var pid := n.members[0].value.text;
    PidOnlyRead(pid);
    assert n.members == [Member(PidKey, Str(pid))];
  }

  /** A `configuration` node survives being written and read back. */
  lemma ConfigurationRoundTrip(n: Node)
    requires ConfigurationNode(n)
    ensures WriteConfiguration(n).Ok?
    ensures ReadConfiguration(WriteConfiguration(n).value) == Ok(n)
  {
    if |n.members| == 2 {
      ConfigurationWithPropertiesRoundTrip(n);
    } else {
      ConfigurationPidOnlyRoundTrip(n);
    }
  }

  // ---------------------------------------------------------------- modules

  /** The attributes the writer gives a module entry. */
  function ModuleAttributeList(m: Member): seq<XmlAttr> {
    [XmlAttr(None, "identifier", m.key)]
      + if m.value.Object? && m.value.members != [] then [XmlAttr(None, "start", TextOf(m.value.members[0].value))] else []
  }

  /** What the writer emits for the members of a module block. */
  function ModuleContent(ms: seq<Member>): (r: seq<XmlContent>)
    ensures |r| == |ms|
    ensures forall i :: 0 <= i < |ms| ==> r[i] == Child(DialectElement(Module, ModuleAttributeList(ms[i]), []))
  {
    if ms == [] then []
    else
      assert forall i :: 1 <= i < |ms| ==> ms[i] == ms[1..][i - 1];
      [Child(DialectElement(Module, ModuleAttributeList(ms[0]), []))] + ModuleContent(ms[1..])
  }

  lemma ModuleAttributesExact(m: Member)
    requires ModuleEntry(m.value)
    ensures ModuleAttributes(m.key, m.value) == Ok(ModuleAttributeList(m))
  {
    if m.value.Object? {
      assert Keys(m.value) == [StartKey];
      assert Lookup(m.value, StartKey) == m.value.members[0].value;
    }
  }

  lemma WriteModulesExact(n: Node)
    requires n.Object? && ModuleMembers(n.members)
    ensures WriteModules(n) == Ok(ModuleContent(n.members))
  {
    var ms := n.members;
    forall i | 0 <= i < |ms|
      ensures Lookup(n, KeysOf(ms)[i]) == ms[i].value
      ensures ModuleAttributes(KeysOf(ms)[i], Lookup(n, KeysOf(ms)[i])) == Ok(ModuleAttributeList(ms[i]))
    {
      FindAt(ms, i);
      ModuleAttributesExact(ms[i]);
    }
    var r := WriteModuleElements(n, KeysOf(ms));
    assert r.Ok?;
    assert r.value == ModuleContent(ms);
  }

  lemma ModuleElementRead(m: Member, modules: Node)
    requires ModuleBlock(modules) && !Has(modules, m.key) && ModuleEntry(m.value)
    ensures ReadModule(DialectElement(Module, ModuleAttributeList(m), []), modules) == Ok(Put(modules, m.key, m.value))
  {
    var attrs := ModuleAttributeList(m);
    var idAttribute := XmlAttr(None, "identifier", m.key);
    if m.value.Object? {
      var s := m.value.members[0].value.text;
      var startAttribute := XmlAttr(None, "start", s);
      assert attrs == [idAttribute, startAttribute];
      assert attrs[1..][1..] == [];
      assert ReadModuleAttributes(attrs[1..], Some(m.key), None) == Ok((Some(m.key), Some(s)));
      assert ReadModuleAttributes(attrs, None, None) == Ok((Some(m.key), Some(s)));
      assert m.value.members == [Member(StartKey, Str(s))];
    } else {
      assert attrs == [idAttribute];
      assert ReadModuleAttributes(attrs[1..], Some(m.key), None) == Ok((Some(m.key), None));
    }
  }

  /** A `module` child that reads successfully hands its block on to the rest of the content. */
  lemma ModuleBlockCons(e: XmlElement, rest: seq<XmlContent>, modules: Node, next: Node)
    requires ModuleBlock(modules) && InDialect(e, Module) && ReadModule(e, modules) == Ok(next)
    ensures ModuleBlock(next)
    ensures ReadModuleBlock([Child(e)] + rest, modules) == ReadModuleBlock(rest, next)
  {
    var content := [Child(e)] + rest;
    assert content[0] == Child(e);
    assert content[1..] == rest;
  }

  /** A written `module` child adds its entry to the block and hands the block on to the rest of the content. */
  lemma ModuleElementCons(m: Member, rest: seq<XmlContent>, modules: Node)
    requires ModuleBlock(modules) && !Has(modules, m.key) && ModuleEntry(m.value)
    ensures ModuleBlock(Put(modules, m.key, m.value))
    ensures ReadModuleBlock([Child(DialectElement(Module, ModuleAttributeList(m), []))] + rest, modules)
      == ReadModuleBlock(rest, Put(modules, m.key, m.value))
  {
    ModuleElementRead(m, modules);
    ModuleBlockCons(DialectElement(Module, ModuleAttributeList(m), []), rest, modules, Put(modules, m.key, m.value));
  }

  lemma PrefixModules(ms: seq<Member>, j: nat)
    requires ModuleMembers(ms) && j <= |ms|
    ensures ModuleBlock(Prefix(ms, j))
  {
    PrefixUnique(ms, j);
    assert Prefix(ms, j).Object? ==> forall i :: 0 <= i < j ==> Prefix(ms, j).members[i] == ms[i];
  }

  /** Reading the element written for entry `j` moves the block from the first `j` entries to the first `j + 1`. */
  lemma ModulesReadStep(ms: seq<Member>, j: nat)
    requires ModuleMembers(ms) && j < |ms|
    ensures ModuleBlock(Prefix(ms, j)) && ModuleBlock(Prefix(ms, j + 1))
    ensures ReadModuleBlock(ModuleContent(ms[j..]), Prefix(ms, j))
      == ReadModuleBlock(ModuleContent(ms[j + 1..]), Prefix(ms, j + 1))
  {
    PrefixModules(ms, j);
    PrefixModules(ms, j + 1);
    var m := ms[j];
    var e := DialectElement(Module, ModuleAttributeList(m), []);
    assert ms[j..][1..] == ms[j + 1..];
    assert ModuleContent(ms[j..]) == [Child(e)] + ModuleContent(ms[j + 1..]);
    PrefixStep(ms, j);
    ModuleElementCons(m, ModuleContent(ms[j + 1..]), Prefix(ms, j));
  }

  lemma {:induction false} ModulesRead(ms: seq<Member>, j: nat)
    requires ModuleMembers(ms) && ms != [] && j <= |ms|
    ensures ModuleBlock(Prefix(ms, j))
    ensures ReadModuleBlock(ModuleContent(ms[j..]), Prefix(ms, j)) == Ok(Object(ms))
    decreases |ms| - j
  {
    PrefixModules(ms, j);
    if j == |ms| {
      assert ms[..j] == ms;
      assert ModuleContent(ms[j..]) == [];
    } else {
      ModulesReadStep(ms, j);
      ModulesRead(ms, j + 1);
    }
  }

  /** A module block survives being written and read back. */
  lemma ModulesRoundTrip(n: Node)
    requires n.Object? && ModuleBlock(n)
    ensures WriteModules(n).Ok?
    ensures ReadModuleBlock(WriteModules(n).value, Undefined) == Ok(n)
  {
    WriteModulesExact(n);
    ModulesRead(n.members, 0);
    assert n.members[0..] == n.members;
  }

  // ---------------------------------------------------------------- the subsystem

  /** The operation after reading a section back: the section's value restored when it was defined. */
  function Restore(acc: Node, op: Node, key: string): Node
    requires acc.Object?
  {
    if HasDefined(op, key) then Put(acc, key, Lookup(op, key)) else acc
  }

  lemma ReadSectionsCons(c: XmlElement, rest: seq<XmlContent>, op: Node, next: Node)
    requires AddOperation(op) && ReadSection(c, op) == Ok(next)
    ensures AddOperation(next)
    ensures ReadSections([Child(c)] + rest, op) == ReadSections(rest, next)
  {
    var content := [Child(c)] + rest;
    assert content[0] == Child(c);
    assert content[1..] == rest;
  }

  lemma ConfigurationSectionRead(op: Node, acc: Node)
    requires AddOperation(op) && AddOperation(acc) && HasDefined(op, ConfigurationKey)
    ensures WriteSection(op, Configuration).Ok? && WriteSection(op, Configuration).value != []
    ensures ReadSection(WriteSection(op, Configuration).value[0].elem, acc)
      == Ok(Put(acc, ConfigurationKey, Lookup(op, ConfigurationKey)))
  {
    var v := Lookup(op, ConfigurationKey);
    ConfigurationRoundTrip(v);
    var e := WriteConfiguration(v).value;
    assert WriteSection(op, Configuration) == Ok([Child(e)]);
    assert InDialect(e, Configuration);
  }

  lemma PropertiesSectionRead(op: Node, acc: Node)
    requires AddOperation(op) && AddOperation(acc) && HasDefined(op, PropertiesKey)
    ensures WriteSection(op, Properties).Ok? && WriteSection(op, Properties).value != []
    ensures ReadSection(WriteSection(op, Properties).value[0].elem, acc)
      == Ok(Put(acc, PropertiesKey, Lookup(op, PropertiesKey)))
  {
    var v := Lookup(op, PropertiesKey);
    PropertiesRoundTrip(v);
    var e := DialectElement(Properties, [], WriteProperties(v).value);
    assert WriteSection(op, Properties) == Ok([Child(e)]);
    assert InDialect(e, Properties);
    assert ReadProperties(e) == Ok(v);
  }

  lemma ModulesSectionRead(op: Node, acc: Node)
    requires AddOperation(op) && AddOperation(acc) && HasDefined(op, ModulesKey)
    ensures WriteSection(op, Modules).Ok? && WriteSection(op, Modules).value != []
    ensures ReadSection(WriteSection(op, Modules).value[0].elem, acc)
      == Ok(Put(acc, ModulesKey, Lookup(op, ModulesKey)))
  {
    var v := Lookup(op, ModulesKey);
    ModulesRoundTrip(v);
    var e := DialectElement(Modules, [], WriteModules(v).value);
    assert WriteSection(op, Modules) == Ok([Child(e)]);
    assert InDialect(e, Modules);
    assert ReadModules(e) == Ok(v);
  }

  /** Reading back one written section restores its value, or leaves the operation alone when it was not written. */
  lemma SectionRoundTrip(op: Node, tag: Element, acc: Node, rest: seq<XmlContent>)
    requires AddOperation(op) && AddOperation(acc)
    requires tag in {Configuration, Properties, Modules}
    ensures WriteSection(op, tag).Ok?
    ensures AddOperation(Restore(acc, op, SectionKey(tag)))
    ensures ReadSections(WriteSection(op, tag).value + rest, acc) == ReadSections(rest, Restore(acc, op, SectionKey(tag)))
  {
    var key := SectionKey(tag);
    if !HasDefined(op, key) {
      assert WriteSection(op, tag) == Ok([]);
      assert [] + rest == rest;
    } else {
      if tag == Configuration {
        ConfigurationSectionRead(op, acc);
      } else if tag == Properties {
        PropertiesSectionRead(op, acc);
      } else {
        ModulesSectionRead(op, acc);
      }
      var written := WriteSection(op, tag).value;
      assert written == [Child(written[0].elem)];
      ReadSectionsCons(written[0].elem, rest, acc, Put(acc, key, Lookup(op, key)));
    }
  }

  lemma LastSectionRoundTrip(op: Node, tag: Element, acc: Node)
    requires AddOperation(op) && AddOperation(acc)
    requires tag in {Configuration, Properties, Modules}
    ensures WriteSection(op, tag).Ok?
    ensures ReadSections(WriteSection(op, tag).value, acc) == Ok(Restore(acc, op, SectionKey(tag)))
  {
    SectionRoundTrip(op, tag, acc, []);
    assert WriteSection(op, tag).value + [] == WriteSection(op, tag).value;
  }

  /** Every section of a document the reader can produce renders. */
  lemma SectionsWritten(op: Node)
    requires AddOperation(op)
    ensures WriteSection(op, Configuration).Ok? && WriteSection(op, Properties).Ok? && WriteSection(op, Modules).Ok?
  {
    SectionRoundTrip(op, Configuration, op, []);
    SectionRoundTrip(op, Properties, op, []);
    SectionRoundTrip(op, Modules, op, []);
  }

  /** The three sections in the writer's order. */
  function WrittenSections(op: Node): seq<XmlContent>
    requires AddOperation(op)
  {
    SectionsWritten(op);
    WriteSection(op, Configuration).value + (WriteSection(op, Properties).value + WriteSection(op, Modules).value)
  }

  /** The written sections, given what each section writes. */
  lemma WrittenSectionsOf(op: Node, c: seq<XmlContent>, p: seq<XmlContent>, m: seq<XmlContent>)
    requires AddOperation(op)
    requires WriteSection(op, Configuration) == Ok(c)
    requires WriteSection(op, Properties) == Ok(p)
    requires WriteSection(op, Modules) == Ok(m)
    ensures WrittenSections(op) == c + (p + m)
  {
  }

  /** Without a defined `modules` key the writer emits no `modules` element. */
  lemma ModulesAbsentWritten(op: Node)
    requires !HasDefined(op, ModulesKey)
    ensures WriteSection(op, Modules) == Ok([])
  {
  }

  /** `acc` with every section of `op` that is defined restored. */
  function RestoreAll(acc: Node, op: Node): Node
    requires acc.Object?
  {
    Restore(Restore(Restore(acc, op, ConfigurationKey), op, PropertiesKey), op, ModulesKey)
  }

  lemma WriteContentExact(op: Node)
    requires AddOperation(op)
    ensures WriteActivation(op).Ok?
    ensures WriteContent(op) == Ok(XmlElement(NamespaceUri(Current), SubsystemElementName, WriteActivation(op).value, WrittenSections(op)))
  {
    SectionsWritten(op);
    var c := WriteSection(op, Configuration).value;
    var p := WriteSection(op, Properties).value;
    var m := WriteSection(op, Modules).value;
    WrittenSectionsOf(op, c, p, m);
    AppendAssoc(c, p, m);
  }

  /** The first two sections read back, the `modules` section still to come. */
  lemma ReadLeadingSections(op: Node, acc: Node)
    requires AddOperation(op) && AddOperation(acc)
    ensures WriteSection(op, Configuration).Ok? && WriteSection(op, Properties).Ok? && WriteSection(op, Modules).Ok?
    ensures AddOperation(Restore(Restore(acc, op, ConfigurationKey), op, PropertiesKey))
    ensures ReadSections(WrittenSections(op), acc)
      == ReadSections(WriteSection(op, Modules).value, Restore(Restore(acc, op, ConfigurationKey), op, PropertiesKey))
  {
    SectionsWritten(op);
    var c := WriteSection(op, Configuration).value;
    var p := WriteSection(op, Properties).value;
    var m := WriteSection(op, Modules).value;
    SectionRoundTrip(op, Configuration, acc, p + m);
    var acc1 := Restore(acc, op, ConfigurationKey);
    assert ReadSections(c + (p + m), acc) == ReadSections(p + m, acc1);
    SectionRoundTrip(op, Properties, acc1, m);
  }

  lemma ReadWrittenSections(op: Node, acc: Node)
    requires AddOperation(op) && AddOperation(acc)
    ensures ReadSections(WrittenSections(op), acc) == Ok(RestoreAll(acc, op))
  {
    ReadLeadingSections(op, acc);
    var acc2 := Restore(Restore(acc, op, ConfigurationKey), op, PropertiesKey);
    LastSectionRoundTrip(op, Modules, acc2);
    assert ReadSections(WriteSection(op, Modules).value, acc2) == Ok(Restore(acc2, op, ModulesKey));
  }

  lemma RestoreAllLookup(acc: Node, op: Node, k: string)
    requires acc.Object?
    ensures Lookup(RestoreAll(acc, op), k) ==
      if k in {ConfigurationKey, PropertiesKey, ModulesKey} && HasDefined(op, k) then Lookup(op, k) else Lookup(acc, k)
  {
    var acc1 := Restore(acc, op, ConfigurationKey);
    var acc2 := Restore(acc1, op, PropertiesKey);
    assert Lookup(acc1, k) == if k == ConfigurationKey && HasDefined(op, k) then Lookup(op, k) else Lookup(acc, k);
    assert Lookup(acc2, k) == if k == PropertiesKey && HasDefined(op, k) then Lookup(op, k) else Lookup(acc1, k);
  }

  /** Restoring the sections into an operation that already agrees on everything else completes it. */
  lemma RestoreAllComplete(acc: Node, op: Node)
    requires AddOperation(op) && acc.Object?
    requires forall k :: k !in {ConfigurationKey, PropertiesKey, ModulesKey} ==> Lookup(acc, k) == Lookup(op, k)
    requires forall k :: k in {ConfigurationKey, PropertiesKey, ModulesKey} ==> Lookup(acc, k) == Undefined
    ensures forall k :: Lookup(RestoreAll(acc, op), k) == Lookup(op, k)
  {
    forall k ensures Lookup(RestoreAll(acc, op), k) == Lookup(op, k) {
      RestoreAllLookup(acc, op, k);
    }
  }

  /** The `activation` attribute is read back to the value it was written from. */
  lemma ActivationAttributeRead(op: Node)
    requires AddOperation(op)
    ensures WriteActivation(op).Ok?
    ensures ReadActivation(WriteActivation(op).value, NewAddOperation()).Ok?
    ensures Lookup(ReadActivation(WriteActivation(op).value, NewAddOperation()).value, ActivationKey)
      == Lookup(op, ActivationKey)
  {
    if HasDefined(op, ActivationKey) {
      DefinedActivationRead(op);
    } else {
      AbsentActivationRead(op);
    }
  }

  lemma DefinedActivationRead(op: Node)
    requires AddOperation(op) && HasDefined(op, ActivationKey)
    ensures WriteActivation(op).Ok?
    ensures ReadActivation(WriteActivation(op).value, NewAddOperation()).Ok?
    ensures Lookup(ReadActivation(WriteActivation(op).value, NewAddOperation()).value, ActivationKey)
      == Lookup(op, ActivationKey)
  {
    var value := Lookup(op, ActivationKey);
    assert value.Str?;
    assert WriteActivation(op).value == [XmlAttr(None, "activation", value.text)];
    ActivationAttributeValue(value.text, NewAddOperation());
  }

  /** One plain `activation` attribute is read into the `activation` key. */
  lemma ActivationAttributeValue(text: string, op: Node)
    requires AddOperation(op)
    ensures ReadActivation([XmlAttr(None, "activation", text)], op).Ok?
    ensures Lookup(ReadActivation([XmlAttr(None, "activation", text)], op).value, ActivationKey) == Str(text)
  {
    var attrs := [XmlAttr(None, "activation", text)];
    assert Plain(attrs[0], {Activation});
    assert attrs[1..] == [];
  }

  lemma AbsentActivationRead(op: Node)
    requires !HasDefined(op, ActivationKey)
    ensures WriteActivation(op) == Ok([])
    ensures ReadActivation([], NewAddOperation()) == Ok(NewAddOperation())
    ensures Lookup(NewAddOperation(), ActivationKey) == Lookup(op, ActivationKey)
  {
    NewOperationLookup(ActivationKey);
  }

  /** Outside the three sections, the operation read from the written attributes agrees with `op`. */
  lemma ActivationReadOutside(op: Node)
    requires AddOperation(op)
    ensures WriteActivation(op).Ok?
    ensures ReadActivation(WriteActivation(op).value, NewAddOperation()).Ok?
    ensures var acc := ReadActivation(WriteActivation(op).value, NewAddOperation()).value;
      forall k :: k !in {ConfigurationKey, PropertiesKey, ModulesKey} ==> Lookup(acc, k) == Lookup(op, k)
  {
    ActivationAttributeRead(op);
    var base := NewAddOperation();
    var acc := ReadActivation(WriteActivation(op).value, base).value;
    forall k | k !in {ConfigurationKey, PropertiesKey, ModulesKey} ensures Lookup(acc, k) == Lookup(op, k) {
      if k != ActivationKey {
        SameOutsideSections(acc, op, k);
      }
    }
  }

  /** Two operations of the reader's shape agree on every key outside the activation and the sections. */
  lemma SameOutsideSections(a: Node, b: Node, k: string)
    requires OperationEnvelope(a) && OperationEnvelope(b)
    requires k !in {ActivationKey, ConfigurationKey, PropertiesKey, ModulesKey}
    ensures Lookup(a, k) == Lookup(b, k)
  {
    if k != OperationKey && k != AddressKey {
      NotOperationKey(k);
      ForeignKeyAbsent(a, k);
      ForeignKeyAbsent(b, k);
    }
  }

  lemma NotOperationKey(k: string)
    requires k !in {ActivationKey, ConfigurationKey, PropertiesKey, ModulesKey}
    requires k != OperationKey && k != AddressKey
    ensures k !in OperationKeys
  {
  }

  lemma ForeignKeyAbsent(op: Node, k: string)
    requires OperationKeysOnly(op)
    requires k !in OperationKeys
    ensures Lookup(op, k) == Undefined
  {
  }


  /** The operation read from the written attributes holds no section yet. */
  lemma ActivationReadSections(op: Node)
    requires AddOperation(op)
    ensures WriteActivation(op).Ok?
    ensures ReadActivation(WriteActivation(op).value, NewAddOperation()).Ok?
    ensures var acc := ReadActivation(WriteActivation(op).value, NewAddOperation()).value;
      forall k :: k in {ConfigurationKey, PropertiesKey, ModulesKey} ==> Lookup(acc, k) == Undefined
  {
    ActivationAttributeRead(op);
    var base := NewAddOperation();
    var acc := ReadActivation(WriteActivation(op).value, base).value;
    forall k | k in {ConfigurationKey, PropertiesKey, ModulesKey} ensures Lookup(acc, k) == Undefined {
      assert Lookup(acc, k) == Lookup(base, k);
      NewOperationLookup(k);
    }
  }

  /** The reader's answer assembled from its attribute step and its content step. */
  lemma ReadElementOf(root: XmlElement, operations: seq<Node>, withActivation: Node, complete: Node)
    requires NamespaceForUri(root.ns) == Osgi10
    requires ReadActivation(root.attrs, NewAddOperation()) == Ok(withActivation)
    requires ReadSections(root.content, withActivation) == Ok(complete)
    ensures ReadElement(root, operations) == Ok(operations + [complete])
  {
  }

  /**
   * Writing a document the reader can produce and reading the result back
   * gives one operation with the same value under every key.
   */
  lemma WriteThenRead(op: Node, operations: seq<Node>)
    requires AddOperation(op)
    ensures WriteContent(op).Ok?
    ensures ReadElement(WriteContent(op).value, operations).Ok?
    ensures var ops := ReadElement(WriteContent(op).value, operations).value;
      |ops| == |operations| + 1 && forall k :: Lookup(ops[|operations|], k) == Lookup(op, k)
  {
    WriteContentExact(op);
    ActivationReadOutside(op);
    ActivationReadSections(op);
    var x := WriteContent(op).value;
    var acc := ReadActivation(x.attrs, NewAddOperation()).value;
    ReadWrittenSections(op, acc);
    RestoreAllComplete(acc, op);
    ReadElementOf(x, operations, acc, RestoreAll(acc, op));
  }

  /**
   * The round trip from the reader's side: whatever the reader accepts, the
   * writer renders to a document the reader reads back to the same values.
   */
  lemma ReadWriteRead(root: XmlElement, operations: seq<Node>)
    requires ReadElement(root, operations).Ok?
    ensures var op := ReadElement(root, operations).value[|operations|];
      && WriteContent(op).Ok?
      && ReadElement(WriteContent(op).value, []).Ok?
      && |ReadElement(WriteContent(op).value, []).value| == 1
      && forall k :: Lookup(ReadElement(WriteContent(op).value, []).value[0], k) == Lookup(op, k)
  {
    var op := ReadElement(root, operations).value[|operations|];
    WriteThenRead(op, []);
  }

  /** The writer looks only at the values under keys, never at the order of the members. */
  lemma WriteSeesOnlyValues(a: Node, b: Node)
    requires forall k :: Lookup(a, k) == Lookup(b, k)
    ensures WriteContent(a) == WriteContent(b)
  {
    ActivationSeesOnlyValue(a, b);
    SectionSeesOnlyValue(a, b, Configuration);
    SectionSeesOnlyValue(a, b, Properties);
    SectionSeesOnlyValue(a, b, Modules);
    SamePartsSameContent(a, b);
  }

  lemma SamePartsSameContent(a: Node, b: Node)
    requires WriteActivation(a) == WriteActivation(b)
    requires WriteSection(a, Configuration) == WriteSection(b, Configuration)
    requires WriteSection(a, Properties) == WriteSection(b, Properties)
    requires WriteSection(a, Modules) == WriteSection(b, Modules)
    ensures WriteContent(a) == WriteContent(b)
  {
  }

  lemma ActivationSeesOnlyValue(a: Node, b: Node)
    requires Lookup(a, ActivationKey) == Lookup(b, ActivationKey)
    ensures WriteActivation(a) == WriteActivation(b)
  {
  }

  lemma SectionSeesOnlyValue(a: Node, b: Node, tag: Element)
    requires tag in {Configuration, Properties, Modules}
    requires Lookup(a, SectionKey(tag)) == Lookup(b, SectionKey(tag))
    ensures WriteSection(a, tag) == WriteSection(b, tag)
  {
  }

  /** Rendering is a fixed point after one round: the re-read document renders identically. */
  lemma WriteIsStable(op: Node)
    requires AddOperation(op)
    ensures WriteContent(op).Ok?
    ensures ReadElement(WriteContent(op).value, []).Ok?
    ensures var again := ReadElement(WriteContent(op).value, []).value[0];
      WriteContent(again) == WriteContent(op)
  {
    WriteThenRead(op, []);
    var again := ReadElement(WriteContent(op).value, []).value[0];
    WriteSeesOnlyValues(again, op);
  }
}
