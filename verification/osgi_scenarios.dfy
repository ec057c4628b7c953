/**
 * Concrete reading scenarios for the OSGi subsystem reader, stated for all
 * names and values of the given shape.
 */
module OsgiScenarios {
  import opened Wrappers
  import opened Dmr
  import opened Xml
  import opened OsgiDialect
  import opened OsgiReader
  import opened OsgiWriter
  import opened OsgiRoundTrip
  import opened Seqs

  /** A block holding one property. */
  function SingleProperty(name: string, value: string): Node {
    Object([Member(name, Str(value))])
  }

  lemma SinglePropertyRead(name: string, value: string)
    requires PropertyValue(Str(value))
    ensures PropertyBlock(SingleProperty(name, value))
    ensures ReadPropertyBlock([Child(PropertyElement(name, value))], Undefined) == Ok(SingleProperty(name, value))
  {
    var n := SingleProperty(name, value);
    assert KeysOf(n.members) == [name];
    PropertiesRoundTrip(n);
    WritePropertiesExact(n);
    assert PropertyContent(n.members) == [Child(PropertyElement(name, value))];
  }

  /** A `configuration` element with a `pid` and one property. */
  function ConfigurationWithProperty(pid: string, name: string, value: string): XmlElement {
    DialectElement(Configuration, [XmlAttr(None, "pid", pid)], [Child(PropertyElement(name, value))])
  }

  /** A `properties` element with one property. */
  function PropertiesWithProperty(name: string, value: string): XmlElement {
    DialectElement(Properties, [], [Child(PropertyElement(name, value))])
  }

  /** The operation such a document describes. */
  function BothBlocksOperation(pid: string, name: string, v1: string, v2: string): Node {
    Put(Put(NewAddOperation(), ConfigurationKey, ConfigurationNodeWith(pid, name, v1)), PropertiesKey, SingleProperty(name, v2))
  }

  /** The `configuration` node such a document describes. */
  function ConfigurationNodeWith(pid: string, name: string, value: string): Node {
    Put(Put(Undefined, PidKey, Str(pid)), ConfigurationPropertiesKey, SingleProperty(name, value))
  }

  lemma ConfigurationNodeWithShape(pid: string, name: string, value: string)
    requires PropertyValue(Str(value))
    ensures ConfigurationNode(ConfigurationNodeWith(pid, name, value))
    ensures Lookup(ConfigurationNodeWith(pid, name, value), ConfigurationPropertiesKey) == SingleProperty(name, value)
  {
    SinglePropertyRead(name, value);
    PutSecondMember(PidKey, Str(pid), ConfigurationPropertiesKey, SingleProperty(name, value));
  }

  lemma BothBlocksOperationShape(pid: string, name: string, v1: string, v2: string)
    requires PropertyValue(Str(v1)) && PropertyValue(Str(v2))
    ensures AddOperation(BothBlocksOperation(pid, name, v1, v2))
  {
    var configuration := ConfigurationNodeWith(pid, name, v1);
    ConfigurationNodeWithShape(pid, name, v1);
    SinglePropertyRead(name, v2);
    var op0 := NewAddOperation();
    PutSection(op0, ConfigurationKey, configuration);
    PutSection(Put(op0, ConfigurationKey, configuration), PropertiesKey, SingleProperty(name, v2));
  }

  lemma BothBlocksOperationSections(pid: string, name: string, v1: string, v2: string)
    ensures var op := BothBlocksOperation(pid, name, v1, v2);
      && Lookup(op, ConfigurationKey) == ConfigurationNodeWith(pid, name, v1)
      && Lookup(op, PropertiesKey) == SingleProperty(name, v2)
      && !HasDefined(op, ModulesKey) && !HasDefined(op, ActivationKey)
  {
    var op0 := NewAddOperation();
    var configuration := ConfigurationNodeWith(pid, name, v1);
    NewOperationLookup(ModulesKey);
    NewOperationLookup(ActivationKey);
    LookupPastTwoPuts(op0, ConfigurationKey, configuration, PropertiesKey, SingleProperty(name, v2), ModulesKey);
    LookupPastTwoPuts(op0, ConfigurationKey, configuration, PropertiesKey, SingleProperty(name, v2), ActivationKey);
  }


  lemma SinglePropertyWritten(name: string, value: string)
    requires PropertyValue(Str(value))
    ensures WriteProperties(SingleProperty(name, value)) == Ok([Child(PropertyElement(name, value))])
  {
    var ms := [Member(name, Str(value))];
    assert KeysOf(ms) == [name];
    WritePropertiesExact(SingleProperty(name, value));
    var c := PropertyContent(ms);
    assert |c| == 1 && c[0] == Child(PropertyElement(name, value));
    assert c == [Child(PropertyElement(name, value))];
  }

  lemma ConfigurationWritten(pid: string, name: string, value: string)
    requires PropertyValue(Str(value))
    ensures WriteConfiguration(ConfigurationNodeWith(pid, name, value)) == Ok(ConfigurationWithProperty(pid, name, value))
  {
    var configuration := ConfigurationNodeWith(pid, name, value);
    SinglePropertyWritten(name, value);
    assert Lookup(configuration, PidKey) == Str(pid);
    assert Lookup(configuration, ConfigurationPropertiesKey) == SingleProperty(name, value);
  }

  lemma ConfigurationSectionWritten(op: Node, pid: string, name: string, value: string)
    requires PropertyValue(Str(value))
    requires Lookup(op, ConfigurationKey) == ConfigurationNodeWith(pid, name, value)
    ensures WriteSection(op, Configuration) == Ok([Child(ConfigurationWithProperty(pid, name, value))])
  {
    ConfigurationWritten(pid, name, value);
  }

  lemma PropertiesSectionWritten(op: Node, name: string, value: string)
    requires PropertyValue(Str(value))
    requires Lookup(op, PropertiesKey) == SingleProperty(name, value)
    ensures WriteSection(op, Properties) == Ok([Child(PropertiesWithProperty(name, value))])
  {
    SinglePropertyWritten(name, value);
  }

  /** The sections written for an operation holding exactly those two blocks. */
  lemma TwoBlocksSections(op: Node, pid: string, name: string, v1: string, v2: string)
    requires PropertyValue(Str(v1)) && PropertyValue(Str(v2))
    requires AddOperation(op)
    requires Lookup(op, ConfigurationKey) == ConfigurationNodeWith(pid, name, v1)
    requires Lookup(op, PropertiesKey) == SingleProperty(name, v2)
    requires !HasDefined(op, ModulesKey)
    ensures WrittenSections(op) == [Child(ConfigurationWithProperty(pid, name, v1)), Child(PropertiesWithProperty(name, v2))]
  {
    ConfigurationSectionWritten(op, pid, name, v1);
    PropertiesSectionWritten(op, name, v2);
    ModulesAbsentWritten(op);
    TwoSectionsWritten(op, Child(ConfigurationWithProperty(pid, name, v1)), Child(PropertiesWithProperty(name, v2)));
  }

  lemma TwoSectionsWritten(op: Node, c: XmlContent, p: XmlContent)
    requires AddOperation(op)
    requires WriteSection(op, Configuration) == Ok([c])
    requires WriteSection(op, Properties) == Ok([p])
    requires WriteSection(op, Modules) == Ok([])
    ensures WrittenSections(op) == [c, p]
  {
    WrittenSectionsOf(op, [c], [p], []);
    PairOfSingletons(c, p);
  }

  /** Any operation holding exactly those two blocks is written as the two elements. */
  lemma TwoBlocksWritten(op: Node, pid: string, name: string, v1: string, v2: string)
    requires PropertyValue(Str(v1)) && PropertyValue(Str(v2))
    requires AddOperation(op)
    requires Lookup(op, ConfigurationKey) == ConfigurationNodeWith(pid, name, v1)
    requires Lookup(op, PropertiesKey) == SingleProperty(name, v2)
    requires !HasDefined(op, ModulesKey) && !HasDefined(op, ActivationKey)
    ensures WriteContent(op)
      == Ok(XmlElement(NamespaceUri(Current), SubsystemElementName, [],
                       [Child(ConfigurationWithProperty(pid, name, v1)), Child(PropertiesWithProperty(name, v2))]))
  {
    WriteContentExact(op);
    TwoBlocksSections(op, pid, name, v1, v2);
    assert WriteActivation(op) == Ok([]);
  }

  /**
   * The `configuration` block and the `properties` block each start from a
   * fresh node, so one name may appear in both.
   */
  lemma SameNameInBothBlocks(pid: string, name: string, v1: string, v2: string)
    requires PropertyValue(Str(v1)) && PropertyValue(Str(v2))
    ensures var root := XmlElement(NamespaceUri(Current), SubsystemElementName, [],
        [Child(ConfigurationWithProperty(pid, name, v1)), Child(PropertiesWithProperty(name, v2))]);
      var r := ReadElement(root, []);
      && r.Ok?
      && Lookup(Lookup(Lookup(r.value[0], ConfigurationKey), ConfigurationPropertiesKey), name) == Str(v1)
      && Lookup(Lookup(r.value[0], PropertiesKey), name) == Str(v2)
  {
    BothBlocksOperationShape(pid, name, v1, v2);
    BothBlocksOperationSections(pid, name, v1, v2);
    TwoBlocksWritten(BothBlocksOperation(pid, name, v1, v2), pid, name, v1, v2);
    ConfigurationNodeWithShape(pid, name, v1);
    assert Lookup(SingleProperty(name, v1), name) == Str(v1);
    assert Lookup(SingleProperty(name, v2), name) == Str(v2);
    WriteThenRead(BothBlocksOperation(pid, name, v1, v2), []);
  }
}
