/**
 * The writer of the OSGi subsystem configuration: renders the subsystem's
 * model document as an element tree in the current namespace. Each section
 * appears only when its key is defined; Object members keep their order.
 */
module OsgiWriter {
  import opened Wrappers
  import opened Dmr
  import opened Xml
  import opened OsgiDialect

  /** An element the writer starts below the subsystem element: it inherits the current namespace. */
  function DialectElement(tag: Element, attrs: seq<XmlAttr>, content: seq<XmlContent>): XmlElement
    requires tag != UnknownElement
  {
    XmlElement(NamespaceUri(Current), ElementName(tag), attrs, content)
  }

  /** `writeAttribute(attr, value)`: an unprefixed attribute holding `value.asString()`. */
  function WriteAttribute(attr: Attribute, value: Node): (r: Result<XmlAttr, NodeError>)
    requires attr != UnknownAttribute
    ensures r.Ok? <==> value.Str? || value.Bool?
    ensures r.Ok? ==> r.value.ns.None? && AttributeForName(r.value.name) == attr
    ensures r.Ok? ==> r.value.value == AsString(value).value
    ensures value.Str? ==> r.value.value == value.text
  {
    var text :- AsString(value);
    Ok(XmlAttr(None, AttributeName(attr), text))
  }

  /** A `property` element: the key as its `name` attribute, the value as its text. */
  function PropertyElement(name: string, value: string): XmlElement {
    DialectElement(Property, [XmlAttr(None, AttributeName(Name), name)], [Chars(value)])
  }

  /** One `property` element per key, in the order of `keys`. */
  function WritePropertyElements(properties: Node, keys: seq<string>): (r: Result<seq<XmlContent>, NodeError>)
    ensures r.Ok? <==> forall i :: 0 <= i < |keys| ==> AsString(Lookup(properties, keys[i])).Ok?
    ensures r.Ok? ==> |r.value| == |keys|
    ensures r.Ok? ==> forall i :: 0 <= i < |keys| ==>
      r.value[i] == Child(PropertyElement(keys[i], AsString(Lookup(properties, keys[i])).value))
  {
    if keys == [] then Ok([])
    else
      assert forall i :: 1 <= i < |keys| ==> keys[i] == keys[1..][i - 1];
      var value :- AsString(Lookup(properties, keys[0]));
      var rest :- WritePropertyElements(properties, keys[1..]);
      Ok([Child(PropertyElement(keys[0], value))] + rest)
  }

  /** The members of a properties Object as `property` elements, in key order. */
  function WriteProperties(properties: Node): (r: Result<seq<XmlContent>, NodeError>)
    ensures r.Ok? <==>
      properties.Object? && forall i :: 0 <= i < |Keys(properties)| ==> AsString(Lookup(properties, Keys(properties)[i])).Ok?
    ensures r.Ok? ==> properties.Object? && |r.value| == |Keys(properties)|
    ensures r.Ok? ==> forall i :: 0 <= i < |Keys(properties)| ==>
      r.value[i] == Child(PropertyElement(Keys(properties)[i], AsString(Lookup(properties, Keys(properties)[i])).value))
  {
    var keys :- ObjectKeys(properties);
    WritePropertyElements(properties, keys)
  }

  /** The `configuration` element: `pid` attribute, then its `configuration-properties` if defined. */
  function WriteConfiguration(configuration: Node): (r: Result<XmlElement, NodeError>)
    ensures r.Ok? <==>
      && Has(configuration, PidKey)
      && AsString(Lookup(configuration, PidKey)).Ok?
      && (HasDefined(configuration, ConfigurationPropertiesKey) ==>
            WriteProperties(Lookup(configuration, ConfigurationPropertiesKey)).Ok?)
    ensures r.Ok? ==> InDialect(r.value, Configuration)
    ensures r.Ok? ==> r.value.attrs == [XmlAttr(None, "pid", AsString(Lookup(configuration, PidKey)).value)]
    ensures r.Ok? && !HasDefined(configuration, ConfigurationPropertiesKey) ==> r.value.content == []
    ensures r.Ok? && HasDefined(configuration, ConfigurationPropertiesKey) ==>
      var properties := Lookup(configuration, ConfigurationPropertiesKey);
      && |r.value.content| == |Keys(properties)|
      && forall i :: 0 <= i < |Keys(properties)| ==>
           r.value.content[i] == Child(PropertyElement(Keys(properties)[i], AsString(Lookup(properties, Keys(properties)[i])).value))
  {
    var pid :- Require(configuration, PidKey);
    var pidAttribute :- WriteAttribute(Pid, pid);
    if !HasDefined(configuration, ConfigurationPropertiesKey) then
      Ok(DialectElement(Configuration, [pidAttribute], []))
    else
      var properties := Lookup(configuration, ConfigurationPropertiesKey);
      var content :- WriteProperties(properties);
      Ok(DialectElement(Configuration, [pidAttribute], content))
  }

  /** The attributes of one `module` element: its identifier, and `start` only when defined. */
  function ModuleAttributes(identifier: string, entry: Node): (r: Result<seq<XmlAttr>, NodeError>)
    ensures r.Err? <==> HasDefined(entry, StartKey) && AsString(Lookup(entry, StartKey)).Err?
    ensures r.Ok? ==> |r.value| == (if HasDefined(entry, StartKey) then 2 else 1)
    ensures r.Ok? ==> r.value[0] == XmlAttr(None, "identifier", identifier)
    ensures r.Ok? && HasDefined(entry, StartKey) ==>
      r.value[1] == XmlAttr(None, "start", AsString(Lookup(entry, StartKey)).value)
  {
    var start :-
      if HasDefined(entry, StartKey) then
        var attribute :- WriteAttribute(Start, Lookup(entry, StartKey));
        Ok([attribute])
      else Ok([]);
    Ok([XmlAttr(None, AttributeName(Identifier), identifier)] + start)
  }

  /** One empty `module` element per key, in the order of `keys`. */
  function WriteModuleElements(modules: Node, keys: seq<string>): (r: Result<seq<XmlContent>, NodeError>)
    ensures r.Ok? <==> forall i :: 0 <= i < |keys| ==> ModuleAttributes(keys[i], Lookup(modules, keys[i])).Ok?
    ensures r.Ok? ==> |r.value| == |keys|
    ensures r.Ok? ==> forall i :: 0 <= i < |keys| ==>
      r.value[i] == Child(DialectElement(Module, ModuleAttributes(keys[i], Lookup(modules, keys[i])).value, []))
  {
    if keys == [] then Ok([])
    else
      assert forall i :: 1 <= i < |keys| ==> keys[i] == keys[1..][i - 1];
      var attributes :- ModuleAttributes(keys[0], Lookup(modules, keys[0]));
      var rest :- WriteModuleElements(modules, keys[1..]);
      Ok([Child(DialectElement(Module, attributes, []))] + rest)
  }

  function WriteModules(modules: Node): (r: Result<seq<XmlContent>, NodeError>)
    ensures r.Ok? <==>
      modules.Object? && forall i :: 0 <= i < |Keys(modules)| ==> ModuleAttributes(Keys(modules)[i], Lookup(modules, Keys(modules)[i])).Ok?
    ensures r.Ok? ==> modules.Object? && |r.value| == |Keys(modules)|
    ensures r.Ok? ==> forall i :: 0 <= i < |Keys(modules)| ==>
      r.value[i] == Child(DialectElement(Module, ModuleAttributes(Keys(modules)[i], Lookup(modules, Keys(modules)[i])).value, []))
  {
    var keys :- ObjectKeys(modules);
    WriteModuleElements(modules, keys)
  }

  /** A section rendered only when its key is defined in `node`. */
  function WriteSection(node: Node, tag: Element): (r: Result<seq<XmlContent>, NodeError>)
    requires tag in {Configuration, Properties, Modules}
    ensures r.Ok? ==> |r.value| <= 1
    ensures r.Ok? ==> (r.value != [] <==> HasDefined(node, SectionKey(tag)))
    ensures r.Ok? && r.value != [] ==> r.value[0].Child? && InDialect(r.value[0].elem, tag)
    ensures HasDefined(node, SectionKey(tag)) && tag == Configuration ==>
      (r.Ok? <==> WriteConfiguration(Lookup(node, SectionKey(tag))).Ok?)
      && (r.Ok? ==> r.value == [Child(WriteConfiguration(Lookup(node, SectionKey(tag))).value)])
    ensures HasDefined(node, SectionKey(tag)) && tag == Properties ==>
      (r.Ok? <==> WriteProperties(Lookup(node, SectionKey(tag))).Ok?)
      && (r.Ok? ==> r.value[0].elem.attrs == [] && r.value[0].elem.content == WriteProperties(Lookup(node, SectionKey(tag))).value)
    ensures HasDefined(node, SectionKey(tag)) && tag == Modules ==>
      (r.Ok? <==> WriteModules(Lookup(node, SectionKey(tag))).Ok?)
      && (r.Ok? ==> r.value[0].elem.attrs == [] && r.value[0].elem.content == WriteModules(Lookup(node, SectionKey(tag))).value)
  {
    var key := SectionKey(tag);
    if !HasDefined(node, key) then Ok([])
    else if tag == Configuration then
      var element :- WriteConfiguration(Lookup(node, key));
      Ok([Child(element)])
    else if tag == Properties then
      var properties :- WriteProperties(Lookup(node, key));
      Ok([Child(DialectElement(Properties, [], properties))])
    else
      var modules :- WriteModules(Lookup(node, key));
      Ok([Child(DialectElement(Modules, [], modules))])
  }

  /** The `activation` attribute, only when its key is defined. */
  function WriteActivation(node: Node): (r: Result<seq<XmlAttr>, NodeError>)
    ensures r.Ok? <==> !HasDefined(node, ActivationKey) || AsString(Lookup(node, ActivationKey)).Ok?
    ensures r.Err? ==> r.error == AsString(Lookup(node, ActivationKey)).error
    ensures r.Ok? ==>
      r.value == (if HasDefined(node, ActivationKey) then [XmlAttr(None, "activation", AsString(Lookup(node, ActivationKey)).value)] else [])
  {
    if HasDefined(node, ActivationKey) then
      var attribute :- WriteAttribute(Activation, Lookup(node, ActivationKey));
      Ok([attribute])
    else Ok([])
  }

  lemma SectionsConform(a: seq<XmlContent>, b: seq<XmlContent>, c: seq<XmlContent>)
    requires |a| <= 1 && |b| <= 1 && |c| <= 1
    requires a != [] ==> a[0].Child? && InDialect(a[0].elem, Configuration)
    requires b != [] ==> b[0].Child? && InDialect(b[0].elem, Properties)
    requires c != [] ==> c[0].Child? && InDialect(c[0].elem, Modules)
    ensures Conforms(a + b + c, {Configuration, Properties, Modules})
    ensures Mentions(a + b + c, Configuration) <==> a != []
    ensures Mentions(a + b + c, Properties) <==> b != []
    ensures Mentions(a + b + c, Modules) <==> c != []
  {
    var s := a + b + c;
    assert forall i :: 0 <= i < |s| ==> s[i] == if i < |a| then a[0] else if i < |a| + |b| then b[0] else c[0];
    if a != [] { assert s[0] == a[0]; }
    if b != [] { assert s[|a|] == b[0]; }
    if c != [] { assert s[|a| + |b|] == c[0]; }
  }

  /**
   * `writeContent`: the `subsystem` element in the current namespace with the
   * `activation` attribute and the `configuration`, `properties` and
   * `modules` children, each present exactly when its key is defined.
   */
  function WriteContent(node: Node): (r: Result<XmlElement, NodeError>)
    ensures r.Ok? ==> r.value.ns == NamespaceUri(Current) && r.value.name == SubsystemElementName
    ensures r.Ok? && HasDefined(node, ActivationKey) ==> AsString(Lookup(node, ActivationKey)).Ok?
    ensures r.Ok? ==>
      r.value.attrs == (if HasDefined(node, ActivationKey) then [XmlAttr(None, "activation", AsString(Lookup(node, ActivationKey)).value)] else [])
    ensures r.Ok? ==> Conforms(r.value.content, {Configuration, Properties, Modules})
    ensures r.Ok? ==> (Mentions(r.value.content, Configuration) <==> HasDefined(node, ConfigurationKey))
    ensures r.Ok? ==> (Mentions(r.value.content, Properties) <==> HasDefined(node, PropertiesKey))
    ensures r.Ok? ==> (Mentions(r.value.content, Modules) <==> HasDefined(node, ModulesKey))
    ensures r.Ok? <==>
      WriteActivation(node).Ok? && WriteSection(node, Configuration).Ok?
      && WriteSection(node, Properties).Ok? && WriteSection(node, Modules).Ok?
    ensures r.Ok? ==>
      r.value.content == WriteSection(node, Configuration).value + WriteSection(node, Properties).value
                         + WriteSection(node, Modules).value
  {
    var activation :- WriteActivation(node);
    var configuration :- WriteSection(node, Configuration);
    var properties :- WriteSection(node, Properties);
    var modules :- WriteSection(node, Modules);
    SectionsConform(configuration, properties, modules);
    Ok(XmlElement(NamespaceUri(Current), SubsystemElementName, activation, configuration + properties + modules))
  }
}
