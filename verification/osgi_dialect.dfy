/**
 * The closed vocabulary of the OSGi subsystem configuration dialect: its
 * namespace, element and attribute names, and the keys of the subsystem's
 * model document. Unrecognised names map to an explicit Unknown value.
 */
module OsgiDialect {
  import opened Wrappers
  import opened Xml
  import opened Text

  const SubsystemName := "osgi"
  const SubsystemKey := "subsystem"
  const AddOperationName := "add"

  /** Model keys of the subsystem document. */
  const ActivationKey := "activation"
  const ConfigurationKey := "configuration"
  const ConfigurationPropertiesKey := "configuration-properties"
  const ModulesKey := "modules"
  const PidKey := "pid"
  const PropertiesKey := "properties"
  const StartKey := "start"

  // ---------------------------------------------------------------- namespaces

  datatype Namespace = UnknownNamespace | Osgi10

  /** The namespace the writer uses. */
  const Current := Osgi10

  /**
   * The URI of the OSGi 1.0 namespace. The `Namespace` enum that defines it is
   * not part of this model, so this value is assumed, following the
   * `urn:jboss:domain:<subsystem>:<version>` convention; every property here
   * depends only on it being one fixed string.
   */
  const Osgi10Uri := "urn:jboss:domain:osgi:1.0"

  function NamespaceUri(ns: Namespace): string
    requires ns != UnknownNamespace
  {
    Osgi10Uri
  }

  function NamespaceForUri(uri: string): (ns: Namespace)
    ensures ns != UnknownNamespace ==> NamespaceUri(ns) == uri
  {
    if uri == Osgi10Uri then Osgi10 else UnknownNamespace
  }

  // ---------------------------------------------------------------- elements

  datatype Element = UnknownElement | Configuration | Modules | Module | Properties | Property

  function ElementName(e: Element): (name: string)
    requires e != UnknownElement
    ensures ElementForName(name) == e
  {
    match e
    case Configuration => "configuration"
    case Modules => "modules"
    case Module => "module"
    case Properties => "properties"
    case Property => "property"
  }

  function ElementForName(name: string): Element {
    if name == "configuration" then Configuration
    else if name == "modules" then Modules
    else if name == "module" then Module
    else if name == "properties" then Properties
    else if name == "property" then Property
    else UnknownElement
  }

  /** The element root of the subsystem, written in the current namespace. */
  const SubsystemElementName := "subsystem"

  // ---------------------------------------------------------------- attributes

  datatype Attribute = UnknownAttribute | Activation | Identifier | Name | Pid | Start

  function AttributeName(a: Attribute): (name: string)
    requires a != UnknownAttribute
    ensures AttributeForName(name) == a
  {
    match a
    case Activation => "activation"
    case Identifier => "identifier"
    case Name => "name"
    case Pid => "pid"
    case Start => "start"
  }

  function AttributeForName(name: string): Attribute {
    if name == "activation" then Activation
    else if name == "identifier" then Identifier
    else if name == "name" then Name
    else if name == "pid" then Pid
    else if name == "start" then Start
    else UnknownAttribute
  }

  /** An element of the dialect: in the OSGi 1.0 namespace with the given local name. */
  predicate InDialect(e: XmlElement, tag: Element) {
    NamespaceForUri(e.ns) == Osgi10 && ElementForName(e.name) == tag
  }

  /** An attribute the dialect accepts in a context allowing `allowed`: unprefixed and known there. */
  predicate Plain(a: XmlAttr, allowed: set<Attribute>) {
    a.ns.None? && AttributeForName(a.name) in allowed
  }

  /** The first attribute that is not `Plain`, if any. */
  function FirstStray(attrs: seq<XmlAttr>, allowed: set<Attribute>): (r: Option<XmlAttr>)
    ensures r.None? <==> forall i :: 0 <= i < |attrs| ==> Plain(attrs[i], allowed)
    ensures r.Some? ==> exists i :: 0 <= i < |attrs| && attrs[i] == r.value && !Plain(r.value, allowed)
                                    && forall j :: 0 <= j < i ==> Plain(attrs[j], allowed)
  {
    if attrs == [] then None
    else if !Plain(attrs[0], allowed) then Some(attrs[0])
    else
      var r := FirstStray(attrs[1..], allowed);
      assert forall i :: 1 <= i < |attrs| ==> attrs[i] == attrs[1..][i - 1];
      if r.Some? then
        var i :| 0 <= i < |attrs[1..]| && attrs[1..][i] == r.value && !Plain(r.value, allowed)
                  && forall j :: 0 <= j < i ==> Plain(attrs[1..][j], allowed);
        assert attrs[i + 1] == r.value;
        r
      else r
  }

  /** Some piece of content is a child element of the dialect with the given tag. */
  predicate Mentions(content: seq<XmlContent>, tag: Element) {
    exists i :: 0 <= i < |content| && content[i].Child? && InDialect(content[i].elem, tag)
  }

  /** Every child is one of `tags` in the dialect and every text run is blank. */
  predicate Conforms(content: seq<XmlContent>, tags: set<Element>) {
    forall i :: 0 <= i < |content| ==>
      match content[i]
      case Chars(t) => IsBlank(t)
      case Child(c) => NamespaceForUri(c.ns) == Osgi10 && ElementForName(c.name) in tags
  }

  lemma ConformsTail(content: seq<XmlContent>, tags: set<Element>)
    requires content != []
    requires Conforms(content[1..], tags)
    requires content[0].Chars? ==> IsBlank(content[0].text)
    requires content[0].Child? ==> NamespaceForUri(content[0].elem.ns) == Osgi10 && ElementForName(content[0].elem.name) in tags
    ensures Conforms(content, tags)
  {
    assert forall i :: 1 <= i < |content| ==> content[i] == content[1..][i - 1];
  }

  /** The model key under which a section element is stored. */
  function SectionKey(tag: Element): string
    requires tag in {Configuration, Properties, Modules}
  {
    if tag == Configuration then ConfigurationKey
    else if tag == Properties then PropertiesKey
    else ModulesKey
  }
}
