/**
 * The reader of the OSGi subsystem configuration: a strict recursive descent
 * over the element tree that yields exactly one `add` operation addressed at
 * `subsystem=osgi`, or the first error met in document order.
 */
module OsgiReader {
  import opened Wrappers
  import opened Text
  import opened Dmr
  import opened Xml
  import opened OsgiDialect
  import opened Seqs

  datatype ParseError =
    | UnexpectedElement(ns: string, name: string)
    | UnexpectedAttribute(attr: XmlAttr)
    | MissingRequired(missing: set<Attribute>)
    | DuplicateProperty(name: string)
    | DuplicateModule(identifier: string)
    | EmptyPropertyValue(name: string)
    | UnexpectedText(text: string)
    | NotTextOnly(name: string)

  // ---------------------------------------------------------------- shapes of what is read

  /** A property value as the reader stores it: a trimmed, non-empty string. */
  predicate PropertyValue(v: Node) {
    v.Str? && v.text != "" && Trimmed(v.text)
  }

  predicate PropertyMembers(ms: seq<Member>) {
    UniqueKeys(ms) && forall i :: 0 <= i < |ms| ==> PropertyValue(ms[i].value)
  }

  /** A block of properties: never assigned, or an Object of at least one property. */
  predicate PropertyBlock(n: Node) {
    n.Undefined? || (n.Object? && n.members != [] && PropertyMembers(n.members))
  }

  /** A module entry: Undefined when no `start` was given, else the single member `start`. */
  predicate ModuleEntry(v: Node) {
    v.Undefined? || (v.Object? && |v.members| == 1 && v.members[0].key == StartKey && v.members[0].value.Str?)
  }

  predicate ModuleMembers(ms: seq<Member>) {
    UniqueKeys(ms) && forall i :: 0 <= i < |ms| ==> ModuleEntry(ms[i].value)
  }

  predicate ModuleBlock(n: Node) {
    n.Undefined? || (n.Object? && n.members != [] && ModuleMembers(n.members))
  }

  /** A `configuration` node: `pid`, then `configuration-properties` when there were any. */
  predicate ConfigurationNode(n: Node) {
    && n.Object?
    && 1 <= |n.members| <= 2
    && n.members[0].key == PidKey && n.members[0].value.Str?
    && (|n.members| == 2 ==>
          n.members[1].key == ConfigurationPropertiesKey
          && n.members[1].value.Object? && PropertyBlock(n.members[1].value))
  }

  const SubsystemAddress := List([Segment(SubsystemKey, SubsystemName)])

  const OperationKeys: set<string> :=
    {OperationKey, AddressKey, ActivationKey, ConfigurationKey, PropertiesKey, ModulesKey}

  /** The operation names no key but its own. */
  ghost predicate OperationKeysOnly(op: Node) {
    forall k :: Has(op, k) ==> k in OperationKeys
  }

  /** The `add` envelope: an Object of the operation's keys, addressed at `subsystem=osgi`. */
  ghost predicate OperationEnvelope(op: Node) {
    && op.Object?
    && UniqueKeys(op.members)
    && OperationKeysOnly(op)
    && Lookup(op, OperationKey) == Str(AddOperationName)
    && Lookup(op, AddressKey) == SubsystemAddress
  }

  /** Each optional part of the operation is either unassigned or of the shape the reader builds. */
  predicate SectionShapes(op: Node) {
    && (Lookup(op, ActivationKey).Undefined? || Lookup(op, ActivationKey).Str?)
    && (Lookup(op, ConfigurationKey).Undefined? || ConfigurationNode(Lookup(op, ConfigurationKey)))
    && PropertyBlock(Lookup(op, PropertiesKey))
    && ModuleBlock(Lookup(op, ModulesKey))
  }

  /** Every operation the reader can produce has this shape. */
  ghost predicate AddOperation(op: Node) {
    OperationEnvelope(op) && SectionShapes(op)
  }

  /** The six keys of the operation are pairwise different names. */
  lemma OperationKeysDistinct()
    ensures OperationKey != AddressKey
    ensures ActivationKey != OperationKey && ActivationKey != AddressKey
    ensures ConfigurationKey != OperationKey && ConfigurationKey != AddressKey
    ensures PropertiesKey != OperationKey && PropertiesKey != AddressKey
    ensures ModulesKey != OperationKey && ModulesKey != AddressKey
    ensures ActivationKey != ConfigurationKey && ActivationKey != PropertiesKey && ActivationKey != ModulesKey
    ensures ConfigurationKey != PropertiesKey && ConfigurationKey != ModulesKey && PropertiesKey != ModulesKey
  {
    assert |OperationKey| == 9 && OperationKey[0] == 'o';
    assert |AddressKey| == 7 && AddressKey[0] == 'a';
    assert |ActivationKey| == 10 && ActivationKey[0] == 'a';
    assert |ConfigurationKey| == 13 && ConfigurationKey[0] == 'c';
    assert |PropertiesKey| == 10 && PropertiesKey[0] == 'p';
    assert |ModulesKey| == 7 && ModulesKey[0] == 'm';
  }

  /** Assigning a well-shaped section keeps the operation well-shaped. */
  lemma PutSection(op: Node, key: string, v: Node)
    requires AddOperation(op)
    requires key in {ActivationKey, ConfigurationKey, PropertiesKey, ModulesKey}
    requires key == ActivationKey ==> v.Str?
    requires key == ConfigurationKey ==> ConfigurationNode(v)
    requires key == PropertiesKey ==> PropertyBlock(v)
    requires key == ModulesKey ==> ModuleBlock(v)
    ensures AddOperation(Put(op, key, v))
  {
    OperationKeysDistinct();
    var r := Put(op, key, v);
    forall k | Has(r, k) ensures k in OperationKeys {
    }
    assert OperationEnvelope(r);
    assert SectionShapes(r);
  }

  // ---------------------------------------------------------------- reference definitions

  /** The value of the last attribute called `name`, or `dflt` when there is none. */
  function LastValue(attrs: seq<XmlAttr>, name: string, dflt: Option<string>): Option<string> {
    if attrs == [] then dflt
    else
      var rest := LastValue(attrs[..|attrs| - 1], name, dflt);
      if attrs[|attrs| - 1].name == name then Some(attrs[|attrs| - 1].value) else rest
  }

  /** The name a `property` child declares (its last attribute), if it is one. */
  function DeclaredName(c: XmlContent): seq<string> {
    if c.Child? && c.elem.attrs != [] then [c.elem.attrs[|c.elem.attrs| - 1].value] else []
  }

  /** The names the `property` children declare, in document order. */
  function DeclaredNames(content: seq<XmlContent>): seq<string> {
    if content == [] then [] else DeclaredName(content[0]) + DeclaredNames(content[1..])
  }

  /** The identifier a `module` child declares, if it is one. */
  function DeclaredIdentifier(c: XmlContent): seq<string> {
    if c.Child? && LastValue(c.elem.attrs, "identifier", None).Some?
    then [LastValue(c.elem.attrs, "identifier", None).value]
    else []
  }

  /** The identifiers the `module` children declare, in document order. */
  function DeclaredIdentifiers(content: seq<XmlContent>): seq<string> {
    if content == [] then [] else DeclaredIdentifier(content[0]) + DeclaredIdentifiers(content[1..])
  }

  /** The text of a text-only element, trimmed; Undefined when it holds a child element. */
  function TrimmedText(e: XmlElement): Node {
    var text := ElementText(e.content);
    if text.Some? then Str(Trim(text.value)) else Undefined
  }

  /** The member a `property` child declares: its last attribute's value bound to its trimmed text. */
  function DeclaredProperty(c: XmlContent): seq<Member> {
    if c.Child? && c.elem.attrs != [] then [Member(c.elem.attrs[|c.elem.attrs| - 1].value, TrimmedText(c.elem))] else []
  }

  /** The members the `property` children declare, in document order. */
  function DeclaredProperties(content: seq<XmlContent>): seq<Member> {
    if content == [] then [] else DeclaredProperty(content[0]) + DeclaredProperties(content[1..])
  }

  /** A module entry: the single member `start` when one was given, Undefined otherwise. */
  function ModuleEntryOf(start: Option<string>): Node {
    if start.Some? then Object([Member(StartKey, Str(start.value))]) else Undefined
  }

  /** The member a `module` child declares: its identifier bound to its entry. */
  function DeclaredModule(c: XmlContent): seq<Member> {
    if c.Child? && LastValue(c.elem.attrs, "identifier", None).Some?
    then [Member(LastValue(c.elem.attrs, "identifier", None).value, ModuleEntryOf(LastValue(c.elem.attrs, "start", None)))]
    else []
  }

  /** The members the `module` children declare, in document order. */
  function DeclaredModules(content: seq<XmlContent>): seq<Member> {
    if content == [] then [] else DeclaredModule(content[0]) + DeclaredModules(content[1..])
  }

  /** The block holding exactly `ms`: a node never assigned when there are none. */
  function BlockOf(ms: seq<Member>): Node {
    if ms == [] then Undefined else Object(ms)
  }

  /** A block that is unassigned or a non-empty Object is the block of its members. */
  lemma BlockOfMembers(n: Node)
    requires n.Undefined? || (n.Object? && n.members != [])
    ensures n == BlockOf(MembersOf(n))
  {
  }

  /**
   * A `property` element the reader takes when the names `taken` are already
   * in the block: at least one attribute, every attribute a plain `name` whose
   * value is new, and non-blank text only.
   */
  predicate PropertyAccepted(e: XmlElement, taken: seq<string>) {
    && e.attrs != []
    && NamesAccepted(e.attrs, taken)
    && ElementText(e.content).Some?
    && Trim(ElementText(e.content).value) != ""
  }

  /** Every attribute is a plain `name` whose value is not among `taken`. */
  predicate NamesAccepted(attrs: seq<XmlAttr>, taken: seq<string>) {
    forall i :: 0 <= i < |attrs| ==> Plain(attrs[i], {Name}) && attrs[i].value !in taken
  }

  /** One piece of a property block's content: blank text, or an accepted `property`. */
  predicate PropertyChildAccepted(c: XmlContent, taken: seq<string>) {
    match c
    case Chars(t) => IsBlank(t)
    case Child(e) => InDialect(e, Property) && PropertyAccepted(e, taken)
  }

  /**
   * A block's content the reader takes on top of the names `taken`: every
   * piece is accepted once `taken` is extended by the names declared before it.
   */
  predicate PropertiesAccepted(content: seq<XmlContent>, taken: seq<string>) {
    forall i :: 0 <= i < |content| ==> PropertyChildAccepted(content[i], taken + DeclaredNames(content[..i]))
  }

  /**
   * A `module` element the reader takes when the identifiers `taken` are
   * already in the block: only `identifier` and `start`, an identifier that is
   * new, and no content but blank text.
   */
  predicate ModuleAccepted(e: XmlElement, taken: seq<string>) {
    && FirstStray(e.attrs, {Identifier, Start}).None?
    && LastValue(e.attrs, "identifier", None).Some?
    && LastValue(e.attrs, "identifier", None).value !in taken
    && FirstTag(e.content).None?
  }

  /** One piece of a module block's content: blank text, or an accepted `module`. */
  predicate ModuleChildAccepted(c: XmlContent, taken: seq<string>) {
    match c
    case Chars(t) => IsBlank(t)
    case Child(e) => InDialect(e, Module) && ModuleAccepted(e, taken)
  }

  /** A module block's content the reader takes on top of the identifiers `taken`. */
  predicate ModulesAccepted(content: seq<XmlContent>, taken: seq<string>) {
    forall i :: 0 <= i < |content| ==> ModuleChildAccepted(content[i], taken + DeclaredIdentifiers(content[..i]))
  }

  /** The content is accepted exactly when its first piece is and the rest is, on the names grown by the first. */
  lemma {:induction false} PropertiesAcceptedCons(content: seq<XmlContent>, taken: seq<string>)
    requires content != []
    ensures PropertiesAccepted(content, taken) <==>
      PropertyChildAccepted(content[0], taken) && PropertiesAccepted(content[1..], taken + DeclaredName(content[0]))
  {
    assert taken + DeclaredNames(content[..0]) == taken by { assert content[..0] == []; }
    forall i | 1 <= i < |content|
      ensures content[i] == content[1..][i - 1]
      ensures taken + DeclaredNames(content[..i]) == (taken + DeclaredName(content[0])) + DeclaredNames(content[1..][..i - 1])
    {
      assert content[..i][0] == content[0] && content[..i][1..] == content[1..][..i - 1];
      AppendAssoc(taken, DeclaredName(content[0]), DeclaredNames(content[1..][..i - 1]));
    }
  }

  /** The module counterpart of `PropertiesAcceptedCons`. */
  lemma {:induction false} ModulesAcceptedCons(content: seq<XmlContent>, taken: seq<string>)
    requires content != []
    ensures ModulesAccepted(content, taken) <==>
      ModuleChildAccepted(content[0], taken) && ModulesAccepted(content[1..], taken + DeclaredIdentifier(content[0]))
  {
    assert taken + DeclaredIdentifiers(content[..0]) == taken by { assert content[..0] == []; }
    forall i | 1 <= i < |content|
      ensures content[i] == content[1..][i - 1]
      ensures taken + DeclaredIdentifiers(content[..i]) ==
        (taken + DeclaredIdentifier(content[0])) + DeclaredIdentifiers(content[1..][..i - 1])
    {
      assert content[..i][0] == content[0] && content[..i][1..] == content[1..][..i - 1];
      AppendAssoc(taken, DeclaredIdentifier(content[0]), DeclaredIdentifiers(content[1..][..i - 1]));
    }
  }

  // ---------------------------------------------------------------- shared scans

  /** `requireNoContent`: the first non-blank text or child element is an error. */
  function NoContent(content: seq<XmlContent>): (r: Option<ParseError>)
    ensures r.None? <==> FirstTag(content).None?
  {
    match FirstTag(content)
    case None => None
    case Some(Chars(t)) => Some(UnexpectedText(t))
    case Some(Child(c)) => Some(UnexpectedElement(c.ns, c.name))
  }

  /** `requireNoAttributes`: any attribute at all is unexpected. */
  function NoAttributes(attrs: seq<XmlAttr>): (r: Option<ParseError>)
    ensures r.None? <==> attrs == []
    ensures r.Some? ==> r.value == UnexpectedAttribute(attrs[0])
  {
    if attrs == [] then None else Some(UnexpectedAttribute(attrs[0]))
  }

  // ---------------------------------------------------------------- subsystem attributes

  /** The root's attributes: only an unprefixed `activation`, copied verbatim. */
  function ReadActivation(attrs: seq<XmlAttr>, op: Node): (r: Result<Node, ParseError>)
    requires AddOperation(op)
    ensures r.Ok? <==> FirstStray(attrs, {Activation}).None?
    ensures r.Err? ==> r.error == UnexpectedAttribute(FirstStray(attrs, {Activation}).value)
    ensures r.Ok? ==> AddOperation(r.value)
    ensures r.Ok? ==>
      Lookup(r.value, ActivationKey) == (if attrs == [] then Lookup(op, ActivationKey) else Str(attrs[|attrs| - 1].value))
    ensures r.Ok? ==> forall k :: k != ActivationKey ==> Lookup(r.value, k) == Lookup(op, k)
    decreases |attrs|
  {
    if attrs == [] then Ok(op)
    else if !Plain(attrs[0], {Activation}) then Err(UnexpectedAttribute(attrs[0]))
    else
      var value := Str(attrs[0].value);
      PutSection(op, ActivationKey, value);
      var next := Put(op, ActivationKey, value);
      assert Lookup(next, ActivationKey) == value;
      assert |attrs| > 1 ==> attrs[|attrs| - 1] == attrs[1..][|attrs| - 2];
      ReadActivation(attrs[1..], next)
  }

  // ---------------------------------------------------------------- properties

  /** The `name` attribute scan of a `property`: a name already in the block is a duplicate. */
  function ReadPropertyName(attrs: seq<XmlAttr>, block: Node, name: Option<string>): (r: Result<Option<string>, ParseError>)
    ensures r.Ok? <==> NamesAccepted(attrs, Keys(block))
    ensures r.Ok? ==> r.value == if attrs == [] then name else Some(attrs[|attrs| - 1].value)
    decreases |attrs|
  {
    if attrs == [] then Ok(name)
    else if !Plain(attrs[0], {Name}) then Err(UnexpectedAttribute(attrs[0]))
    else if Has(block, attrs[0].value) then Err(DuplicateProperty(attrs[0].value))
    else
      assert forall i :: 1 <= i < |attrs| ==> attrs[i] == attrs[1..][i - 1];
      ReadPropertyName(attrs[1..], block, Some(attrs[0].value))
  }

  /** Without duplicates, the scan fails on the first attribute other than a plain `name`. */
  lemma {:induction false} StrayNameAttributeRejected(attrs: seq<XmlAttr>, block: Node, name: Option<string>)
    requires forall i :: 0 <= i < |attrs| ==> !Has(block, attrs[i].value)
    requires FirstStray(attrs, {Name}).Some?
    ensures ReadPropertyName(attrs, block, name) == Err(UnexpectedAttribute(FirstStray(attrs, {Name}).value))
  {
    if Plain(attrs[0], {Name}) {
      assert forall i :: 0 <= i < |attrs[1..]| ==> attrs[1..][i] == attrs[i + 1];
      assert FirstStray(attrs, {Name}) == FirstStray(attrs[1..], {Name});
      StrayNameAttributeRejected(attrs[1..], block, Some(attrs[0].value));
    }
  }

  /** A new property keeps the block well-shaped. */
  lemma PutProperty(block: Node, name: string, v: Node)
    requires PropertyBlock(block) && PropertyValue(v)
    ensures PropertyBlock(Put(block, name, v))
  {
    var ms := Put(block, name, v).members;
    forall i | 0 <= i < |ms| ensures PropertyValue(ms[i].value) {
      FindAt(ms, i);
      if ms[i].key != name {
        assert ms[i].key in Keys(block);
        var j :| 0 <= j < |block.members| && block.members[j].key == ms[i].key;
        FindAt(block.members, j);
      }
    }
  }

  /** One `property` element added to the block: its name, then its trimmed text. */
  function ReadProperty(e: XmlElement, block: Node): (r: Result<Node, ParseError>)
    requires PropertyBlock(block)
    ensures r.Ok? <==> PropertyAccepted(e, Keys(block))
    ensures e.attrs == [] ==> r == Err(MissingRequired({Name}))
    ensures ElementText(e.content).None? ==> r.Err?
    ensures ElementText(e.content).Some? && Trim(ElementText(e.content).value) == "" ==> r.Err?
    ensures r.Ok? ==>
      var name := e.attrs[|e.attrs| - 1].value;
      && PropertyBlock(r.value) && r.value.Object?
      && !Has(block, name)
      && Keys(r.value) == Keys(block) + [name]
      && Lookup(r.value, name) == Str(Trim(ElementText(e.content).value))
      && (forall k :: k != name ==> Lookup(r.value, k) == Lookup(block, k))
    ensures r.Ok? ==> r.value.members == MembersOf(block) + DeclaredProperty(Child(e))
  {
    var scan := ReadPropertyName(e.attrs, block, None);
    if scan.Err? then Err(scan.error)
    else if scan.value.None? then Err(MissingRequired({Name}))
    else
      StoreProperty(block, scan.value.value, e.name, ElementText(e.content))
  }

  /** The value step of a `property`: its text, trimmed, must be there and not be empty. */
  function StoreProperty(block: Node, name: string, elementName: string, text: Option<string>): (r: Result<Node, ParseError>)
    requires PropertyBlock(block) && !Has(block, name)
    ensures r.Ok? <==> text.Some? && Trim(text.value) != ""
    ensures text.None? ==> r.Err?
    ensures text.Some? && Trim(text.value) == "" ==> r.Err?
    ensures r.Ok? ==>
      && PropertyBlock(r.value) && r.value.Object?
      && Keys(r.value) == Keys(block) + [name]
      && Lookup(r.value, name) == Str(Trim(text.value))
      && (forall k :: k != name ==> Lookup(r.value, k) == Lookup(block, k))
    ensures r.Ok? ==> r.value.members == MembersOf(block) + [Member(name, Str(Trim(text.value)))]
  {
    if text.None? then Err(NotTextOnly(elementName))
    else
      var value := Trim(text.value);
      if value == "" then Err(EmptyPropertyValue(name))
      else
        PutProperty(block, name, Str(value));
        Ok(Put(block, name, Str(value)))
  }

  /** A stray attribute, or a name the block already holds, anywhere on a `property` makes it fail. */
  lemma ReadPropertyRejects(e: XmlElement, block: Node, i: nat)
    requires PropertyBlock(block) && i < |e.attrs|
    ensures !Plain(e.attrs[i], {Name}) ==> ReadProperty(e, block).Err?
    ensures Has(block, e.attrs[i].value) ==> ReadProperty(e, block).Err?
  {
    assert ReadPropertyName(e.attrs, block, None).Ok? ==> Plain(e.attrs[i], {Name}) && !Has(block, e.attrs[i].value);
  }

  lemma DeclaredNamesAppend(a: seq<XmlContent>, b: seq<XmlContent>)
    ensures DeclaredNames(a + b) == DeclaredNames(a) + DeclaredNames(b)
  {
    if a != [] {
      assert (a + b)[0] == a[0] && (a + b)[1..] == a[1..] + b;
      DeclaredNamesAppend(a[1..], b);
      assert DeclaredNames(a + b) == DeclaredName(a[0]) + DeclaredNames(a[1..] + b);
    } else {
      assert a + b == b;
    }
  }

  /** Blank text adds nothing to the block; a `property` child adds the member it declares. */
  lemma PropertyBlockStep(head: XmlContent, block: Node, next: Result<Node, ParseError>)
    requires PropertyBlock(block)
    requires next == if head.Chars? then Ok(block) else ReadProperty(head.elem, block)
    requires next.Ok?
    ensures Keys(next.value) == Keys(block) + DeclaredName(head)
    ensures MembersOf(next.value) == MembersOf(block) + DeclaredProperty(head)
  {
    if head.Chars? {
      assert Keys(block) + [] == Keys(block);
      assert MembersOf(block) + [] == MembersOf(block);
    }
  }

  /** The content of a `properties` or `configuration` element: `property` children only. */
  function ReadPropertyBlock(content: seq<XmlContent>, block: Node): (r: Result<Node, ParseError>)
    requires PropertyBlock(block)
    ensures r.Ok? <==> PropertiesAccepted(content, Keys(block))
    ensures r.Ok? ==> PropertyBlock(r.value)
    ensures r.Ok? ==> Keys(r.value) == Keys(block) + DeclaredNames(content)
    ensures r.Ok? ==> MembersOf(r.value) == MembersOf(block) + DeclaredProperties(content)
    ensures r.Ok? ==> Conforms(content, {Property})
    decreases |content|
  {
    if content == [] then Ok(block)
    else
      var head := content[0];
      PropertiesAcceptedCons(content, Keys(block));
      if head.Chars? && !IsBlank(head.text) then Err(UnexpectedText(head.text))
      else if head.Child? && !InDialect(head.elem, Property) then Err(UnexpectedElement(head.elem.ns, head.elem.name))
      else
        var next := if head.Chars? then Ok(block) else ReadProperty(head.elem, block);
        if next.Err? then Err(next.error)
        else
          PropertyBlockStep(head, block, next);
          var r := ReadPropertyBlock(content[1..], next.value);
          if r.Err? then r
          else
            assert DeclaredNames(content) == DeclaredName(head) + DeclaredNames(content[1..]);
            AppendAssoc(Keys(block), DeclaredName(head), DeclaredNames(content[1..]));
            assert DeclaredProperties(content) == DeclaredProperty(head) + DeclaredProperties(content[1..]);
            AppendAssoc(MembersOf(block), DeclaredProperty(head), DeclaredProperties(content[1..]));
            ConformsTail(content, {Property});
            r
  }

  lemma {:induction false} DeclaredNamesSplit(content: seq<XmlContent>, i: nat)
    requires i < |content|
    ensures DeclaredNames(content) == DeclaredNames(content[..i]) + DeclaredName(content[i]) + DeclaredNames(content[i + 1..])
  {
    assert content == content[..i] + [content[i]] + content[i + 1..];
    DeclaredNamesAppend(content[..i] + [content[i]], content[i + 1..]);
    DeclaredNamesAppend(content[..i], [content[i]]);
    assert DeclaredNames([content[i]]) == DeclaredName(content[i]) + DeclaredNames([]);
  }

  /** A sequence holding the same string at two places is not `Distinct`. */
  lemma {:induction false} RepeatNotDistinct(k: seq<string>, a: seq<string>, b: seq<string>, c: seq<string>, n: string)
    ensures !Distinct(k + (a + [n] + b + [n] + c))
  {
    var s := k + (a + [n] + b + [n] + c);
    assert s[|k| + |a|] == n && s[|k| + |a| + 1 + |b|] == n;
  }

  lemma {:induction false} DeclaredNamesRepeat(content: seq<XmlContent>, i: nat, j: nat, n: string)
    requires i < j < |content|
    requires DeclaredName(content[i]) == [n] && DeclaredName(content[j]) == [n]
    ensures DeclaredNames(content) ==
      DeclaredNames(content[..i]) + [n] + DeclaredNames(content[i + 1..j]) + [n] + DeclaredNames(content[j + 1..])
  {
    DeclaredNamesSplit(content, j);
    DeclaredNamesSplit(content[..j], i);
    assert content[..j][..i] == content[..i] && content[..j][i] == content[i] && content[..j][i + 1..] == content[i + 1..j];
  }

  /**
   * Two `property` children of one block that declare the same name make the
   * block fail.
   */
  lemma {:induction false} DuplicatePropertyRejected(content: seq<XmlContent>, block: Node, i: nat, j: nat)
    requires PropertyBlock(block)
    requires i < j < |content|
    requires content[i].Child? && content[j].Child?
    requires content[i].elem.attrs != [] && content[j].elem.attrs != []
    requires content[i].elem.attrs[|content[i].elem.attrs| - 1].value == content[j].elem.attrs[|content[j].elem.attrs| - 1].value
    ensures ReadPropertyBlock(content, block).Err?
  {
    var n := content[i].elem.attrs[|content[i].elem.attrs| - 1].value;
    DeclaredNamesRepeat(content, i, j, n);
    RepeatNotDistinct(Keys(block), DeclaredNames(content[..i]), DeclaredNames(content[i + 1..j]), DeclaredNames(content[j + 1..]), n);
  }

  function ReadProperties(e: XmlElement): (r: Result<Node, ParseError>)
    ensures r.Ok? <==> e.attrs == [] && PropertiesAccepted(e.content, [])
    ensures e.attrs != [] ==> r == Err(UnexpectedAttribute(e.attrs[0]))
    ensures r.Ok? ==> PropertyBlock(r.value)
    ensures r.Ok? ==> Keys(r.value) == DeclaredNames(e.content)
    ensures r.Ok? ==> r.value == BlockOf(DeclaredProperties(e.content))
    ensures r.Ok? ==> Conforms(e.content, {Property})
  {
    var noAttributes := NoAttributes(e.attrs);
    if noAttributes.Some? then Err(noAttributes.value)
    else
      var properties :- ReadPropertyBlock(e.content, Undefined);
      BlockOfMembers(properties);
      assert [] + DeclaredProperties(e.content) == DeclaredProperties(e.content);
      Ok(properties)
  }

  // ---------------------------------------------------------------- configuration

  /** The `pid` attribute scan of a `configuration`: the last one wins. */
  function ReadPid(attrs: seq<XmlAttr>, pid: Option<string>): (r: Result<Option<string>, ParseError>)
    ensures r.Ok? <==> FirstStray(attrs, {Pid}).None?
    ensures r.Err? ==> r.error == UnexpectedAttribute(FirstStray(attrs, {Pid}).value)
    ensures r.Ok? ==> r.value == if attrs == [] then pid else Some(attrs[|attrs| - 1].value)
    decreases |attrs|
  {
    if attrs == [] then Ok(pid)
    else if !Plain(attrs[0], {Pid}) then Err(UnexpectedAttribute(attrs[0]))
    else
      assert |attrs| > 1 ==> attrs[|attrs| - 1] == attrs[1..][|attrs| - 2];
      ReadPid(attrs[1..], Some(attrs[0].value))
  }

  function ReadConfiguration(e: XmlElement): (r: Result<Node, ParseError>)
    ensures r.Ok? <==> e.attrs != [] && FirstStray(e.attrs, {Pid}).None? && PropertiesAccepted(e.content, [])
    ensures e.attrs == [] ==> r == Err(MissingRequired({Pid}))
    ensures FirstStray(e.attrs, {Pid}).Some? ==> r == Err(UnexpectedAttribute(FirstStray(e.attrs, {Pid}).value))
    ensures r.Ok? ==> ConfigurationNode(r.value)
    ensures r.Ok? ==> Lookup(r.value, PidKey) == Str(e.attrs[|e.attrs| - 1].value)
    ensures r.Ok? ==> Conforms(e.content, {Property})
    ensures r.Ok? ==> (HasDefined(r.value, ConfigurationPropertiesKey) <==> DeclaredNames(e.content) != [])
    ensures r.Ok? && DeclaredNames(e.content) != [] ==>
      Keys(Lookup(r.value, ConfigurationPropertiesKey)) == DeclaredNames(e.content)
    ensures r.Ok? ==> Lookup(r.value, ConfigurationPropertiesKey) == BlockOf(DeclaredProperties(e.content))
  {
    var pid :- ReadPid(e.attrs, None);
    if pid.None? then Err(MissingRequired({Pid}))
    else
      var properties :- ReadPropertyBlock(e.content, Undefined);
      BlockOfMembers(properties);
      assert [] + DeclaredProperties(e.content) == DeclaredProperties(e.content);
      Ok(ConfigurationOf(pid.value, properties))
  }

  /** The `configuration` node for `pid`: the block joins it only when a property was stored. */
  function ConfigurationOf(pid: string, properties: Node): (c: Node)
    requires PropertyBlock(properties)
    ensures ConfigurationNode(c)
    ensures Lookup(c, PidKey) == Str(pid)
    ensures Lookup(c, ConfigurationPropertiesKey) == properties
    ensures HasDefined(c, ConfigurationPropertiesKey) <==> properties.Object?
  {
    var configuration := Put(Undefined, PidKey, Str(pid));
    if properties.Object? then
      var c := Put(configuration, ConfigurationPropertiesKey, properties);
      assert c.members == [Member(PidKey, Str(pid)), Member(ConfigurationPropertiesKey, properties)];
      c
    else configuration
  }

  // ---------------------------------------------------------------- modules

  /** The attribute scan of a `module`: `identifier` and `start`, the last of each wins. */
  function ReadModuleAttributes(attrs: seq<XmlAttr>, identifier: Option<string>, start: Option<string>)
    : (r: Result<(Option<string>, Option<string>), ParseError>)
    ensures r.Ok? <==> FirstStray(attrs, {Identifier, Start}).None?
    ensures r.Err? ==> r.error == UnexpectedAttribute(FirstStray(attrs, {Identifier, Start}).value)
    ensures r.Ok? ==> r.value == (LastValue(attrs, "identifier", identifier), LastValue(attrs, "start", start))
    decreases |attrs|
  {
    if attrs == [] then Ok((identifier, start))
    else if !Plain(attrs[0], {Identifier, Start}) then Err(UnexpectedAttribute(attrs[0]))
    else
      var a := attrs[0];
      var identifier' := if AttributeForName(a.name) == Identifier then Some(a.value) else identifier;
      var start' := if AttributeForName(a.name) == Start then Some(a.value) else start;
      LastValueCons(a, attrs[1..], "identifier", identifier);
      LastValueCons(a, attrs[1..], "start", start);
      assert [a] + attrs[1..] == attrs;
      ReadModuleAttributes(attrs[1..], identifier', start')
  }

  lemma {:induction false} LastValueCons(a: XmlAttr, rest: seq<XmlAttr>, name: string, dflt: Option<string>)
    ensures LastValue([a] + rest, name, dflt) == LastValue(rest, name, if a.name == name then Some(a.value) else dflt)
    decreases |rest|
  {
    if rest != [] {
      assert ([a] + rest)[..|rest|] == [a] + rest[..|rest| - 1];
      LastValueCons(a, rest[..|rest| - 1], name, dflt);
    }
  }

  /** A new module entry keeps the block well-shaped. */
  lemma PutModule(modules: Node, identifier: string, entry: Node)
    requires ModuleBlock(modules) && ModuleEntry(entry)
    ensures ModuleBlock(Put(modules, identifier, entry))
  {
    var ms := Put(modules, identifier, entry).members;
    forall i | 0 <= i < |ms| ensures ModuleEntry(ms[i].value) {
      FindAt(ms, i);
      if ms[i].key != identifier {
        assert ms[i].key in Keys(modules);
        var j :| 0 <= j < |modules.members| && modules.members[j].key == ms[i].key;
        FindAt(modules.members, j);
      }
    }
  }

  /** One `module` element added to the block. */
  function ReadModule(e: XmlElement, modules: Node): (r: Result<Node, ParseError>)
    requires ModuleBlock(modules)
    ensures r.Ok? <==> ModuleAccepted(e, Keys(modules))
    ensures FirstStray(e.attrs, {Identifier, Start}).Some? ==>
      r == Err(UnexpectedAttribute(FirstStray(e.attrs, {Identifier, Start}).value))
    ensures FirstStray(e.attrs, {Identifier, Start}).None? && LastValue(e.attrs, "identifier", None).None? ==>
      r == Err(MissingRequired({Identifier}))
    ensures r.Ok? ==> FirstTag(e.content).None?
    ensures r.Ok? ==>
      var id := LastValue(e.attrs, "identifier", None);
      var start := LastValue(e.attrs, "start", None);
      && id.Some?
      && ModuleBlock(r.value) && r.value.Object?
      && !Has(modules, id.value)
      && Keys(r.value) == Keys(modules) + [id.value]
      && Lookup(r.value, id.value) == (if start.Some? then Object([Member(StartKey, Str(start.value))]) else Undefined)
      && (forall k :: k != id.value ==> Lookup(r.value, k) == Lookup(modules, k))
    ensures r.Ok? ==> r.value.members == MembersOf(modules) + DeclaredModule(Child(e))
  {
    var attributes :- ReadModuleAttributes(e.attrs, None, None);
    var identifier := attributes.0;
    var start := attributes.1;
    if identifier.None? then Err(MissingRequired({Identifier}))
    else if Has(modules, identifier.value) then Err(DuplicateModule(identifier.value))
    else
      var entry := if start.Some? then Put(Undefined, StartKey, Str(start.value)) else Undefined;
      var noContent := NoContent(e.content);
      if noContent.Some? then Err(noContent.value)
      else
        PutModule(modules, identifier.value, entry);
        Ok(Put(modules, identifier.value, entry))
  }

  lemma DeclaredIdentifiersAppend(a: seq<XmlContent>, b: seq<XmlContent>)
    ensures DeclaredIdentifiers(a + b) == DeclaredIdentifiers(a) + DeclaredIdentifiers(b)
  {
    if a != [] {
      assert (a + b)[0] == a[0] && (a + b)[1..] == a[1..] + b;
      DeclaredIdentifiersAppend(a[1..], b);
      assert DeclaredIdentifiers(a + b) == DeclaredIdentifier(a[0]) + DeclaredIdentifiers(a[1..] + b);
    } else {
      assert a + b == b;
    }
  }

  /** Blank text adds nothing to the block; a `module` child adds the member it declares. */
  lemma ModuleBlockStep(head: XmlContent, modules: Node, next: Result<Node, ParseError>)
    requires ModuleBlock(modules)
    requires next == if head.Chars? then Ok(modules) else ReadModule(head.elem, modules)
    requires next.Ok?
    ensures Keys(next.value) == Keys(modules) + DeclaredIdentifier(head)
    ensures MembersOf(next.value) == MembersOf(modules) + DeclaredModule(head)
  {
    if head.Chars? {
      assert Keys(modules) + [] == Keys(modules);
      assert MembersOf(modules) + [] == MembersOf(modules);
    }
  }

  function ReadModuleBlock(content: seq<XmlContent>, modules: Node): (r: Result<Node, ParseError>)
    requires ModuleBlock(modules)
    ensures r.Ok? <==> ModulesAccepted(content, Keys(modules))
    ensures r.Ok? ==> ModuleBlock(r.value)
    ensures r.Ok? ==> Keys(r.value) == Keys(modules) + DeclaredIdentifiers(content)
    ensures r.Ok? ==> MembersOf(r.value) == MembersOf(modules) + DeclaredModules(content)
    ensures r.Ok? ==> Conforms(content, {Module})
    decreases |content|
  {
    if content == [] then Ok(modules)
    else
      var head := content[0];
      ModulesAcceptedCons(content, Keys(modules));
      if head.Chars? && !IsBlank(head.text) then Err(UnexpectedText(head.text))
      else if head.Child? && !InDialect(head.elem, Module) then Err(UnexpectedElement(head.elem.ns, head.elem.name))
      else
        var next := if head.Chars? then Ok(modules) else ReadModule(head.elem, modules);
        if next.Err? then Err(next.error)
        else
          ModuleBlockStep(head, modules, next);
          var r := ReadModuleBlock(content[1..], next.value);
          if r.Err? then r
          else
            assert DeclaredIdentifiers(content) == DeclaredIdentifier(head) + DeclaredIdentifiers(content[1..]);
            AppendAssoc(Keys(modules), DeclaredIdentifier(head), DeclaredIdentifiers(content[1..]));
            assert DeclaredModules(content) == DeclaredModule(head) + DeclaredModules(content[1..]);
            AppendAssoc(MembersOf(modules), DeclaredModule(head), DeclaredModules(content[1..]));
            ConformsTail(content, {Module});
            r
  }

  lemma {:induction false} DeclaredIdentifiersSplit(content: seq<XmlContent>, i: nat)
    requires i < |content|
    ensures DeclaredIdentifiers(content) ==
      DeclaredIdentifiers(content[..i]) + DeclaredIdentifier(content[i]) + DeclaredIdentifiers(content[i + 1..])
  {
    assert content == content[..i] + [content[i]] + content[i + 1..];
    DeclaredIdentifiersAppend(content[..i] + [content[i]], content[i + 1..]);
    DeclaredIdentifiersAppend(content[..i], [content[i]]);
    assert DeclaredIdentifiers([content[i]]) == DeclaredIdentifier(content[i]) + DeclaredIdentifiers([]);
  }

  lemma {:induction false} DeclaredIdentifiersRepeat(content: seq<XmlContent>, i: nat, j: nat, n: string)
    requires i < j < |content|
    requires DeclaredIdentifier(content[i]) == [n] && DeclaredIdentifier(content[j]) == [n]
    ensures DeclaredIdentifiers(content) ==
      DeclaredIdentifiers(content[..i]) + [n] + DeclaredIdentifiers(content[i + 1..j]) + [n] + DeclaredIdentifiers(content[j + 1..])
  {
    DeclaredIdentifiersSplit(content, j);
    DeclaredIdentifiersSplit(content[..j], i);
    assert content[..j][..i] == content[..i] && content[..j][i] == content[i] && content[..j][i + 1..] == content[i + 1..j];
  }

  /** Two `module` children of one block with the same identifier make the block fail. */
  lemma {:induction false} DuplicateModuleRejected(content: seq<XmlContent>, modules: Node, i: nat, j: nat)
    requires ModuleBlock(modules)
    requires i < j < |content|
    requires content[i].Child? && content[j].Child?
    requires LastValue(content[i].elem.attrs, "identifier", None).Some?
    requires LastValue(content[i].elem.attrs, "identifier", None) == LastValue(content[j].elem.attrs, "identifier", None)
    ensures ReadModuleBlock(content, modules).Err?
  {
    var n := LastValue(content[i].elem.attrs, "identifier", None).value;
    DeclaredIdentifiersRepeat(content, i, j, n);
    RepeatNotDistinct(Keys(modules), DeclaredIdentifiers(content[..i]), DeclaredIdentifiers(content[i + 1..j]), DeclaredIdentifiers(content[j + 1..]), n);
  }

  function ReadModules(e: XmlElement): (r: Result<Node, ParseError>)
    ensures r.Ok? <==> e.attrs == [] && ModulesAccepted(e.content, [])
    ensures e.attrs != [] ==> r == Err(UnexpectedAttribute(e.attrs[0]))
    ensures r.Ok? ==> ModuleBlock(r.value)
    ensures r.Ok? ==> Keys(r.value) == DeclaredIdentifiers(e.content)
    ensures r.Ok? ==> r.value == BlockOf(DeclaredModules(e.content))
    ensures r.Ok? ==> Conforms(e.content, {Module})
  {
    var noAttributes := NoAttributes(e.attrs);
    if noAttributes.Some? then Err(noAttributes.value)
    else
      var modules :- ReadModuleBlock(e.content, Undefined);
      BlockOfMembers(modules);
      assert [] + DeclaredModules(e.content) == DeclaredModules(e.content);
      Ok(modules)
  }

  // ---------------------------------------------------------------- subsystem

  /** A child the root accepts: `configuration`, `properties` or `modules` in the OSGi 1.0 namespace. */
  predicate IsSection(c: XmlElement) {
    NamespaceForUri(c.ns) == Osgi10 && ElementForName(c.name) in {Configuration, Properties, Modules}
  }

  /** The shape the reader gives the value of each section. */
  predicate SectionShape(tag: Element, v: Node)
    requires tag in {Configuration, Properties, Modules}
  {
    if tag == Configuration then ConfigurationNode(v)
    else if tag == Properties then PropertyBlock(v)
    else ModuleBlock(v)
  }

  /** What one child of the root stands for: its section's parser applied to it; any other element is unexpected. */
  function SectionValue(c: XmlElement): (r: Result<Node, ParseError>)
    ensures !IsSection(c) ==> r == Err(UnexpectedElement(c.ns, c.name))
    ensures r.Ok? ==> IsSection(c) && SectionShape(ElementForName(c.name), r.value)
    ensures InDialect(c, Configuration) ==> r == ReadConfiguration(c)
    ensures InDialect(c, Properties) ==> r == ReadProperties(c)
    ensures InDialect(c, Modules) ==> r == ReadModules(c)
  {
    if NamespaceForUri(c.ns) != Osgi10 then Err(UnexpectedElement(c.ns, c.name))
    else
      match ElementForName(c.name)
      case Configuration => ReadConfiguration(c)
      case Properties => ReadProperties(c)
      case Modules => ReadModules(c)
      case _ => Err(UnexpectedElement(c.ns, c.name))
  }

  /** One child of the root, read and stored under its key, replacing any earlier value. */
  function ReadSection(c: XmlElement, op: Node): (r: Result<Node, ParseError>)
    requires AddOperation(op)
    ensures !IsSection(c) ==> r == Err(UnexpectedElement(c.ns, c.name))
    ensures r.Ok? <==> SectionValue(c).Ok?
    ensures r.Err? ==> r.error == SectionValue(c).error
    ensures r.Ok? ==> AddOperation(r.value)
    ensures r.Ok? ==> IsSection(c) && Lookup(r.value, SectionKey(ElementForName(c.name))) == SectionValue(c).value
    ensures r.Ok? ==> forall k :: k != SectionKey(ElementForName(c.name)) ==> Lookup(r.value, k) == Lookup(op, k)
  {
    var v :- SectionValue(c);
    var key := SectionKey(ElementForName(c.name));
    PutSection(op, key, v);
    Ok(Put(op, key, v))
  }

  /** The last child of `content` that is the section `tag`, if there is one. */
  function LastSection(content: seq<XmlContent>, tag: Element): (r: Option<XmlElement>)
    ensures r.None? <==> !Mentions(content, tag)
    ensures r.Some? ==>
      exists i :: 0 <= i < |content| && content[i] == Child(r.value) && InDialect(r.value, tag) &&
                  forall j :: i < j < |content| ==> !(content[j].Child? && InDialect(content[j].elem, tag))
  {
    if content == [] then None
    else
      var rest := LastSection(content[1..], tag);
      assert forall i :: 1 <= i < |content| ==> content[i] == content[1..][i - 1];
      if rest.Some? then
        var i :| 0 <= i < |content[1..]| && content[1..][i] == Child(rest.value) && InDialect(rest.value, tag)
          && forall j :: i < j < |content[1..]| ==> !(content[1..][j].Child? && InDialect(content[1..][j].elem, tag));
        assert content[i + 1] == Child(rest.value);
        rest
      else if content[0].Child? && InDialect(content[0].elem, tag) then
        Some(content[0].elem)
      else
        None
  }

  /** Every text run of the root is blank and every child reads as a section on its own. */
  predicate SectionsReadable(content: seq<XmlContent>) {
    forall i :: 0 <= i < |content| ==>
      match content[i]
      case Chars(t) => IsBlank(t)
      case Child(c) => SectionValue(c).Ok?
  }

  lemma MentionsTail(content: seq<XmlContent>, tag: Element)
    requires content != [] && !Mentions(content, tag)
    ensures !Mentions(content[1..], tag) && (content[0].Child? ==> !InDialect(content[0].elem, tag))
  {
    assert forall i :: 0 <= i < |content| - 1 ==> content[1..][i] == content[i + 1];
  }

  /** The children of the root in document order; a later section replaces an earlier one. */
  function ReadSections(content: seq<XmlContent>, op: Node): (r: Result<Node, ParseError>)
    requires AddOperation(op)
    ensures r.Ok? <==> SectionsReadable(content)
    ensures r.Ok? ==> AddOperation(r.value)
    ensures r.Ok? ==> Conforms(content, {Configuration, Properties, Modules})
    ensures r.Ok? ==> forall tag :: tag in {Configuration, Properties, Modules} && LastSection(content, tag).Some? ==>
      SectionValue(LastSection(content, tag).value) == Ok(Lookup(r.value, SectionKey(tag)))
    ensures r.Ok? ==> forall tag :: tag in {Configuration, Properties, Modules} && !Mentions(content, tag) ==>
      Lookup(r.value, SectionKey(tag)) == Lookup(op, SectionKey(tag))
    ensures r.Ok? ==> forall k :: k !in {ConfigurationKey, PropertiesKey, ModulesKey} ==> Lookup(r.value, k) == Lookup(op, k)
    decreases |content|
  {
    if content == [] then Ok(op)
    else
      var head := content[0];
      ReadableCons(content);
      if head.Chars? && !IsBlank(head.text) then Err(UnexpectedText(head.text))
      else
        var next := if head.Chars? then Ok(op) else ReadSection(head.elem, op);
        if next.Err? then Err(next.error)
        else
          var r := ReadSections(content[1..], next.value);
          if r.Err? then r
          else
            ConformsTail(content, {Configuration, Properties, Modules});
            forall tag | !Mentions(content, tag)
              ensures !Mentions(content[1..], tag) && (head.Child? ==> !InDialect(head.elem, tag))
            {
              MentionsTail(content, tag);
            }
            LastSectionsCons(content, op, next.value, r.value);
            r
  }

  /** The root's content is readable exactly when its first piece and the rest are. */
  lemma ReadableCons(content: seq<XmlContent>)
    requires content != []
    ensures SectionsReadable(content) <==>
      (match content[0] case Chars(t) => IsBlank(t) case Child(c) => SectionValue(c).Ok?)
      && SectionsReadable(content[1..])
  {
    assert forall i :: 1 <= i < |content| ==> content[i] == content[1..][i - 1];
  }

  /** The last occurrence of each section decides its value, whether it is the head or comes later. */
  lemma LastSectionsCons(content: seq<XmlContent>, op: Node, next: Node, r: Node)
    requires content != [] && AddOperation(op)
    requires content[0].Chars? ==> next == op
    requires content[0].Child? ==> ReadSection(content[0].elem, op) == Ok(next)
    requires forall tag :: tag in {Configuration, Properties, Modules} && LastSection(content[1..], tag).Some? ==>
      SectionValue(LastSection(content[1..], tag).value) == Ok(Lookup(r, SectionKey(tag)))
    requires forall tag :: tag in {Configuration, Properties, Modules} && !Mentions(content[1..], tag) ==>
      Lookup(r, SectionKey(tag)) == Lookup(next, SectionKey(tag))
    ensures forall tag :: tag in {Configuration, Properties, Modules} && LastSection(content, tag).Some? ==>
      SectionValue(LastSection(content, tag).value) == Ok(Lookup(r, SectionKey(tag)))
  {
    forall tag | tag in {Configuration, Properties, Modules} && LastSection(content, tag).Some?
      ensures SectionValue(LastSection(content, tag).value) == Ok(Lookup(r, SectionKey(tag)))
    {
      if LastSection(content[1..], tag).None? {
        LastSectionHead(content[0].elem, next, r, op, tag);
      }
    }
  }

  /** The section read from the head stays in place when no later child is the same section. */
  lemma LastSectionHead(c: XmlElement, next: Node, r: Node, op: Node, tag: Element)
    requires AddOperation(op) && tag in {Configuration, Properties, Modules} && InDialect(c, tag)
    requires ReadSection(c, op) == Ok(next)
    requires Lookup(r, SectionKey(tag)) == Lookup(next, SectionKey(tag))
    ensures SectionValue(c) == Ok(Lookup(r, SectionKey(tag)))
  {
  }

  /** The operation before any attribute or child is read. */
  function NewAddOperation(): (op: Node)
    ensures AddOperation(op)
    ensures Keys(op) == [OperationKey, AddressKey]
  {
    OperationKeysDistinct();
    var op := Put(Undefined, OperationKey, Str(AddOperationName));
    var address := Append(Lookup(op, AddressKey), Segment(SubsystemKey, SubsystemName));
    assert address == SubsystemAddress;
    var r := Put(op, AddressKey, address);
    assert forall k :: Has(r, k) ==> k == OperationKey || k == AddressKey;
    r
  }

  /** Only the operation name and the address are set before reading starts. */
  lemma NewOperationLookup(k: string)
    requires k != OperationKey && k != AddressKey
    ensures Lookup(NewAddOperation(), k) == Undefined
  {
    assert !Has(NewAddOperation(), k);
  }

  /** What the attributes and the children of the root make of a fresh operation. */
  lemma ReadOperation(root: XmlElement, withActivation: Node, complete: Node)
    requires ReadActivation(root.attrs, NewAddOperation()) == Ok(withActivation)
    requires AddOperation(withActivation)
    requires ReadSections(root.content, withActivation) == Ok(complete)
    ensures AddOperation(complete)
    ensures Lookup(complete, OperationKey) == Str(AddOperationName)
    ensures Lookup(complete, AddressKey) == List([Segment(SubsystemKey, SubsystemName)])
    ensures Lookup(complete, ActivationKey) == (if root.attrs == [] then Undefined else Str(root.attrs[|root.attrs| - 1].value))
    ensures !Mentions(root.content, Configuration) ==> !HasDefined(complete, ConfigurationKey)
    ensures !Mentions(root.content, Properties) ==> !HasDefined(complete, PropertiesKey)
    ensures !Mentions(root.content, Modules) ==> !HasDefined(complete, ModulesKey)
    ensures forall tag :: tag in {Configuration, Properties, Modules} && LastSection(root.content, tag).Some? ==>
      SectionValue(LastSection(root.content, tag).value) == Ok(Lookup(complete, SectionKey(tag)))
  {
    assert ActivationKey !in {ConfigurationKey, PropertiesKey, ModulesKey};
    NewOperationLookup(ActivationKey);
    NewOperationLookup(ConfigurationKey);
    NewOperationLookup(PropertiesKey);
    NewOperationLookup(ModulesKey);
    SectionUntouched(root.content, withActivation, complete, Configuration);
    SectionUntouched(root.content, withActivation, complete, Properties);
    SectionUntouched(root.content, withActivation, complete, Modules);
  }

  lemma SectionUntouched(content: seq<XmlContent>, withActivation: Node, complete: Node, tag: Element)
    requires tag in {Configuration, Properties, Modules}
    requires Lookup(withActivation, SectionKey(tag)) == Undefined
    requires AddOperation(withActivation)
    requires ReadSections(content, withActivation) == Ok(complete)
    ensures !Mentions(content, tag) ==> !HasDefined(complete, SectionKey(tag))
  {
  }

  /**
   * `readElement`: appends exactly one `add` operation for `subsystem=osgi`
   * to `operations`, or fails.
   */
  function ReadElement(root: XmlElement, operations: seq<Node>): (r: Result<seq<Node>, ParseError>)
    ensures NamespaceForUri(root.ns) != Osgi10 ==> r == Err(UnexpectedElement(root.ns, root.name))
    ensures NamespaceForUri(root.ns) == Osgi10 && FirstStray(root.attrs, {Activation}).Some? ==>
      r == Err(UnexpectedAttribute(FirstStray(root.attrs, {Activation}).value))
    ensures r.Ok? <==>
      NamespaceForUri(root.ns) == Osgi10 && FirstStray(root.attrs, {Activation}).None? && SectionsReadable(root.content)
    ensures r.Ok? ==> |r.value| == |operations| + 1 && r.value[..|operations|] == operations
    ensures r.Ok? ==> var op := r.value[|operations|];
      && AddOperation(op)
      && Lookup(op, OperationKey) == Str(AddOperationName)
      && Lookup(op, AddressKey) == List([Segment(SubsystemKey, SubsystemName)])
      && Lookup(op, ActivationKey) == (if root.attrs == [] then Undefined else Str(root.attrs[|root.attrs| - 1].value))
    ensures r.Ok? ==> Conforms(root.content, {Configuration, Properties, Modules})
    ensures r.Ok? ==> var op := r.value[|operations|];
      && (!Mentions(root.content, Configuration) ==> !HasDefined(op, ConfigurationKey))
      && (!Mentions(root.content, Properties) ==> !HasDefined(op, PropertiesKey))
      && (!Mentions(root.content, Modules) ==> !HasDefined(op, ModulesKey))
    ensures r.Ok? ==> forall tag :: tag in {Configuration, Properties, Modules} && LastSection(root.content, tag).Some? ==>
      SectionValue(LastSection(root.content, tag).value) == Ok(Lookup(r.value[|operations|], SectionKey(tag)))
  {
    if NamespaceForUri(root.ns) != Osgi10 then Err(UnexpectedElement(root.ns, root.name))
    else
      var op := NewAddOperation();
      var withActivation :- ReadActivation(root.attrs, op);
      var complete :- ReadSections(root.content, withActivation);
      ReadOperation(root, withActivation, complete);
      Ok(operations + [complete])
  }
}
