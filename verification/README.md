# OSGi subsystem transcoder, CLI result helpers and service-loader index

This project models three pure parts of the application server in Dafny and proves properties about them. All three are built on one management document tree (`Dmr.Node`). That tree is a tagged union standing in for `ModelNode`:

- `Undefined`, `Str`, `Bool`, `Bytes` and `List`;
- `Object`, whose keys are unique and kept in insertion order.

`Put` models `get(key).set(value)`. `Lookup` models reading a child that may not exist.

1. **The OSGi subsystem parser.**
   - The reader (`OsgiReader`) turns an already tokenised `subsystem` element tree into one `add` operation addressed at `subsystem=osgi`. The operation may carry `activation`, `configuration`, `properties` and `modules`.
   - The reader rejects:
     - unknown namespaces, elements and attributes;
     - namespaced attributes;
     - a missing `pid`, `name` or `identifier`;
     - duplicate property names and module identifiers within one block;
     - property values that are empty after trimming;
     - content inside a `module`.
   - The writer (`OsgiWriter`) renders an operation back as an element tree in the current namespace. Each section appears only when its key is defined, and key order is kept.
   - `OsgiRoundTrip` proves the correspondence between the two. Writing an operation the reader can produce and reading it back gives the same value under every key. Writing is stable under a further read–write cycle.
   - `OsgiScenarios` states concrete documents for all names and values, for example the same property name in both the `configuration` block and the `properties` block.
2. **The CLI result helpers** (`CliUtil`). These cover:
   - the `outcome`, `failure-description` and `result` queries;
   - list rendering and membership;
   - the hash and request-property names;
   - the deployment operation builder, whose address puts the server group first.
3. **The service-loader index** (`ServiceLoader`). This covers:
   - the `VALID_NAME` pattern, and its equivalence with a character-level definition;
   - per-line comment stripping and trimming;
   - per-root accumulation into a map from service type to class names;
   - the deployment-wide fold over the roots, deployment root first.

Supporting modules:

- `Wrappers`: `Option` and `Result`.
- `Seqs`: regrouping of concatenations.
- `Text`: `String.trim()`, XML whitespace and `indexOf`.
- `Xml`: the element tree, `getElementText` and `nextTag` over ordered content.
- `OsgiDialect`: the namespace, element and attribute enums and the content conformance predicates.

Notable behaviour of the code:

- The writer always emits the `subsystem` element, even when no section is defined.
- An empty `<properties/>` or `<modules/>` sets its key to an undefined node instead of omitting the key. The writer treats both the same.
- `listContains` answers `true` at the first matching item without rendering the items after it. So it can succeed where `getList` fails (`ListContainsStopsAtFirstMatch`).

## Model

| member | source | states |
|---|---|---|
| OsgiReader.ReadElement | osgi/service/src/main/java/org/jboss/as/osgi/parser/NewOSGiExtension.java:82-122 | A foreign root namespace fails with unexpected-element, and the first stray root attribute fails with unexpected-attribute. It succeeds exactly when the root is in the OSGi 1.0 namespace, every root attribute is `activation`, and every child is blank text or a section that reads. On success exactly one operation is appended after the given ones. It is an `add` addressed at `subsystem=osgi`, and `activation` is the last attribute value. Each section key holds the value read from the last element of that section, and a section that does not appear leaves its key undefined |
| OsgiReader.NewAddOperation | osgi/service/src/main/java/org/jboss/as/osgi/parser/NewOSGiExtension.java:83-85 | The fresh operation has exactly the keys `operation` and `address`, in that order, and satisfies the operation invariant |
| OsgiReader.NoAttributes | osgi/service/src/main/java/org/jboss/as/osgi/parser/NewOSGiExtension.java:237 | Nothing is reported exactly when the element has no attribute, and otherwise its first attribute is unexpected |
| OsgiReader.NoContent | osgi/service/src/main/java/org/jboss/as/osgi/parser/NewOSGiExtension.java:337 | Nothing is reported exactly when all content is blank text |
| OsgiReader.ReadActivation | osgi/service/src/main/java/org/jboss/as/osgi/parser/NewOSGiExtension.java:124-151 | Root attributes are accepted exactly when each is an unprefixed `activation`. The error names the first other attribute. `activation` holds the last value, and every other key is unchanged |
| OsgiReader.ReadSection | osgi/service/src/main/java/org/jboss/as/osgi/parser/NewOSGiExtension.java:91-118 | A child other than `configuration`, `properties` or `modules` in the OSGi 1.0 namespace fails with unexpected-element. It succeeds exactly when that section's own reader succeeds, and otherwise fails with that reader's error. On success the section key holds the value read, and every other key is unchanged |
| OsgiReader.SectionValue | osgi/service/src/main/java/org/jboss/as/osgi/parser/NewOSGiExtension.java:94-113 | Outside the three OSGi 1.0 sections the answer is unexpected-element. Each section is read by its own reader, and a value read has that section's shape |
| OsgiReader.LastSection | osgi/service/src/main/java/org/jboss/as/osgi/parser/NewOSGiExtension.java:91-119 | None exactly when no element of the section appears. Otherwise it is an element of that section with none after it |
| OsgiReader.ReadSections | osgi/service/src/main/java/org/jboss/as/osgi/parser/NewOSGiExtension.java:91-119 | Succeeds exactly when every piece of content is blank text or a section that reads. On success each section key holds the value read from the last element of that section. Keys of sections that never appear, and all keys outside the three sections, keep their values |
| OsgiReader.PutSection | osgi/service/src/main/java/org/jboss/as/osgi/parser/NewOSGiExtension.java:96-109 | Storing a section value of the right shape keeps the operation invariant |
| OsgiReader.ReadConfiguration | osgi/service/src/main/java/org/jboss/as/osgi/parser/NewOSGiExtension.java:153-232 | Succeeds exactly when there is at least one attribute, every attribute is an unprefixed `pid`, and the content is an accepted property block on no names. No attribute fails with missing-required `pid`, and a stray attribute fails with unexpected-attribute. On success `pid` is the last attribute value and every child is a `property`. `configuration-properties` is undefined when no property was declared, and otherwise is exactly the declared names in document order, each bound to its trimmed text |
| OsgiReader.ConfigurationOf | osgi/service/src/main/java/org/jboss/as/osgi/parser/NewOSGiExtension.java:228-229 | The node holds `pid`, and holds the property block under `configuration-properties` exactly when the block is an object, that is, when a property was stored |
| OsgiReader.ReadPid | osgi/service/src/main/java/org/jboss/as/osgi/parser/NewOSGiExtension.java:157-177 | Succeeds exactly when every attribute is an unprefixed `pid`, and yields the last value. The error names the first stray attribute |
| OsgiReader.ReadPropertyName | osgi/service/src/main/java/org/jboss/as/osgi/parser/NewOSGiExtension.java:189-209 | Succeeds exactly when every attribute is an unprefixed `name` not already in the block, and yields the last name |
| OsgiReader.StrayNameAttributeRejected | osgi/service/src/main/java/org/jboss/as/osgi/parser/NewOSGiExtension.java:191-207 | Without duplicates, the property scan fails with unexpected-attribute on the first attribute that is not a plain `name` |
| OsgiReader.ReadProperty | osgi/service/src/main/java/org/jboss/as/osgi/parser/NewOSGiExtension.java:187-218 | Succeeds exactly when the element has an attribute, every attribute is an unprefixed `name` whose value the block does not hold, and the content is text only and non-empty after trimming. No attribute fails with missing-required `name`. On success the block gains exactly the new name, last among its keys, bound to the trimmed text, and nothing else changes |
| OsgiReader.StoreProperty | osgi/service/src/main/java/org/jboss/as/osgi/parser/NewOSGiExtension.java:213-217 | Succeeds exactly when there is text and it is non-empty after trimming. Then the name is appended with the trimmed text and all other keys keep their values |
| OsgiReader.ReadPropertyRejects | osgi/service/src/main/java/org/jboss/as/osgi/parser/NewOSGiExtension.java:193-206 | Any stray attribute, or any name the block already holds, anywhere on a `property` makes it fail |
| OsgiReader.ReadPropertyBlock | osgi/service/src/main/java/org/jboss/as/osgi/parser/NewOSGiExtension.java:183-226 | Succeeds exactly when every piece of content is blank text or a `property` accepted on the names already in the block plus those declared before it, so declared names are new and pairwise different. A read block keeps the block invariant. Its members are the earlier members followed by each declared name bound to its trimmed text, in document order |
| OsgiReader.DuplicatePropertyRejected | osgi/service/src/main/java/org/jboss/as/osgi/parser/NewOSGiExtension.java:200-202 | Two `property` children declaring the same name make the block fail |
| OsgiReader.ReadProperties | osgi/service/src/main/java/org/jboss/as/osgi/parser/NewOSGiExtension.java:234-290 | Succeeds exactly when `properties` has no attribute and its content is an accepted property block on no names. Any attribute fails with unexpected-attribute. Starting from a fresh node, the result is undefined when nothing was declared, and otherwise is exactly the declared names in order, each bound to its trimmed text |
| OsgiReader.ReadModuleAttributes | osgi/service/src/main/java/org/jboss/as/osgi/parser/NewOSGiExtension.java:307-325 | Succeeds exactly when every attribute is an unprefixed `identifier` or `start`, and yields the last value of each |
| OsgiReader.ReadModule | osgi/service/src/main/java/org/jboss/as/osgi/parser/NewOSGiExtension.java:304-337 | Succeeds exactly when every attribute is an unprefixed `identifier` or `start`, an identifier is given and the block does not hold it, and all content is blank text. Stray attributes and a missing `identifier` fail with those errors. On success the identifier is appended, and its entry holds `start` exactly when the attribute was given, and is undefined otherwise |
| OsgiReader.ReadModuleBlock | osgi/service/src/main/java/org/jboss/as/osgi/parser/NewOSGiExtension.java:300-346 | Succeeds exactly when every piece of content is blank text or a `module` accepted on the identifiers already in the block plus those declared before it. A read block keeps the module-block invariant. Its members are the earlier members followed by each declared identifier, in order, bound to an entry that holds `start` exactly when the attribute was given |
| OsgiReader.DuplicateModuleRejected | osgi/service/src/main/java/org/jboss/as/osgi/parser/NewOSGiExtension.java:328-329 | Two `module` children with the same identifier make the block fail |
| OsgiReader.ReadModules | osgi/service/src/main/java/org/jboss/as/osgi/parser/NewOSGiExtension.java:292-349 | Succeeds exactly when `modules` has no attribute and its content is an accepted module block on no identifiers. Any attribute fails with unexpected-attribute. The result is undefined when nothing was declared, and otherwise is exactly the declared identifiers in order, each bound to its `start` entry |
| OsgiWriter.WriteContent | osgi/service/src/main/java/org/jboss/as/osgi/parser/NewOSGiExtension.java:352-407 | The output is the `subsystem` element in the current namespace. It succeeds exactly when `activation` and all three sections render. It carries `activation` exactly when that key is defined, and its content is the `configuration`, `properties` and `modules` output, in that order |
| OsgiWriter.WriteActivation | osgi/service/src/main/java/org/jboss/as/osgi/parser/NewOSGiExtension.java:356-358 | Succeeds exactly when the key is undefined or its value has a string form, and otherwise fails with that value's type error. The `activation` attribute is emitted exactly when the key is defined, holding its string form |
| OsgiWriter.WriteAttribute | osgi/service/src/main/java/org/jboss/as/osgi/parser/NewOSGiExtension.java:413-416 | Succeeds exactly for values with a string form. The result is unprefixed, is named by the given attribute, and holds the value's string form: a string verbatim, a boolean as `true` or `false` |
| OsgiWriter.WriteConfiguration | osgi/service/src/main/java/org/jboss/as/osgi/parser/NewOSGiExtension.java:360-376 | Succeeds exactly when `pid` exists with a string form and, when `configuration-properties` is defined, its properties render. `pid` becomes the only attribute. Without properties the element is empty, and otherwise it holds one `property` per key, in key order, with the key as `name` and the value as text |
| OsgiWriter.WritePropertyElements | osgi/service/src/main/java/org/jboss/as/osgi/parser/NewOSGiExtension.java:366-373 | Succeeds exactly when every value renders. Gives one `property` per key, in key order, with the key as `name` and the value as text |
| OsgiWriter.WriteProperties | osgi/service/src/main/java/org/jboss/as/osgi/parser/NewOSGiExtension.java:379-388 | Succeeds exactly when the block is an object whose values all have a string form. Gives one `property` per key, in key order, with the key as `name` and the value as text |
| OsgiWriter.ModuleAttributes | osgi/service/src/main/java/org/jboss/as/osgi/parser/NewOSGiExtension.java:398-402 | `identifier` comes first. `start` follows exactly when the entry defines it, and fails only when that value has no string form |
| OsgiWriter.WriteModuleElements | osgi/service/src/main/java/org/jboss/as/osgi/parser/NewOSGiExtension.java:395-403 | Gives one empty `module` per key, in key order, and fails exactly when some entry's attributes fail |
| OsgiWriter.WriteModules | osgi/service/src/main/java/org/jboss/as/osgi/parser/NewOSGiExtension.java:393-403 | Succeeds exactly when the block is an object and every entry's attributes render. Gives one empty `module` per key, in key order, carrying those attributes |
| OsgiWriter.WriteSection | osgi/service/src/main/java/org/jboss/as/osgi/parser/NewOSGiExtension.java:360-405 | Empty exactly when the section key is undefined. Otherwise it succeeds exactly when that section's writer does, and gives the `configuration` element, or one attribute-free `properties` or `modules` element whose content is that writer's output |
| Dmr.HasDefined | osgi/service/src/main/java/org/jboss/as/osgi/parser/NewOSGiExtension.java:409-411 | A key counts as present for the writer exactly when looking it up gives a defined node |
| Dmr.Put | osgi/service/src/main/java/org/jboss/as/osgi/parser/NewOSGiExtension.java:96-109 | After `get(key).set(v)` the key holds `v` and every other key is unchanged. An existing key keeps its position, a new key goes last, and keys stay unique |
| OsgiRoundTrip.PropertiesRoundTrip | osgi/service/src/main/java/org/jboss/as/osgi/parser/NewOSGiExtension.java:378-390 | A non-empty property block written as `property` elements reads back as the identical block, order included |
| OsgiRoundTrip.ConfigurationRoundTrip | osgi/service/src/main/java/org/jboss/as/osgi/parser/NewOSGiExtension.java:360-376 | Any configuration node the reader can produce is written and read back to the identical node |
| OsgiRoundTrip.ModulesRoundTrip | osgi/service/src/main/java/org/jboss/as/osgi/parser/NewOSGiExtension.java:392-405 | A non-empty module block, with and without `start`, is written and read back to the identical block |
| OsgiRoundTrip.WritePropertiesExact | osgi/service/src/main/java/org/jboss/as/osgi/parser/NewOSGiExtension.java:381-388 | The properties of a block with renderable values are written as one `property` per member, in member order |
| OsgiRoundTrip.WriteModulesExact | osgi/service/src/main/java/org/jboss/as/osgi/parser/NewOSGiExtension.java:395-403 | The modules of a well-shaped block are written as one `module` per member, in member order |
| OsgiRoundTrip.WriteThenRead | osgi/service/src/main/java/org/jboss/as/osgi/parser/NewOSGiExtension.java:352-407 | Every operation the reader can produce is written without error. Reading it back appends one operation with the same value under every key |
| OsgiRoundTrip.ReadWriteRead | osgi/service/src/main/java/org/jboss/as/osgi/parser/NewOSGiExtension.java:82-122 | Whatever the reader accepts, once written, is read again to an operation that agrees with the first under every key |
| OsgiRoundTrip.WriteIsStable | osgi/service/src/main/java/org/jboss/as/osgi/parser/NewOSGiExtension.java:352-407 | Writing, reading and writing again gives exactly the first output |
| OsgiRoundTrip.WriteSeesOnlyValues | osgi/service/src/main/java/org/jboss/as/osgi/parser/NewOSGiExtension.java:352-407 | Two operations that agree under every key are written identically, whatever the order of their top-level members |
| OsgiScenarios.SameNameInBothBlocks | osgi/service/src/main/java/org/jboss/as/osgi/parser/NewOSGiExtension.java:182-239 | One property name in both the `configuration` block and the `properties` block is accepted, and each block keeps its own value |
| OsgiScenarios.TwoBlocksWritten | osgi/service/src/main/java/org/jboss/as/osgi/parser/NewOSGiExtension.java:360-390 | An operation holding those two blocks, and no activation or modules, is written as exactly the two section elements in writer order |
| Xml.ElementText | osgi/service/src/main/java/org/jboss/as/osgi/parser/NewOSGiExtension.java:213 | The text of an element is unavailable exactly when some child element is met |
| Xml.FirstTag | osgi/service/src/main/java/org/jboss/as/osgi/parser/NewOSGiExtension.java:91 | Nothing is found exactly when all content is blank text. Otherwise the result is content that is a child or non-blank text |
| Dmr.Get | cli/src/main/java/org/jboss/as/cli/Util.java:57 | Reading a child succeeds exactly on undefined and object nodes, and gives the member or undefined. Any other kind is a non-object error |
| Dmr.Require | osgi/service/src/main/java/org/jboss/as/osgi/parser/NewOSGiExtension.java:363 | Succeeds exactly when the key exists, giving its value. A non-object fails as such, and a missing key fails naming the key |
| Dmr.AsString | osgi/service/src/main/java/org/jboss/as/osgi/parser/NewOSGiExtension.java:415 | Succeeds exactly on strings and booleans, a string giving its own text. Any other kind is a type error naming it |
| Dmr.AsList | cli/src/main/java/org/jboss/as/cli/Util.java:68 | Succeeds exactly on lists, giving their items |
| Dmr.AsBytes | cli/src/main/java/org/jboss/as/cli/Util.java:98 | Succeeds exactly on byte nodes, giving their bytes |
| Dmr.AsPropertyList | cli/src/main/java/org/jboss/as/cli/Util.java:109 | Succeeds exactly on objects, giving pairs whose names are the object's keys in order |
| Dmr.ObjectKeys | osgi/service/src/main/java/org/jboss/as/osgi/parser/NewOSGiExtension.java:366 | Succeeds exactly on objects, giving their keys in insertion order |
| CliUtil.IsSuccess | cli/src/main/java/org/jboss/as/cli/Util.java:45-51 | Absent result gives false. The answer is true exactly when `outcome` is the string `success`, and fails exactly when `outcome` cannot be read or rendered |
| CliUtil.GetFailureDescription | cli/src/main/java/org/jboss/as/cli/Util.java:53-62 | Absent result gives no description, and only then. A result that is neither undefined nor an object fails as a non-object. Otherwise the answer is the string form of `failure-description`, and a missing or unrenderable one is a type error naming its kind |
| CliUtil.FailureDescriptionReported | cli/src/main/java/org/jboss/as/cli/Util.java:57-61 | A description stored under `failure-description` is returned as it was stored, and a result without that key is a type error about an undefined node |
| CliUtil.RenderAll | cli/src/main/java/org/jboss/as/cli/Util.java:72-75 | Succeeds exactly when every item has a string form. Gives those forms in order, one per item |
| CliUtil.GetList | cli/src/main/java/org/jboss/as/cli/Util.java:64-77 | Undefined `result` gives the empty list, and a non-list `result` is a type error. Otherwise the answer is the items' string forms, same length, in order, failing exactly when one has none |
| CliUtil.ContainsRendered | cli/src/main/java/org/jboss/as/cli/Util.java:87-92 | True exactly when some item renders equal to the target and every item before it renders. False exactly when all render and none matches |
| CliUtil.ListContains | cli/src/main/java/org/jboss/as/cli/Util.java:79-93 | Undefined `result` gives false, and a non-list `result` fails naming its kind. A list `result` gives the first-match scan over its items |
| CliUtil.ListContainsIsMembership | cli/src/main/java/org/jboss/as/cli/Util.java:79-93 | Whenever `getList` succeeds, `listContains` is membership in its result |
| CliUtil.ListContainsStopsAtFirstMatch | cli/src/main/java/org/jboss/as/cli/Util.java:87-91 | A list whose later item has no string form still contains an earlier matching item, although `getList` fails on it |
| CliUtil.GetHash | cli/src/main/java/org/jboss/as/cli/Util.java:95-99 | No hash exactly when `result` is undefined. Fails exactly when a defined `result` is not bytes, and otherwise gives those bytes |
| CliUtil.GetRequestPropertyNames | cli/src/main/java/org/jboss/as/cli/Util.java:101-118 | Empty unless `result` and `request-properties` are both defined. Fails exactly when the latter is not an object, and otherwise gives its keys in order |
| CliUtil.RequestPropertyNamesInOrder | cli/src/main/java/org/jboss/as/cli/Util.java:109-117 | For any object with distinct member names, the answer has one name per member, the member names in their order, none repeated |
| CliUtil.ConfigureDeploymentOperation | cli/src/main/java/org/jboss/as/cli/Util.java:385-393 | The operation has exactly the keys `operation` and `address`. `operation` holds the given name, and `address` is the server-group segment when a group is given, then the deployment segment |
| CliUtil.DeploymentOperationShape | cli/src/main/java/org/jboss/as/cli/Util.java:385-393 | The built operation holds exactly `operation` with the given name, then `address`. The address is the server-group segment when a group is given, then the deployment segment |
| CliUtil.DeploymentTargetRoundTrip | cli/src/main/java/org/jboss/as/cli/Util.java:385-393 | Decoding the built address gives back exactly the requested server group and deployment name |
| Text.Trim | osgi/service/src/main/java/org/jboss/as/osgi/parser/NewOSGiExtension.java:213 | The trimmed value has no character at or below U+0020 at either end. It is empty exactly when every character is such a character, and an already trimmed string is unchanged |
| Text.TrimIsInfix | osgi/service/src/main/java/org/jboss/as/osgi/parser/NewOSGiExtension.java:213 | Trimming removes only a run of characters at or below U+0020 from each end, so the input is that run, the result, and another such run |
| ServiceLoader.ValidName | server/src/main/java/org/jboss/as/server/deployment/ServiceLoaderProcessor.java:48 | A name the pattern accepts is non-empty and starts and ends with a word character. Its full character set and dot placement are stated by `ValidNameIsDotSeparated` |
| ServiceLoader.ValidNameIsDotSeparated | server/src/main/java/org/jboss/as/server/deployment/ServiceLoaderProcessor.java:48 | The pattern accepts exactly the non-empty names made of `[A-Za-z0-9_]` and dots, with no leading, trailing or doubled dot |
| ServiceLoader.ClassNameOf | server/src/main/java/org/jboss/as/server/deployment/ServiceLoaderProcessor.java:82-88 | The class name of a line holds no `#` and is trimmed |
| ServiceLoader.CommentIgnored | server/src/main/java/org/jboss/as/server/deployment/ServiceLoaderProcessor.java:82-88 | A line's class name is its text before the first `#`, or the whole line when there is none, trimmed |
| ServiceLoader.ClassNames | server/src/main/java/org/jboss/as/server/deployment/ServiceLoaderProcessor.java:81-96 | There are never more names than lines. Every name kept is non-empty, `#`-free and trimmed, and every line with a non-empty class name contributes it. That each line gives at most its own name, in line order, is `ClassNamesOfLine` with `ClassNamesAppend` |
| ServiceLoader.ClassNamesOfLine | server/src/main/java/org/jboss/as/server/deployment/ServiceLoaderProcessor.java:82-95 | One line gives its class name when that is non-empty, and nothing otherwise |
| ServiceLoader.PlainLineKept | server/src/main/java/org/jboss/as/server/deployment/ServiceLoaderProcessor.java:82-95 | A line without `#` whose trimmed text is non-empty gives exactly that trimmed text |
| ServiceLoader.BlankLineSkipped | server/src/main/java/org/jboss/as/server/deployment/ServiceLoaderProcessor.java:82-91 | A blank line, with or without a comment after it, gives no class name |
| ServiceLoader.ClassNamesAppend | server/src/main/java/org/jboss/as/server/deployment/ServiceLoaderProcessor.java:81-96 | Names are collected line by line in order: the lines of two parts give the names of the first, then those of the second |
| ServiceLoader.ClassNameKept | server/src/main/java/org/jboss/as/server/deployment/ServiceLoaderProcessor.java:92-95 | Any non-empty trimmed name followed by a comment is kept as it is, whether or not it matches the pattern |
| ServiceLoader.InvalidNamesKept | server/src/main/java/org/jboss/as/server/deployment/ServiceLoaderProcessor.java:92-95 | `a-b` fails the pattern, yet it is still kept as a class name |
| ServiceLoader.ProcessRoot | server/src/main/java/org/jboss/as/server/deployment/ServiceLoaderProcessor.java:67-104 | The index gains an entry for every file with a valid name, and keeps the others. Each entry is its earlier list followed by the class names of this root's files of that name, in order |
| ServiceLoader.InvalidFileIgnored | server/src/main/java/org/jboss/as/server/deployment/ServiceLoaderProcessor.java:71-72 | A file whose name fails the pattern contributes nothing, not even an entry |
| ServiceLoader.EmptyServiceFileListed | server/src/main/java/org/jboss/as/server/deployment/ServiceLoaderProcessor.java:73-76 | A valid file without class names still gets an entry holding the empty list |
| ServiceLoader.ProcessNextRoot | server/src/main/java/org/jboss/as/server/deployment/ServiceLoaderProcessor.java:55-63 | Processing one more root extends an index over earlier roots to the index over all of them, later roots appended after earlier ones |
| ServiceLoader.Deploy | server/src/main/java/org/jboss/as/server/deployment/ServiceLoaderProcessor.java:51-65 | The final index has an entry exactly for the service types some root declares. Each entry holds every root's class names, deployment root first, then the resource roots in order |

## Left out

- `initialize` and `initializeParsers` register the subsystem with controller APIs. They are wiring, not logic.
- The `Util` methods that send requests through the controller client are left out because they are network calls:
  - `isDeploymentInRepository`, `isDeployedAndEnabledInStandalone`, `getDeployments`;
  - `getAllEnabledServerGroups`, `getAllReferencingServerGroups`, `getServerGroups`;
  - `getNodeTypes`, `getJmsResources`, `isTopic`, `isQueue`, `isConnectionFactory`.
- The streaming reader and writer are not modelled:
  - `nextTag`, `getElementText`, locations and exception message texts;
  - the reader takes an element tree, and the writer yields one.
  - Comments and processing instructions have no representation in the tree.
- Virtual file system access, UTF-8 decoding, `safeClose`, the warning log, the deployment attachments and `undeploy` are I/O and plumbing.
  - A root is given as its list of service files, each with its lines.
  - The `IOException` path is therefore absent.
- `ModelNode`, `ParseUtils`, `Namespace`, `Element` and `Attribute` are not part of this model.
  - The tree is a closed tagged union.
  - The enums are closed, each with an unknown member.
  - Parse errors are plain constructors.
- `Dmr.AsString`: defined for strings and booleans only; every other kind is a type error. Numeric kinds and expressions are not in the tree.
- `OsgiReader.ReadConfiguration`: `configurationProperties.asList().size() > 0` at NewOSGiExtension.java:228 is modelled as "the block has become an object", which happens exactly when at least one property was stored. `ModelNode.asList` on undefined and object nodes is not part of `Dmr.AsList`, which covers lists only.
- `Dmr.Segment`: the property node that `add(type, name)` creates (NewOSGiExtension.java:85, Util.java:389-391) is encoded as an object with one member.
- `Dmr.ObjectKeys`: `ModelNode.keys()` is described as giving no keys for a node that is not an object. The model fails with a type error on a defined non-object instead, so the writer rejects a section value of the wrong kind. Every node the reader builds is an object or undefined there, so round trips are unaffected.
- `ServiceLoader.ValidName`: its own contract gives only non-emptiness and the word characters at both ends. The rest of the pattern, only `[A-Za-z0-9_]` and single inner dots, is stated in `ValidNameIsDotSeparated`, which keeps the predicate's own contract small for its callers.
- `Dmr.Lookup`: reading a child never creates it. The side effect of `get` on an absent key is not observable in any modelled result.
- `OsgiRoundTrip.WriteThenRead` states agreement key by key, not equality. The reader restores sections in document order and the writer uses a fixed order, so top-level member order can differ. Order inside each block is exact.
- `ServiceLoader.ProcessRoot` keeps the index as a map to immutable lists. The aliasing of the shared mutable list is not modelled: each entry is only ever appended to.
