# dash-htmlayout `Builder`, modelled in Dafny

`Builder` compiles an XML layout file into a tree of Dash components. This
project models its logic as pure functions over immutable data, in four
modules and a small shared one:

- `Results` (results.dfy): `Option` (Python's `None`) and `Result` (a value or a raised error).
- `Text` (text.dfy): the string operations the builder uses from Python.
  - `str.lower` (ASCII) and `str.strip` with `str.isspace` whitespace.
  - The regular-expression class `\w` (ASCII).
  - The code-point order of `sorted` on string keys. `SortedSet` lists a key set in that order.
- `ComponentRegistry` (registry.dfy): the class-level registries and the operations on them.
  - The registries are `_module_registry` (library path → prefix, in insertion order), `_autodetected_modules` and `_component_registry` (tag name → component class).
  - The operations are `_autodetect_components`, `register_library` and the lookup half of `_to_component`.
  - A module is described by the symbols `dir` lists, in order: a component class (origin, `__name__`, whether it has a `children` slot) or something else. A module missing from that description is one whose import fails.
- `Attributes` (attributes.dfy): `_convert_data_attributes`.
  - Its loop runs over the keys in sorted order. It has two accumulators and aborts at the first failing key.
  - The `KeyError` on a lower-cased key that is absent is modelled, and so is a failure of the literal evaluator.
- `LayoutBuilder` (builder.dfy): the walk and the builder state.
  - The walk covers `_to_component`, `_build_tree` and the id index it fills.
  - The builder state covers `load` (clear the index, then assign) and `get_component`.
  - A walk returns what it built and the index entries it wrote, in pre-order.

Collaborators become parameters:

- The parser's outcome is a `Result<Node, E>`.
- The truth test `if root:` is a predicate `truthy`. Under lxml an element is true when it has child nodes, which include the entity references kept when entities are not resolved.
- `ast.literal_eval` is `evaluate: string -> Option<V>`.
- Whether a class's constructor accepts a set of arguments is `accepts`.

## Model

| member | source | states |
|---|---|---|
| ComponentRegistry.PrefixMap | src/dash/htmlayout/builder.py:46-55 | The library list read as the Python dict: its keys are exactly the registered paths, and each maps to its entry's prefix. |
| ComponentRegistry.TagName | src/dash/htmlayout/builder.py:115-117 | A class is registered as `prefix-lower(name)`. A `None` or empty prefix gives just `lower(name)`. |
| ComponentRegistry.TagNameLowerCase | src/dash/htmlayout/builder.py:115-117 | With a lower-case prefix, every tag name is a fixed point of `lower`. |
| ComponentRegistry.MixedCasePrefixUnreachable | src/dash/htmlayout/builder.py:115-118 | If the prefix holds a capital, no tag written in markup can reach the registered name, because lookups lower-case the tag. |
| ComponentRegistry.ScanSymbols | src/dash/htmlayout/builder.py:112-118 | Scanning a module's symbols only adds or overwrites tags. Each new tag comes from a class of the module. The last class with a given tag wins. Tags the module does not provide keep their value. |
| ComponentRegistry.ScanLibrary | src/dash/htmlayout/builder.py:108-119 | An already scanned module is skipped with no change at all. A module that fails to import stays unscanned and leaves the tags as they were. Otherwise the module is marked scanned and its symbols go through `ScanSymbols`. |
| ComponentRegistry.ScanAll | src/dash/htmlayout/builder.py:107-124 | After a scan the scanned set is the old set plus exactly the importable paths. No tag is removed. A tag changes only if a library read by this scan provides it. Every tag such a library provides is registered. It maps to the class of the last library read that provides it, and within that library to its last class with that tag. |
| ComponentRegistry.Autodetect | src/dash/htmlayout/builder.py:82-124 | After `_autodetect_components` every registered library is scanned or not importable. Validity is preserved: if every scanned path was registered before, it still is. No tag is removed, and a tag that no library read by this scan provides keeps its class; no other tag appears. Every class found in a library read by this scan is registered, unless a later class takes its tag: the last library read, and within it the last class, wins. |
| ComponentRegistry.FirstScanRegistersProvidedTags | src/dash/htmlayout/builder.py:107-118 | The first scan registers every tag that an importable default library provides. |
| ComponentRegistry.SettledScanIsIdentity | src/dash/htmlayout/builder.py:107-111 | When every library is scanned or not importable, a scan changes nothing. |
| ComponentRegistry.AutodetectIdempotent | src/dash/htmlayout/builder.py:107-111 | A second scan with the same importable modules is a no-op. |
| ComponentRegistry.FailedImportIsRetried | src/dash/htmlayout/builder.py:108-124 | A library whose import fails stays out of the scanned set. A later scan, once it imports, scans it. |
| ComponentRegistry.SetLibrary | src/dash/htmlayout/builder.py:145 | `_module_registry[path] = prefix` updates the dict view. An existing entry keeps its position, and a new one is appended. |
| ComponentRegistry.RegisterLibrary | src/dash/htmlayout/builder.py:127-148 | Returns true exactly when the path is unregistered or `replace` is set. False leaves the state unchanged. True changes the library list exactly as the one dict assignment does, and leaves every library scanned or unimportable. The scanned set becomes the old set plus exactly the importable paths of that list. No tag is removed, and a tag that no library read by the scan provides keeps its class; no other tag appears. If the path was not scanned before, every tag the registered library provides is registered. More generally, every tag provided by a library that the scan reads is registered to the last such library and its last class with that tag. |
| ComponentRegistry.RegisterTwiceIsIdempotent | src/dash/htmlayout/builder.py:144-148 | Registering a path again without `replace` returns false and leaves the state unchanged. |
| ComponentRegistry.ReplaceScannedAddsNoTags | src/dash/htmlayout/builder.py:144-146 | Replacing the prefix of a scanned library on a settled registry returns true. The tag table and scanned set stay exactly as they were. |
| ComponentRegistry.NewLibraryWinsItsTags | src/dash/htmlayout/builder.py:144-146 | A new importable library registered on a settled registry is scanned last. Each tag it provides then maps to its own last class with that tag. |
| ComponentRegistry.Resolve | src/dash/htmlayout/builder.py:182-184 | The lookup finds a class exactly when `lower(tag)` is a registered tag name, and then returns that entry. |
| ComponentRegistry.ResolveIgnoresCase | src/dash/htmlayout/builder.py:182-184 | A tag resolves exactly as its lower-cased form does. |
| ComponentRegistry.RegisteredClassResolves | src/dash/htmlayout/builder.py:115-118 | A class registered under a lower-case prefix is found by every spelling that lower-cases to its tag name. |
| Attributes.DataName | src/dash/htmlayout/builder.py:229-231 | The captured word is present exactly when the key is `data-` followed by a word character. It is then the longest run of word characters after the prefix. |
| Attributes.DataNameOfWord | src/dash/htmlayout/builder.py:229-231 | `data-` + word + a non-word character (or nothing) captures exactly that word. |
| Attributes.HyphenEndsTheName | src/dash/htmlayout/builder.py:229-231 | `data-foo-bar` generates the argument `foo`. |
| Attributes.NameIsNotDataKey | src/dash/htmlayout/builder.py:234-236 | A generated name never equals a converted key, so the deletions never remove a generated argument. |
| Attributes.Loop | src/dash/htmlayout/builder.py:226-233 | The loop over sorted keys succeeds exactly when every data key's lower-cased form is present and evaluates. On success the accumulators hold the generated names and converted keys. On failure it reports the first failing key. |
| Attributes.Convert | src/dash/htmlayout/builder.py:223-237 | Success happens exactly when every data key's lower-cased form is present and evaluates. The output keys are the attributes minus the converted keys plus the generated names. Untouched attributes keep their raw text. A generated name holds the value of the last data key generating it in sorted order, even over a raw attribute of that name. A failure comes from a key before which every data key converts. |
| Attributes.LoneKeyMissing | src/dash/htmlayout/builder.py:226-232 | A lone data key that is not lower case fails with its lower-cased form missing. |
| Attributes.CapitalisedDataKeyIsMissing | src/dash/htmlayout/builder.py:226-232 | `{"DATA-x": "1"}` fails with the missing key `data-x`. |
| Text.SortedSet | src/dash/htmlayout/builder.py:223 | Lists exactly the keys, each once, in strictly increasing code-point order. |
| Text.Strip | src/dash/htmlayout/builder.py:197 | The result is the slice after the leading whitespace and before the trailing whitespace, with no whitespace at either end. It is empty exactly when the text is all whitespace. |
| LayoutBuilder.ToComponent | src/dash/htmlayout/builder.py:180-187 | Options named `tag` or `cls` raise, because the call gets a keyword twice, before any lookup. Otherwise an unknown lower-cased tag gives `None` without consulting a constructor. A known one builds a component of that class from the options, or raises if the class rejects them. |
| LayoutBuilder.ToComponentIgnoresCase | src/dash/htmlayout/builder.py:182-187 | Two tags with the same lower-cased form give the same outcome. |
| LayoutBuilder.TextSlot | src/dash/htmlayout/builder.py:197-198 | The text part of the slot has at most one entry. It is empty exactly when the text is absent or all whitespace, and otherwise holds the non-empty trimmed text. |
| LayoutBuilder.Build | src/dash/htmlayout/builder.py:196-209 | The walk succeeds exactly when conversion and construction succeed and, if the component has a `children` slot, every child's walk does. The result keeps the constructed class and arguments. With a slot, it holds the text entry then one entry per child in document order, `None` for an unresolved child. Only ids of the subtree are written. A walk that raises raises either the element's own conversion or construction error, or, when the element has a slot, the error of its first child walk that raises. |
| LayoutBuilder.BuildAll | src/dash/htmlayout/builder.py:206-208 | The children loop completes exactly when every child's walk succeeds. It then appends one entry per child, in order, holding what that child built. Otherwise the error that stops it is that of the first child whose walk raises. |
| LayoutBuilder.IndexIsPreorderRecord | src/dash/htmlayout/builder.py:200-208 | A successful walk writes exactly the record of the visited elements in pre-order. Each id maps to what the last visited element carrying it built. |
| LayoutBuilder.IndexLastCarrierWins | src/dash/htmlayout/builder.py:200-208 | After a successful walk an id is indexed exactly when a visited element carries it. It maps to what the last such element in pre-order built, `None` if its tag was unresolved. |
| LayoutBuilder.UnresolvedTagHidesDescendants | src/dash/htmlayout/builder.py:201-209 | An unknown tag whose converted attributes name neither `tag` nor `cls` builds `None`. It visits none of its descendants and writes only its own id, mapped to `None`. |
| LayoutBuilder.ParameterNamedAttributeRaises | src/dash/htmlayout/builder.py:201 | Converted attributes holding `tag` or `cls` make the walk raise, even on an unknown tag, and nothing is written to the index. |
| LayoutBuilder.ConversionPrecedesResolution | src/dash/htmlayout/builder.py:199-201 | A failing attribute conversion raises before the tag is resolved, even on an unknown tag, and writes nothing. |
| LayoutBuilder.Load | src/dash/htmlayout/builder.py:160-164 | A parse failure raises and changes nothing. Otherwise the index is cleared. A false root leaves the layout as it was and returns it. Any other root is walked and the index holds the walk's writes. The layout becomes the result, unless the walk raised, in which case the old layout stays. |
| LayoutBuilder.GetComponent | src/dash/htmlayout/builder.py:177 | `None` for an id the index lacks, the indexed entry otherwise. |
| LayoutBuilder.LookupAfterLoad | tests/test_builder.py:16-20 | After a load with a successful walk, an id no visited element carries gives `None`. Any other id gives what its last visited carrier built. |
| LayoutBuilder.FailedParseKeepsState | src/dash/htmlayout/builder.py:160-161 | A parse failure leaves the layout and every lookup as they were. |

## Left out

- Parsing (`etree.XMLParser`, `etree.parse`, builder.py:157-160) is outside the model. `Load` receives the parser's outcome.
- The root truth test (builder.py:162) is a parameter `truthy`. Under lxml a childless root is false: the index is cleared and the old layout is returned.
- Python reflection (`import_module`, `dir`, `getattr`, `issubclass`, builder.py:110-114) is replaced by a map from importable module paths to their symbol lists.
- `ast.literal_eval` (converters.py) is the abstract parameter `evaluate`. Its literal grammar belongs to the Python standard library and is not modelled.
- Dash constructors are the abstract predicate `accepts`. `hasattr(component, "children")` is the class's `hasChildren` flag. A built component records its class, its arguments and its slot.
- The warning printed to stderr on a failed import (builder.py:120-124) is not modelled. The model only records that the scan goes on.
- `__new__` (builder.py:64-77) is not modelled: it only chains a scan and a load, both modelled.
- LayoutBuilder.Build: entity-reference children are not modelled; `Node.children` holds elements only. Because entities are not resolved (builder.py:159), lxml keeps a reference to a declared entity as a child node, and `getchildren()` (builder.py:206) returns it. The source's walk then raises at builder.py:183, because that node's `tag` is not a string.
- Object identity is modelled by value.
  - The index entry of an element is the component as it stands at the end of its walk. In the source this is the same object the walk goes on to fill.
  - When a child raises, the entry and the parent hold the children appended before the failure.
- Text.Lower, Text.IsWordChar: `str.lower` and `\w` are modelled on ASCII only. Python applies them to all of Unicode, so non-ASCII capitals and word characters behave differently.
- ComponentRegistry.ScanLibrary: the only import failure modelled is a module absent from the importable map. Two other source behaviours are not modelled:
  - An `ImportError` raised inside the symbol loop (builder.py:112-113) comes after the module is marked scanned (builder.py:111). The module then keeps only the tags registered before the error and is never retried.
  - An exception other than `ImportError` from `import_module`, `dir` or `getattr` is not caught (only builder.py:119 catches). It escapes `_autodetect_components` and skips the remaining libraries. `register_library` then raises after builder.py:145 has already changed the module registry.
- Three behaviours of the code that a reader might not expect are modelled as written:
  - A failed load is not atomic (builder.py:160-163). After a successful parse the index is cleared before the walk. A walk that raises leaves the index holding the entries it wrote, while the layout keeps its old value.
  - Attributes are converted before the tag is resolved (builder.py:199-201). A bad data attribute raises even on an unknown tag.
  - A capitalised data key is read back in lower case (builder.py:227, 232). It raises `KeyError` unless its lower-case twin also exists.
