/**
 * The class-level component registry of `Builder`: which libraries provide
 * components and under which prefix, which of them have been scanned, and
 * the tag name under which each component class can be written.
 *
 * Python reflection over a module (`import_module`, `dir`, `getattr`,
 * `issubclass(..., Component)`) is replaced by an explicit description of
 * every importable module: the symbols `dir` lists, in that order, each
 * either a component class or something else. A module that cannot be
 * imported is one that is absent from that description.
 */
module ComponentRegistry {
  import opened Results
  import opened Text

  /** A component class: where it is defined, its `__name__`, and whether it has a `children` slot. */
  datatype ComponentType = ComponentType(origin: string, name: string, hasChildren: bool)

  /** One public symbol of a module, in `dir` order. */
  datatype Symbol = ComponentClass(ctype: ComponentType) | OtherSymbol(name: string)

  /** The symbols of every importable module, by module path; a missing path fails to import. */
  type Importable = map<string, seq<Symbol>>

  /** One entry of the library registry: a module path and its optional tag prefix. */
  datatype Library = Library(path: string, prefix: Option<string>)

  predicate DistinctPaths(libs: seq<Library>) {
    forall i, j :: 0 <= i < j < |libs| ==> libs[i].path != libs[j].path
  }

  /** The library registry is a Python dict: one entry per path, kept in insertion order. */
  type Libraries = libs: seq<Library> | DistinctPaths(libs) witness []

  /**
   * The registry state: the registered libraries, the paths already scanned,
   * and the tag name → component class table.
   */
  datatype Registry = Registry(libraries: Libraries, scanned: set<string>, tags: map<string, ComponentType>)

  /** The libraries the builder knows before any registration. */
  const DefaultLibraries: Libraries := [
    Library("dash.html", None),
    Library("dash.dcc", Some("dcc")),
    Library("dash.dash_table", Some("table")),
    Library("dash_daq", Some("daq")),
    Library("dash_bio", Some("bio")),
    Library("dash_slicer", Some("slicer")),
    Library("dash_player", Some("player")),
    Library("dash_bootstrap_components", Some("bootstrap"))
  ]

  /** The registry before the first scan. */
  const Initial := Registry(DefaultLibraries, {}, map[])

  predicate IsRegistered(libs: seq<Library>, path: string) {
    exists i :: 0 <= i < |libs| && libs[i].path == path
  }

  /** The registry as the Python dict it is: path → prefix. */
  function PrefixMap(libs: seq<Library>): (m: map<string, Option<string>>)
    requires DistinctPaths(libs)
    ensures forall path :: path in m <==> IsRegistered(libs, path)
    ensures forall i :: 0 <= i < |libs| ==> libs[i].path in m && m[libs[i].path] == libs[i].prefix
    decreases |libs|
  {
    if libs == [] then map[]
    else
      var pre := libs[..|libs| - 1];
      PrefixDistinct(libs, pre);
      var earlier := PrefixMap(pre);
      PrefixMapStep(libs, pre, earlier);
      earlier[libs[|libs| - 1].path := libs[|libs| - 1].prefix]
  }

  lemma PrefixDistinct(libs: seq<Library>, pre: seq<Library>)
    requires DistinctPaths(libs) && libs != [] && pre == libs[..|libs| - 1]
    ensures DistinctPaths(pre)
  {
    assert forall i :: 0 <= i < |pre| ==> pre[i] == libs[i];
  }

  lemma PrefixMapStep(libs: seq<Library>, pre: seq<Library>, earlier: map<string, Option<string>>)
    requires DistinctPaths(libs) && libs != [] && pre == libs[..|libs| - 1]
    requires forall path :: path in earlier <==> IsRegistered(pre, path)
    requires forall i :: 0 <= i < |pre| ==> pre[i].path in earlier && earlier[pre[i].path] == pre[i].prefix
    ensures var m := earlier[libs[|libs| - 1].path := libs[|libs| - 1].prefix];
            && (forall path :: path in m <==> IsRegistered(libs, path))
            && (forall i :: 0 <= i < |libs| ==> libs[i].path in m && m[libs[i].path] == libs[i].prefix)
  {
    var n := |libs| - 1;
    var m := earlier[libs[n].path := libs[n].prefix];
    forall path
      ensures path in m <==> IsRegistered(libs, path)
    {
      if IsRegistered(libs, path) {
        var i :| 0 <= i < |libs| && libs[i].path == path;
        if i < n {
          assert pre[i] == libs[i];
        }
      }
      if IsRegistered(pre, path) {
        var i :| 0 <= i < |pre| && pre[i].path == path;
        assert libs[i] == pre[i];
      }
    }
    forall i | 0 <= i < |libs|
      ensures libs[i].path in m && m[libs[i].path] == libs[i].prefix
    {
      if i < n {
        assert pre[i] == libs[i];
        assert libs[i].path != libs[n].path;
      }
    }
  }

  /** Every scanned path is a registered library. */
  predicate Valid(reg: Registry) {
    forall path :: path in reg.scanned ==> IsRegistered(reg.libraries, path)
  }

  /** Nothing is left to scan: each library was scanned already or cannot be imported. */
  predicate Settled(reg: Registry, importable: Importable) {
    forall i :: 0 <= i < |reg.libraries| ==>
      reg.libraries[i].path in reg.scanned || reg.libraries[i].path !in importable
  }

  // ---------------------------------------------------------------------------
  // Tag names
  // ---------------------------------------------------------------------------

  /** `f"{prefix}-" if prefix else ""`: `None` and the empty prefix both add nothing. */
  function Qualifier(prefix: Option<string>): string {
    if prefix.Some? && prefix.value != "" then prefix.value + "-" else ""
  }

  /** The tag under which a class named `typeName` is registered. */
  function TagName(prefix: Option<string>, typeName: string): (tag: string)
    ensures prefix.Some? && prefix.value != "" ==> tag == prefix.value + "-" + Lower(typeName)
    ensures prefix.None? || prefix == Some("") ==> tag == Lower(typeName)
  {
    Qualifier(prefix) + Lower(typeName)
  }

  /** With a lower-case prefix every tag name is lower case, so `Lower` leaves it unchanged. */
  lemma TagNameLowerCase(prefix: Option<string>, typeName: string)
    requires prefix.Some? ==> IsLowerCase(prefix.value)
    ensures Lower(TagName(prefix, typeName)) == TagName(prefix, typeName)
  {
    var q := Qualifier(prefix);
    assert IsLowerCase(q);
    LowerFixesLowerCase(q);
    LowerConcat(q, Lower(typeName));
    LowerIdempotent(typeName);
  }

  /**
   * A prefix holding a capital letter yields tag names no markup tag can
   * reach, because lookups lower-case the tag first.
   */
  lemma MixedCasePrefixUnreachable(prefix: Option<string>, typeName: string, tag: string)
    requires prefix.Some? && !IsLowerCase(prefix.value)
    ensures Lower(tag) != TagName(prefix, typeName)
  {
    var p := prefix.value;
    var k :| 0 <= k < |p| && 'A' <= p[k] <= 'Z';
    assert TagName(prefix, typeName)[k] == p[k];
    LowerIsLowerCase(tag);
  }

  // ---------------------------------------------------------------------------
  // Scanning
  // ---------------------------------------------------------------------------

  /** Symbol `i` of `syms` is a component class registered under `tag`. */
  predicate Provides(prefix: Option<string>, syms: seq<Symbol>, i: int, tag: string) {
    0 <= i < |syms| && syms[i].ComponentClass? && TagName(prefix, syms[i].ctype.name) == tag
  }

  /** Symbol `i` is a component class and no later symbol takes the same tag. */
  predicate LastProvider(prefix: Option<string>, syms: seq<Symbol>, i: int) {
    && 0 <= i < |syms| && syms[i].ComponentClass?
    && forall j :: i < j < |syms| ==> !Provides(prefix, syms, j, TagName(prefix, syms[i].ctype.name))
  }

  /**
   * The inner loop of a module scan: each component class, in `dir` order,
   * is written under its tag name. The table only grows; each new tag comes
   * from a class of the module; the last class with a given tag wins; tags
   * the module does not provide keep their value.
   */
  function ScanSymbols(tags: map<string, ComponentType>, prefix: Option<string>, syms: seq<Symbol>)
    : (r: map<string, ComponentType>)
    ensures ScanFacts(tags, prefix, syms, r)
    decreases |syms|
  {
    if syms == [] then tags
    else
      var n := |syms| - 1;
      var earlier := ScanSymbols(tags, prefix, syms[..n]);
      ScanSymbolsStep(tags, prefix, syms, earlier);
      AddSymbol(earlier, prefix, syms[n])
  }

  /**
   * What scanning `syms` into `tags` yields: the table only grows and each
   * new tag comes from a class of the module; the last class with a given
   * tag wins; tags the module does not provide keep their value.
   */
  ghost predicate ScanFacts(tags: map<string, ComponentType>, prefix: Option<string>, syms: seq<Symbol>,
                            r: map<string, ComponentType>)
  {
    && ScanKeys(tags, prefix, syms, r)
    && ScanWinners(prefix, syms, r)
    && ScanKeeps(tags, prefix, syms, r)
  }

  ghost predicate ScanKeys(tags: map<string, ComponentType>, prefix: Option<string>, syms: seq<Symbol>,
                           r: map<string, ComponentType>)
  {
    forall t :: t in r <==> t in tags || exists i :: Provides(prefix, syms, i, t)
  }

  ghost predicate ScanWinners(prefix: Option<string>, syms: seq<Symbol>, r: map<string, ComponentType>) {
    forall i :: LastProvider(prefix, syms, i) ==>
      TagName(prefix, syms[i].ctype.name) in r && r[TagName(prefix, syms[i].ctype.name)] == syms[i].ctype
  }

  ghost predicate ScanKeeps(tags: map<string, ComponentType>, prefix: Option<string>, syms: seq<Symbol>,
                            r: map<string, ComponentType>)
  {
    forall t :: t in tags && (forall i :: !Provides(prefix, syms, i, t)) ==> t in r && r[t] == tags[t]
  }

  /** The last symbol's step, written the way `ScanSymbols` takes it. */
  function AddSymbol(earlier: map<string, ComponentType>, prefix: Option<string>, sym: Symbol): map<string, ComponentType> {
    match sym
    case ComponentClass(c) => earlier[TagName(prefix, c.name) := c]
    case OtherSymbol(_) => earlier
  }

  lemma ScanSymbolsStep(tags: map<string, ComponentType>, prefix: Option<string>, syms: seq<Symbol>,
                        earlier: map<string, ComponentType>)
    requires syms != []
    requires ScanFacts(tags, prefix, syms[..|syms| - 1], earlier)
    ensures ScanFacts(tags, prefix, syms, AddSymbol(earlier, prefix, syms[|syms| - 1]))
  {
    var pre := syms[..|syms| - 1];
    ScanKeysStep(tags, prefix, syms, pre, earlier);
    ScanWinnersStep(prefix, syms, pre, earlier);
    ScanKeepsStep(tags, prefix, syms, pre, earlier);
  }

  lemma ScanKeysStep(tags: map<string, ComponentType>, prefix: Option<string>, syms: seq<Symbol>,
                     pre: seq<Symbol>, earlier: map<string, ComponentType>)
    requires syms != [] && pre == syms[..|syms| - 1]
    requires ScanKeys(tags, prefix, pre, earlier)
    ensures ScanKeys(tags, prefix, syms, AddSymbol(earlier, prefix, syms[|syms| - 1]))
  {
    var n := |pre|;
    var r := AddSymbol(earlier, prefix, syms[n]);
    forall t
      ensures t in r <==> t in tags || exists i :: Provides(prefix, syms, i, t)
    {
      if Provides(prefix, syms, n, t) {
        assert t in r;
      } else {
        assert t in r <==> t in earlier;
        if exists i :: Provides(prefix, syms, i, t) {
          var i :| Provides(prefix, syms, i, t);
          assert pre[i] == syms[i];
          assert Provides(prefix, pre, i, t);
        }
        if exists i :: Provides(prefix, pre, i, t) {
          var i :| Provides(prefix, pre, i, t);
          assert pre[i] == syms[i];
          assert Provides(prefix, syms, i, t);
        }
      }
    }
  }

  lemma ScanWinnersStep(prefix: Option<string>, syms: seq<Symbol>, pre: seq<Symbol>, earlier: map<string, ComponentType>)
    requires syms != [] && pre == syms[..|syms| - 1]
    requires ScanWinners(prefix, pre, earlier)
    ensures ScanWinners(prefix, syms, AddSymbol(earlier, prefix, syms[|syms| - 1]))
  {
    var n := |pre|;
    var r := AddSymbol(earlier, prefix, syms[n]);
    forall i | LastProvider(prefix, syms, i)
      ensures TagName(prefix, syms[i].ctype.name) in r && r[TagName(prefix, syms[i].ctype.name)] == syms[i].ctype
    {
      if i < n {
        LastProviderOfPrefix(prefix, syms, pre, i);
        assert !Provides(prefix, syms, n, TagName(prefix, syms[i].ctype.name));
      }
    }
  }

  lemma LastProviderOfPrefix(prefix: Option<string>, syms: seq<Symbol>, pre: seq<Symbol>, i: int)
    requires syms != [] && pre == syms[..|syms| - 1]
    requires LastProvider(prefix, syms, i) && i < |pre|
    ensures LastProvider(prefix, pre, i)
  {
    var n := |pre|;
    {
      var t := TagName(prefix, syms[i].ctype.name);
      assert pre[i] == syms[i];
      forall j | i < j < n
        ensures !Provides(prefix, pre, j, t)
      {
        assert pre[j] == syms[j];
        assert !Provides(prefix, syms, j, t);
      }
      assert !Provides(prefix, syms, n, t);
    }
  }

  lemma ScanKeepsStep(tags: map<string, ComponentType>, prefix: Option<string>, syms: seq<Symbol>,
                      pre: seq<Symbol>, earlier: map<string, ComponentType>)
    requires syms != [] && pre == syms[..|syms| - 1]
    requires ScanKeeps(tags, prefix, pre, earlier)
    ensures ScanKeeps(tags, prefix, syms, AddSymbol(earlier, prefix, syms[|syms| - 1]))
  {
    var n := |pre|;
    var r := AddSymbol(earlier, prefix, syms[n]);
    forall t | t in tags && (forall i :: !Provides(prefix, syms, i, t))
      ensures t in r && r[t] == tags[t]
    {
      assert !Provides(prefix, syms, n, t);
      forall i | 0 <= i < |pre|
        ensures !Provides(prefix, pre, i, t)
      {
        assert pre[i] == syms[i];
        assert !Provides(prefix, syms, i, t);
      }
    }
  }

  /** The library `lib` can be imported and has a component class registered under `tag`. */
  predicate ProvidedBy(lib: Library, importable: Importable, tag: string) {
    lib.path in importable && exists i :: 0 <= i < |importable[lib.path]| && Provides(lib.prefix, importable[lib.path], i, tag)
  }

  /**
   * One iteration of the outer scan loop: a library already scanned is
   * skipped; one that cannot be imported is skipped and stays unscanned;
   * otherwise it is marked scanned and its classes are registered.
   */
  function ScanLibrary(reg: Registry, lib: Library, importable: Importable): (r: Registry)
    ensures r.libraries == reg.libraries
    ensures r.scanned == if lib.path in importable then reg.scanned + {lib.path} else reg.scanned
    ensures lib.path in reg.scanned ==> r == reg
    ensures r.tags == if lib.path in reg.scanned || lib.path !in importable then reg.tags
                      else ScanSymbols(reg.tags, lib.prefix, importable[lib.path])
  {
    if lib.path in reg.scanned || lib.path !in importable then reg
    else
      reg.(scanned := reg.scanned + {lib.path},
           tags := ScanSymbols(reg.tags, lib.prefix, importable[lib.path]))
  }

  /** The paths of `libs` that can be imported. */
  function ImportablePaths(libs: seq<Library>, importable: Importable): set<string> {
    set i | 0 <= i < |libs| && libs[i].path in importable :: libs[i].path
  }

  /** Libraries of `libs` that a scan from `reg` actually reads: importable and not yet scanned. */
  predicate Pending(reg: Registry, libs: seq<Library>, importable: Importable, i: int) {
    0 <= i < |libs| && libs[i].path !in reg.scanned && libs[i].path in importable
  }

  /** The tag under which class `i` of the importable library `lib` is registered. */
  function ClassTag(lib: Library, importable: Importable, i: int): string
    requires lib.path in importable && 0 <= i < |importable[lib.path]| && importable[lib.path][i].ComponentClass?
  {
    TagName(lib.prefix, importable[lib.path][i].ctype.name)
  }

  /**
   * Class `i` of the pending library `j` is the one a scan of `libs` leaves
   * under its tag: it is the last class of its library with that tag, and no
   * later pending library provides the tag.
   */
  ghost predicate ScanWinner(reg: Registry, libs: seq<Library>, importable: Importable, j: int, i: int) {
    && Pending(reg, libs, importable, j)
    && LastProvider(libs[j].prefix, importable[libs[j].path], i)
    && forall k :: j < k < |libs| && Pending(reg, libs, importable, k) ==>
         !ProvidedBy(libs[k], importable, ClassTag(libs[j], importable, i))
  }

  /**
   * `tags` is the tag table a scan of `libs` from `reg` leaves: no tag is
   * removed; a tag appears or changes only if a pending library provides it;
   * every tag a pending library provides is registered, and each
   * `ScanWinner` holds its tag.
   */
  ghost predicate ScanTags(reg: Registry, libs: seq<Library>, importable: Importable, tags: map<string, ComponentType>) {
    && reg.tags.Keys <= tags.Keys
    && (forall t :: t in tags ==>
          t in reg.tags || exists i :: Pending(reg, libs, importable, i) && ProvidedBy(libs[i], importable, t))
    && (forall t :: t in reg.tags && (forall i :: Pending(reg, libs, importable, i) ==> !ProvidedBy(libs[i], importable, t))
          ==> tags[t] == reg.tags[t])
    && (forall j, t :: Pending(reg, libs, importable, j) && ProvidedBy(libs[j], importable, t) ==> t in tags)
    && (forall j, i :: ScanWinner(reg, libs, importable, j, i) ==>
          && ClassTag(libs[j], importable, i) in tags
          && tags[ClassTag(libs[j], importable, i)] == importable[libs[j].path][i].ctype)
  }

  /**
   * Scanning `libs` in order. Exactly the importable paths join the scanned
   * set (a failed import is retried by the next scan); tags are never
   * removed; a tag changes only if some library read by this scan provides
   * it; every tag a library read by this scan provides is registered, to
   * the class of the last such library, as its own scan picks it.
   */
  function ScanAll(reg: Registry, libs: seq<Library>, importable: Importable): (r: Registry)
    requires DistinctPaths(libs)
    ensures r.libraries == reg.libraries
    ensures r.scanned == reg.scanned + ImportablePaths(libs, importable)
    ensures ScanTags(reg, libs, importable, r.tags)
    decreases |libs|
  {
    if libs == [] then reg
    else
      var n := |libs| - 1;
      var pre := libs[..n];
      assert forall i :: 0 <= i < n ==> pre[i] == libs[i];
      PrefixDistinct(libs, pre);
      var prev := ScanAll(reg, pre, importable);
      var r := ScanLibrary(prev, libs[n], importable);
      ScanAllStep(reg, libs, pre, importable, prev, r);
      ScanAllOriginStep(reg, libs, pre, importable, prev, r);
      r
  }

  /** The last library's step of `ScanAll`: what it registers, and what it leaves to earlier libraries. */
  lemma ScanAllStep(reg: Registry, libs: seq<Library>, pre: seq<Library>, importable: Importable, prev: Registry, r: Registry)
    requires DistinctPaths(libs) && libs != [] && pre == libs[..|libs| - 1]
    requires prev.scanned == reg.scanned + ImportablePaths(pre, importable)
    requires forall j, t :: Pending(reg, pre, importable, j) && ProvidedBy(pre[j], importable, t) ==> t in prev.tags
    requires forall j, i :: ScanWinner(reg, pre, importable, j, i) ==>
               && ClassTag(pre[j], importable, i) in prev.tags
               && prev.tags[ClassTag(pre[j], importable, i)] == importable[pre[j].path][i].ctype
    requires r == ScanLibrary(prev, libs[|libs| - 1], importable)
    ensures forall j, t :: Pending(reg, libs, importable, j) && ProvidedBy(libs[j], importable, t) ==> t in r.tags
    ensures forall j, i :: ScanWinner(reg, libs, importable, j, i) ==>
              && ClassTag(libs[j], importable, i) in r.tags
              && r.tags[ClassTag(libs[j], importable, i)] == importable[libs[j].path][i].ctype
  {
    LastLibraryTags(reg, libs, pre, importable, prev, r);
    ScanAllProvidedStep(reg, libs, pre, importable, prev, r);
    ScanAllWinnersStep(reg, libs, pre, importable, prev, r);
  }

  /** The bookkeeping half of the last library's step: the scanned set, and where each tag comes from. */
  lemma ScanAllOriginStep(reg: Registry, libs: seq<Library>, pre: seq<Library>, importable: Importable, prev: Registry, r: Registry)
    requires DistinctPaths(libs) && libs != [] && pre == libs[..|libs| - 1]
    requires prev.libraries == reg.libraries
    requires prev.scanned == reg.scanned + ImportablePaths(pre, importable)
    requires reg.tags.Keys <= prev.tags.Keys
    requires forall t :: t in prev.tags ==>
               t in reg.tags || exists i :: Pending(reg, pre, importable, i) && ProvidedBy(pre[i], importable, t)
    requires forall t :: t in reg.tags && (forall i :: Pending(reg, pre, importable, i) ==> !ProvidedBy(pre[i], importable, t))
               ==> prev.tags[t] == reg.tags[t]
    requires r == ScanLibrary(prev, libs[|libs| - 1], importable)
    ensures r.libraries == reg.libraries
    ensures r.scanned == reg.scanned + ImportablePaths(libs, importable)
    ensures reg.tags.Keys <= r.tags.Keys
    ensures forall t :: t in r.tags ==>
              t in reg.tags || exists i :: Pending(reg, libs, importable, i) && ProvidedBy(libs[i], importable, t)
    ensures forall t :: t in reg.tags && (forall i :: Pending(reg, libs, importable, i) ==> !ProvidedBy(libs[i], importable, t))
              ==> r.tags[t] == reg.tags[t]
  {
    ImportablePathsStep(libs, pre, importable);
    LastLibraryTags(reg, libs, pre, importable, prev, r);
    ScanAllTagOriginStep(reg, libs, pre, importable, prev, r);
  }

  lemma ScanAllTagOriginStep(reg: Registry, libs: seq<Library>, pre: seq<Library>, importable: Importable, prev: Registry, r: Registry)
    requires libs != [] && pre == libs[..|libs| - 1]
    requires reg.tags.Keys <= prev.tags.Keys
    requires forall t :: t in prev.tags ==>
               t in reg.tags || exists i :: Pending(reg, pre, importable, i) && ProvidedBy(pre[i], importable, t)
    requires forall t :: t in reg.tags && (forall i :: Pending(reg, pre, importable, i) ==> !ProvidedBy(pre[i], importable, t))
               ==> prev.tags[t] == reg.tags[t]
    requires Pending(reg, libs, importable, |libs| - 1) ==>
               r.tags == ScanSymbols(prev.tags, libs[|libs| - 1].prefix, importable[libs[|libs| - 1].path])
    requires !Pending(reg, libs, importable, |libs| - 1) ==> r.tags == prev.tags
    ensures reg.tags.Keys <= r.tags.Keys
    ensures forall t :: t in r.tags ==>
              t in reg.tags || exists i :: Pending(reg, libs, importable, i) && ProvidedBy(libs[i], importable, t)
    ensures forall t :: t in reg.tags && (forall i :: Pending(reg, libs, importable, i) ==> !ProvidedBy(libs[i], importable, t))
              ==> r.tags[t] == reg.tags[t]
  {
    var n := |libs| - 1;
    var last := libs[n];
    assert forall i :: 0 <= i < n ==> pre[i] == libs[i];
    forall t | t in r.tags
      ensures t in reg.tags || exists i :: Pending(reg, libs, importable, i) && ProvidedBy(libs[i], importable, t)
    {
      if t in prev.tags {
        if !(t in reg.tags) {
          var i :| Pending(reg, pre, importable, i) && ProvidedBy(pre[i], importable, t);
          assert Pending(reg, libs, importable, i) && ProvidedBy(libs[i], importable, t);
        }
      } else {
        assert Pending(reg, libs, importable, n);
        var i :| Provides(last.prefix, importable[last.path], i, t);
        assert ProvidedBy(libs[n], importable, t);
      }
    }
    forall t | t in reg.tags && (forall i :: Pending(reg, libs, importable, i) ==> !ProvidedBy(libs[i], importable, t))
      ensures r.tags[t] == reg.tags[t]
    {
      forall i | Pending(reg, pre, importable, i)
        ensures !ProvidedBy(pre[i], importable, t)
      {
        assert Pending(reg, libs, importable, i);
      }
      if Pending(reg, libs, importable, n) {
        assert !ProvidedBy(libs[n], importable, t);
      }
    }
  }

  /** The importable paths of `libs` are those of its prefix, plus the last library's path when it imports. */
  lemma ImportablePathsStep(libs: seq<Library>, pre: seq<Library>, importable: Importable)
    requires libs != [] && pre == libs[..|libs| - 1]
    ensures ImportablePaths(libs, importable) ==
              ImportablePaths(pre, importable) + (if libs[|libs| - 1].path in importable then {libs[|libs| - 1].path} else {})
  {
    var n := |libs| - 1;
    forall p | p in ImportablePaths(libs, importable)
      ensures p in ImportablePaths(pre, importable) || (p == libs[n].path && p in importable)
    {
      var i :| 0 <= i < |libs| && libs[i].path in importable && libs[i].path == p;
      if i < n {
        assert pre[i] == libs[i];
      }
    }
    forall p | p in ImportablePaths(pre, importable)
      ensures p in ImportablePaths(libs, importable)
    {
      var i :| 0 <= i < |pre| && pre[i].path in importable && pre[i].path == p;
      assert libs[i] == pre[i];
    }
  }

  /** The last library is read exactly when it is pending: earlier libraries have other paths. */
  lemma LastLibraryTags(reg: Registry, libs: seq<Library>, pre: seq<Library>, importable: Importable, prev: Registry, r: Registry)
    requires DistinctPaths(libs) && libs != [] && pre == libs[..|libs| - 1]
    requires prev.scanned == reg.scanned + ImportablePaths(pre, importable)
    requires r == ScanLibrary(prev, libs[|libs| - 1], importable)
    ensures Pending(reg, libs, importable, |libs| - 1) ==>
              r.tags == ScanSymbols(prev.tags, libs[|libs| - 1].prefix, importable[libs[|libs| - 1].path])
    ensures !Pending(reg, libs, importable, |libs| - 1) ==> r.tags == prev.tags
  {
    var last := libs[|libs| - 1];
    forall m | 0 <= m < |pre|
      ensures pre[m].path != last.path
    {
      assert pre[m] == libs[m];
    }
    assert last.path !in ImportablePaths(pre, importable);
  }

  lemma ScanAllProvidedStep(reg: Registry, libs: seq<Library>, pre: seq<Library>, importable: Importable, prev: Registry, r: Registry)
    requires libs != [] && pre == libs[..|libs| - 1]
    requires forall j, t :: Pending(reg, pre, importable, j) && ProvidedBy(pre[j], importable, t) ==> t in prev.tags
    requires Pending(reg, libs, importable, |libs| - 1) ==>
               r.tags == ScanSymbols(prev.tags, libs[|libs| - 1].prefix, importable[libs[|libs| - 1].path])
    requires !Pending(reg, libs, importable, |libs| - 1) ==> r.tags == prev.tags
    ensures forall j, t :: Pending(reg, libs, importable, j) && ProvidedBy(libs[j], importable, t) ==> t in r.tags
  {
    var n := |libs| - 1;
    forall j, t | Pending(reg, libs, importable, j) && ProvidedBy(libs[j], importable, t)
      ensures t in r.tags
    {
      if j < n {
        assert pre[j] == libs[j];
        assert Pending(reg, pre, importable, j);
        assert t in prev.tags;
      } else {
        var i :| 0 <= i < |importable[libs[n].path]| && Provides(libs[n].prefix, importable[libs[n].path], i, t);
      }
    }
  }

  lemma ScanAllWinnersStep(reg: Registry, libs: seq<Library>, pre: seq<Library>, importable: Importable, prev: Registry, r: Registry)
    requires libs != [] && pre == libs[..|libs| - 1]
    requires forall j, i :: ScanWinner(reg, pre, importable, j, i) ==>
               && ClassTag(pre[j], importable, i) in prev.tags
               && prev.tags[ClassTag(pre[j], importable, i)] == importable[pre[j].path][i].ctype
    requires Pending(reg, libs, importable, |libs| - 1) ==>
               r.tags == ScanSymbols(prev.tags, libs[|libs| - 1].prefix, importable[libs[|libs| - 1].path])
    requires !Pending(reg, libs, importable, |libs| - 1) ==> r.tags == prev.tags
    ensures forall j, i :: ScanWinner(reg, libs, importable, j, i) ==>
              && ClassTag(libs[j], importable, i) in r.tags
              && r.tags[ClassTag(libs[j], importable, i)] == importable[libs[j].path][i].ctype
  {
    var n := |libs| - 1;
    forall j, i | ScanWinner(reg, libs, importable, j, i)
      ensures ClassTag(libs[j], importable, i) in r.tags
      ensures r.tags[ClassTag(libs[j], importable, i)] == importable[libs[j].path][i].ctype
    {
      var t := ClassTag(libs[j], importable, i);
      if j < n {
        assert pre[j] == libs[j];
        forall k | j < k < |pre| && Pending(reg, pre, importable, k)
          ensures !ProvidedBy(pre[k], importable, t)
        {
          assert pre[k] == libs[k];
          assert Pending(reg, libs, importable, k);
        }
        assert ScanWinner(reg, pre, importable, j, i);
        if Pending(reg, libs, importable, n) {
          assert !ProvidedBy(libs[n], importable, t);
        }
      }
    }
  }

  /**
   * `_autodetect_components`: scans every registered library, in
   * registration order. Every library ends up scanned or unimportable, and
   * every tag a library read by this scan provides is registered to the
   * class of the last such library.
   */
  function Autodetect(reg: Registry, importable: Importable): (r: Registry)
    ensures r.libraries == reg.libraries
    ensures r.scanned == reg.scanned + ImportablePaths(reg.libraries, importable)
    ensures Settled(r, importable)
    ensures Valid(reg) ==> Valid(r)
    ensures ScanTags(reg, reg.libraries, importable, r.tags)
  {
    ScanAll(reg, reg.libraries, importable)
  }

  /** The first scan registers every tag an importable default library provides. */
  lemma FirstScanRegistersProvidedTags(importable: Importable, j: int, t: string)
    requires 0 <= j < |DefaultLibraries| && ProvidedBy(DefaultLibraries[j], importable, t)
    ensures t in Autodetect(Initial, importable).tags
  {
    assert Pending(Initial, Initial.libraries, importable, j);
  }

  /** When nothing is pending, a scan changes nothing at all. */
  lemma {:induction false} SettledScanIsIdentity(reg: Registry, libs: seq<Library>, importable: Importable)
    requires DistinctPaths(libs)
    requires forall i :: 0 <= i < |libs| ==> libs[i].path in reg.scanned || libs[i].path !in importable
    ensures ScanAll(reg, libs, importable) == reg
    decreases |libs|
  {
    if libs != [] {
      var n := |libs| - 1;
      PrefixDistinct(libs, libs[..n]);
      SettledScanIsIdentity(reg, libs[..n], importable);
    }
  }

  /** A second scan with the same modules available is a no-op. */
  lemma AutodetectIdempotent(reg: Registry, importable: Importable)
    ensures Autodetect(Autodetect(reg, importable), importable) == Autodetect(reg, importable)
  {
    var r := Autodetect(reg, importable);
    SettledScanIsIdentity(r, r.libraries, importable);
  }

  /**
   * A library whose import fails stays unscanned, and the next scan made
   * once it can be imported reads it.
   */
  lemma FailedImportIsRetried(reg: Registry, i: nat, before: Importable, after: Importable)
    requires i < |reg.libraries| && reg.libraries[i].path !in reg.scanned
    requires reg.libraries[i].path !in before && reg.libraries[i].path in after
    ensures reg.libraries[i].path !in Autodetect(reg, before).scanned
    ensures reg.libraries[i].path in Autodetect(Autodetect(reg, before), after).scanned
  {
  }

  // ---------------------------------------------------------------------------
  // Registration
  // ---------------------------------------------------------------------------

  /** `_module_registry[path] = prefix`: an existing entry keeps its position, a new one goes last. */
  function SetLibrary(libs: Libraries, path: string, prefix: Option<string>): (r: Libraries)
    ensures PrefixMap(r) == PrefixMap(libs)[path := prefix]
    ensures IsRegistered(libs, path) ==> |r| == |libs| && forall i :: 0 <= i < |libs| ==> r[i].path == libs[i].path
    ensures !IsRegistered(libs, path) ==> r == libs + [Library(path, prefix)]
  {
    if IsRegistered(libs, path) then
      var r := Replace(libs, path, prefix);
      ReplacePrefixMap(libs, r, path, prefix);
      r
    else
      var r := libs + [Library(path, prefix)];
      assert forall i :: 0 <= i < |libs| ==> r[i] == libs[i];
      r
  }

  /** The entry for `path` takes the new prefix; every position keeps its path. */
  function Replace(libs: Libraries, path: string, prefix: Option<string>): (r: Libraries)
    ensures |r| == |libs|
    ensures forall i :: 0 <= i < |libs| ==> r[i] == if libs[i].path == path then Library(path, prefix) else libs[i]
  {
    var r := seq(|libs|, i requires 0 <= i < |libs| => if libs[i].path == path then Library(path, prefix) else libs[i]);
    assert forall i :: 0 <= i < |libs| ==> r[i].path == libs[i].path;
    r
  }

  lemma ReplacePrefixMap(libs: Libraries, r: Libraries, path: string, prefix: Option<string>)
    requires IsRegistered(libs, path) && r == Replace(libs, path, prefix)
    ensures PrefixMap(r) == PrefixMap(libs)[path := prefix]
  {
    var m := PrefixMap(libs)[path := prefix];
    var m' := PrefixMap(r);
    forall p
      ensures p in m' <==> p in m
      ensures p in m' ==> p in m && m'[p] == m[p]
    {
      ReplacedEntry(libs, r, path, prefix, p);
    }
    MapsAgree(m', m);
  }

  lemma ReplacedEntry(libs: Libraries, r: Libraries, path: string, prefix: Option<string>, p: string)
    requires IsRegistered(libs, path) && r == Replace(libs, path, prefix)
    ensures p in PrefixMap(r) <==> p in PrefixMap(libs)[path := prefix]
    ensures p in PrefixMap(r) ==> PrefixMap(r)[p] == PrefixMap(libs)[path := prefix][p]
  {
    if p in PrefixMap(r) {
      var i := PositionOf(r, p);
      assert libs[i].path == p;
      EntryAt(libs, i);
      EntryAt(r, i);
    }
    if p in PrefixMap(libs) || p == path {
      var i := PositionOf(libs, if p in PrefixMap(libs) then p else path);
      assert libs[i].path == p;
      assert r[i].path == p;
      EntryAt(r, i);
    }
  }

  /** The position of a registered path. */
  lemma PositionOf(libs: Libraries, p: string) returns (i: int)
    requires p in PrefixMap(libs) || IsRegistered(libs, p)
    ensures 0 <= i < |libs| && libs[i].path == p
  {
    i :| 0 <= i < |libs| && libs[i].path == p;
  }

  /** The dictionary entry of the library at position `i`. */
  lemma EntryAt(libs: Libraries, i: int)
    requires 0 <= i < |libs|
    ensures libs[i].path in PrefixMap(libs) && PrefixMap(libs)[libs[i].path] == libs[i].prefix
  {
  }

  lemma MapsAgree<K, T>(m: map<K, T>, m': map<K, T>)
    requires forall k :: k in m <==> k in m'
    requires forall k :: k in m ==> k in m' && m[k] == m'[k]
    ensures m == m'
  {
    assert m.Keys == m'.Keys;
  }

  /**
   * `register_library`: refuses (returns false, changes nothing) when the
   * path is registered and `replace` is not set; otherwise records the
   * prefix, scans, and returns true.
   */
  function RegisterLibrary(reg: Registry, path: string, prefix: Option<string>, replace: bool, importable: Importable)
    : (r: (bool, Registry))
    ensures r.0 <==> !IsRegistered(reg.libraries, path) || replace
    ensures !r.0 ==> r.1 == reg
    ensures r.0 ==> PrefixMap(r.1.libraries) == PrefixMap(reg.libraries)[path := prefix]
    ensures r.0 ==> Settled(r.1, importable)
    ensures r.0 ==> (path in r.1.scanned <==> path in reg.scanned || path in importable)
    ensures reg.scanned <= r.1.scanned && reg.tags.Keys <= r.1.tags.Keys
    ensures Valid(reg) ==> Valid(r.1)
    ensures r.0 && path !in reg.scanned ==>
              forall t :: ProvidedBy(Library(path, prefix), importable, t) ==> t in r.1.tags
    ensures r.0 ==> r.1.libraries == SetLibrary(reg.libraries, path, prefix)
    ensures r.0 ==> r.1.scanned == reg.scanned + ImportablePaths(r.1.libraries, importable)
    ensures r.0 ==> ScanTags(reg, r.1.libraries, importable, r.1.tags)
  {
    if !IsRegistered(reg.libraries, path) || replace then
      var libs := SetLibrary(reg.libraries, path, prefix);
      var r := Autodetect(reg.(libraries := libs), importable);
      assert path in PrefixMap(libs);
      RegisterScanTags(reg, path, prefix, importable, libs, r);
      (true, r)
    else
      (false, reg)
  }

  /**
   * The scan `register_library` runs reads the libraries as they stand after
   * the assignment; the registered library is among them, pending unless
   * already scanned.
   */
  lemma RegisterScanTags(reg: Registry, path: string, prefix: Option<string>, importable: Importable,
                         libs: Libraries, r: Registry)
    requires libs == SetLibrary(reg.libraries, path, prefix)
    requires r == Autodetect(reg.(libraries := libs), importable)
    ensures path !in reg.scanned ==> forall t :: ProvidedBy(Library(path, prefix), importable, t) ==> t in r.tags
    ensures ScanTags(reg, libs, importable, r.tags)
  {
    var reg' := reg.(libraries := libs);
    assert forall i :: Pending(reg, libs, importable, i) <==> Pending(reg', libs, importable, i);
    forall j, i | ScanWinner(reg, libs, importable, j, i)
      ensures ScanWinner(reg', libs, importable, j, i)
    {
      forall k | j < k < |libs| && Pending(reg', libs, importable, k)
        ensures !ProvidedBy(libs[k], importable, ClassTag(libs[j], importable, i))
      {
        assert Pending(reg, libs, importable, k);
      }
    }
    if path !in reg.scanned && path in importable {
      assert path in PrefixMap(libs);
      var j := PositionOf(libs, path);
      EntryAt(libs, j);
      assert Pending(reg', libs, importable, j);
    }
  }

  /** Registering a path a second time without `replace` is refused and leaves the registry as it was. */
  lemma RegisterTwiceIsIdempotent(reg: Registry, path: string, prefix: Option<string>, prefix': Option<string>,
                                  replace: bool, importable: Importable)
    ensures var first := RegisterLibrary(reg, path, prefix, replace, importable).1;
            RegisterLibrary(first, path, prefix', false, importable) == (false, first)
  {
    var first := RegisterLibrary(reg, path, prefix, replace, importable);
    if first.0 {
      assert path in PrefixMap(first.1.libraries);
    }
  }

  /**
   * Replacing the prefix of a library that is already scanned does not
   * rescan it: from a settled registry no tag appears or changes.
   */
  lemma ReplaceScannedAddsNoTags(reg: Registry, path: string, prefix: Option<string>, importable: Importable)
    requires Settled(reg, importable) && path in reg.scanned
    ensures var r := RegisterLibrary(reg, path, prefix, true, importable);
            r.0 && r.1.tags == reg.tags && r.1.scanned == reg.scanned
  {
    var libs := SetLibrary(reg.libraries, path, prefix);
    var reg' := reg.(libraries := libs);
    forall i | 0 <= i < |libs|
      ensures libs[i].path in reg'.scanned || libs[i].path !in importable
    {
      if !IsRegistered(reg.libraries, path) && i == |reg.libraries| {
        assert libs[i].path == path;
      }
    }
    SettledScanIsIdentity(reg', libs, importable);
  }

  /**
   * Registering a new importable library on a settled registry scans it
   * last, so its classes win every tag they provide over earlier libraries.
   */
  lemma NewLibraryWinsItsTags(reg: Registry, path: string, prefix: Option<string>, replace: bool,
                              importable: Importable, i: nat)
    requires Valid(reg) && Settled(reg, importable)
    requires !IsRegistered(reg.libraries, path) && path in importable
    requires LastProvider(prefix, importable[path], i)
    ensures var r := RegisterLibrary(reg, path, prefix, replace, importable);
            r.0 && r.1.tags[TagName(prefix, importable[path][i].ctype.name)] == importable[path][i].ctype
  {
    var libs := SetLibrary(reg.libraries, path, prefix);
    var reg' := reg.(libraries := libs);
    var n := |reg.libraries|;
    assert libs[..n] == reg.libraries;
    SettledScanIsIdentity(reg', reg.libraries, importable);
    assert ScanAll(reg', libs[..n], importable) == reg';
    assert path !in reg'.scanned;
    assert Autodetect(reg', importable) == ScanLibrary(reg', libs[n], importable);
  }

  // ---------------------------------------------------------------------------
  // Resolution
  // ---------------------------------------------------------------------------

  /** `_component_registry.get(tag.lower())`. */
  function Resolve(tags: map<string, ComponentType>, tag: string): (r: Option<ComponentType>)
    ensures r.Some? <==> Lower(tag) in tags
    ensures r.Some? ==> r.value == tags[Lower(tag)]
  {
    if Lower(tag) in tags then Some(tags[Lower(tag)]) else None
  }

  /** Resolution ignores case: a tag resolves exactly as its lower-cased form does. */
  lemma ResolveIgnoresCase(tags: map<string, ComponentType>, tag: string)
    ensures Resolve(tags, tag) == Resolve(tags, Lower(tag))
  {
    LowerIdempotent(tag);
  }

  /**
   * A class registered under a lower-case prefix is reached by every
   * spelling of its tag that lower-cases to the tag name.
   */
  lemma RegisteredClassResolves(tags: map<string, ComponentType>, prefix: Option<string>, typeName: string, tag: string)
    requires prefix.Some? ==> IsLowerCase(prefix.value)
    requires TagName(prefix, typeName) in tags
    requires Lower(tag) == Lower(TagName(prefix, typeName))
    ensures Resolve(tags, tag) == Some(tags[TagName(prefix, typeName)])
  {
    TagNameLowerCase(prefix, typeName);
  }
}
