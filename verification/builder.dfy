/**
 * `Builder._to_component`, `_build_tree`, `load` and `get_component`: the
 * walk that turns a parsed markup tree into a tree of components and, on the
 * way, fills the index from `id` attributes to the components built.
 *
 * The markup parser, the truthiness of the parsed root and the component
 * constructors are collaborators given as parameters: the parser's outcome is
 * a `Result<Node, E>`, the root test is a predicate on nodes, and whether a
 * class accepts a set of arguments is a predicate `accepts`.
 */
module LayoutBuilder {
  import opened Results
  import opened Text
  import opened ComponentRegistry
  import opened Attributes

  /** A parsed element: tag, attributes, direct text (possibly absent) and element children in document order. */
  datatype Node = Node(tag: string, attrib: map<string, string>, text: Option<string>, children: seq<Node>)

  /**
   * A constructed component: its class, the arguments it was built with, and
   * its `children` slot, present exactly when the class has one and the walk
   * filled it.
   */
  datatype Component<V> = Component(ctype: ComponentType, options: map<string, Arg<V>>, children: Option<seq<Child<V>>>)

  /** One entry of a `children` slot: the element's trimmed text, a built child, or `None` for an unresolved tag. */
  datatype Child<V> = TextEntry(text: string) | Built(component: Component<V>) | Unresolved

  /**
   * Why building a tree raises: an attribute conversion error, an argument
   * named like a parameter of `_to_component` (a `TypeError` for a keyword
   * given twice), or a constructor rejecting its arguments.
   */
  datatype BuildError = AttributeError(cause: ConvertError) | DuplicateArgument | ConstructionError(ctype: ComponentType)

  /**
   * What the walk reads but does not change: the tag registry, the attribute
   * conversion, and which arguments each component class accepts.
   */
  datatype Context<!V> = Context(tags: map<string, ComponentType>,
                                convert: map<string, string> -> Result<map<string, Arg<V>>, ConvertError>,
                                accepts: (ComponentType, map<string, Arg<V>>) -> bool)

  /** The context a builder walks with: attributes go through `_convert_data_attributes` with `evaluate`. */
  function ContextOf<V>(tags: map<string, ComponentType>, evaluate: string -> Option<V>,
                        accepts: (ComponentType, map<string, Arg<V>>) -> bool): (ctx: Context<V>)
    ensures forall attrs :: ctx.convert(attrs) == Convert(attrs, evaluate)
  {
    Context(tags, attrs => Convert(attrs, evaluate), accepts)
  }

  // ---------------------------------------------------------------------------
  // One element
  // ---------------------------------------------------------------------------

  /**
   * The arguments clash with the parameters `cls` and `tag` of
   * `_to_component`, so the call itself raises before its body runs.
   */
  predicate RebindsParameter<V>(options: map<string, Arg<V>>) {
    "tag" in options || "cls" in options
  }

  /**
   * `_to_component`: the class registered under the lower-cased tag, built
   * from `options`. An argument named `tag` or `cls` raises before any
   * lookup; otherwise an unknown tag gives `None` and no constructor is
   * consulted, and a known one either builds a component or raises.
   */
  function ToComponent<V>(ctx: Context<V>, tag: string, options: map<string, Arg<V>>)
    : (r: Result<Option<Component<V>>, BuildError>)
    ensures RebindsParameter(options) ==> r == Failure(DuplicateArgument)
    ensures !RebindsParameter(options) && Lower(tag) !in ctx.tags ==> r == Success(None)
    ensures !RebindsParameter(options) && Lower(tag) in ctx.tags ==>
              var t := ctx.tags[Lower(tag)];
              if ctx.accepts(t, options) then r == Success(Some(Component(t, options, None)))
              else r == Failure(ConstructionError(t))
  {
    if RebindsParameter(options) then Failure(DuplicateArgument)
    else
      match Resolve(ctx.tags, tag)
      case None => Success(None)
      case Some(t) =>
        if ctx.accepts(t, options) then Success(Some(Component(t, options, None)))
        else Failure(ConstructionError(t))
  }

  /** Resolution ignores case: `Foo`, `FOO` and `foo` give the same outcome. */
  lemma ToComponentIgnoresCase<V>(ctx: Context<V>, tag: string, tag': string, options: map<string, Arg<V>>)
    requires Lower(tag) == Lower(tag')
    ensures ToComponent(ctx, tag, options) == ToComponent(ctx, tag', options)
  {
    ResolveIgnoresCase(ctx.tags, tag);
    ResolveIgnoresCase(ctx.tags, tag');
  }

  /** The attributes are converted first, then the tag is resolved and its class built. */
  function Construct<V>(ctx: Context<V>, node: Node): Result<Option<Component<V>>, BuildError> {
    match ctx.convert(node.attrib)
    case Failure(e) => Failure(AttributeError(e))
    case Success(options) => ToComponent(ctx, node.tag, options)
  }

  /** The walk enters the element's children: its tag resolved to a class with a `children` slot. */
  predicate Descends<V>(ctx: Context<V>, node: Node) {
    var c := Construct(ctx, node);
    c.Success? && c.value.Some? && c.value.value.ctype.hasChildren
  }

  /** `list(filter(None, [text.strip()]))`: the trimmed text, unless it is empty. */
  function TextSlot(text: Option<string>): (r: seq<string>)
    ensures |r| <= 1
    ensures r == [] <==> text.None? || forall k :: 0 <= k < |text.value| ==> IsSpace(text.value[k])
    ensures r != [] ==> r[0] == Strip(text.value) && r[0] != []
  {
    var t := Strip(text.GetOr(""));
    if t == [] then [] else [t]
  }

  /** The slot's leading entries: the string `TextSlot` keeps, if any, as a text entry. */
  function TextEntries<V>(text: Option<string>): seq<Child<V>> {
    var t := TextSlot(text);
    if t == [] then [] else [TextEntry(t[0])]
  }

  /** The slot entry a built child contributes. */
  function ChildOf<V>(c: Option<Component<V>>): Child<V> {
    if c.Some? then Built(c.value) else Unresolved
  }

  /** The index entry an element writes: its raw `id` attribute, if any, to what it built. */
  function IdWrite<V>(node: Node, c: Option<Component<V>>): map<string, Option<Component<V>>> {
    if "id" in node.attrib then map[node.attrib["id"] := c] else map[]
  }

  /** The `id` attributes in a subtree. */
  function Ids(node: Node): set<string>
    decreases node
  {
    (if "id" in node.attrib then {node.attrib["id"]} else {}) + IdsAll(node.children)
  }

  function IdsAll(nodes: seq<Node>): set<string>
    decreases nodes
  {
    if nodes == [] then {} else Ids(nodes[0]) + IdsAll(nodes[1..])
  }

  // ---------------------------------------------------------------------------
  // The walk
  // ---------------------------------------------------------------------------

  /** The outcome of walking one element, and the index entries it wrote in order (later ones win). */
  datatype Walk<V> = Walk(outcome: Result<Option<Component<V>>, BuildError>, writes: map<string, Option<Component<V>>>)

  /** What a successful walk built (`None` for an unresolved tag); `None` too for a walk that raised. */
  function Product<V>(w: Walk<V>): Option<Component<V>> {
    if w.outcome.Success? then w.outcome.value else None
  }

  /** The outcome of walking a list of children: the slot entries appended, the index entries, the error that stopped it. */
  datatype Kids<V> = Kids(slot: seq<Child<V>>, writes: map<string, Option<Component<V>>>, failed: Option<BuildError>)

  /**
   * `_build_tree`. The walk succeeds exactly when the element's own
   * construction does and, if it descends, every child's walk does. The
   * component keeps the class and arguments of its construction; when it
   * descends, its slot is the trimmed text (if non-empty) followed by one
   * entry per child in document order, `None` for an unresolved child. Only
   * `id`s of the subtree are written.
   *
   * The index entry holds the same object the walk goes on to fill, so it
   * is written here with the finished component. When a child raises, the
   * component holds the entries appended before the failure.
   */
  function Build<V>(ctx: Context<V>, node: Node): (w: Walk<V>)
    ensures w.outcome.Success? <==>
              && Construct(ctx, node).Success?
              && (Descends(ctx, node) ==> forall i :: 0 <= i < |node.children| ==> Build(ctx, node.children[i]).outcome.Success?)
    ensures w.outcome.Success? ==> Bare(w.outcome.value) == Construct(ctx, node).value
    ensures w.outcome.Success? && !Descends(ctx, node) ==> w.outcome.value == Construct(ctx, node).value
    ensures w.outcome.Success? && Descends(ctx, node) ==> SlotShape(ctx, node, w.outcome.value)
    ensures w.writes.Keys <= Ids(node)
    ensures w.outcome.Failure? ==> Raises(ctx, node, w.outcome.error)
    decreases node, 3
  {
    match Construct(ctx, node)
    case Failure(e) => Walk(Failure(e), map[])
    case Success(c) =>
      if c.None? || !c.value.ctype.hasChildren then Walk(Success(c), IdWrite(node, c))
      else
        var kids := BuildAll(ctx, node.children);
        var comp := c.value.(children := Some(TextEntries(node.text) + kids.slot));
        var writes := IdWrite(node, Some(comp)) + kids.writes;
        FilledSlotShape(ctx, node, c.value, kids.slot, kids.failed.None?);
        if kids.failed.Some? then Walk(Failure(kids.failed.value), writes)
        else Walk(Success(Some(comp)), writes)
  }

  /** The component without its `children` slot: what the constructor returned. */
  function Bare<V>(c: Option<Component<V>>): Option<Component<V>> {
    if c.Some? then Some(c.value.(children := None)) else None
  }

  /**
   * A built component's slot: the trimmed text if non-empty, then one entry
   * per element child in document order, holding what that child's walk built.
   */
  ghost predicate SlotShape<V>(ctx: Context<V>, node: Node, c: Option<Component<V>>)
    decreases node, 1
  {
    && c.Some? && c.value.children.Some?
    && var slot := c.value.children.value;
       var text := TextEntries<V>(node.text);
       && |slot| == |text| + |node.children|
       && slot[..|text|] == text
       && forall i :: 0 <= i < |node.children| ==> slot[|text| + i] == ChildOf(Product(Build(ctx, node.children[i])))
  }

  lemma FilledSlotShape<V>(ctx: Context<V>, node: Node, c: Component<V>, kids: seq<Child<V>>, complete: bool)
    requires complete ==> |kids| == |node.children|
    requires complete ==> forall i :: 0 <= i < |node.children| ==> kids[i] == ChildOf(Product(Build(ctx, node.children[i])))
    ensures complete ==> SlotShape(ctx, node, Some(c.(children := Some(TextEntries(node.text) + kids))))
    decreases node, 2
  {
    if complete {
      var text := TextEntries<V>(node.text);
      var slot := text + kids;
      assert |slot| == |text| + |node.children|;
      assert slot[..|text|] == text;
      forall i | 0 <= i < |node.children|
        ensures slot[|text| + i] == ChildOf(Product(Build(ctx, node.children[i])))
      {
        assert slot[|text| + i] == kids[i];
      }
    }
  }

  /** Walking `node` raises `e`: its own construction raises it, or it descends and its first child walk to raise raises it. */
  predicate Raises<V>(ctx: Context<V>, node: Node, e: BuildError)
    decreases node, 0
  {
    || Construct(ctx, node) == Failure(e)
    || (Descends(ctx, node) && RaisesFirst(ctx, node.children, e))
  }

  /** Walking `nodes` in order, the first walk that raises raises `e`. */
  predicate RaisesFirst<V>(ctx: Context<V>, nodes: seq<Node>, e: BuildError)
    decreases nodes, 0
  {
    exists i :: 0 <= i < |nodes| && Build(ctx, nodes[i]).outcome == Failure(e)
                && forall j :: 0 <= j < i ==> Build(ctx, nodes[j]).outcome.Success?
  }

  /**
   * The loop over the children: each is walked in order and appended; the
   * first one that raises stops the loop, after its own index entries.
   */
  function BuildAll<V>(ctx: Context<V>, nodes: seq<Node>): (k: Kids<V>)
    ensures k.failed.None? <==> forall i :: 0 <= i < |nodes| ==> Build(ctx, nodes[i]).outcome.Success?
    ensures k.failed.None? ==> |k.slot| == |nodes| && forall i :: 0 <= i < |nodes| ==> k.slot[i] == ChildOf(Product(Build(ctx, nodes[i])))
    ensures k.writes.Keys <= IdsAll(nodes)
    ensures k.failed.Some? ==> RaisesFirst(ctx, nodes, k.failed.value)
    decreases nodes, 2
  {
    if nodes == [] then Kids([], map[], None)
    else
      var first := Build(ctx, nodes[0]);
      if first.outcome.Failure? then Kids([], first.writes, Some(first.outcome.error))
      else
        var rest := BuildAll(ctx, nodes[1..]);
        SlotStep(ctx, nodes, ChildOf(first.outcome.value), rest.slot, rest.failed.None?);
        RaisesFirstStep(ctx, nodes, rest.failed);
        Kids([ChildOf(first.outcome.value)] + rest.slot, first.writes + rest.writes, rest.failed)
  }

  /** A first failure among `nodes[1..]`, after a successful `nodes[0]`, is the first failure among `nodes`. */
  lemma RaisesFirstStep<V>(ctx: Context<V>, nodes: seq<Node>, failed: Option<BuildError>)
    requires nodes != [] && Build(ctx, nodes[0]).outcome.Success?
    requires failed.Some? ==> RaisesFirst(ctx, nodes[1..], failed.value)
    ensures failed.Some? ==> RaisesFirst(ctx, nodes, failed.value)
    decreases nodes, 1
  {
    if failed.Some? {
      var i :| 0 <= i < |nodes| - 1 && Build(ctx, nodes[1..][i]).outcome == Failure(failed.value)
                && forall j :: 0 <= j < i ==> Build(ctx, nodes[1..][j]).outcome.Success?;
      assert nodes[1..][i] == nodes[i + 1];
      forall j | 0 <= j < i + 1
        ensures Build(ctx, nodes[j]).outcome.Success?
      {
        if j > 0 {
          assert nodes[1..][j - 1] == nodes[j];
        }
      }
    }
  }

  lemma SlotStep<V>(ctx: Context<V>, nodes: seq<Node>, head: Child<V>, slot: seq<Child<V>>, complete: bool)
    requires nodes != [] && head == ChildOf(Product(Build(ctx, nodes[0])))
    requires complete ==> |slot| == |nodes| - 1 && forall i :: 0 <= i < |nodes| - 1 ==> slot[i] == ChildOf(Product(Build(ctx, nodes[1..][i])))
    ensures complete ==> |[head] + slot| == |nodes| && forall i :: 0 <= i < |nodes| ==> ([head] + slot)[i] == ChildOf(Product(Build(ctx, nodes[i])))
    decreases nodes, 0
  {
    if complete {
      forall i | 0 < i < |nodes|
        ensures ([head] + slot)[i] == ChildOf(Product(Build(ctx, nodes[i])))
      {
        assert nodes[1..][i - 1] == nodes[i];
      }
    }
  }

  // ---------------------------------------------------------------------------
  // The id index
  // ---------------------------------------------------------------------------

  /** `n` carries `id` as its raw `id` attribute. */
  predicate Carries(n: Node, id: string) {
    "id" in n.attrib && n.attrib["id"] == id
  }

  /** The elements a walk visits, in pre-order: the element, then the visits of its children if it descends. */
  function Visited<V>(ctx: Context<V>, node: Node): seq<Node>
    decreases node
  {
    [node] + if Descends(ctx, node) then VisitedAll(ctx, node.children) else []
  }

  function VisitedAll<V>(ctx: Context<V>, nodes: seq<Node>): seq<Node>
    decreases nodes
  {
    if nodes == [] then [] else Visited(ctx, nodes[0]) + VisitedAll(ctx, nodes[1..])
  }

  /** Element `i` carries an `id` that no later element of `nodes` carries. */
  predicate LastCarrier(nodes: seq<Node>, i: int) {
    && 0 <= i < |nodes| && "id" in nodes[i].attrib
    && forall j :: i < j < |nodes| ==> !Carries(nodes[j], nodes[i].attrib["id"])
  }

  /**
   * The index a sequence of elements leaves when each, in order, records
   * what its walk built under its `id`: an `id` is present exactly when some
   * element carries it, and maps to what the last such element built.
   */
  function Record<V>(ctx: Context<V>, nodes: seq<Node>): (r: map<string, Option<Component<V>>>)
    ensures forall id :: id in r <==> exists i :: 0 <= i < |nodes| && Carries(nodes[i], id)
    ensures forall i :: LastCarrier(nodes, i) ==> nodes[i].attrib["id"] in r && r[nodes[i].attrib["id"]] == Product(Build(ctx, nodes[i]))
    decreases |nodes|
  {
    if nodes == [] then map[]
    else
      var tail := nodes[1..];
      var rest := Record(ctx, tail);
      var r := IdWrite(nodes[0], Product(Build(ctx, nodes[0]))) + rest;
      RecordStep(ctx, nodes, tail, rest, r);
      r
  }

  lemma RecordStep<V>(ctx: Context<V>, nodes: seq<Node>, tail: seq<Node>, rest: map<string, Option<Component<V>>>,
                      r: map<string, Option<Component<V>>>)
    requires nodes != [] && tail == nodes[1..]
    requires forall id :: id in rest <==> exists i :: 0 <= i < |tail| && Carries(tail[i], id)
    requires forall i :: LastCarrier(tail, i) ==> tail[i].attrib["id"] in rest && rest[tail[i].attrib["id"]] == Product(Build(ctx, tail[i]))
    requires r == IdWrite(nodes[0], Product(Build(ctx, nodes[0]))) + rest
    ensures forall id :: id in r <==> exists i :: 0 <= i < |nodes| && Carries(nodes[i], id)
    ensures forall i :: LastCarrier(nodes, i) ==> nodes[i].attrib["id"] in r && r[nodes[i].attrib["id"]] == Product(Build(ctx, nodes[i]))
  {
    forall id
      ensures id in r <==> exists i :: 0 <= i < |nodes| && Carries(nodes[i], id)
    {
      if id in rest {
        var i :| 0 <= i < |tail| && Carries(tail[i], id);
        assert Carries(nodes[i + 1], id);
      }
      if exists i :: 0 <= i < |nodes| && Carries(nodes[i], id) {
        var i :| 0 <= i < |nodes| && Carries(nodes[i], id);
        if i > 0 {
          assert Carries(tail[i - 1], id);
        }
      }
    }
    forall i | LastCarrier(nodes, i)
      ensures nodes[i].attrib["id"] in r && r[nodes[i].attrib["id"]] == Product(Build(ctx, nodes[i]))
    {
      var id := nodes[i].attrib["id"];
      if i == 0 {
        forall j | 0 <= j < |tail|
          ensures !Carries(tail[j], id)
        {
          assert tail[j] == nodes[j + 1];
        }
      } else {
        assert tail[i - 1] == nodes[i];
        assert LastCarrier(tail, i - 1) by {
          forall j | i - 1 < j < |tail|
            ensures !Carries(tail[j], id)
          {
            assert tail[j] == nodes[j + 1];
          }
        }
      }
    }
  }

  /** Recording two sequences one after the other is recording their concatenation. */
  lemma {:induction false} RecordConcat<V>(ctx: Context<V>, a: seq<Node>, b: seq<Node>)
    ensures Record(ctx, a + b) == Record(ctx, a) + Record(ctx, b)
    decreases |a|
  {
    if a == [] {
      assert a + b == b;
    } else {
      assert (a + b)[0] == a[0];
      assert (a + b)[1..] == a[1..] + b;
      RecordConcat(ctx, a[1..], b);
      var head := IdWrite(a[0], Product(Build(ctx, a[0])));
      assert Record(ctx, a + b) == head + Record(ctx, a[1..] + b);
      assert Record(ctx, a) == head + Record(ctx, a[1..]);
      MapUnionAssociates(head, Record(ctx, a[1..]), Record(ctx, b));
    }
  }

  lemma MapUnionAssociates<K, T>(x: map<K, T>, y: map<K, T>, z: map<K, T>)
    ensures x + (y + z) == (x + y) + z
  {
  }

  /**
   * A walk that succeeds writes exactly the record of the elements it
   * visits, in pre-order: each `id` maps to what the last visited element
   * carrying it built.
   */
  lemma {:induction false} IndexIsPreorderRecord<V>(ctx: Context<V>, node: Node)
    requires Build(ctx, node).outcome.Success?
    ensures Build(ctx, node).writes == Record(ctx, Visited(ctx, node))
    decreases node, 1
  {
    var visited := Visited(ctx, node);
    assert visited[0] == node;
    if Descends(ctx, node) {
      IndexAllIsPreorderRecord(ctx, node.children);
      assert visited[1..] == VisitedAll(ctx, node.children);
    } else {
      assert visited[1..] == [];
    }
  }

  lemma {:induction false} IndexAllIsPreorderRecord<V>(ctx: Context<V>, nodes: seq<Node>)
    requires BuildAll(ctx, nodes).failed.None?
    ensures BuildAll(ctx, nodes).writes == Record(ctx, VisitedAll(ctx, nodes))
    decreases nodes, 0
  {
    if nodes != [] {
      IndexIsPreorderRecord(ctx, nodes[0]);
      IndexAllIsPreorderRecord(ctx, nodes[1..]);
      RecordConcat(ctx, Visited(ctx, nodes[0]), VisitedAll(ctx, nodes[1..]));
    }
  }

  /**
   * After a successful walk, an `id` is in the index exactly when a visited
   * element carries it, and then maps to what the last such element (in
   * pre-order) built: `None` when that element's tag is unresolved.
   */
  lemma IndexLastCarrierWins<V>(ctx: Context<V>, node: Node, id: string)
    requires Build(ctx, node).outcome.Success?
    ensures var visited := Visited(ctx, node);
            var index := Build(ctx, node).writes;
            && (id in index <==> exists i :: 0 <= i < |visited| && Carries(visited[i], id))
            && forall i :: LastCarrier(visited, i) && Carries(visited[i], id) ==> index[id] == Product(Build(ctx, visited[i]))
  {
    IndexIsPreorderRecord(ctx, node);
  }

  /**
   * An element whose tag is unknown builds `None` and the walk stops there:
   * only its own `id`, if any, is written, mapped to `None`.
   */
  lemma UnresolvedTagHidesDescendants<V>(ctx: Context<V>, node: Node)
    requires Lower(node.tag) !in ctx.tags && ctx.convert(node.attrib).Success?
    requires !RebindsParameter(ctx.convert(node.attrib).value)
    ensures Build(ctx, node).outcome == Success(None)
    ensures Build(ctx, node).writes == IdWrite(node, None)
    ensures Visited(ctx, node) == [node]
  {
  }

  /**
   * An element whose converted attributes hold `tag` or `cls` raises, even
   * when its tag is unknown, and writes nothing to the index.
   */
  lemma ParameterNamedAttributeRaises<V>(ctx: Context<V>, node: Node)
    requires ctx.convert(node.attrib).Success? && RebindsParameter(ctx.convert(node.attrib).value)
    ensures Build(ctx, node) == Walk(Failure(DuplicateArgument), map[])
  {
  }

  /** Attributes are converted before the tag is resolved: a bad data attribute fails even on an unknown tag. */
  lemma ConversionPrecedesResolution<V>(ctx: Context<V>, node: Node)
    requires ctx.convert(node.attrib).Failure?
    ensures Build(ctx, node) == Walk(Failure(AttributeError(ctx.convert(node.attrib).error)), map[])
  {
  }

  // ---------------------------------------------------------------------------
  // Loading and lookup
  // ---------------------------------------------------------------------------

  /** The builder's state: the layout root and the index from `id` to component. */
  datatype Builder<V> = Builder(layout: Option<Component<V>>, components: map<string, Option<Component<V>>>)

  /** Why a load raises: the parser rejected the document, or the walk raised. */
  datatype LoadError<E> = Unparsable(cause: E) | Unbuildable(error: BuildError)

  /**
   * `load`, given the parser's outcome. A parse failure raises before
   * anything changes. Otherwise the index is cleared; a root that tests false
   * leaves the layout as it was and returns it; any other root is walked,
   * the index holds what the walk wrote, and the layout becomes the walk's
   * result, unless the walk raised, in which case the layout is kept and
   * the index keeps the entries written before the failure.
   */
  function Load<V, E>(b: Builder<V>, ctx: Context<V>, parsed: Result<Node, E>, truthy: Node -> bool)
    : (r: (Result<Option<Component<V>>, LoadError<E>>, Builder<V>))
    ensures parsed.Failure? ==> r == (Failure(Unparsable(parsed.error)), b)
    ensures parsed.Success? ==> r.1.components.Keys <= Ids(parsed.value)
    ensures parsed.Success? && !truthy(parsed.value) ==> r == (Success(b.layout), Builder(b.layout, map[]))
    ensures parsed.Success? && truthy(parsed.value) ==>
              var w := Build(ctx, parsed.value);
              && r.1.components == w.writes
              && (w.outcome.Success? ==> r.0 == Success(w.outcome.value) && r.1.layout == w.outcome.value)
              && (w.outcome.Failure? ==> r.0 == Failure(Unbuildable(w.outcome.error)) && r.1.layout == b.layout)
  {
    match parsed
    case Failure(e) => (Failure(Unparsable(e)), b)
    case Success(root) =>
      var cleared := b.(components := map[]);
      if !truthy(root) then (Success(cleared.layout), cleared)
      else
        var w := Build(ctx, root);
        match w.outcome
        case Failure(e) => (Failure(Unbuildable(e)), cleared.(components := w.writes))
        case Success(c) => (Success(c), Builder(c, w.writes))
  }

  /** `get_component`: the indexed component, or `None` for an `id` the index lacks. */
  function GetComponent<V>(b: Builder<V>, id: string): (r: Option<Component<V>>)
    ensures id !in b.components ==> r == None
    ensures id in b.components ==> r == b.components[id]
  {
    if id in b.components then b.components[id] else None
  }

  /**
   * After a load that walks the whole tree successfully, looking up an `id`
   * gives what the last visited element carrying it built, and `None` for an
   * `id` that no visited element carries.
   */
  lemma LookupAfterLoad<V, E>(b: Builder<V>, ctx: Context<V>, root: Node, truthy: Node -> bool, id: string)
    requires truthy(root) && Build(ctx, root).outcome.Success?
    ensures (forall i :: 0 <= i < |Visited(ctx, root)| ==> !Carries(Visited(ctx, root)[i], id)) ==>
              GetComponent(Load<V, E>(b, ctx, Success(root), truthy).1, id) == None
    ensures forall i :: LastCarrier(Visited(ctx, root), i) && Carries(Visited(ctx, root)[i], id) ==>
              GetComponent(Load<V, E>(b, ctx, Success(root), truthy).1, id) == Product(Build(ctx, Visited(ctx, root)[i]))
  {
    LookupInIndex(ctx, root, id, Load<V, E>(b, ctx, Success(root), truthy).1);
  }

  lemma LookupInIndex<V>(ctx: Context<V>, root: Node, id: string, state: Builder<V>)
    requires Build(ctx, root).outcome.Success? && state.components == Build(ctx, root).writes
    ensures (forall i :: 0 <= i < |Visited(ctx, root)| ==> !Carries(Visited(ctx, root)[i], id)) ==> GetComponent(state, id) == None
    ensures forall i :: LastCarrier(Visited(ctx, root), i) && Carries(Visited(ctx, root)[i], id) ==>
              GetComponent(state, id) == Product(Build(ctx, Visited(ctx, root)[i]))
  {
    IndexLastCarrierWins(ctx, root, id);
  }

  /** A parse failure leaves the layout and the index as they were. */
  lemma FailedParseKeepsState<V, E>(b: Builder<V>, ctx: Context<V>, e: E, truthy: Node -> bool, id: string)
    ensures Load(b, ctx, Failure(e), truthy).1 == b
    ensures GetComponent(Load(b, ctx, Failure(e), truthy).1, id) == GetComponent(b, id)
  {
  }
}
