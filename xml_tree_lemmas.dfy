/** Properties of the tree builder stated over event sequences, on every
    input: how many nodes it creates, what it consumes, and that it fails
    exactly at the first fault. Then the round trip from a tree to its events
    and back: a tree serialised in one canonical form (each element's text,
    if any, before its children) is rebuilt exactly. Documents in any
    well-nested form, with text anywhere, are the subject of `XmlMarkup`;
    the document lemmas here are the special case the round trip needs. */
module XmlTreeLemmas {
  import opened Wrappers
  import opened XmlNodes
  import opened XmlPull
  import opened XmlParser

  // ---------------------------------------------------------------------
  // What a level consumes

  /** `rest` is what remains of `events` once some first events are taken. */
  predicate IsSuffix(rest: seq<Event>, events: seq<Event>)
  {
    |rest| <= |events| && events[|events| - |rest|..] == rest
  }

  lemma SuffixOfTail(rest: seq<Event>, events: seq<Event>)
    requires events != [] && IsSuffix(rest, events[1..])
    ensures IsSuffix(rest, events)
  {
    assert events[1..][|events| - 1 - |rest|..] == events[|events| - |rest|..];
  }

  /** A level reads its events from the front: what it leaves is a suffix of
      what it was given. */
  lemma {:induction false} LevelConsumesPrefix(rest: seq<Event>, parent: XmlNode)
    ensures BuildLevel(rest, parent).Built? ==> IsSuffix(BuildLevel(rest, parent).rest, rest)
    decreases |rest|
  {
    match Head(rest)
    case Fault(_) =>
    case EndDocument =>
    case EndTag(_) =>
    case StartTag(name, attributes) =>
      var child := BuildLevel(rest[1..], XmlNode(name, attributes, [], None));
      if child.Built? {
        LevelConsumesPrefix(rest[1..], XmlNode(name, attributes, [], None));
        SuffixOfTail(child.rest, rest);
        var next := Advance(child.rest);
        if next != child.rest {
          assert IsSuffix(next, child.rest[..0] + child.rest) by {
            assert child.rest[..0] + child.rest == child.rest;
          }
          SuffixOfTail(next, child.rest);
        }
        var r := BuildLevel(next, parent.AddChild(child.node));
        if r.Built? {
          LevelConsumesPrefix(next, parent.AddChild(child.node));
          SuffixTransitive(r.rest, next, child.rest);
          SuffixTransitive(r.rest, child.rest, rest);
        }
      }
    case Text(s) =>
      LevelConsumesPrefix(rest[1..], parent.SetData(s));
      if BuildLevel(rest, parent).Built? {
        SuffixOfTail(BuildLevel(rest, parent).rest, rest);
      }
    case StartDocument =>
      LevelConsumesPrefix(rest[1..], parent);
      if BuildLevel(rest, parent).Built? {
        SuffixOfTail(BuildLevel(rest, parent).rest, rest);
      }
  }

  lemma SuffixTransitive(a: seq<Event>, b: seq<Event>, c: seq<Event>)
    requires IsSuffix(a, b) && IsSuffix(b, c)
    ensures IsSuffix(a, c)
  {
    assert c[|c| - |b|..][|b| - |a|..] == c[|c| - |a|..];
  }

  lemma InSuffix(e: Event, rest: seq<Event>, events: seq<Event>)
    requires IsSuffix(rest, events) && e in rest
    ensures e in events
  {
    var k :| 0 <= k < |rest| && rest[k] == e;
    assert events[|events| - |rest| + k] == e;
  }

  /** An exception out of a level is one the parser threw at one of the
      level's events: nothing else fails. */
  lemma {:induction false} FailureComesFromFault(rest: seq<Event>, parent: XmlNode)
    ensures BuildLevel(rest, parent).Failed? ==> Fault(BuildLevel(rest, parent).cause) in rest
    decreases |rest|
  {
    match Head(rest)
    case Fault(_) =>
    case EndDocument =>
    case EndTag(_) =>
    case StartTag(name, attributes) =>
      var newNode := XmlNode(name, attributes, [], None);
      var child := BuildLevel(rest[1..], newNode);
      FailureComesFromFault(rest[1..], newNode);
      if child.Failed? {
        InSuffix(Fault(child.cause), rest[1..], rest);
      } else {
        var next := Advance(child.rest);
        var r := BuildLevel(next, parent.AddChild(child.node));
        FailureComesFromFault(next, parent.AddChild(child.node));
        if r.Failed? {
          LevelConsumesPrefix(rest[1..], newNode);
          SuffixOfTail(child.rest, rest);
          if next != child.rest {
            InSuffix(Fault(r.cause), next, child.rest);
          }
          InSuffix(Fault(r.cause), child.rest, rest);
        }
      }
    case Text(s) =>
      FailureComesFromFault(rest[1..], parent.SetData(s));
      if BuildLevel(rest, parent).Failed? {
        InSuffix(Fault(BuildLevel(rest, parent).cause), rest[1..], rest);
      }
    case StartDocument =>
      FailureComesFromFault(rest[1..], parent);
      if BuildLevel(rest, parent).Failed? {
        InSuffix(Fault(BuildLevel(rest, parent).cause), rest[1..], rest);
      }
  }

  /** `rest` is a suffix of `events`, and none of the events before it is a
      fault. */
  predicate CleanPrefix(rest: seq<Event>, events: seq<Event>)
  {
    IsSuffix(rest, events) && forall i :: 0 <= i < |events| - |rest| ==> !events[i].Fault?
  }

  /** One more event in front of a clean prefix, itself no fault. */
  lemma CleanCons(rest: seq<Event>, events: seq<Event>)
    requires events != [] && !events[0].Fault? && CleanPrefix(rest, events[1..])
    ensures CleanPrefix(rest, events)
  {
    SuffixOfTail(rest, events);
    forall i | 1 <= i < |events| - |rest|
      ensures !events[i].Fault?
    {
      assert events[i] == events[1..][i - 1];
    }
  }

  /** Two clean prefixes one after the other make one. */
  lemma CleanJoin(c: seq<Event>, b: seq<Event>, a: seq<Event>)
    requires CleanPrefix(c, b) && CleanPrefix(b, a)
    ensures CleanPrefix(c, a)
  {
    SuffixTransitive(c, b, a);
    forall i | |a| - |b| <= i < |a| - |c|
      ensures !a[i].Fault?
    {
      assert a[i] == b[i - (|a| - |b|)];
    }
  }

  /** No exception is swallowed: a level that returns normally read no fault
      on its way to the event it stopped at. With `FailureComesFromFault`,
      a level fails exactly when it meets a fault. */
  lemma {:induction false} NoFaultSwallowed(rest: seq<Event>, parent: XmlNode)
    ensures BuildLevel(rest, parent).Built? ==> CleanPrefix(BuildLevel(rest, parent).rest, rest)
    decreases |rest|
  {
    match Head(rest)
    case Fault(_) =>
    case EndDocument =>
    case EndTag(_) =>
    case StartTag(name, attributes) =>
      var newNode := XmlNode(name, attributes, [], None);
      var child := BuildLevel(rest[1..], newNode);
      if child.Built? {
        NoFaultSwallowed(rest[1..], newNode);
        var next := Advance(child.rest);
        var r := BuildLevel(next, parent.AddChild(child.node));
        if r.Built? {
          NoFaultSwallowed(next, parent.AddChild(child.node));
          if next != child.rest {
            CleanCons(r.rest, child.rest);
          }
          CleanJoin(r.rest, child.rest, rest[1..]);
          CleanCons(r.rest, rest);
        }
      }
    case Text(s) =>
      NoFaultSwallowed(rest[1..], parent.SetData(s));
      if BuildLevel(rest, parent).Built? {
        CleanCons(BuildLevel(rest, parent).rest, rest);
      }
    case StartDocument =>
      NoFaultSwallowed(rest[1..], parent);
      if BuildLevel(rest, parent).Built? {
        CleanCons(BuildLevel(rest, parent).rest, rest);
      }
  }

  /** The cause of the first fault among `events`, if there is one: the
      exception the parser throws first when it reads them in order. */
  function FirstFault(events: seq<Event>): Option<Cause>
  {
    if events == [] then None
    else if events[0].Fault? then Some(events[0].cause)
    else FirstFault(events[1..])
  }

  lemma {:induction false} FirstFaultOccurs(events: seq<Event>)
    ensures FirstFault(events).Some? ==> Fault(FirstFault(events).value) in events
  {
    if events != [] && !events[0].Fault? {
      FirstFaultOccurs(events[1..]);
      if FirstFault(events).Some? {
        InSuffix(Fault(FirstFault(events).value), events[1..], events);
      }
    }
  }

  /** Skipping a stretch of events that holds no fault does not change which
      fault comes first. */
  lemma {:induction false} CleanKeepsFirstFault(rest: seq<Event>, events: seq<Event>)
    requires CleanPrefix(rest, events)
    ensures FirstFault(events) == FirstFault(rest)
    decreases |events|
  {
    if |events| == |rest| {
      assert events[0..] == events;
    } else {
      assert !events[0].Fault?;
      assert CleanPrefix(rest, events[1..]) by {
        assert events[1..][|events| - 1 - |rest|..] == events[|events| - |rest|..];
        forall i | 0 <= i < |events| - 1 - |rest|
          ensures !events[1..][i].Fault?
        {
          assert events[1..][i] == events[i + 1];
        }
      }
      CleanKeepsFirstFault(rest, events[1..]);
    }
  }

  /** A level that fails, fails with the first exception the parser throws
      on its events: no fault is skipped on the way to the one reported. */
  lemma {:induction false} FailsAtFirstFault(rest: seq<Event>, parent: XmlNode)
    ensures BuildLevel(rest, parent).Failed? ==> FirstFault(rest) == Some(BuildLevel(rest, parent).cause)
    decreases |rest|
  {
    match Head(rest)
    case Fault(_) =>
    case EndDocument =>
    case EndTag(_) =>
    case StartTag(name, attributes) =>
      var newNode := XmlNode(name, attributes, [], None);
      var child := BuildLevel(rest[1..], newNode);
      assert FirstFault(rest) == FirstFault(rest[1..]);
      FailsAtFirstFault(rest[1..], newNode);
      if child.Built? {
        NoFaultSwallowed(rest[1..], newNode);
        CleanKeepsFirstFault(child.rest, rest[1..]);
        var next := Advance(child.rest);
        assert FirstFault(child.rest) == FirstFault(next);
        FailsAtFirstFault(next, parent.AddChild(child.node));
      }
    case Text(s) =>
      assert FirstFault(rest) == FirstFault(rest[1..]);
      FailsAtFirstFault(rest[1..], parent.SetData(s));
    case StartDocument =>
      assert FirstFault(rest) == FirstFault(rest[1..]);
      FailsAtFirstFault(rest[1..], parent);
  }

  /** A START_TAG at the head of a level becomes the level's next child,
      named after the tag and carrying the tag's attributes in their order. */
  lemma {:induction false} StartTagBecomesNextChild(rest: seq<Event>, parent: XmlNode)
    requires Head(rest).StartTag?
    ensures var r := BuildLevel(rest, parent);
            r.Built? ==>
              |parent.children| < |r.node.children| &&
              r.node.children[|parent.children|].name == Head(rest).name &&
              r.node.children[|parent.children|].attributes == Head(rest).attributes
  {
    var child := BuildLevel(rest[1..], XmlNode(Head(rest).name, Head(rest).attributes, [], None));
    if child.Built? {
      var grown := parent.AddChild(child.node);
      assert grown.children[|parent.children|] == child.node;
      var r := BuildLevel(Advance(child.rest), grown);
      if r.Built? {
        assert grown.children <= r.node.children;
      }
    }
  }

  // ---------------------------------------------------------------------
  // Node count

  /** The number of START_TAG events in `events`. */
  function StartTags(events: seq<Event>): nat
  {
    if events == [] then 0 else (if events[0].StartTag? then 1 else 0) + StartTags(events[1..])
  }

  /** Every START_TAG a level consumes creates exactly one node of the tree,
      and nothing else does: the nodes gained equal the START_TAG events
      between where the level starts and what it leaves. */
  lemma {:induction false} NodesCreated(rest: seq<Event>, parent: XmlNode)
    ensures BuildLevel(rest, parent).Built? ==>
              Size(BuildLevel(rest, parent).node) + StartTags(BuildLevel(rest, parent).rest) ==
              Size(parent) + StartTags(rest)
    decreases |rest|
  {
    match Head(rest)
    case Fault(_) =>
    case EndDocument =>
    case EndTag(_) =>
    case StartTag(name, attributes) =>
      var newNode := XmlNode(name, attributes, [], None);
      var child := BuildLevel(rest[1..], newNode);
      if child.Built? {
        NodesCreated(rest[1..], newNode);
        var grown := parent.AddChild(child.node);
        AddChildSize(parent, child.node);
        NodesCreated(Advance(child.rest), grown);
        assert StartTags(Advance(child.rest)) == StartTags(child.rest);
        assert Size(newNode) == 1;
      }
    case Text(s) =>
      NodesCreated(rest[1..], parent.SetData(s));
    case StartDocument =>
      NodesCreated(rest[1..], parent);
  }

  /** One call of `loadNode` adds one node per START_TAG it consumes. */
  lemma LoadNodeCreatesOneNodePerStartTag(rest: seq<Event>, parent: XmlNode)
    ensures var r := BuildNode(rest, parent);
            r.Built? ==> Size(r.node) + StartTags(r.rest) == Size(parent) + StartTags(Advance(rest))
  {
    NodesCreated(Advance(rest), parent);
  }

  // ---------------------------------------------------------------------
  // Events serialised from a tree

  /** What may stand between a START_TAG and its END_TAG, in document order:
      text, and elements. */
  datatype Item = TextItem(text: string) | Element(node: XmlNode)

  /** The events serialised from an element: its start tag, its text (if it has
      any), its children, its end tag. */
  function Serialize(n: XmlNode): seq<Event>
    decreases n, 1
  {
    [StartTag(n.name, n.attributes)] + DataEvents(n.data) + SerializeAll(n.children) + [EndTag(n.name)]
  }

  function SerializeAll(nodes: seq<XmlNode>): seq<Event>
    decreases nodes, 0
  {
    if nodes == [] then [] else Serialize(nodes[0]) + SerializeAll(nodes[1..])
  }

  function DataEvents(data: Option<string>): seq<Event>
  {
    if data.Some? then [Text(data.value)] else []
  }

  function ItemEvents(item: Item): seq<Event>
  {
    match item
    case TextItem(s) => [Text(s)]
    case Element(n) => Serialize(n)
  }

  /** The events of a sequence of items, one after the other. */
  function SerializeItems(items: seq<Item>): seq<Event>
  {
    if items == [] then [] else ItemEvents(items[0]) + SerializeItems(items[1..])
  }

  /** The elements among `items`, in order. */
  function ChildrenOf(items: seq<Item>): seq<XmlNode>
  {
    if items == [] then []
    else if items[0].Element? then [items[0].node] + ChildrenOf(items[1..])
    else ChildrenOf(items[1..])
  }

  /** The text of the last text item of `items`, or `data` if there is none. */
  function LastText(items: seq<Item>, data: Option<string>): Option<string>
  {
    if items == [] then data
    else LastText(items[1..], if items[0].TextItem? then Some(items[0].text) else data)
  }

  /** The number of nodes in the elements of `items`. */
  function ItemsSize(items: seq<Item>): nat
  {
    if items == [] then 0
    else (if items[0].Element? then Size(items[0].node) else 0) + ItemsSize(items[1..])
  }

  /** Each node as an element item. */
  function Elements(nodes: seq<XmlNode>): seq<Item>
  {
    if nodes == [] then [] else [Element(nodes[0])] + Elements(nodes[1..])
  }

  /** The content of a node as items: its text first, then its children. */
  function Content(n: XmlNode): seq<Item>
  {
    (if n.data.Some? then [TextItem(n.data.value)] else []) + Elements(n.children)
  }

  lemma {:induction false} ElementsFacts(nodes: seq<XmlNode>, data: Option<string>)
    ensures SerializeItems(Elements(nodes)) == SerializeAll(nodes)
    ensures ChildrenOf(Elements(nodes)) == nodes
    ensures ItemsSize(Elements(nodes)) == SizeAll(nodes)
    ensures LastText(Elements(nodes), data) == data
  {
    if nodes != [] {
      ElementsFacts(nodes[1..], data);
      assert Elements(nodes)[1..] == Elements(nodes[1..]);
    }
  }

  lemma ContentFacts(n: XmlNode)
    ensures SerializeItems(Content(n)) == DataEvents(n.data) + SerializeAll(n.children)
    ensures ChildrenOf(Content(n)) == n.children
    ensures LastText(Content(n), None) == n.data
    ensures ItemsSize(Content(n)) == SizeAll(n.children)
  {
    ElementsFacts(n.children, n.data);
    if n.data.Some? {
      assert Content(n)[1..] == Elements(n.children);
    } else {
      assert Content(n) == Elements(n.children);
    }
  }

  /** An element's events open with its start tag and close with its end tag. */
  lemma SerializeShape(n: XmlNode)
    ensures |Serialize(n)| >= 2
    ensures Serialize(n)[0] == StartTag(n.name, n.attributes)
  {
  }

  /** An element's events: its start tag, the events of its content, its end tag. */
  lemma SerializeEnclosed(n: XmlNode)
    ensures Serialize(n) == [StartTag(n.name, n.attributes)] + SerializeItems(Content(n)) + [EndTag(n.name)]
  {
    ContentFacts(n);
  }

  /** One child element of a level, whose own level ended at the END_TAG in
      front of `after`. */
  lemma StepElement(events: seq<Event>, parent: XmlNode, c: XmlNode, after: seq<Event>)
    requires Head(events) == StartTag(c.name, c.attributes)
    requires BuildLevel(events[1..], XmlNode(c.name, c.attributes, [], None)) == Built(c, [EndTag(c.name)] + after)
    ensures BuildLevel(events, parent) == BuildLevel(after, parent.AddChild(c))
  {
    assert Advance([EndTag(c.name)] + after) == after;
  }

  /** What one item does to the node of the level it stands in: text sets
      the node's data, an element becomes its next child. */
  function Absorb(parent: XmlNode, item: Item): XmlNode
  {
    match item
    case TextItem(s) => parent.SetData(s)
    case Element(c) => parent.AddChild(c)
  }

  /** The node of a level once all of `items` have been absorbed, in order. */
  function Filled(parent: XmlNode, items: seq<Item>): XmlNode
    decreases |items|
  {
    if items == [] then parent else Filled(Absorb(parent, items[0]), items[1..])
  }

  /** Filling a node keeps its name and attributes, appends exactly the
      elements among the items to its children in document order, and leaves
      it with the text of the last text item: a later TEXT overwrites an
      earlier one, and a node without text keeps its own data. */
  lemma {:induction false} FilledContents(parent: XmlNode, items: seq<Item>)
    ensures Filled(parent, items) ==
            parent.(children := parent.children + ChildrenOf(items), data := LastText(items, parent.data))
    decreases |items|
  {
    if items == [] {
      assert parent.children + [] == parent.children;
    } else {
      var next := Absorb(parent, items[0]);
      FilledContents(next, items[1..]);
      assert LastText(items, parent.data) == LastText(items[1..], next.data);
      if items[0].Element? {
        assert next.children + ChildrenOf(items[1..]) == parent.children + ChildrenOf(items) by {
          assert ChildrenOf(items) == [items[0].node] + ChildrenOf(items[1..]);
          assert parent.children + [items[0].node] + ChildrenOf(items[1..]) ==
                 parent.children + ([items[0].node] + ChildrenOf(items[1..]));
        }
      } else {
        assert next.children == parent.children && ChildrenOf(items) == ChildrenOf(items[1..]);
      }
    }
  }

  /** The events of `items`, split after the first item's events. */
  lemma SerializeItemsCons(items: seq<Item>, tail: seq<Event>)
    requires items != []
    ensures SerializeItems(items) + tail == ItemEvents(items[0]) + (SerializeItems(items[1..]) + tail)
  {
  }

  function ItemSize(item: Item): nat
  {
    if item.Element? then Size(item.node) else 0
  }

  /** Loading the events of one item at the level of `parent` absorbs that
      item; the level then goes on at the events after it. */
  lemma {:induction false} ItemRoundTrip(item: Item, after: seq<Event>, parent: XmlNode)
    ensures BuildLevel(ItemEvents(item) + after, parent) == BuildLevel(after, Absorb(parent, item))
    decreases ItemSize(item), 0, 1
  {
    var events := ItemEvents(item) + after;
    match item
    case TextItem(s) =>
      assert events == [Text(s)] + after;
      assert events[1..] == after;
    case Element(c) =>
      assert events == Serialize(c) + after;
      SerializeShape(c);
      NodeRoundTrip(c, after);
      StepElement(events, parent, c, after);
  }

  /** Loading the events of a sequence of items at the level of `parent`
      absorbs the items one after the other; the level then goes on after
      them. */
  lemma {:induction false} ItemsRoundTrip(items: seq<Item>, tail: seq<Event>, parent: XmlNode)
    ensures BuildLevel(SerializeItems(items) + tail, parent) == BuildLevel(tail, Filled(parent, items))
    decreases ItemsSize(items), |items|, 2
  {
    if items == [] {
      assert SerializeItems(items) + tail == tail;
    } else {
      SerializeItemsCons(items, tail);
      ItemRoundTrip(items[0], SerializeItems(items[1..]) + tail, parent);
      ItemsRoundTrip(items[1..], tail, Absorb(parent, items[0]));
    }
  }

  /** After its start tag, an element's events are those of its content,
      then its end tag. */
  lemma AfterStartTag(n: XmlNode, tail: seq<Event>)
    ensures (Serialize(n) + tail)[1..] == SerializeItems(Content(n)) + ([EndTag(n.name)] + tail)
  {
    var whole := Serialize(n);
    var content := SerializeItems(Content(n));
    assert whole == [StartTag(n.name, n.attributes)] + content + [EndTag(n.name)] by {
      SerializeEnclosed(n);
    }
    DropFirstRegrouped(whole, StartTag(n.name, n.attributes), content, [EndTag(n.name)], tail);
  }

  /** Sequence bookkeeping for `AfterStartTag`, kept apart from the
      definitions of the events. */
  lemma DropFirstRegrouped(whole: seq<Event>, first: Event, b: seq<Event>, c: seq<Event>, d: seq<Event>)
    requires whole == [first] + b + c
    ensures (whole + d)[1..] == b + (c + d)
  {
    assert whole + d == [first] + (b + (c + d));
  }

  /** A node is what its own content fills into a node made from its start
      tag, and that content is smaller than the node. */
  lemma ContentRebuilds(n: XmlNode)
    ensures ItemsSize(Content(n)) < Size(n)
    ensures Filled(XmlNode(n.name, n.attributes, [], None), Content(n)) == n
  {
    ContentFacts(n);
    FilledContents(XmlNode(n.name, n.attributes, [], None), Content(n));
  }

  /** The events serialised from an element, loaded into a node freshly made
      from its start tag, rebuild that element exactly; its level ends at its
      own END_TAG. */
  lemma {:induction false} NodeRoundTrip(n: XmlNode, tail: seq<Event>)
    ensures BuildLevel((Serialize(n) + tail)[1..], XmlNode(n.name, n.attributes, [], None)) ==
            Built(n, [EndTag(n.name)] + tail)
    decreases Size(n), 0, 0
  {
    AfterStartTag(n, tail);
    ContentRebuilds(n);
    ItemsRoundTrip(Content(n), [EndTag(n.name)] + tail, XmlNode(n.name, n.attributes, [], None));
  }

  /** The tree below the synthetic "xml" root for a document serialised
      from trees:
      its children are the top-level elements, in order. */
  lemma DocumentTree(items: seq<Item>)
    ensures BuildNode([StartDocument] + SerializeItems(items) + [EndDocument], XmlNode.Named("xml")) ==
            Built(XmlNode("xml", [], ChildrenOf(items), LastText(items, None)), [EndDocument])
  {
    var events := [StartDocument] + SerializeItems(items) + [EndDocument];
    var root := XmlNode.Named("xml");
    var tree := Filled(root, items);
    assert Advance(events) == SerializeItems(items) + [EndDocument] by {
      assert events == [StartDocument] + (SerializeItems(items) + [EndDocument]);
    }
    assert BuildLevel(SerializeItems(items) + [EndDocument], root) == BuildLevel([EndDocument], tree) by {
      ItemsRoundTrip(items, [EndDocument], root);
    }
    assert tree == XmlNode("xml", [], ChildrenOf(items), LastText(items, None)) by {
      FilledContents(root, items);
      assert root.children + ChildrenOf(items) == ChildrenOf(items);
    }
    assert Head([EndDocument]) == EndDocument;
  }

  /** `parse` of a document serialised from trees: the result is the first top-level
      element named "COLLADA", with its whole subtree, or `null`. */
  lemma DocumentRoundTrip(items: seq<Item>)
    ensures ParseDocument([StartDocument] + SerializeItems(items) + [EndDocument], false) ==
            Returned(FirstNamed(ChildrenOf(items), "COLLADA"))
  {
    var events := [StartDocument] + SerializeItems(items) + [EndDocument];
    assert Head(events) == StartDocument;
    DocumentTree(items);
  }

  /** A document made of one COLLADA element comes back whole. */
  lemma ColladaRoundTrip(doc: XmlNode)
    requires doc.name == "COLLADA"
    ensures ParseDocument([StartDocument] + Serialize(doc) + [EndDocument], false) == Returned(Some(doc))
  {
    var items := [Element(doc)];
    assert SerializeItems(items) == Serialize(doc);
    assert ChildrenOf(items) == [doc];
    DocumentRoundTrip(items);
  }

  /** What `parse` throws, on every input. A failing `close()` replaces any
      other outcome with its IOException. Otherwise an exception is the first
      one the parser throws on the document's events. What it returns: a
      value only when `close()` succeeded, and for a document it loaded, only
      when no event it read was a fault. */
  lemma {:induction false} ParseRethrowsEveryFault(events: seq<Event>, closeFails: bool)
    ensures closeFails ==> ParseDocument(events, closeFails) == Threw(IOException)
    ensures var r := ParseDocument(events, closeFails);
            !closeFails && r.Threw? ==> FirstFault(events) == Some(r.cause) && Fault(r.cause) in events
    ensures var r := ParseDocument(events, closeFails);
            r.Returned? && Head(events) == StartDocument ==>
              !closeFails &&
              BuildNode(events, XmlNode.Named("xml")).Built? &&
              CleanPrefix(BuildNode(events, XmlNode.Named("xml")).rest, events)
  {
    var root := XmlNode.Named("xml");
    if !closeFails && Head(events) == StartDocument {
      var level := Advance(events);
      assert level == events[1..];
      assert FirstFault(events) == FirstFault(level);
      FailsAtFirstFault(level, root);
      NoFaultSwallowed(level, root);
      if BuildLevel(level, root).Built? {
        CleanCons(BuildLevel(level, root).rest, events);
      }
    }
    FirstFaultOccurs(events);
  }
}
