/** The tree builder on every well-nested document, not only on those
    serialised from a tree: text and elements may come in any order and any
    number at every level, as in an indented file where whitespace text
    follows each child element. */
module XmlMarkup {
  import opened Wrappers
  import opened XmlNodes
  import opened XmlPull
  import opened XmlParser
  import opened XmlTreeLemmas

  /** Well-nested markup: a text, or an element with its tag's name and
      attributes and its content in document order. */
  datatype Markup = MText(text: string) | MElem(name: string, attributes: seq<Attribute>, content: seq<Markup>)

  /** The events the pull parser reports for a piece of markup. */
  function MEvents(m: Markup): seq<Event>
    decreases m, 1
  {
    match m
    case MText(s) => [Text(s)]
    case MElem(name, attributes, content) => [StartTag(name, attributes)] + MEventsAll(content) + [EndTag(name)]
  }

  function MEventsAll(ms: seq<Markup>): seq<Event>
    decreases ms, 0
  {
    if ms == [] then [] else MEvents(ms[0]) + MEventsAll(ms[1..])
  }

  /** What a piece of markup stands for at the level it appears in: a text,
      or the node its element makes, filled with its own content. */
  function AsItem(m: Markup): Item
    decreases m, 1
  {
    match m
    case MText(s) => TextItem(s)
    case MElem(name, attributes, content) => Element(Filled(XmlNode(name, attributes, [], None), AsItems(content)))
  }

  function AsItems(ms: seq<Markup>): seq<Item>
    decreases ms, 0
  {
    if ms == [] then [] else [AsItem(ms[0])] + AsItems(ms[1..])
  }

  /** The node an element makes: the tag's name and attributes, the
      elements of its content as children in document order, and the last
      text of its content as data. */
  lemma ElementNode(name: string, attributes: seq<Attribute>, content: seq<Markup>)
    ensures AsItem(MElem(name, attributes, content)) ==
            Element(XmlNode(name, attributes, ChildrenOf(AsItems(content)), LastText(AsItems(content), None)))
  {
    FilledContents(XmlNode(name, attributes, [], None), AsItems(content));
    assert [] + ChildrenOf(AsItems(content)) == ChildrenOf(AsItems(content));
  }

  /** Sequence bookkeeping: an element's events, followed by `after`. */
  lemma ElementEvents(whole: seq<Event>, open: Event, inner: seq<Event>, close: Event, after: seq<Event>)
    requires whole == [open] + inner + [close]
    ensures whole + after == [open] + (inner + ([close] + after))
    ensures (whole + after)[1..] == inner + ([close] + after)
  {
    assert whole + after == [open] + (inner + ([close] + after));
  }

  /** Loading one piece of markup at the level of `parent` absorbs what it
      stands for; the level then goes on at the events after it. */
  lemma {:induction false} MarkupOne(m: Markup, after: seq<Event>, parent: XmlNode)
    ensures BuildLevel(MEvents(m) + after, parent) == BuildLevel(after, Absorb(parent, AsItem(m)))
    decreases m, 0
  {
    var events := MEvents(m) + after;
    match m
    case MText(s) =>
      assert events == [Text(s)] + after;
      assert events[1..] == after;
    case MElem(name, attributes, content) =>
      var close := [EndTag(name)] + after;
      var empty := XmlNode(name, attributes, [], None);
      var c := Filled(empty, AsItems(content));
      ElementEvents(MEvents(m), StartTag(name, attributes), MEventsAll(content), EndTag(name), after);
      assert c.name == name && c.attributes == attributes by {
        FilledContents(empty, AsItems(content));
      }
      assert BuildLevel(events[1..], empty) == Built(c, close) by {
        MarkupLevel(content, close, empty);
      }
      StepElement(events, parent, c, after);
  }

  /** Loading the events of a sequence of markup at the level of `parent`
      absorbs, in document order, what each piece stands for; the level then
      goes on after them. */
  lemma {:induction false} MarkupLevel(ms: seq<Markup>, tail: seq<Event>, parent: XmlNode)
    ensures BuildLevel(MEventsAll(ms) + tail, parent) == BuildLevel(tail, Filled(parent, AsItems(ms)))
    decreases ms, 1
  {
    if ms == [] {
      assert MEventsAll(ms) + tail == tail;
    } else {
      var after := MEventsAll(ms[1..]) + tail;
      assert MEventsAll(ms) + tail == MEvents(ms[0]) + after;
      MarkupOne(ms[0], after, parent);
      MarkupLevel(ms[1..], tail, Absorb(parent, AsItem(ms[0])));
      assert AsItems(ms)[0] == AsItem(ms[0]) && AsItems(ms)[1..] == AsItems(ms[1..]);
    }
  }

  /** The tree below the synthetic "xml" root for any well-nested document:
      its children are the top-level elements in order, each made by
      `ElementNode`, and the level ends at the final END_DOCUMENT. */
  lemma MarkupDocumentTree(ms: seq<Markup>)
    ensures BuildNode([StartDocument] + MEventsAll(ms) + [EndDocument], XmlNode.Named("xml")) ==
            Built(XmlNode("xml", [], ChildrenOf(AsItems(ms)), LastText(AsItems(ms), None)), [EndDocument])
  {
    var events := [StartDocument] + MEventsAll(ms) + [EndDocument];
    var root := XmlNode.Named("xml");
    assert Advance(events) == MEventsAll(ms) + [EndDocument] by {
      assert events == [StartDocument] + (MEventsAll(ms) + [EndDocument]);
    }
    MarkupLevel(ms, [EndDocument], root);
    assert Filled(root, AsItems(ms)) == XmlNode("xml", [], ChildrenOf(AsItems(ms)), LastText(AsItems(ms), None)) by {
      FilledContents(root, AsItems(ms));
      assert root.children + ChildrenOf(AsItems(ms)) == ChildrenOf(AsItems(ms));
    }
    assert Head([EndDocument]) == EndDocument;
  }

  /** `parse` of any well-nested document returns its first top-level
      "COLLADA" element, with its whole subtree, or `null`. */
  lemma MarkupDocument(ms: seq<Markup>)
    ensures ParseDocument([StartDocument] + MEventsAll(ms) + [EndDocument], false) ==
            Returned(FirstNamed(ChildrenOf(AsItems(ms)), "COLLADA"))
  {
    assert Head([StartDocument] + MEventsAll(ms) + [EndDocument]) == StartDocument;
    MarkupDocumentTree(ms);
  }

  /** The same markup in the pull parser's terms: `<a/>` then a newline. */
  lemma IndentedContentEvents()
    ensures MEventsAll([MElem("a", [], []), MText("\n")]) == [StartTag("a", []), EndTag("a"), Text("\n")]
  {
    var a := MElem("a", [], []);
    assert MEventsAll(a.content) == [];
    assert MEvents(a) == [StartTag("a", []), EndTag("a")];
    assert [a, MText("\n")][1..] == [MText("\n")];
    assert MEventsAll([MText("\n")]) == [Text("\n")] by {
      assert [MText("\n")][1..] == [];
    }
  }

  /** What `<a/>` then a newline stands for: the element `a`, then the text. */
  lemma IndentedContentItems()
    ensures AsItems([MElem("a", [], []), MText("\n")]) == [Element(XmlNode("a", [], [], None)), TextItem("\n")]
  {
    var a := MElem("a", [], []);
    ElementNode("a", [], []);
    assert [a, MText("\n")][1..] == [MText("\n")];
    assert AsItems([MText("\n")]) == [TextItem("\n")] by {
      assert [MText("\n")][1..] == [];
    }
  }

  /** A child element, then a text: the child is kept and the text is the data. */
  lemma ElementThenText(child: XmlNode, text: string)
    ensures ChildrenOf([Element(child), TextItem(text)]) == [child]
    ensures LastText([Element(child), TextItem(text)], None) == Some(text)
  {
    var items := [Element(child), TextItem(text)];
    var last := [TextItem(text)];
    assert items[1..] == last && last[1..] == [];
    assert ChildrenOf(last) == ChildrenOf(last[1..]) == [];
    assert LastText(last, None) == LastText(last[1..], Some(text)) == Some(text);
    assert ChildrenOf(items) == [child] + ChildrenOf(last);
    assert LastText(items, None) == LastText(last, None);
  }

  /** An indented document, `<COLLADA><a/>` newline `</COLLADA>`: the text
      after the child becomes the data of COLLADA, and the child stays. */
  lemma IndentedDocument()
    ensures ParseDocument([StartDocument, StartTag("COLLADA", []), StartTag("a", []), EndTag("a"),
                           Text("\n"), EndTag("COLLADA"), EndDocument], false) ==
            Returned(Some(XmlNode("COLLADA", [], [XmlNode("a", [], [], None)], Some("\n"))))
  {
    var a := MElem("a", [], []);
    var inner := [a, MText("\n")];
    var doc := MElem("COLLADA", [], inner);
    var collada := XmlNode("COLLADA", [], [XmlNode("a", [], [], None)], Some("\n"));
    assert [StartDocument] + MEventsAll([doc]) + [EndDocument] ==
           [StartDocument, StartTag("COLLADA", []), StartTag("a", []), EndTag("a"),
            Text("\n"), EndTag("COLLADA"), EndDocument] by {
      IndentedContentEvents();
      assert [doc][1..] == [];
      assert MEventsAll([doc]) == MEvents(doc);
    }
    assert ChildrenOf(AsItems([doc])) == [collada] by {
      var items := AsItems(inner);
      assert ChildrenOf(items) == [XmlNode("a", [], [], None)] && LastText(items, None) == Some("\n") by {
        IndentedContentItems();
        ElementThenText(XmlNode("a", [], [], None), "\n");
      }
      ElementNode("COLLADA", [], inner);
      assert [doc][1..] == [];
      assert AsItems([doc]) == [Element(collada)];
    }
    MarkupDocument([doc]);
  }

  /** Below the root, after any well-nested top-level content, a level that
      fails makes `parse` throw the same exception. */
  lemma RethrownAfter(ms: seq<Markup>, rest: seq<Event>, cause: Cause)
    requires BuildLevel(rest, Filled(XmlNode.Named("xml"), AsItems(ms))) == Failed(cause)
    ensures ParseDocument([StartDocument] + (MEventsAll(ms) + rest), false) == Threw(cause)
  {
    var events := [StartDocument] + (MEventsAll(ms) + rest);
    assert Head(events) == StartDocument && Advance(events) == MEventsAll(ms) + rest;
    MarkupLevel(ms, rest, XmlNode.Named("xml"));
  }

  /** An exception met after any well-nested part of the document reaches
      the caller of `parse`, wrapped, unless `close()` throws in its place. */
  lemma FaultsAreRethrown(ms: seq<Markup>, cause: Cause, closeFails: bool)
    ensures ParseDocument([StartDocument] + MEventsAll(ms) + [Fault(cause)], closeFails) ==
            Threw(if closeFails then IOException else cause)
  {
    if !closeFails {
      assert [StartDocument] + MEventsAll(ms) + [Fault(cause)] ==
             [StartDocument] + (MEventsAll(ms) + [Fault(cause)]);
      assert Head([Fault(cause)]) == Fault(cause);
      RethrownAfter(ms, [Fault(cause)], cause);
    }
  }

  /** A level whose next element is still open when the parser throws
      fails with that exception, whatever well-nested content the element
      held so far. */
  lemma OpenElementFails(name: string, attributes: seq<Attribute>, inner: seq<Markup>, cause: Cause, parent: XmlNode)
    ensures BuildLevel([StartTag(name, attributes)] + (MEventsAll(inner) + [Fault(cause)]), parent) == Failed(cause)
  {
    var inside := MEventsAll(inner) + [Fault(cause)];
    var open := [StartTag(name, attributes)] + inside;
    assert Head(open) == StartTag(name, attributes) && open[1..] == inside;
    MarkupLevel(inner, [Fault(cause)], XmlNode(name, attributes, [], None));
  }

  /** An exception met inside an element that is still open, after any
      well-nested content at both levels, reaches the caller of `parse`. */
  lemma FaultInsideElementIsRethrown(ms: seq<Markup>, name: string, attributes: seq<Attribute>,
                                     inner: seq<Markup>, cause: Cause)
    ensures ParseDocument([StartDocument] + (MEventsAll(ms) +
                          ([StartTag(name, attributes)] + (MEventsAll(inner) + [Fault(cause)]))), false) ==
            Threw(cause)
  {
    var open := [StartTag(name, attributes)] + (MEventsAll(inner) + [Fault(cause)]);
    OpenElementFails(name, attributes, inner, cause, Filled(XmlNode.Named("xml"), AsItems(ms)));
    RethrownAfter(ms, open, cause);
  }
}
