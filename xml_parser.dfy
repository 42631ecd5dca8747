/** `XmlParser.parse` and `XmlParser.loadNode`: the builder that turns the
    events of a pull parser into a tree of `XmlNode`s and returns the
    `COLLADA` element of the document.

    Each operation comes twice: a function that says what it computes from
    the event sequence alone, and a method over the stateful parser and
    stream, proved to compute exactly that. */
module XmlParser {
  import opened Wrappers
  import opened XmlNodes
  import opened XmlPull

  /** What `loadNode` leaves behind: the node it filled and what remains of
      the input from the event that ended its level on, or the exception that
      escaped it. */
  datatype Built = Built(node: XmlNode, rest: seq<Event>) | Failed(cause: Cause)

  /** What `parse` does: returns a node or `null`, or throws a
      RuntimeException wrapping `cause`. */
  datatype Outcome = Returned(node: Option<XmlNode>) | Threw(cause: Cause)

  /** The loop of `loadNode` at the level of `parent`, from the moment
      `next()` has delivered the first event of `rest`. The level ends at an
      END_TAG or END_DOCUMENT; a START_TAG opens a new child, filled by a
      nested level; a TEXT sets the data of `parent`; other events are skipped. */
  function BuildLevel(rest: seq<Event>, parent: XmlNode): (r: Built)
    ensures r.Built? ==> |r.rest| <= |rest|
    ensures r.Built? ==> Head(r.rest).EndTag? || Head(r.rest).EndDocument?
    ensures r.Built? ==> r.node.name == parent.name && r.node.attributes == parent.attributes
    ensures r.Built? ==> parent.children <= r.node.children
    decreases |rest|
  {
    match Head(rest)
    case Fault(c) => Failed(c)
    case EndDocument => Built(parent, rest)
    case EndTag(_) => Built(parent, rest)
    case StartTag(name, attributes) =>
      var child := BuildLevel(rest[1..], XmlNode(name, attributes, [], None));
      if child.Failed? then child
      else
        BuildLevel(Advance(child.rest), parent.AddChild(child.node))
    case Text(s) => BuildLevel(rest[1..], parent.SetData(s))
    case StartDocument => BuildLevel(rest[1..], parent)
  }

  /** `loadNode(xpp, parent)` called with the parser standing on the first
      event of `rest`: it first calls `next()`, then runs the loop. */
  function BuildNode(rest: seq<Event>, parent: XmlNode): Built
  {
    BuildLevel(Advance(rest), parent)
  }

  /** The `try` block of `parse`: `setInput` fails when the very first event
      is a fault; a document that does not start with START_DOCUMENT yields
      `null`; otherwise the events are loaded below a root named "xml" and
      the result is the root's child named "COLLADA". */
  function TryParse(events: seq<Event>): (r: Outcome)
    ensures Head(events).Fault? ==> r == Threw(Head(events).cause)
    ensures Head(events) != StartDocument && !Head(events).Fault? ==> r == Returned(None)
    ensures r.Returned? && r.node.Some? ==> r.node.value.name == "COLLADA"
    ensures Head(events) == StartDocument && BuildNode(events, XmlNode.Named("xml")).Failed? ==>
              r == Threw(BuildNode(events, XmlNode.Named("xml")).cause)
  {
    match Head(events)
    case Fault(c) => Threw(c)
    case StartDocument =>
      (match BuildNode(events, XmlNode.Named("xml"))
       case Failed(c) => Threw(c)
       case Built(root, _) => Returned(root.GetChild("COLLADA")))
    case _ => Returned(None)
  }

  /** `parse(stream)`: the `try` block followed by the `finally` block, which
      closes the stream; an IOException from `close()` replaces whatever the
      `try` block returned or threw. */
  function ParseDocument(events: seq<Event>, closeFails: bool): (r: Outcome)
    ensures r.Returned? ==> !closeFails
    ensures r.Threw? && !closeFails ==> Head(events).Fault? || Head(events) == StartDocument
    ensures r.Returned? && r.node.Some? ==> Head(events) == StartDocument && r.node.value.name == "COLLADA"
  {
    if closeFails then Threw(IOException) else TryParse(events)
  }

  /** `loadNode(xpp, parentNode)`. The Java code appends each new child to
      the parent before filling it; here the child is appended once filled,
      which nobody can tell apart: the parent is not read in between, and on
      an exception the whole tree is dropped. */
  method LoadNode(xpp: PullParser, parentNode: XmlNode) returns (r: Built)
    modifies xpp
    ensures r == BuildNode(old(xpp.rest), parentNode)
    ensures r.Built? ==> xpp.rest == r.rest
    decreases |xpp.rest|
  {
    ghost var input := xpp.rest;
    var step := xpp.Next();
    if step.Failure? {
      return Failed(step.error);
    }
    var eventType := step.value;
    var node := parentNode;
    while eventType != EndDocument
      invariant eventType == Head(xpp.rest) && !eventType.Fault?
      invariant eventType != EndDocument ==> |xpp.rest| < |input|
      invariant BuildLevel(xpp.rest, node) == BuildNode(input, parentNode)
      decreases |xpp.rest|
    {
      if eventType.StartTag? {
        var childNode := XmlNode.Named(xpp.Name());
        for i := 0 to xpp.AttributeCount()
          invariant childNode == XmlNode(eventType.name, eventType.attributes[..i], [], None)
        {
          childNode := childNode.AddAttribute(xpp.AttributeName(i), xpp.AttributeValue(i));
          assert eventType.attributes[..i + 1] == eventType.attributes[..i] + [eventType.attributes[i]];
        }
        assert eventType.attributes[..|eventType.attributes|] == eventType.attributes;
        var child := LoadNode(xpp, childNode);
        if child.Failed? {
          return child;
        }
        node := node.AddChild(child.node);
      } else if eventType.EndTag? {
        return Built(node, xpp.rest);
      } else if eventType.Text? {
        node := node.SetData(xpp.Text());
      }
      step := xpp.Next();
      if step.Failure? {
        return Failed(step.error);
      }
      eventType := step.value;
    }
    return Built(node, xpp.rest);
  }

  /** `parse(stream)`: the stream is closed on every path out, and the outcome is
      the one `ParseDocument` describes. */
  method Parse(stream: InputStream) returns (r: Outcome)
    modifies stream
    ensures stream.closed
    ensures r == ParseDocument(stream.events, stream.closeFails)
  {
    var body: Outcome;
    var xpp := new PullParser(stream.events);
    var eventType := xpp.EventType();
    if eventType.Fault? {
      body := Threw(eventType.cause);
    } else if eventType == StartDocument {
      var parent := XmlNode.Named("xml");
      var loaded := LoadNode(xpp, parent);
      if loaded.Failed? {
        body := Threw(loaded.cause);
      } else {
        body := Returned(loaded.node.GetChild("COLLADA"));
      }
    } else {
      body := Returned(None);
    }
    var closeError := stream.Close();
    if closeError.Some? {
      r := Threw(closeError.value);
    } else {
      r := body;
    }
  }
}
