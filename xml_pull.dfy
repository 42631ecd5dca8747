/** The pull parser and the input stream the XML parser works with, seen from
    the outside. The tokenizer is not modelled: a stream is given together
    with the sequence of events a pull parser reads out of it. */
module XmlPull {
  import opened Wrappers
  import opened XmlNodes

  /** The checked exceptions a pull parser or a stream can throw. */
  datatype Cause = XmlPullParserException | IOException

  /** The events an `XmlPullParser` reports. `Fault(c)` marks the point where
      the tokenizer gives up: moving onto it throws `c`. */
  datatype Event =
    | StartDocument
    | StartTag(name: string, attributes: seq<Attribute>)
    | EndTag(name: string)
    | Text(text: string)
    | EndDocument
    | Fault(cause: Cause)

  /** The event the parser stands on when `rest` is what remains of its
      input, from the current event on; once the input is used up the parser
      reports END_DOCUMENT. */
  function Head(rest: seq<Event>): Event
  {
    if rest == [] then EndDocument else rest[0]
  }

  /** The events where the cursor stays put: END_DOCUMENT (explicit or past
      the end) and a fault. What `next()` does there belongs to the library;
      this model assumes it reports the same event again. */
  predicate Stuck(e: Event)
  {
    e.EndDocument? || e.Fault?
  }

  /** What remains of the input after `next()`. */
  function Advance(rest: seq<Event>): (r: seq<Event>)
    ensures r == rest <==> Stuck(Head(rest))
    ensures r != rest ==> r == rest[1..]
  {
    if Stuck(Head(rest)) then rest else rest[1..]
  }

  /** A pull parser: a cursor over the events of its input. `rest` holds the
      event the parser stands on and all the events after it. */
  class PullParser {
    var rest: seq<Event>

    /** `setInput`: the parser stands on the first event. */
    constructor (input: seq<Event>)
      ensures rest == input
    {
      rest := input;
    }

    /** `getEventType()`: the event the parser stands on. */
    function EventType(): Event
      reads this
    {
      Head(rest)
    }

    /** `next()`: moves to the next event and reports it, or throws when that
        event is a fault. */
    method Next() returns (r: Result<Event, Cause>)
      modifies this
      ensures rest == Advance(old(rest))
      ensures Head(rest).Fault? ==> r == Failure(Head(rest).cause)
      ensures !Head(rest).Fault? ==> r == Success(Head(rest))
    {
      if !Stuck(Head(rest)) {
        rest := rest[1..];
      }
      var e := Head(rest);
      if e.Fault? {
        r := Failure(e.cause);
      } else {
        r := Success(e);
      }
    }

    /** `getName()` on a START_TAG. */
    function Name(): string
      reads this
      requires EventType().StartTag?
    {
      EventType().name
    }

    /** `getAttributeCount()`: -1 unless the parser stands on a START_TAG. */
    function AttributeCount(): (n: int)
      reads this
      ensures n == -1 <==> !EventType().StartTag?
      ensures EventType().StartTag? ==> n == |EventType().attributes|
    {
      if EventType().StartTag? then |EventType().attributes| else -1
    }

    /** `getAttributeName(i)` on a START_TAG. */
    function AttributeName(i: nat): string
      reads this
      requires EventType().StartTag? && i < |EventType().attributes|
    {
      EventType().attributes[i].name
    }

    /** `getAttributeValue(i)` on a START_TAG. */
    function AttributeValue(i: nat): string
      reads this
      requires EventType().StartTag? && i < |EventType().attributes|
    {
      EventType().attributes[i].value
    }

    /** `getText()` on a TEXT event. */
    function Text(): string
      reads this
      requires EventType().Text?
    {
      EventType().text
    }
  }

  /** An input stream: the events the parser will read out of it, whether its
      `close()` throws, and `closed`, which records that `close()` has been
      called (whether or not that call threw). */
  class InputStream {
    const events: seq<Event>
    const closeFails: bool
    var closed: bool

    constructor (content: seq<Event>, failsOnClose: bool)
      ensures events == content && closeFails == failsOnClose && !closed
    {
      events := content;
      closeFails := failsOnClose;
      closed := false;
    }

    /** `close()`: afterwards `closed` records that it was called, even when
        it threw; the result is the IOException it throws, if it does. */
    method Close() returns (r: Option<Cause>)
      modifies this
      ensures closed
      ensures r == if closeFails then Some(IOException) else None
    {
      closed := true;
      r := if closeFails then Some(IOException) else None;
    }
  }
}
