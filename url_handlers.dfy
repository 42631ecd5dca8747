/** `AndroidURLStreamHandlerFactory`: the factory, defined in the engine and
    installed by the app, that lets `java.net.URL` understand the "assets"
    and "content" schemes. */
module UrlHandlers {
  import opened Wrappers

  /** The two stream handlers the factory knows: the one for files packed
      in the application's assets, and the one for Android content URIs. */
  datatype HandlerKind = AssetsHandler | ContentHandler

  /** The scheme each handler serves. */
  function ProtocolOf(kind: HandlerKind): string
  {
    match kind
    case AssetsHandler => "assets"
    case ContentHandler => "content"
  }

  /** The handler `createURLStreamHandler` picks for `protocol` (`None` is
      Java's `null`); `None` as a result means it returns `null`, so that the
      JDK falls back to its own handlers. Matching is exact: no case folding,
      no trimming. */
  function HandlerFor(protocol: Option<string>): (r: Option<HandlerKind>)
    ensures r == Some(AssetsHandler) <==> protocol == Some("assets")
    ensures r == Some(ContentHandler) <==> protocol == Some("content")
    ensures r.None? <==> protocol != Some("assets") && protocol != Some("content")
  {
    if protocol == Some("assets") then Some(AssetsHandler)
    else if protocol == Some("content") then Some(ContentHandler)
    else None
  }

  /** The factory and `ProtocolOf` are inverse: each handler is chosen for
      its own scheme, and for nothing else. */
  lemma HandlerForProtocolOf(kind: HandlerKind, protocol: Option<string>)
    ensures HandlerFor(Some(ProtocolOf(kind))) == Some(kind)
    ensures HandlerFor(protocol) == Some(kind) ==> protocol == Some(ProtocolOf(kind))
  {
  }

  /** Scheme names are compared exactly: other spellings of the two schemes
      are not handled. */
  lemma MatchingIsCaseSensitive()
    ensures HandlerFor(Some("Assets")) == None
    ensures HandlerFor(Some("CONTENT")) == None
    ensures HandlerFor(Some("assets ")) == None
    ensures HandlerFor(None) == None
  {
  }

  /** A stream handler object; which class it is an instance of is its kind. */
  class Handler {
    const kind: HandlerKind

    constructor (kind: HandlerKind)
      ensures this.kind == kind
    {
      this.kind := kind;
    }
  }

  /** `createURLStreamHandler(protocol)`: a new handler for "assets" or
      "content", `null` for every other scheme and for `null`. */
  method CreateURLStreamHandler(protocol: Option<string>) returns (h: Handler?)
    ensures h == null <==> HandlerFor(protocol).None?
    ensures h != null ==> fresh(h) && Some(h.kind) == HandlerFor(protocol)
  {
    if protocol == Some("assets") {
      h := new Handler(AssetsHandler);
    } else if protocol == Some("content") {
      h := new Handler(ContentHandler);
    } else {
      h := null;
    }
  }
}
