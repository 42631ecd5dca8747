# COLLADA XML loading and URL scheme handlers of the 3D model viewer engine

The engine of this Android 3D model viewer reads COLLADA files with a small
tree builder, `XmlParser`. It drives an XML pull parser and turns the events
into a tree of `XmlNode`s. `parse` sets the parser on an input stream. If
the first event is START_DOCUMENT, it loads the whole document beneath a
synthetic root named "xml" and returns that root's child named "COLLADA".
Otherwise it returns `null`. Parser and I/O exceptions are rethrown wrapped in
a `RuntimeException`, and the stream is closed in a `finally` block.
`loadNode` is the recursive builder:
- every START_TAG becomes a child node with the tag's name and attributes, filled by a nested call;
- an END_TAG returns to the enclosing level;
- a TEXT sets the data of the node being filled;
- END_DOCUMENT ends the loop.

The app installs the engine's `AndroidURLStreamHandlerFactory` so that
`java.net.URL` understands two schemes, "assets" and "content". It returns a
new handler for each of them and `null` for everything else.

The Dafny model has seven modules:

- `Wrappers`: `Option` and `Result`.
- `XmlNodes`: holds `XmlNode` as a value, with its builder operations and its first-match child lookup.
- `XmlPull`: the pull parser is a class whose cursor is the remaining event sequence. A `Fault` event stands for `next()` throwing. The input stream is a class whose `close()` may throw.
- `XmlParser`: each operation of the builder appears twice. A function gives its result from the event sequence alone (`BuildLevel`, `BuildNode`, `TryParse`, `ParseDocument`). A method over the stateful parser and stream (`LoadNode`, `Parse`) is proved to compute exactly that.
- `XmlTreeLemmas`: what the builder does to event sequences. It creates one node per START_TAG, consumes its input from the front, and fails only at a fault of the input. For a document serialised from a tree it rebuilds that tree exactly, nesting, order and text included.
- `XmlMarkup`: the same for every well-nested document. Text and elements may come in any order at every level, as in an indented file. It also shows that an exception met after any well-nested content, at the top level or inside an element that is still open, reaches the caller of `parse`.
- `UrlHandlers`: the URL stream handler factory.

## Model

| member | source | states |
|---|---|---|
| XmlParser.Parse | engine/src/main/java/com/htm/android_3d/engine/util/xml/XmlParser.java:18-41 | `close()` is called on every path out. The outcome equals `ParseDocument` of the stream's events. |
| XmlParser.ParseDocument | engine/src/main/java/com/htm/android_3d/engine/util/xml/XmlParser.java:18-41 | A result is returned only when `close()` succeeded. Apart from the one `close()` throws, an exception comes only from `setInput` (a fault as the first event) or from loading a document that starts with START_DOCUMENT. A node is returned only for such a document, and it is named "COLLADA". |
| XmlParser.TryParse | engine/src/main/java/com/htm/android_3d/engine/util/xml/XmlParser.java:19-32 | A fault as the first event (`setInput` throwing) is rethrown with its cause. Any other first event but START_DOCUMENT gives `null`. Any node returned is named "COLLADA". A failure while loading is rethrown with its cause. |
| XmlParser.LoadNode | engine/src/main/java/com/htm/android_3d/engine/util/xml/XmlParser.java:50-67 | The recursive loop, including the attribute loop, computes exactly `BuildNode` of the parser's remaining events. On success the parser is left at the event that ended the level. |
| XmlParser.BuildLevel | engine/src/main/java/com/htm/android_3d/engine/util/xml/XmlParser.java:52-66 | A level that ends stops at an END_TAG or END_DOCUMENT. It never consumes more than it was given. It keeps the parent's name and attributes and only appends to its children. |
| XmlPull.PullParser.Next | engine/src/main/java/com/htm/android_3d/engine/util/xml/XmlParser.java:51-51 | `next()` moves one event on, but stays at END_DOCUMENT. A fault event becomes a thrown exception. |
| XmlPull.Advance | engine/src/main/java/com/htm/android_3d/engine/util/xml/XmlParser.java:65-65 | The cursor stays put exactly when it stands at END_DOCUMENT or a fault. Otherwise it drops one event. |
| XmlPull.PullParser.AttributeCount | engine/src/main/java/com/htm/android_3d/engine/util/xml/XmlParser.java:55-55 | The count is -1 exactly when the current event is not a START_TAG. Otherwise it is the tag's number of attributes. |
| XmlPull.InputStream.Close | engine/src/main/java/com/htm/android_3d/engine/util/xml/XmlParser.java:34-38 | Afterwards `closed` records that `close()` was called, even when the call threw. An IOException is reported exactly when closing fails. |
| XmlNodes.FirstNamed | engine/src/main/java/com/htm/android_3d/engine/util/xml/XmlParser.java:27-27 | `getChild` finds nothing exactly when no child has the name. Otherwise it returns a child with that name, and no earlier child has it. |
| XmlTreeLemmas.NodesCreated | engine/src/main/java/com/htm/android_3d/engine/util/xml/XmlParser.java:53-59 | The nodes a level adds to the tree equal the START_TAG events it consumed. |
| XmlTreeLemmas.LoadNodeCreatesOneNodePerStartTag | engine/src/main/java/com/htm/android_3d/engine/util/xml/XmlParser.java:50-67 | The same count for one call of `loadNode`, from the event after the one the parser stood on. |
| XmlTreeLemmas.StartTagBecomesNextChild | engine/src/main/java/com/htm/android_3d/engine/util/xml/XmlParser.java:53-58 | A START_TAG becomes the level's next child. The child has the tag's name and the tag's attributes, each name paired with its value, in index order. |
| XmlTreeLemmas.LevelConsumesPrefix | engine/src/main/java/com/htm/android_3d/engine/util/xml/XmlParser.java:51-66 | What a level leaves is a suffix of its input. |
| XmlTreeLemmas.FailureComesFromFault | engine/src/main/java/com/htm/android_3d/engine/util/xml/XmlParser.java:50-65 | A level fails only with the cause of an exception thrown at one of its events. |
| XmlTreeLemmas.NoFaultSwallowed | engine/src/main/java/com/htm/android_3d/engine/util/xml/XmlParser.java:50-66 | A level that returns normally read no fault before the event it stopped at. With `FailureComesFromFault`, a level fails exactly when it meets a fault. |
| XmlTreeLemmas.FailsAtFirstFault | engine/src/main/java/com/htm/android_3d/engine/util/xml/XmlParser.java:50-66 | A level that fails, fails with the first exception the parser throws on its events. No earlier fault is skipped. |
| XmlTreeLemmas.FilledContents | engine/src/main/java/com/htm/android_3d/engine/util/xml/XmlParser.java:58-63 | Filling a node appends exactly its element items to its children, in document order. The data is that of the last TEXT, or the node's own data when there is none. |
| XmlTreeLemmas.ItemRoundTrip | engine/src/main/java/com/htm/android_3d/engine/util/xml/XmlParser.java:53-63 | The events of one text or element item, loaded at a level, absorb exactly that item. |
| XmlTreeLemmas.ItemsRoundTrip | engine/src/main/java/com/htm/android_3d/engine/util/xml/XmlParser.java:52-66 | The events of a sequence of items absorb the items in order. The level then continues after them. |
| XmlTreeLemmas.NodeRoundTrip | engine/src/main/java/com/htm/android_3d/engine/util/xml/XmlParser.java:59-61 | A serialised element, loaded into a node made from its start tag, rebuilds the element exactly. Its level ends at its own END_TAG. |
| XmlTreeLemmas.DocumentTree | engine/src/main/java/com/htm/android_3d/engine/util/xml/XmlParser.java:24-26 | For a document serialised from a tree, the root "xml" gets the top-level elements as children, in order. END_DOCUMENT is reached only at the top level. |
| XmlTreeLemmas.DocumentRoundTrip | engine/src/main/java/com/htm/android_3d/engine/util/xml/XmlParser.java:24-27 | Parsing a document serialised from a tree returns its first top-level "COLLADA" element, whole, or `null`. |
| XmlTreeLemmas.ColladaRoundTrip | engine/src/main/java/com/htm/android_3d/engine/util/xml/XmlParser.java:25-27 | A document made of one COLLADA element comes back unchanged. |
| XmlMarkup.ElementNode | engine/src/main/java/com/htm/android_3d/engine/util/xml/XmlParser.java:53-63 | An element of any well-nested markup makes a node with the tag's name and attributes. Its children are the elements of its content, in document order, and its data is the last text of its content. |
| XmlMarkup.MarkupOne | engine/src/main/java/com/htm/android_3d/engine/util/xml/XmlParser.java:53-65 | The events of one piece of well-nested markup, text or element, loaded at any level, absorb what it stands for. The level then continues after them. |
| XmlMarkup.MarkupLevel | engine/src/main/java/com/htm/android_3d/engine/util/xml/XmlParser.java:52-66 | The events of any sequence of well-nested markup, with text and elements in any order and number, absorb the pieces in document order at any level. |
| XmlMarkup.MarkupDocumentTree | engine/src/main/java/com/htm/android_3d/engine/util/xml/XmlParser.java:24-26 | For every well-nested document, the root "xml" gets the top-level elements as children, in order. Inner levels end at their END_TAG, and END_DOCUMENT is reached only at the top level. |
| XmlMarkup.MarkupDocument | engine/src/main/java/com/htm/android_3d/engine/util/xml/XmlParser.java:24-27 | Parsing any well-nested document returns its first top-level "COLLADA" element, whole, or `null`. |
| XmlMarkup.IndentedDocument | engine/src/main/java/com/htm/android_3d/engine/util/xml/XmlParser.java:59-63 | For `<COLLADA><a/>` followed by a newline and `</COLLADA>`, the child `a` is kept and the newline after it becomes COLLADA's data. |
| XmlMarkup.FaultsAreRethrown | engine/src/main/java/com/htm/android_3d/engine/util/xml/XmlParser.java:29-39 | An exception after a well-nested prefix reaches the caller with its cause, never swallowed. A failing `close()` replaces it. |
| XmlMarkup.OpenElementFails | engine/src/main/java/com/htm/android_3d/engine/util/xml/XmlParser.java:53-65 | A level whose next element is still open when the parser throws fails with that exception, after any well-nested content. |
| XmlMarkup.FaultInsideElementIsRethrown | engine/src/main/java/com/htm/android_3d/engine/util/xml/XmlParser.java:29-32 | An exception inside a still-open element, after well-nested content at both levels, reaches the caller of `parse` with its cause. |
| XmlTreeLemmas.ParseRethrowsEveryFault | engine/src/main/java/com/htm/android_3d/engine/util/xml/XmlParser.java:18-41 | On every input, a failing `close()` makes `parse` throw its IOException, whatever the `try` block did. Otherwise an exception thrown is the first one the parser throws on the events. A loaded document is returned only if no event read was a fault. |
| UrlHandlers.HandlerFor | engine/src/main/java/com/htm/android_3d/engine/util/android/AndroidURLStreamHandlerFactory.java:12-17 | "assets" gives the assets handler and "content" the content handler, each if and only if. Every other scheme, including `null`, gives `null`. |
| UrlHandlers.HandlerForProtocolOf | engine/src/main/java/com/htm/android_3d/engine/util/android/AndroidURLStreamHandlerFactory.java:12-15 | Each handler is chosen for its own scheme and for no other. |
| UrlHandlers.MatchingIsCaseSensitive | engine/src/main/java/com/htm/android_3d/engine/util/android/AndroidURLStreamHandlerFactory.java:12-14 | "Assets", "CONTENT", "assets " and `null` give `null`. |
| UrlHandlers.CreateURLStreamHandler | engine/src/main/java/com/htm/android_3d/engine/util/android/AndroidURLStreamHandlerFactory.java:11-18 | The result is `null` exactly when `HandlerFor` gives none. Otherwise it is a freshly allocated handler of that kind. |

## Left out

- The XML tokenizer behind `Xml.newPullParser()` is out of the model, and so are the namespace feature and the character encoding. The parser is given as its sequence of events.
- Once END_DOCUMENT is reached, the XmlPull API allows a further `next()` to throw. The model instead keeps the parser at END_DOCUMENT and reports it again. This matters when a nested `loadNode` level ends at END_DOCUMENT (an element left open) and the enclosing level calls `next()` once more. An input that runs out reads as END_DOCUMENT. A fault event is assumed to repeat if `next()` is called again after it throws. Nothing calls it again.
- `getEventType()` is taken not to throw. An exception from `setInput` is a fault as the first event.
- XmlNode.java is not part of this model. `XmlNode` is modelled as a value with the behaviour `parse` relies on:
  - `addChild` appends;
  - `addAttribute` appends a pair;
  - `setData` assigns;
  - `getChild` returns the first child with the name.
- XmlParser.LoadNode appends a child to its parent after filling it, where the Java code appends it first and fills it through the shared reference. The two cannot be told apart: nothing reads the parent in between, and on an exception the whole tree is dropped.
- The partially built tree on an exception is not modelled: `parse` discards it.
- The `RuntimeException` wrapper is modelled by its cause (XmlPullParserException or IOException) alone.
- UrlHandlers.CreateURLStreamHandler: the handlers' own behaviour (opening asset and content streams) is not modelled, only which handler is chosen.
- The other files of the repository (renderers, loaders for other formats, activities) are not part of this model.
