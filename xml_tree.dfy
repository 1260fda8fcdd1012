/**
 * The values the program receives from its XML libraries, taken as given:
 * the pull parser's events, the parsed record tree, and what a handler is
 * called with.  The error type collapses the program's error enum.
 */
module XmlTree {

  import opened Common

  /**
   * One event of the pull parser.  `Other` stands for every event that is
   * neither a start nor an end tag (text, comments, empty elements,
   * declarations, ...); `Malformed` is an error returned by the tokenizer.
   */
  datatype Event = Start(name: string) | End(name: string) | Other | Eof | Malformed

  /**
   * A node of a parsed record: the document root and text or comment nodes
   * have `isElement == false`.  `text` is what the tree library reports as
   * the node's text: for an element, the text of its first child when that
   * child is a text node, and nothing otherwise (an element that starts with
   * a comment has no text, even if a text node follows).
   */
  datatype Node = Node(
    isElement: bool,
    name: string,
    attributes: map<string, string>,
    text: Option<string>,
    children: seq<Node>)

  /** The arguments of one `EventHandler::handle` call. */
  datatype Visit = Visit(node: Node, path: seq<string>, attributes: map<string, string>, depth: nat)

  /** A call made to an `EventHandler`. */
  datatype HandlerCall = Handle(visit: Visit) | EndRecord

  /** The program's error enum, one constructor per failing library. */
  datatype Error = QuickXml | Utf8 | RoXml | Io

  /** `Result<T, ClinvarXMLTabError>`. */
  datatype Result<+T> = Ok(value: T) | Err(error: Error)
}
