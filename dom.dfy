/** The slice of the browser DOM that the Markdown conversion rules look at.

    A document is a value tree. A node inside it is named by the document's root
    and the path of child indices that leads to it, so that the DOM's
    `parentNode`, `previousSibling`, `firstChild` and `indexOf` (all of which
    compare nodes by identity) become arithmetic on the path. */
module Dom {

  datatype Option<+T> = None | Some(value: T)

  /** A JavaScript value of type T, or the TypeError thrown while computing it
      (a property read on `null`/`undefined`, or a call of a missing method). */
  datatype Result<+T> = Ok(value: T) | TypeError(reason: string)

  /** An element with its tag name as `nodeName` reports it (upper case for HTML),
      its attributes by lower-case name, and its child nodes in order; or a text node. */
  datatype Node =
    | Element(tag: string, attrs: map<string, string>, children: seq<Node>)
    | Text(data: string)

  type Path = seq<nat>

  function NodeName(n: Node): string {
    match n
    case Element(tag, _, _) => tag
    case Text(_) => "#text"
  }

  /** `childNodes`: a text node has none. */
  function ChildNodes(n: Node): seq<Node> {
    if n.Element? then n.children else []
  }

  /** `getAttribute(name)`, with `None` for `null`. */
  function Attr(n: Node, name: string): Option<string>
    requires n.Element?
  {
    if name in n.attrs then Some(n.attrs[name]) else None
  }

  /** `className`: the `class` attribute, `""` when it is absent. */
  function ClassName(n: Node): string
    requires n.Element?
  {
    if "class" in n.attrs then n.attrs["class"] else ""
  }

  /** `textContent`: the text of every text node below, in document order. */
  function TextContent(n: Node): string
    decreases n, 1
  {
    match n
    case Text(d) => d
    case Element(_, _, cs) => TextOfAll(cs)
  }

  function TextOfAll(cs: seq<Node>): string
    decreases cs, 0
  {
    if cs == [] then "" else TextContent(cs[0]) + TextOfAll(cs[1..])
  }

  // ---------------------------------------------------------------------------
  // Positions in a document

  function Last(p: Path): nat
    requires p != []
  {
    p[|p| - 1]
  }

  function Init(p: Path): Path
    requires p != []
  {
    p[..|p| - 1]
  }

  /** The node the path leads to, if there is one. */
  function Find(root: Node, p: Path): Option<Node>
    decreases |p|
  {
    if p == [] then Some(root)
    else
      match Find(root, Init(p))
      case Some(Element(_, _, cs)) => if Last(p) < |cs| then Some(cs[Last(p)]) else None
      case _ => None
  }

  predicate ValidPath(root: Node, p: Path) {
    Find(root, p).Some?
  }

  function At(root: Node, p: Path): Node
    requires ValidPath(root, p)
  {
    Find(root, p).value
  }

  /** Stepping to a child keeps a path valid and lands on that child. */
  lemma ChildStep(root: Node, p: Path, i: nat)
    requires ValidPath(root, p) && i < |ChildNodes(At(root, p))|
    ensures ValidPath(root, p + [i])
    ensures At(root, p + [i]) == ChildNodes(At(root, p))[i]
  {
    assert Init(p + [i]) == p;
  }

  /** The parent of a valid non-root path is valid and holds the node at index `Last(p)`. */
  lemma ParentStep(root: Node, p: Path)
    requires ValidPath(root, p) && p != []
    ensures ValidPath(root, Init(p))
    ensures Last(p) < |ChildNodes(At(root, Init(p)))|
    ensures ChildNodes(At(root, Init(p)))[Last(p)] == At(root, p)
  {
  }

  /** `parentNode`: `null` for the root; otherwise the node that holds this one
      at index `Last(p)` of its `childNodes`. */
  function ParentNode(root: Node, p: Path): (r: Option<Node>)
    requires ValidPath(root, p)
    ensures r.Some? <==> p != []
    ensures r.Some? ==> Last(p) < |ChildNodes(r.value)| && ChildNodes(r.value)[Last(p)] == At(root, p)
  {
    if p == [] then None
    else
      ParentStep(root, p);
      Some(At(root, Init(p)))
  }

  /** `previousSibling`: `null` for the root and for a first child; otherwise the
      child just before this one in the parent's `childNodes`. */
  function PreviousSibling(root: Node, p: Path): (r: Option<Node>)
    requires ValidPath(root, p)
    ensures r.Some? <==> p != [] && Last(p) > 0
    ensures r.Some? ==> r.value == ChildNodes(ParentNode(root, p).value)[Last(p) - 1]
  {
    if p == [] || Last(p) == 0 then None
    else Some(ChildNodes(ParentNode(root, p).value)[Last(p) - 1])
  }

  /** `firstChild`: `null` when there are no child nodes. */
  function FirstChild(n: Node): Option<Node> {
    if ChildNodes(n) == [] then None else Some(ChildNodes(n)[0])
  }

  // ---------------------------------------------------------------------------
  // Strings as the rules see them

  /** `toLowerCase` on ASCII letters; every other character is left as it is. */
  function LowerChar(c: char): char {
    if 'A' <= c <= 'Z' then (c as int + 32) as char else c
  }

  function Lower(s: string): string {
    seq(|s|, i requires 0 <= i < |s| => LowerChar(s[i]))
  }

  /** A string or array filter of the conversion engine: the rule applies when the
      lower-cased `nodeName` is one of `names`. */
  predicate NameIn(n: Node, names: seq<string>) {
    Lower(NodeName(n)) in names
  }

  /** The characters of the regular-expression class `\s`: white space and line terminators. */
  predicate IsJsSpace(c: char) {
    c == '\t' || c == '\n' || c == '\U{B}' || c == '\U{C}' || c == '\r' || c == ' '
    || c == '\U{A0}' || c == '\U{1680}' || ('\U{2000}' <= c <= '\U{200A}')
    || c == '\U{2028}' || c == '\U{2029}' || c == '\U{202F}' || c == '\U{205F}'
    || c == '\U{3000}' || c == '\U{FEFF}'
  }

  /** The test `/^\s*$/i.test(s)`: every character is white space. */
  predicate IsBlank(s: string) {
    forall i :: 0 <= i < |s| ==> IsJsSpace(s[i])
  }
}
