/**
 * The Comark abstract syntax tree.
 *
 * A node is a text string, an element `[tag, attrs, ...children]` or a comment
 * `[null, {}, payload]`. Elements and comments share one positional shape (a
 * head, an attribute map, then children from position 2 onward), and the tree
 * walker treats them alike: it walks a comment's payload as a child. The model
 * therefore keeps that shape: an `Element` whose tag is either a name or null.
 */
module AstTypes {

  /** Attribute values and frontmatter / meta entries: arbitrary, never inspected here. */
  type Value

  datatype Tag = Named(name: string) | NullTag

  datatype Node =
    | Text(text: string)
    | Element(tag: Tag, attrs: map<string, Value>, children: seq<Node>)

  /** A document: the ordered top-level nodes plus two opaque maps. */
  datatype Tree = Tree(nodes: seq<Node>, frontmatter: map<string, Value>, meta: map<string, Value>)

  predicate IsText(n: Node) {
    n.Text?
  }

  /** `[null, {}, payload]`: a null head, no attributes, exactly one text child. */
  predicate IsComment(n: Node) {
    n.Element? && n.tag.NullTag? && n.attrs == map[] && |n.children| == 1 && n.children[0].Text?
  }

  /** `[tag, attrs, ...children]` with a string tag. */
  predicate IsElement(n: Node) {
    n.Element? && n.tag.Named?
  }

  /** A null head occurs only in comments, at every depth. */
  predicate WellFormed(n: Node) {
    match n
    case Text(_) => true
    case Element(tag, _, children) =>
      (tag.NullTag? ==> IsComment(n)) && forall c | c in children :: WellFormed(c)
  }

  /** The payload of a comment. */
  function CommentText(n: Node): (s: string)
    requires IsComment(n)
    ensures n == Element(NullTag, map[], [Text(s)])
  {
    n.children[0].text
  }

  /** Builds the comment `[null, {}, s]`. */
  function Comment(s: string): (n: Node)
    ensures IsComment(n) && WellFormed(n) && CommentText(n) == s
  {
    Element(NullTag, map[], [Text(s)])
  }

  /** Every well-formed node is exactly one of text, comment or element. */
  lemma Kinds(n: Node)
    ensures WellFormed(n) ==> (IsText(n) || IsComment(n) || IsElement(n))
    ensures !(IsText(n) && IsComment(n)) && !(IsText(n) && IsElement(n)) && !(IsComment(n) && IsElement(n))
    ensures n.Element? && n.tag.NullTag? && !IsComment(n) ==> !WellFormed(n)
  {
  }
}
