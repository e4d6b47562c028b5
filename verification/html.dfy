/** The parsed document the scraper works on, abstracted from the HTML parser's tree:
    elements with a tag name, an attribute map and children, and text (which also
    stands for comments, doctypes and the other strings the parser keeps). */
module Html {

  datatype Node =
    | Element(name: string, attrs: map<string, string>, children: seq<Node>)
    | Text(text: string)

  /** One step of a document-order walk: what a serialiser writes for the opening tag,
      the closing tag and the text of the tree. */
  datatype Token =
    | Open(name: string, attrs: map<string, string>)
    | Close(name: string)
    | Chars(text: string)

  /** The document-order token stream of a forest. Opening and closing tokens bracket
      each element's children, so the stream determines the forest. */
  function Tokens(nodes: seq<Node>): seq<Token>
    decreases nodes
  {
    if nodes == [] then []
    else match nodes[0]
      case Element(n, a, ch) => [Open(n, a)] + Tokens(ch) + [Close(n)] + Tokens(nodes[1..])
      case Text(t) => [Chars(t)] + Tokens(nodes[1..])
  }

  /** The tag names of all elements of a forest, at any depth. */
  function ElementNames(nodes: seq<Node>): set<string>
    decreases nodes
  {
    if nodes == [] then {}
    else match nodes[0]
      case Element(n, _, ch) => {n} + ElementNames(ch) + ElementNames(nodes[1..])
      case Text(_) => ElementNames(nodes[1..])
  }

  /** Tokens of a forest whose first tree is `x`. */
  lemma TokensCons(x: Node, rest: seq<Node>)
    ensures x.Element? ==>
      Tokens([x] + rest) == [Open(x.name, x.attrs)] + Tokens(x.children) + [Close(x.name)] + Tokens(rest)
    ensures x.Text? ==> Tokens([x] + rest) == [Chars(x.text)] + Tokens(rest)
  {
    assert ([x] + rest)[0] == x;
    assert ([x] + rest)[1..] == rest;
  }

  /** Element names of a forest whose first tree is `x`. */
  lemma ElementNamesCons(x: Node, rest: seq<Node>)
    ensures x.Element? ==>
      ElementNames([x] + rest) == {x.name} + ElementNames(x.children) + ElementNames(rest)
    ensures x.Text? ==> ElementNames([x] + rest) == ElementNames(rest)
  {
    assert ([x] + rest)[0] == x;
    assert ([x] + rest)[1..] == rest;
  }
}
