/** The parsed config documents: the part of `System.Xml` the merger reads. */
module Xml {

  /** A node of a parsed document: character data, or an element (by local name)
      with its child nodes in document order. */
  datatype Node = Text(value: string) | Element(name: string, children: seq<Node>)

  function Concat(parts: seq<string>): string
    decreases |parts|
  {
    if parts == [] then "" else parts[0] + Concat(parts[1..])
  }

  /** `XmlNode.InnerText`: the character data of the node and of all its descendants,
      in document order. */
  function InnerText(n: Node): string
    decreases n
  {
    match n
    case Text(v) => v
    case Element(_, cs) => Concat(seq(|cs|, i requires 0 <= i < |cs| => InnerText(cs[i])))
  }

  /** The element nodes among `nodes`, in order. */
  function Elements(nodes: seq<Node>): (r: seq<Node>)
    ensures forall e :: e in r ==> e.Element? && e in nodes
    ensures forall e :: e in nodes && e.Element? ==> e in r
    decreases |nodes|
  {
    if nodes == [] then []
    else (if nodes[0].Element? then [nodes[0]] else []) + Elements(nodes[1..])
  }

  /** Filtering keeps document order: the elements of two node lists in a row are the
      elements of the first, then those of the second. */
  lemma {:induction false} ElementsAppend(a: seq<Node>, b: seq<Node>)
    ensures Elements(a + b) == Elements(a) + Elements(b)
    decreases |a|
  {
    if a == [] {
      assert a + b == b;
    } else {
      assert (a + b)[1..] == a[1..] + b;
      ElementsAppend(a[1..], b);
    }
  }

  /** `SelectNodes("*")`: the child elements of a node. */
  function ChildElements(n: Node): seq<Node> {
    match n
    case Text(_) => []
    case Element(_, cs) => Elements(cs)
  }

  /** The value array a top-level config element contributes: the texts of its child
      elements when it has any, otherwise its own text. */
  function EntryValues(n: Node): (r: seq<string>)
    ensures |r| >= 1
    ensures var kids := ChildElements(n);
      if |kids| > 0 then |r| == |kids| && forall i :: 0 <= i < |kids| ==> r[i] == InnerText(kids[i])
      else r == [InnerText(n)]
  {
    var kids := ChildElements(n);
    if |kids| > 0 then seq(|kids|, i requires 0 <= i < |kids| => InnerText(kids[i]))
    else [InnerText(n)]
  }
}
