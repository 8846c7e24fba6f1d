/** The parsed article body as the link selector sees it: a finite tree of
    text nodes, elements and other node kinds, and queued nodes that carry
    the tags of their ancestors so that an upward scan needs no back
    references. */
module Dom {

  datatype Option<T> = None | Some(value: T)

  /** A node of a parsed page. An element keeps its tag, its target already
      resolved to an absolute address ("" when it has none, as an absent
      attribute reads) and its children in document order. `Other` stands
      for the node kinds that are neither text nor element (comments, data
      nodes); they have no children. */
  datatype Node =
    | Text(text: string)
    | Element(tag: string, href: string, children: seq<Node>)
    | Other

  /** A node together with the tags of its ancestors, nearest parent first,
      up to the root of the whole document. */
  datatype Item = Item(node: Node, ancestors: seq<string>)

  /** The chain of tags an upward walk from an element meets: its own tag,
      then its parent's, and so on up to the document root. */
  function TagChain(e: Item): (chain: seq<string>)
    requires e.node.Element?
    ensures |chain| == |e.ancestors| + 1 && chain[0] == e.node.tag
  {
    [e.node.tag] + e.ancestors
  }

  /** The nodes `ns`, each queued with the same ancestor chain. */
  function Wrap(ns: seq<Node>, ancestors: seq<string>): (r: seq<Item>)
    ensures |r| == |ns|
    ensures forall i :: 0 <= i < |r| ==> r[i] == Item(ns[i], ancestors)
  {
    if ns == [] then [] else [Item(ns[0], ancestors)] + Wrap(ns[1..], ancestors)
  }

  /** The child nodes of a queued node, each knowing its new parent. */
  function ChildItems(it: Item): seq<Item>
  {
    match it.node
    case Element(tag, _, children) => Wrap(children, [tag] + it.ancestors)
    case _ => []
  }

  /** Splitting a concatenation at its first element. */
  lemma HeadTailAppend<T>(p: seq<T>, q: seq<T>)
    requires p != []
    ensures (p + q)[0] == p[0]
    ensures (p + q)[1..] == p[1..] + q
    ensures [p[0]] + p[1..] == p
  {
  }

  lemma AppendAssoc<T>(a: seq<T>, b: seq<T>, c: seq<T>)
    ensures (a + b) + c == a + (b + c)
  {
  }

  /** Number of nodes in a tree. */
  function Size(n: Node): (s: nat)
    ensures s >= 1
  {
    match n
    case Element(_, _, children) => 1 + SizeSeq(children)
    case _ => 1
  }

  function SizeSeq(ns: seq<Node>): nat
  {
    if ns == [] then 0 else Size(ns[0]) + SizeSeq(ns[1..])
  }

  /** Number of nodes in all the trees of a queue. */
  function QueueSize(q: seq<Item>): nat
  {
    if q == [] then 0 else Size(q[0].node) + QueueSize(q[1..])
  }

  lemma {:induction false} QueueSizeAppend(a: seq<Item>, b: seq<Item>)
    ensures QueueSize(a + b) == QueueSize(a) + QueueSize(b)
  {
    if a == [] {
      assert a + b == b;
    } else {
      assert (a + b)[0] == a[0];
      assert (a + b)[1..] == a[1..] + b;
      QueueSizeAppend(a[1..], b);
    }
  }

  lemma {:induction false} QueueSizeWrap(ns: seq<Node>, ancestors: seq<string>)
    ensures QueueSize(Wrap(ns, ancestors)) == SizeSeq(ns)
  {
    if ns != [] {
      QueueSizeWrap(ns[1..], ancestors);
    }
  }

  /** A node's children hold every node of its tree but the node itself. */
  lemma QueueSizeChildItems(it: Item)
    ensures QueueSize(ChildItems(it)) == Size(it.node) - 1
  {
    match it.node
    case Element(tag, _, children) => QueueSizeWrap(children, [tag] + it.ancestors);
    case _ =>
  }
}
