/**
 * The XML document model of `System.Xml`: a tree of nodes addressed by child-index paths,
 * and the in-place edits `AppendChild` and `RemoveAll` of an `XmlDocument`.
 */
module Xml {
  import opened Wrappers
  import opened Dictionaries

  /** An element, or any other node (text, comment, CDATA), which has no children. */
  datatype XmlNode =
    | Element(name: string, attributes: Dictionary<string, string>, children: seq<XmlNode>)
    | Text(value: string)

  /** A node reference: the child indices leading to it from the document element. */
  type NodePath = seq<nat>

  /** The node at a path, if the path leads to one. */
  function At(t: XmlNode, p: NodePath): Option<XmlNode>
    decreases |p|
  {
    if p == [] then Some(t)
    else if t.Element? && p[0] < |t.children| then At(t.children[p[0]], p[1..])
    else None
  }

  /** The tree with the node at `p` replaced by `n`; unchanged if `p` leads nowhere. */
  function ReplaceAt(t: XmlNode, p: NodePath, n: XmlNode): XmlNode
    decreases |p|
  {
    if p == [] then n
    else if t.Element? && p[0] < |t.children| then
      t.(children := t.children[p[0] := ReplaceAt(t.children[p[0]], p[1..], n)])
    else t
  }

  /** Name, attributes and number of children: what an ancestor of an edited node keeps. */
  predicate SameShape(a: XmlNode, b: XmlNode) {
    match a
    case Element(name, attributes, children) =>
      b.Element? && b.name == name && b.attributes == attributes && |b.children| == |children|
    case Text(_) => a == b
  }

  /** After a replacement the path leads to the new node. */
  lemma {:induction false} AtReplaced(t: XmlNode, p: NodePath, n: XmlNode)
    requires At(t, p).Some?
    ensures At(ReplaceAt(t, p, n), p) == Some(n)
  {
    if p != [] {
      AtReplaced(t.children[p[0]], p[1..], n);
    }
  }

  /** A replacement leaves every node that is neither above nor below it untouched. */
  lemma {:induction false} AtBeside(t: XmlNode, p: NodePath, n: XmlNode, q: NodePath)
    requires !(p <= q) && !(q <= p)
    ensures At(ReplaceAt(t, p, n), q) == At(t, q)
  {
    if t.Element? && p[0] < |t.children| && q[0] < |t.children| {
      if p[0] == q[0] {
        AtBeside(t.children[p[0]], p[1..], n, q[1..]);
      }
    }
  }

  /** A replacement keeps the shape of every ancestor of the replaced node. */
  lemma {:induction false} AtAbove(t: XmlNode, p: NodePath, n: XmlNode, q: NodePath)
    requires At(t, p).Some?
    requires q < p
    ensures At(t, q).Some? && At(ReplaceAt(t, p, n), q).Some?
    ensures SameShape(At(t, q).value, At(ReplaceAt(t, p, n), q).value)
  {
    if q != [] {
      AtAbove(t.children[p[0]], p[1..], n, q[1..]);
    }
  }

  /** Below the replaced node the new tree is the new node. */
  lemma {:induction false} AtBelow(t: XmlNode, p: NodePath, n: XmlNode, r: NodePath)
    requires At(t, p).Some?
    ensures At(ReplaceAt(t, p, n), p + r) == At(n, r)
  {
    if p != [] {
      assert (p + r)[0] == p[0] && (p + r)[1..] == p[1..] + r;
      AtBelow(t.children[p[0]], p[1..], n, r);
    } else {
      assert p + r == r;
    }
  }

  /** Replacing a node by itself changes nothing. */
  lemma {:induction false} ReplaceBySelf(t: XmlNode, p: NodePath)
    requires At(t, p).Some?
    ensures ReplaceAt(t, p, At(t, p).value) == t
  {
    if p != [] {
      ReplaceBySelf(t.children[p[0]], p[1..]);
    }
  }

  /** Only the last of two replacements at the same node counts. */
  lemma {:induction false} ReplaceTwice(t: XmlNode, p: NodePath, n1: XmlNode, n2: XmlNode)
    requires At(t, p).Some?
    ensures ReplaceAt(ReplaceAt(t, p, n1), p, n2) == ReplaceAt(t, p, n2)
  {
    if p != [] {
      ReplaceTwice(t.children[p[0]], p[1..], n1, n2);
    }
  }

  /** An edit below a replaced node is an edit of the replacement. */
  lemma {:induction false} ReplaceNested(t: XmlNode, p: NodePath, x: XmlNode, q: NodePath, y: XmlNode)
    requires At(t, p).Some?
    ensures ReplaceAt(ReplaceAt(t, p, x), p + q, y) == ReplaceAt(t, p, ReplaceAt(x, q, y))
  {
    if p != [] {
      assert (p + q)[0] == p[0] && (p + q)[1..] == p[1..] + q;
      ReplaceNested(t.children[p[0]], p[1..], x, q, y);
    } else {
      assert p + q == q;
    }
  }

  /** The element with one more last child. */
  function Appended(e: XmlNode, child: XmlNode): XmlNode {
    if e.Element? then e.(children := e.children + [child]) else e
  }

  /** `XmlNode.RemoveAll`: an element loses all its attributes and children and keeps its name. */
  function Cleared(e: XmlNode): XmlNode {
    if e.Element? then Element(e.name, [], []) else e
  }

  /** A loaded document: its document element is edited in place. */
  class XmlDocument {
    var root: XmlNode

    constructor Load(root: XmlNode)
      ensures this.root == root
    {
      this.root := root;
    }

    /** `node.AppendChild(child)` for the element at `p`. */
    method AppendChild(p: NodePath, child: XmlNode)
      requires At(root, p).Some? && At(root, p).value.Element?
      modifies this
      ensures root == ReplaceAt(old(root), p, Appended(At(old(root), p).value, child))
    {
      root := ReplaceAt(root, p, Appended(At(root, p).value, child));
    }

    /** `node.RemoveAll()` for the node at `p`. */
    method RemoveAll(p: NodePath)
      requires At(root, p).Some?
      modifies this
      ensures root == ReplaceAt(old(root), p, Cleared(At(old(root), p).value))
    {
      root := ReplaceAt(root, p, Cleared(At(root, p).value));
    }
  }
}
