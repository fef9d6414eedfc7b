/**
 * The static helper's node operations over a minimal document-object model:
 * a node carries the value of its `class` attribute, a parent link and an
 * ordered child list. The class-list operations read the attribute, rebuild
 * the token list with a loop and write it back; the tree operations edit the
 * child list of one parent in place.
 */
module DomHelper {
  import opened Wrappers
  import Seqs
  import Text
  import Classes

  class Node {
    /** The `class` attribute; `None` when the node has none. */
    var cls: Option<string>
    /** `parentNode`; `null` for a root or a detached node. */
    var parent: Node?
    /** `childNodes`, in document order. */
    var children: seq<Node>

    constructor (cls: Option<string>)
      ensures this.cls == cls && parent == null && children == []
    {
      this.cls := cls;
      parent := null;
      children := [];
    }
  }

  /** The tree links of `p` agree: its children are distinct and each of them has `p` as parent. */
  ghost predicate Linked(p: Node)
    reads p, p.children
  {
    Seqs.NoDup(p.children) && forall c :: c in p.children ==> c.parent == p
  }

  /** The parent of `x`, or `other` for a node without one (names a frame). */
  ghost function ParentOr(x: Node, other: Node): Node
    reads x
  {
    if x.parent != null then x.parent else other
  }

  /** `classList($node)`: the node's class tokens, `[]` exactly when it has no `class` attribute. */
  function ClassList(node: Node): (r: seq<string>)
    reads node
    ensures r == [] <==> node.cls == None
    ensures node.cls.Some? ==> Text.WellSplit(r)
  {
    Classes.Tokens(node.cls)
  }

  /** `classListAdd($node, ...$classes)`. */
  method ClassListAdd(node: Node, classes: seq<string>)
    modifies node`cls
    ensures node.cls == Classes.Added(old(node.cls), classes)
  {
    var list := ClassList(node);
    ghost var start := list;
    for i := 0 to |classes|
      invariant list == Classes.AddAll(start, classes[..i])
    {
      var c := Classes.Normalize(classes[i]);
      assert classes[..i + 1][..i] == classes[..i];
      if c in list {
        continue;
      }
      list := list + [c];
    }
    assert classes[..|classes|] == classes;
    node.cls := Some(Text.Join(list));
  }

  /** `classListRemove($node, ...$classes)`. */
  method ClassListRemove(node: Node, classes: seq<string>)
    modifies node`cls
    ensures node.cls == Classes.Removed(old(node.cls), classes)
  {
    var list := ClassList(node);
    if list == [] {
      return;
    }
    ghost var start := list;
    for i := 0 to |classes|
      invariant list == Classes.RemoveAll(start, classes[..i])
    {
      var c := Classes.Normalize(classes[i]);
      assert classes[..i + 1][..i] == classes[..i];
      Seqs.RemoveFirstAt(list, c);
      if c in list {
        var k := Seqs.IndexOf(list, c);
        list := list[..k] + list[k + 1..];
      }
    }
    assert classes[..|classes|] == classes;
    node.cls := Some(Text.Join(list));
  }

  /** `removeNode($node)`: `$node->parentNode->removeChild($node)`. */
  method RemoveNode(node: Node)
    requires node.parent != null && node in node.parent.children
    modifies node`parent, node.parent`children
    ensures node.parent == null
    ensures old(node.parent).children == Seqs.RemoveFirst(old(node.parent.children), node)
    ensures old(Linked(node.parent)) ==> Linked(old(node.parent)) && node !in old(node.parent).children
  {
    var p := node.parent;
    ghost var before := p.children;
    ghost var wasLinked := Linked(p);
    Seqs.RemoveFirstAt(p.children, node);
    var k := Seqs.IndexOf(p.children, node);
    p.children := p.children[..k] + p.children[k + 1..];
    node.parent := null;
    if wasLinked {
      Seqs.RemoveFirstNoDup(before, node);
      forall c | c in p.children ensures c.parent == p {
        Seqs.RemoveFirstKeeps(before, node, c);
      }
    }
  }

  /**
   * Putting a node `x` that no child of `p` is next to `y` keeps `p` linked,
   * the partner of the tree edits below.
   */
  lemma {:induction false} InsertedLinked(p: Node, rest: seq<Node>, y: Node, x: Node, after: bool)
    requires y in rest && x !in rest && Seqs.NoDup(rest)
    requires forall c :: c in rest ==> c.parent == p
    requires p.children == if after then Seqs.InsertAfter(rest, y, x) else Seqs.InsertBefore(rest, y, x)
    requires x.parent == p
    ensures Linked(p)
  {
    Seqs.InsertNoDup(rest, y, x);
    forall c | c in p.children ensures c.parent == p {
      if c != x {
        Seqs.InsertKeeps(rest, y, x, c);
      }
    }
  }

  /** `before($x, $y)`: `$y->parentNode->insertBefore($x, $y)`. */
  method Before(x: Node, y: Node)
    requires y.parent != null && y in y.parent.children
    requires x != y && x != y.parent
    requires x.parent != null ==> x in x.parent.children
    modifies x`parent, ParentOr(x, y.parent)`children, y.parent`children
    ensures x.parent == old(y.parent) && y.parent == old(y.parent)
    ensures old(x.parent) == old(y.parent) ==>
      y.parent.children == Seqs.InsertBefore(Seqs.RemoveFirst(old(y.parent.children), x), y, x)
    ensures old(x.parent) != old(y.parent) ==>
      y.parent.children == Seqs.InsertBefore(old(y.parent.children), y, x)
    ensures old(x.parent) != null && old(x.parent) != old(y.parent) ==>
      old(x.parent).children == Seqs.RemoveFirst(old(x.parent.children), x)
    ensures old(Linked(y.parent)) && (old(x.parent) != null ==> old(Linked(x.parent))) ==>
      Linked(y.parent) && (old(x.parent) != null ==> Linked(old(x.parent)))
  {
    var p := y.parent;
    ghost var q := x.parent;
    ghost var wasLinked := Linked(p) && (q != null ==> Linked(q));
    ghost var siblings := p.children;
    if x.parent != null {
      RemoveNode(x);
    }
    var rest := p.children;
    assert y in rest by {
      if q == p {
        Seqs.RemoveFirstKeeps(siblings, x, y);
      }
    }
    assert wasLinked ==> Linked(p) && x !in rest;
    p.children := Seqs.InsertBefore(rest, y, x);
    x.parent := p;
    if wasLinked {
      InsertedLinked(p, rest, y, x, false);
    }
  }

  /** `after($x, $y)`: `$y->parentNode->insertBefore($x, $y->nextSibling)`. */
  method After(x: Node, y: Node)
    requires y.parent != null && y in y.parent.children
    requires x != y && x != y.parent
    requires x.parent != null ==> x in x.parent.children
    modifies x`parent, ParentOr(x, y.parent)`children, y.parent`children
    ensures x.parent == old(y.parent) && y.parent == old(y.parent)
    ensures old(x.parent) == old(y.parent) ==>
      y.parent.children == Seqs.InsertAfter(Seqs.RemoveFirst(old(y.parent.children), x), y, x)
    ensures old(x.parent) != old(y.parent) ==>
      y.parent.children == Seqs.InsertAfter(old(y.parent.children), y, x)
    ensures old(x.parent) != null && old(x.parent) != old(y.parent) ==>
      old(x.parent).children == Seqs.RemoveFirst(old(x.parent.children), x)
    ensures old(Linked(y.parent)) && (old(x.parent) != null ==> old(Linked(x.parent))) ==>
      Linked(y.parent) && (old(x.parent) != null ==> Linked(old(x.parent)))
  {
    var p := y.parent;
    ghost var q := x.parent;
    ghost var wasLinked := Linked(p) && (q != null ==> Linked(q));
    ghost var siblings := p.children;
    if x.parent != null {
      RemoveNode(x);
    }
    var rest := p.children;
    assert y in rest by {
      if q == p {
        Seqs.RemoveFirstKeeps(siblings, x, y);
      }
    }
    assert wasLinked ==> Linked(p) && x !in rest;
    // insertBefore($x, $y->nextSibling); InsertAfterIsBeforeNext relates the two
    p.children := Seqs.InsertAfter(rest, y, x);
    x.parent := p;
    if wasLinked {
      InsertedLinked(p, rest, y, x, true);
    }
  }
}
