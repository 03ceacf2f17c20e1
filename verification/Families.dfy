/** The tree threaded through parent, firstChild and nextSibling, next to the hash chains. */
module Families {
  import opened Words
  import opened Keys
  import opened Chains
  import opened TreeSpec

  /** first and the sibling links spell out kids. */
  ghost predicate Siblings(first: Node?, kids: Chain)
    reads kids`nextSibling
  {
    && first == At(kids, 0)
    && forall j {:trigger kids[j].nextSibling} | 0 <= j < |kids| :: kids[j].nextSibling == At(kids, j + 1)
  }

  /** The children of n, as its links give them, are nodes whose parent is n. */
  ghost predicate Fosters(nodes: set<Node>, loose: set<Node>, n: Node)
    reads n`firstChild, n`children, n.children`nextSibling, n.children`parent
  {
    && Siblings(n.firstChild, n.children) && Distinct(n.children)
    && forall j {:trigger n.children[j]} | 0 <= j < |n.children| ::
         n.children[j] in nodes && n.children[j] !in loose && n.children[j].parent == n
  }

  /** n is a root exactly when its path has no ancestor, and hangs under its nearest ancestor otherwise. */
  ghost predicate Hangs(nodes: set<Node>, n: Node)
    reads n`parent, nodes`children
  {
    && (n.parent == null <==> AncestorLen(n.id) == 0)
    && (n.parent != null ==> n.parent in nodes && n in n.parent.children && n.parent.id == n.id[..AncestorLen(n.id)])
  }

  /** The tree over nodes. The loose nodes are those whose parent is being deleted. */
  ghost predicate Family(nodes: set<Node>, loose: set<Node>)
    reads nodes`parent, nodes`firstChild, nodes`nextSibling, nodes`children
  {
    && (forall n | n in nodes :: n.id != [] && (forall j | 0 <= j < |n.children| :: n.children[j] in nodes))
    && (forall n | n in nodes :: Fosters(nodes, loose, n))
    && (forall n | n in nodes && n !in loose :: Hangs(nodes, n))
  }

  /** Identities tell the nodes apart. */
  ghost predicate Unique(nodes: set<Node>) {
    forall m, n | m in nodes && n in nodes && m.id == n.id :: m == n
  }

  /** Whatever lies strictly below node lies at or below one of its children. */
  lemma {:induction false} BelowAChild(nodes: set<Node>, loose: set<Node>, node: Node, m: Node) returns (i: nat)
    requires Family(nodes, loose) && Unique(nodes)
    requires node in nodes && m in nodes && Ancestor(node.id, m.id)
    requires forall x | x in loose && x != node :: !Under(x.id, node.id)
    ensures i < |node.children| && Under(m.id, node.children[i].id)
    decreases |m.id|
  {
    AncestorStep(node.id, m.id);
    assert m !in loose && Hangs(nodes, m);
    var a := m.parent;
    if a == node {
      i :| 0 <= i < |node.children| && node.children[i] == m;
    } else {
      assert a.id != node.id;
      i := BelowAChild(nodes, loose, node, a);
      assert Ancestor(a.id, m.id);
      if a.id != node.children[i].id {
        AncestorTransitive(node.children[i].id, a.id, m.id);
      }
    }
  }

  lemma SiblingsAfterRemove(first: Node?, c: Chain, j: nat)
    requires j < |c| && Distinct(c)
    requires j > 0 ==> c[j - 1].nextSibling == At(c, j + 1)
    requires forall i {:trigger c[i].nextSibling} | 0 <= i < |c| && i + 1 != j :: c[i].nextSibling == At(c, i + 1)
    requires first == if j == 0 then At(c, 1) else c[0]
    ensures Siblings(first, RemoveAt(c, j)) && Distinct(RemoveAt(c, j))
  {
  }

  /** The fix-up of the parent in DeleteNodeInternal: takes node out of its parent's child list. */
  method Detach(node: Node, ghost nodes: set<Node>, ghost loose: set<Node>) returns (ghost j: nat)
    requires Family(nodes, loose) && node in nodes && node !in loose && node.parent != null
    modifies node.parent`firstChild, node.parent`children, node.parent.children`nextSibling
    ensures j < |old(node.parent.children)| && old(node.parent.children)[j] == node
    ensures node.parent.children == RemoveAt(old(node.parent.children), j)
    ensures Siblings(node.parent.firstChild, node.parent.children) && Distinct(node.parent.children)
  {
    var parent := node.parent;
    assert Hangs(nodes, node) && Fosters(nodes, loose, parent);
    ghost var kids := parent.children;
    j := 0;
    var prev: Node? := null;
    var child := parent.firstChild;
    while child != node
      invariant j <= |kids| && prev == Before(kids, j) && child == At(kids, j) && node in kids[j..]
      decreases |kids| - j
    {
      prev, child, j := child, child.nextSibling, j + 1;
    }
    if prev == null {
      parent.firstChild := node.nextSibling;
    } else {
      prev.nextSibling := node.nextSibling;
    }
    parent.children := RemoveAt(kids, j);
    SiblingsAfterRemove(parent.firstChild, kids, j);
  }

  /** DeleteNodeInternal up to its recursion: node leaves the tree and its children are loose. */
  method Uproot(node: Node, ghost nodes: set<Node>, ghost loose: set<Node>)
    requires Family(nodes, loose) && Unique(nodes)
    requires node in nodes && (node.parent != null ==> node !in loose)
    modifies nodes`firstChild, nodes`children, nodes`nextSibling
    ensures Family(nodes - {node}, loose - {node} + Members(node.children))
    ensures node.firstChild == old(node.firstChild) && node.children == old(node.children)
    ensures Siblings(node.firstChild, node.children)
    ensures node.parent == null ==>
              forall m | m in nodes ::
                m.nextSibling == old(m.nextSibling) && m.children == old(m.children)
                && m.firstChild == old(m.firstChild)
  {
    hide Siblings;
    assert Fosters(nodes, loose, node);
    ghost var nodes', loose' := nodes - {node}, loose - {node} + Members(node.children);
    if node.parent != null {
      assert Hangs(nodes, node) && node != node.parent;
      assert Fosters(nodes, loose, node.parent);
      ghost var j := Detach(node, nodes, loose);
    }
    forall n | n in nodes' ensures Fosters(nodes', loose', n) {
      assert old(Fosters(nodes, loose, n));
    }
    forall n | n in nodes' && n !in loose' ensures Hangs(nodes', n) {
      assert old(Hangs(nodes, n));
    }
  }

  ghost function Members(c: Chain): set<Node> {
    set n | n in c
  }

  /** A node that nothing refers to yet joins the nodes as a loose one. */
  lemma FamilyGrows(nodes: set<Node>, n: Node)
    requires Family(nodes, {}) && n !in nodes && n.id != []
    requires n.firstChild == null && n.children == []
    ensures Family(nodes + {n}, {n})
  {
  }

  /** The links that AddNodeInternal sets last. */
  method PushChild(parent: Node, node: Node, ghost nodes: set<Node>)
    requires Fosters(nodes, {node}, parent) && parent != node
    modifies node`nextSibling, parent`firstChild, parent`children
    ensures parent.children == [node] + old(parent.children)
    ensures Siblings(parent.firstChild, parent.children) && Distinct(parent.children)
  {
    node.nextSibling := parent.firstChild;
    parent.firstChild := node;
    parent.children := [node] + parent.children;
    ghost var kids := parent.children;
    assert forall j | 0 < j < |kids| :: kids[j] == old(parent.children)[j - 1] && kids[j] != node;
  }

  /** The last step of AddNodeInternal: the new node becomes its parent's first child. The retry loop
      runs once because nobody else inserts. */
  method Adopt(node: Node, ghost nodes: set<Node>)
    requires Family(nodes, {node}) && node in nodes && node.children == []
    requires node.parent == null <==> AncestorLen(node.id) == 0
    requires node.parent != null ==> node.parent in nodes && node.parent.id == node.id[..AncestorLen(node.id)]
    modifies node`nextSibling, ParentOf(node)`firstChild, ParentOf(node)`children
    ensures Family(nodes, {})
  {
    hide Siblings;
    var parent := node.parent;
    if parent != null {
      assert Fosters(nodes, {node}, parent);
      assert node != parent;
      PushChild(parent, node, nodes);
    }
    forall n | n in nodes ensures Fosters(nodes, {}, n) {
      assert old(Fosters(nodes, {node}, n));
    }
    forall n | n in nodes ensures Hangs(nodes, n) {
      assert n != node ==> old(Hangs(nodes, n));
      assert parent != null ==> parent.children[0] == node;
    }
  }

  ghost function ParentOf(node: Node): set<Node>
    reads node`parent
  {
    if node.parent == null then {} else {node.parent}
  }

  ghost function IdsOf(c: Chain): (ids: seq<Key>)
    ensures |ids| == |c| && forall i | 0 <= i < |c| :: ids[i] == c[i].id
  {
    seq(|c|, i requires 0 <= i < |c| => c[i].id)
  }

  /** The children of a node under deletion: their subtrees are apart from each other and from the other loose nodes. */
  ghost predicate Brood(kids: Chain, rest: set<Node>) {
    && Distinct(kids)
    && (forall i | 0 <= i < |kids| :: kids[i] !in rest)
    && (forall i, j | 0 <= i < |kids| && 0 <= j < |kids| && i != j :: !Under(kids[j].id, kids[i].id))
    && (forall m, i | m in rest && 0 <= i < |kids| :: !Under(m.id, kids[i].id))
  }

  /** What the tree says about the children of a node. */
  lemma ChildFacts(nodes: set<Node>, loose: set<Node>, node: Node)
    requires Family(nodes, loose) && Unique(nodes) && node in nodes
    requires forall m | m in loose && m != node :: !Under(m.id, node.id)
    ensures Siblings(node.firstChild, node.children)
    ensures Brood(node.children, loose - {node})
    ensures forall i | 0 <= i < |node.children| :: Ancestor(node.id, node.children[i].id)
    ensures forall m | m in nodes && Ancestor(node.id, m.id) ::
              exists i | 0 <= i < |node.children| :: Under(m.id, node.children[i].id)
  {
    var kids := node.children;
    assert Fosters(nodes, loose, node);
    forall i | 0 <= i < |kids|
      ensures Ancestor(node.id, kids[i].id) && AncestorLen(kids[i].id) == |node.id| && kids[i].id != []
    {
      assert Hangs(nodes, kids[i]);
    }
    forall i, j | 0 <= i < |kids| && 0 <= j < |kids| && i != j ensures !Under(kids[j].id, kids[i].id) {
      assert kids[i] in nodes && kids[j] in nodes && kids[i] != kids[j];
      SiblingsApart(kids[j].id, kids[i].id);
    }
    forall m, i | m in loose - {node} && 0 <= i < |kids| ensures !Under(m.id, kids[i].id) {
      if Ancestor(kids[i].id, m.id) {
        AncestorTransitive(node.id, kids[i].id, m.id);
      }
    }
    forall m | m in nodes && Ancestor(node.id, m.id)
      ensures exists i | 0 <= i < |kids| :: Under(m.id, kids[i].id)
    {
      var i := BelowAChild(nodes, loose, node, m);
    }
  }
}
