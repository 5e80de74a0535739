/** Inode numbers: the builder numbers the file tree in preorder, the root as 2 and everything else from 11 on. */
module Ext4Tree {
  import opened Core

  const ROOT := 2
  const FIRST_FREE := 11

  /** A file-system node with its children; `content` stands for file data or a link target. */
  datatype Node = Node(
    nid: nat, parent: nat, name: bytes, mode: nat, uid: nat, gid: nat, content: bytes, children: seq<Node>)
  {
    predicate IsDir() {
      mode / 0x1000 == 4
    }
  }

  // ---- Counting and listing --------------------------------------------------------------------------------

  function CountNodes(n: Node): (c: nat)
    ensures c >= 1
    decreases n
  {
    1 + CountAll(n.children)
  }

  function CountAll(nodes: seq<Node>): nat
    decreases nodes
  {
    if nodes == [] then 0 else CountNodes(nodes[0]) + CountAll(nodes[1..])
  }

  /** `collect`: the node, then its children's lists in order. */
  function Collect(n: Node): (r: seq<Node>)
    ensures |r| == CountNodes(n) && r[0] == n
    decreases n
  {
    [n] + CollectAll(n.children)
  }

  function CollectAll(nodes: seq<Node>): (r: seq<Node>)
    ensures |r| == CountAll(nodes)
    decreases nodes
  {
    if nodes == [] then [] else Collect(nodes[0]) + CollectAll(nodes[1..])
  }

  method CountOf(n: Node) returns (c: nat)
    ensures c == CountNodes(n)
    decreases n
  {
    c := 1;
    for i := 0 to |n.children|
      invariant c + CountAll(n.children[i..]) == CountNodes(n)
    {
      var below := CountOf(n.children[i]);
      assert n.children[i..][1..] == n.children[i + 1..];
      c := c + below;
    }
  }

  // ---- Numbering -------------------------------------------------------------------------------------------

  /** The tree numbered from `nid` on; a `parent` of 0 marks the root, which is its own parent. */
  function Assigned(n: Node, nid: nat, parent: nat): Node
    decreases n
  {
    n.(nid := nid, parent := if parent == 0 then nid else parent,
       children := AssignedAll(n.children, if parent == 0 then FIRST_FREE else nid + 1, nid))
  }

  function AssignedAll(nodes: seq<Node>, next: nat, parent: nat): (r: seq<Node>)
    ensures |r| == |nodes|
    decreases nodes
  {
    if nodes == [] then []
    else [Assigned(nodes[0], next, parent)] + AssignedAll(nodes[1..], next + CountNodes(nodes[0]), parent)
  }

  /** `assign`. */
  method Assign(n: Node, nid: nat, parent: nat) returns (r: Node)
    ensures r == Assigned(n, nid, parent)
    decreases n
  {
    var next: nat := if parent == 0 then FIRST_FREE else nid + 1;
    ghost var first := next;
    var children: seq<Node> := [];
    for i := 0 to |n.children|
      invariant children + AssignedAll(n.children[i..], next, nid) == AssignedAll(n.children, first, nid)
    {
      var child := Assign(n.children[i], next, nid);
      var below := CountOf(n.children[i]);
      assert n.children[i..][1..] == n.children[i + 1..];
      children, next := children + [child], next + below;
    }
    assert n.children[|n.children|..] == [];
    r := n.(nid := nid, parent := if parent == 0 then nid else parent, children := children);
  }

  lemma {:induction false} AssignedCounts(n: Node, nid: nat, parent: nat)
    ensures CountNodes(Assigned(n, nid, parent)) == CountNodes(n)
    decreases n
  {
    AssignedCountsAll(n.children, if parent == 0 then FIRST_FREE else nid + 1, nid);
  }

  lemma {:induction false} AssignedCountsAll(nodes: seq<Node>, next: nat, parent: nat)
    ensures CountAll(AssignedAll(nodes, next, parent)) == CountAll(nodes)
    decreases nodes
  {
    if nodes != [] {
      AssignedCounts(nodes[0], next, parent);
      AssignedCountsAll(nodes[1..], next + CountNodes(nodes[0]), parent);
    }
  }

  /** Below the root a subtree takes consecutive numbers in preorder. */
  lemma {:induction false} SubtreeNumbers(n: Node, nid: nat, parent: nat)
    requires parent > 0 && nid > 0
    ensures |Collect(Assigned(n, nid, parent))| == CountNodes(n)
    ensures forall i :: 0 <= i < CountNodes(n) ==> Collect(Assigned(n, nid, parent))[i].nid == nid + i
    decreases n
  {
    AssignedCounts(n, nid, parent);
    ChildrenNumbers(n.children, nid + 1, nid);
    var r := Assigned(n, nid, parent);
    forall i | 0 <= i < CountNodes(n)
      ensures Collect(r)[i].nid == nid + i
    {
      if i > 0 {
        assert Collect(r)[i] == CollectAll(r.children)[i - 1];
      }
    }
  }

  lemma {:induction false} ChildrenNumbers(nodes: seq<Node>, next: nat, parent: nat)
    requires parent > 0 && next > 0
    ensures |CollectAll(AssignedAll(nodes, next, parent))| == CountAll(nodes)
    ensures forall i :: 0 <= i < CountAll(nodes) ==> CollectAll(AssignedAll(nodes, next, parent))[i].nid == next + i
    decreases nodes
  {
    AssignedCountsAll(nodes, next, parent);
    if nodes != [] {
      var k := CountNodes(nodes[0]);
      SubtreeNumbers(nodes[0], next, parent);
      ChildrenNumbers(nodes[1..], next + k, parent);
      var r := AssignedAll(nodes, next, parent);
      var first, rest := Collect(r[0]), CollectAll(r[1..]);
      assert r[1..] == AssignedAll(nodes[1..], next + k, parent);
      assert CollectAll(r) == first + rest;
      forall i | 0 <= i < CountAll(nodes)
        ensures CollectAll(r)[i].nid == next + i
      {
        if i >= k {
          assert CollectAll(r)[i] == rest[i - k];
        }
      }
    }
  }

  /** The number of the `i`-th node in preorder. */
  function NidOf(i: nat): nat {
    if i == 0 then ROOT else FIRST_FREE - 1 + i
  }

  /** Some node has the number. */
  predicate Taken(all: seq<Node>, nid: nat) {
    exists i :: 0 <= i < |all| && all[i].nid == nid
  }

  /** Numbering is one-to-one from the nodes onto 2 and 11..N+9. */
  lemma {:induction false} NumbersExact(root: Node)
    ensures var all := Collect(Assigned(root, ROOT, 0));
            && |all| == CountNodes(root)
            && (forall i :: 0 <= i < |all| ==> all[i].nid == NidOf(i))
            && (forall i, j :: 0 <= i < j < |all| ==> all[i].nid != all[j].nid)
            && (forall v: nat :: Taken(all, v) <==> v == 2 || 11 <= v <= |all| + 9)
  {
    AssignedCounts(root, ROOT, 0);
    ChildrenNumbers(root.children, FIRST_FREE, ROOT);
    var r := Assigned(root, ROOT, 0);
    var all := Collect(r);
    forall i | 0 <= i < |all|
      ensures all[i].nid == NidOf(i)
    {
      if i > 0 {
        assert all[i] == CollectAll(r.children)[i - 1];
      }
    }
    forall v: nat
      ensures Taken(all, v) <==> v == 2 || 11 <= v <= |all| + 9
    {
      if v == 2 {
        assert all[0].nid == v;
      } else if 11 <= v <= |all| + 9 {
        assert all[v - 10].nid == v;
      }
    }
  }

  // ---- Parents and content ---------------------------------------------------------------------------------

  /** Every child points to its parent, all the way down. */
  predicate ParentsRight(n: Node)
    decreases n
  {
    ParentsRightAll(n.children, n.nid)
  }

  predicate ParentsRightAll(nodes: seq<Node>, parent: nat)
    decreases nodes
  {
    nodes == [] || (nodes[0].parent == parent && ParentsRight(nodes[0]) && ParentsRightAll(nodes[1..], parent))
  }

  lemma {:induction false} AssignedParents(n: Node, nid: nat, parent: nat)
    requires nid > 0
    ensures ParentsRight(Assigned(n, nid, parent))
    decreases n
  {
    AssignedParentsAll(n.children, if parent == 0 then FIRST_FREE else nid + 1, nid);
  }

  lemma {:induction false} AssignedParentsAll(nodes: seq<Node>, next: nat, parent: nat)
    requires parent > 0 && next > 0
    ensures ParentsRightAll(AssignedAll(nodes, next, parent), parent)
    decreases nodes
  {
    if nodes != [] {
      AssignedParents(nodes[0], next, parent);
      AssignedParentsAll(nodes[1..], next + CountNodes(nodes[0]), parent);
      assert AssignedAll(nodes, next, parent)[1..] == AssignedAll(nodes[1..], next + CountNodes(nodes[0]), parent);
    }
  }

  /** The tree without its numbers. */
  function Unnumbered(n: Node): Node
    decreases n
  {
    n.(nid := 0, parent := 0, children := UnnumberedAll(n.children))
  }

  function UnnumberedAll(nodes: seq<Node>): (r: seq<Node>)
    decreases nodes
  {
    if nodes == [] then [] else [Unnumbered(nodes[0])] + UnnumberedAll(nodes[1..])
  }

  /** Numbering changes nothing but numbers. */
  lemma {:induction false} AssignedKeepsTree(n: Node, nid: nat, parent: nat)
    ensures Unnumbered(Assigned(n, nid, parent)) == Unnumbered(n)
    decreases n
  {
    AssignedKeepsAll(n.children, if parent == 0 then FIRST_FREE else nid + 1, nid);
  }

  lemma {:induction false} AssignedKeepsAll(nodes: seq<Node>, next: nat, parent: nat)
    ensures UnnumberedAll(AssignedAll(nodes, next, parent)) == UnnumberedAll(nodes)
    decreases nodes
  {
    if nodes != [] {
      AssignedKeepsTree(nodes[0], next, parent);
      AssignedKeepsAll(nodes[1..], next + CountNodes(nodes[0]), parent);
      assert AssignedAll(nodes, next, parent)[1..] == AssignedAll(nodes[1..], next + CountNodes(nodes[0]), parent);
    }
  }
}
