// kernel/lib/bst.h on the region tree of kernel/mm/mmap.c: linked nodes with parent pointers, insertion of a
// whole subtree, deletion by re-inserting the two orphaned subtrees.
module RegionTree {

  // struct mmap_region
  class Region {
    const base: nat
    const limit: nat
    const prot: bv64
    var left: Region?
    var right: Region?
    var parent: Region?

    constructor (base: nat, limit: nat, prot: bv64)
      ensures this.base == base && this.limit == limit && this.prot == prot
      ensures left == null && right == null && parent == null
    {
      this.base, this.limit, this.prot := base, limit, prot;
      left, right, parent := null, null, null;
    }
  }

  // The shape of a tree of nodes.
  datatype Tree = Leaf | Node(root: Region, l: Tree, r: Tree)

  function Nodes(t: Tree): set<Region> {
    match t
    case Leaf => {}
    case Node(x, l, r) => {x} + Nodes(l) + Nodes(r)
  }

  function Inorder(t: Tree): seq<Region> {
    match t
    case Leaf => []
    case Node(x, l, r) => Inorder(l) + [x] + Inorder(r)
  }

  // No node occurs twice.
  ghost predicate Proper(t: Tree) {
    match t
    case Leaf => true
    case Node(x, l, r) => x !in Nodes(l) && x !in Nodes(r) && Nodes(l) !! Nodes(r) && Proper(l) && Proper(r)
  }

  // Smaller bases to the left, equal or larger ones to the right.
  ghost predicate Search(t: Tree) {
    match t
    case Leaf => true
    case Node(x, l, r) =>
      && (forall y | y in Nodes(l) :: y.base < x.base)
      && (forall y | y in Nodes(r) :: x.base <= y.base)
      && Search(l) && Search(r)
  }

  // ----- insertion, on shapes -----

  // BST_GENERIC_INSERT of the subtree `s`: it goes below the last node of the descent for its root's base.
  function Graft(t: Tree, s: Tree): Tree
    requires s.Node?
  {
    match t
    case Leaf => s
    case Node(x, l, r) => if x.base > s.root.base then Node(x, Graft(l, s), r) else Node(x, l, Graft(r, s))
  }

  // The whole subtree belongs where the descent puts its root.
  ghost predicate Fits(t: Tree, s: Tree)
    requires s.Node?
  {
    match t
    case Leaf => true
    case Node(x, l, r) =>
      if x.base > s.root.base then (forall y | y in Nodes(s) :: y.base < x.base) && Fits(l, s)
      else (forall y | y in Nodes(s) :: x.base <= y.base) && Fits(r, s)
  }

  lemma {:induction false} GraftNodes(t: Tree, s: Tree)
    requires s.Node?
    ensures Nodes(Graft(t, s)) == Nodes(t) + Nodes(s)
    ensures Proper(t) && Proper(s) && Nodes(t) !! Nodes(s) ==> Proper(Graft(t, s))
  {
    match t
    case Leaf =>
    case Node(x, l, r) => if x.base > s.root.base { GraftNodes(l, s); } else { GraftNodes(r, s); }
  }

  // Insertion keeps the search order, and nothing is lost or added.
  lemma {:induction false} GraftSearch(t: Tree, s: Tree)
    requires s.Node? && Search(t) && Search(s) && Fits(t, s)
    ensures Search(Graft(t, s))
  {
    match t
    case Leaf =>
    case Node(x, l, r) =>
      if x.base > s.root.base { GraftSearch(l, s); GraftNodes(l, s); }
      else { GraftSearch(r, s); GraftNodes(r, s); }
  }

  // A single node always fits.
  lemma {:induction false} SingleFits(t: Tree, x: Region)
    ensures Fits(t, Node(x, Leaf, Leaf))
  {
    match t
    case Leaf =>
    case Node(y, l, r) => SingleFits(l, x); SingleFits(r, x);
  }

  // ----- deletion, on shapes -----

  // The subtree of `t` at node `x`.
  function At(t: Tree, x: Region): Tree {
    match t
    case Leaf => Leaf
    case Node(y, l, r) => if y == x then t else if x in Nodes(l) then At(l, x) else At(r, x)
  }

  // `t` with the subtree at node `x` replaced.
  function Replace(t: Tree, x: Region, s: Tree): Tree {
    match t
    case Leaf => Leaf
    case Node(y, l, r) =>
      if y == x then s
      else if x in Nodes(l) then Node(y, Replace(l, x, s), r)
      else Node(y, l, Replace(r, x, s))
  }

  // BST_GENERIC_DELETE.
  function Delete(t: Tree, x: Region): Tree {
    var u := At(t, x);
    if !u.Node? then t
    else if u.l.Leaf? then Replace(t, x, u.r)
    else if u.r.Leaf? then Replace(t, x, u.l)
    else Graft(Graft(Replace(t, x, Leaf), u.r), u.l)
  }

  lemma {:induction false} AtNodes(t: Tree, x: Region)
    requires x in Nodes(t)
    ensures At(t, x).Node? && At(t, x).root == x && Nodes(At(t, x)) <= Nodes(t)
    ensures Proper(t) ==> Proper(At(t, x))
    ensures Search(t) ==> Search(At(t, x))
  {
    match t
    case Node(y, l, r) => if y == x {} else if x in Nodes(l) { AtNodes(l, x); } else { AtNodes(r, x); }
  }

  lemma {:induction false} ReplaceNodes(t: Tree, x: Region, s: Tree)
    requires Proper(t) && x in Nodes(t)
    ensures Nodes(Replace(t, x, s)) == Nodes(t) - Nodes(At(t, x)) + Nodes(s)
  {
    match t
    case Node(y, l, r) =>
      if y == x {
      } else if x in Nodes(l) {
        AtNodes(l, x);
        ReplaceNodes(l, x, s);
      } else {
        AtNodes(r, x);
        ReplaceNodes(r, x, s);
      }
  }

  // Re-inserting a subtree of the removed node puts it exactly where the node was.
  lemma {:induction false} GraftReturns(t: Tree, x: Region, s: Tree)
    requires Search(t) && x in Nodes(t) && s.Node? && Nodes(s) <= Nodes(At(t, x))
    ensures Graft(Replace(t, x, Leaf), s) == Replace(t, x, s)
  {
    match t
    case Node(y, l, r) =>
      if y == x {
      } else if x in Nodes(l) {
        AtNodes(l, x);
        GraftReturns(l, x, s);
        assert s.root in Nodes(l);
      } else {
        AtNodes(r, x);
        GraftReturns(r, x, s);
        assert s.root in Nodes(r);
      }
  }

  // Grafting a smaller subtree into the replacement is grafting it into the whole tree.
  lemma {:induction false} GraftInside(t: Tree, x: Region, s: Tree, u: Tree)
    requires Search(t) && x in Nodes(t) && u.Node? && u.root in Nodes(At(t, x))
    ensures Graft(Replace(t, x, s), u) == Replace(t, x, Graft(s, u))
  {
    match t
    case Node(y, l, r) =>
      if y == x {
      } else if x in Nodes(l) {
        AtNodes(l, x);
        GraftInside(l, x, s, u);
        assert u.root in Nodes(l);
      } else {
        AtNodes(r, x);
        GraftInside(r, x, s, u);
        assert u.root in Nodes(r);
      }
  }

  // A subtree of smaller bases ends up below the leftmost node.
  function UnderMin(t: Tree, s: Tree): Tree {
    match t
    case Leaf => s
    case Node(x, l, r) => Node(x, UnderMin(l, s), r)
  }

  lemma {:induction false} SmallerGoesLeft(t: Tree, s: Tree)
    requires s.Node? && forall y | y in Nodes(t) :: y.base > s.root.base
    ensures Graft(t, s) == UnderMin(t, s)
    ensures Inorder(UnderMin(t, s)) == Inorder(s) + Inorder(t)
  {
    match t
    case Leaf =>
    case Node(x, l, r) => SmallerGoesLeft(l, s);
  }

  // What deleting a node with two children does: the right subtree takes its place, with the left subtree
  // below the right subtree's minimum.
  lemma TwoChildren(t: Tree, x: Region)
    requires Search(t) && x in Nodes(t) && At(t, x).Node? && At(t, x).l.Node? && At(t, x).r.Node?
    ensures Delete(t, x) == Replace(t, x, UnderMin(At(t, x).r, At(t, x).l))
  {
    var u := At(t, x);
    AtNodes(t, x);
    GraftReturns(t, x, u.r);
    GraftInside(t, x, u.r, u.l);
    SmallerGoesLeft(u.r, u.l);
  }

  // `q` without its first occurrence of `x`.
  function Drop(q: seq<Region>, x: Region): seq<Region> {
    if q == [] then [] else if q[0] == x then q[1..] else [q[0]] + Drop(q[1..], x)
  }

  lemma {:induction false} DropMiddle(a: seq<Region>, x: Region, b: seq<Region>)
    requires x !in a
    ensures Drop(a + [x] + b, x) == a + b
  {
    if a == [] {
      assert ([x] + b)[1..] == b && a + [x] + b == [x] + b && a + b == b;
    } else {
      DropMiddle(a[1..], x, b);
      assert (a + [x] + b)[1..] == a[1..] + [x] + b;
      assert a + b == [a[0]] + (a[1..] + b);
    }
  }

  lemma {:induction false} InorderNodes(t: Tree, y: Region)
    ensures y in Inorder(t) <==> y in Nodes(t)
  {
    match t
    case Leaf =>
    case Node(x, l, r) => InorderNodes(l, y); InorderNodes(r, y);
  }

  lemma AppendRight(pre: seq<Region>, m: seq<Region>, post: seq<Region>, y: Region, b: seq<Region>)
    ensures (pre + m + post) + [y] + b == pre + m + (post + ([y] + b))
  {}

  lemma AppendLeft(a: seq<Region>, y: Region, pre: seq<Region>, m: seq<Region>, post: seq<Region>)
    ensures a + [y] + (pre + m + post) == ((a + [y]) + pre) + m + post
  {}

  lemma Regroup(pre: seq<Region>, a: seq<Region>, x: Region, b: seq<Region>, post: seq<Region>)
    ensures pre + (a + [x] + b) + post == (pre + a) + [x] + (b + post)
  {}

  lemma DropStretch(pre: seq<Region>, a: seq<Region>, x: Region, b: seq<Region>, post: seq<Region>)
    requires x !in pre && x !in a
    ensures Drop(pre + (a + [x] + b) + post, x) == pre + (a + b) + post
  {
    DropMiddle(pre + a, x, b + post);
    Regroup(pre, a, x, b, post);
    assert pre + (a + b) + post == (pre + a) + (b + post);
  }

  // Replacing a subtree replaces its stretch of the in-order sequence.
  lemma {:induction false} ReplaceInorder(t: Tree, x: Region, s: Tree) returns (pre: seq<Region>, post: seq<Region>)
    requires Proper(t) && x in Nodes(t)
    ensures Inorder(t) == pre + Inorder(At(t, x)) + post
    ensures Inorder(Replace(t, x, s)) == pre + Inorder(s) + post
    ensures x !in pre
  {
    match t
    case Node(y, l, r) =>
      if y == x {
        pre, post := [], [];
      } else if x in Nodes(l) {
        var post';
        pre, post' := ReplaceInorder(l, x, s);
        post := post' + ([y] + Inorder(r));
        AppendRight(pre, Inorder(At(l, x)), post', y, Inorder(r));
        AppendRight(pre, Inorder(s), post', y, Inorder(r));
      } else {
        var pre';
        pre', post := ReplaceInorder(r, x, s);
        InorderNodes(l, x);
        pre := (Inorder(l) + [y]) + pre';
        AppendLeft(Inorder(l), y, pre', Inorder(At(r, x)), post);
        AppendLeft(Inorder(l), y, pre', Inorder(s), post);
      }
  }

  lemma DeleteShape(t: Tree, x: Region) returns (s: Tree)
    requires Proper(t) && Search(t) && x in Nodes(t)
    ensures At(t, x).Node? && Delete(t, x) == Replace(t, x, s)
    ensures Inorder(s) == Inorder(At(t, x).l) + Inorder(At(t, x).r)
    ensures Nodes(s) == Nodes(At(t, x).l) + Nodes(At(t, x).r) && Search(s)
  {
    AtNodes(t, x);
    var u := At(t, x);
    if u.l.Leaf? {
      s := u.r;
    } else if u.r.Leaf? {
      s := u.l;
    } else {
      s := UnderMin(u.r, u.l);
      TwoChildren(t, x);
      SmallerGoesLeft(u.r, u.l);
      GraftNodes(u.r, u.l);
      SmallerFits(u.r, u.l);
      GraftSearch(u.r, u.l);
    }
  }

  lemma {:induction false} SmallerFits(t: Tree, s: Tree)
    requires s.Node? && Search(t) && forall y, z | y in Nodes(t) && z in Nodes(s) :: z.base < y.base
    ensures Fits(t, s)
  {
    match t
    case Leaf =>
    case Node(x, l, r) =>
      assert s.root in Nodes(s) && x in Nodes(t);
      SmallerFits(l, s);
  }

  // Deletion removes exactly the node from the in-order sequence.
  lemma DeleteInorder(t: Tree, x: Region)
    requires Proper(t) && Search(t) && x in Nodes(t)
    ensures Inorder(Delete(t, x)) == Drop(Inorder(t), x)
  {
    var s := DeleteShape(t, x);
    var pre, post := ReplaceInorder(t, x, s);
    AtNodes(t, x);
    var u := At(t, x);
    InorderNodes(u.l, x);
    DropStretch(pre, Inorder(u.l), x, Inorder(u.r), post);
  }

  // Deletion leaves a search tree.
  lemma {:induction false} ReplaceSearch(t: Tree, x: Region, s: Tree)
    requires Proper(t) && Search(t) && x in Nodes(t) && Search(s) && Nodes(s) <= Nodes(At(t, x))
    ensures Search(Replace(t, x, s)) && Nodes(Replace(t, x, s)) <= Nodes(t)
  {
    AtNodes(t, x);
    ReplaceNodes(t, x, s);
    match t
    case Node(y, l, r) =>
      if y == x {
      } else if x in Nodes(l) {
        ReplaceSearch(l, x, s);
      } else {
        ReplaceSearch(r, x, s);
      }
  }

  lemma DeleteSearch(t: Tree, x: Region)
    requires Proper(t) && Search(t) && x in Nodes(t)
    ensures Search(Delete(t, x))
  {
    var s := DeleteShape(t, x);
    AtNodes(t, x);
    ReplaceSearch(t, x, s);
  }

  // ----- the linked structure -----

  datatype Link = Link(left: Region?, right: Region?, parent: Region?)

  // The link fields of a set of nodes.
  ghost function Links(all: set<Region>): map<Region, Link>
    reads all
  {
    map x | x in all :: Link(x.left, x.right, x.parent)
  }

  // The left and right links from `n` on form the tree `t`.
  ghost predicate Shape(m: map<Region, Link>, n: Region?, t: Tree)
    decreases t
  {
    match t
    case Leaf => n == null
    case Node(x, l, r) => n == x && x in m && Shape(m, m[x].left, l) && Shape(m, m[x].right, r)
  }

  // Every node of `t` has the right parent link, `p` being the parent of the root.
  ghost predicate Parents(m: map<Region, Link>, p: Region?, t: Tree)
    decreases t
  {
    match t
    case Leaf => true
    case Node(x, l, r) => x in m && m[x].parent == p && Parents(m, x, l) && Parents(m, x, r)
  }

  // The node below which the descent for `key` ends.
  function LastOn(t: Tree, key: nat, p: Region?): Region? {
    match t
    case Leaf => p
    case Node(x, l, r) => if x.base > key then LastOn(l, key, x) else LastOn(r, key, x)
  }

  lemma {:induction false} LastOnNodes(t: Tree, key: nat, p: Region?)
    requires t.Node?
    ensures LastOn(t, key, p) != null && LastOn(t, key, p) in Nodes(t)
  {
    var c := if t.root.base > key then t.l else t.r;
    if c.Node? { LastOnNodes(c, key, t.root); }
  }

  lemma {:induction false} SameShape(m: map<Region, Link>, m': map<Region, Link>, n: Region?, t: Tree)
    requires Shape(m, n, t)
    requires forall x | x in Nodes(t) && x in m :: x in m' && m'[x].left == m[x].left && m'[x].right == m[x].right
    ensures Shape(m', n, t)
    decreases t
  {
    match t
    case Leaf =>
    case Node(x, l, r) => SameShape(m, m', m[x].left, l); SameShape(m, m', m[x].right, r);
  }

  lemma {:induction false} SameParents(m: map<Region, Link>, m': map<Region, Link>, p: Region?, t: Tree)
    requires Parents(m, p, t)
    requires forall x | x in Nodes(t) && x in m :: x in m' && m'[x].parent == m[x].parent
    ensures Parents(m', p, t)
    decreases t
  {
    match t
    case Leaf =>
    case Node(x, l, r) => SameParents(m, m', x, l); SameParents(m, m', x, r);
  }

  // `m` with node `c` hung below node `p` on the side its base belongs to.
  ghost function Hang(m: map<Region, Link>, p: Region, c: Region): map<Region, Link>
    requires p in m && c in m
  {
    var m1 := m[c := m[c].(parent := p)];
    if p.base > c.base then m1[p := m1[p].(left := c)] else m1[p := m1[p].(right := c)]
  }

  // Hanging `s` below the last node of its descent turns the tree into Graft(t, s).
  lemma {:induction false} GraftShape(m: map<Region, Link>, n: Region?, t: Tree, s: Tree, p: Region)
    requires t.Node? && s.Node? && Shape(m, n, t) && Shape(m, s.root, s) && Proper(t) && Nodes(t) !! Nodes(s)
    requires p == LastOn(t, s.root.base, null) && p in m && s.root in m
    ensures Shape(Hang(m, p, s.root), n, Graft(t, s))
    decreases t
  {
    var Node(x, l, r) := t;
    var key := s.root.base;
    var m' := Hang(m, p, s.root);
    LastOnNodes(t, key, null);
    assert s.root in Nodes(s);
    SameShape(m, m', s.root, s);
    if x.base > key {
      if l.Node? {
        LastOnNodes(l, key, x);
        LastOnNodes(l, key, null);
        GraftShape(m, m[x].left, l, s, p);
      }
      SameShape(m, m', m[x].right, r);
    } else {
      if r.Node? {
        LastOnNodes(r, key, x);
        GraftShape(m, m[x].right, r, s, p);
      }
      SameShape(m, m', m[x].left, l);
    }
  }

  // With correct parent links before, they are correct after.
  lemma {:induction false} GraftParents(m: map<Region, Link>, q: Region?, t: Tree, s: Tree, p: Region)
    requires t.Node? && s.Node? && Parents(m, q, t) && Proper(t) && Nodes(t) !! Nodes(s) && Proper(s)
    requires p == LastOn(t, s.root.base, null) && p in m && s.root in m
    requires Parents(m, s.root, s.l) && Parents(m, s.root, s.r)
    ensures Parents(Hang(m, p, s.root), q, Graft(t, s))
    decreases t
  {
    var Node(x, l, r) := t;
    var key := s.root.base;
    var m' := Hang(m, p, s.root);
    LastOnNodes(t, key, null);
    assert s.root in Nodes(s);
    SameParents(m, m', s.root, s.l);
    SameParents(m, m', s.root, s.r);
    if x.base > key {
      if l.Node? { GraftParents(m, x, l, s, p); }
      SameParents(m, m', x, r);
    } else {
      if r.Node? { GraftParents(m, x, r, s, p); }
      SameParents(m, m', x, l);
    }
  }

  // ----- the operations -----

  ghost function RootOf(t: Tree): Region? { if t.Leaf? then null else t.root }

  // The descent of BST_GENERIC_INSERT.
  method FindParent(tableRoot: Region?, key: nat, ghost t: Tree, ghost all: set<Region>) returns (parent: Region?)
    requires Nodes(t) <= all && Shape(Links(all), tableRoot, t)
    ensures parent == LastOn(t, key, null)
    ensures parent == null <==> t == Leaf
    ensures parent != null ==> parent in Nodes(t)
  {
    var root := tableRoot;
    parent := null;
    ghost var cur := t;
    while root != null
      invariant Shape(Links(all), root, cur) && Nodes(cur) <= all
      invariant LastOn(t, key, null) == LastOn(cur, key, parent)
      decreases cur
    {
      parent := root;
      if root.base > key {
        root := root.left;
        cur := cur.l;
      } else {
        root := root.right;
        cur := cur.r;
      }
    }
    if t.Node? { LastOnNodes(t, key, null); }
  }

  method HangBelow(parent: Region, node: Region, ghost all: set<Region>)
    requires parent in all && node in all && parent != node
    modifies parent, node
    ensures Links(all) == Hang(old(Links(all)), parent, node)
  {
    node.parent := parent;
    if parent.base > node.base {
      parent.left := node;
    } else {
      parent.right := node;
    }
  }

  // The subtree `s` is ready to be inserted below `node`.
  ghost predicate SubtreeParents(m: map<Region, Link>, s: Tree) {
    s.Node? ==> Parents(m, s.root, s.l) && Parents(m, s.root, s.r)
  }

  // BST_GENERIC_INSERT of the node `node` with whatever hangs below it; `all` holds every node involved.
  method Insert(tableRoot: Region?, node: Region?, ghost t: Tree, ghost s: Tree, ghost all: set<Region>)
    returns (ret: int, tableRoot': Region?)
    requires Nodes(t) <= all && Nodes(s) <= all && Nodes(t) !! Nodes(s) && Proper(t) && Proper(s)
    requires Shape(Links(all), tableRoot, t) && Shape(Links(all), node, s)
    modifies all
    ensures node == null ==> ret == -1 && tableRoot' == tableRoot && Links(all) == old(Links(all))
    ensures node != null ==> s.Node? && ret == 0 && Shape(Links(all), tableRoot', Graft(t, s))
    ensures node != null && old(Parents(Links(all), null, t) && SubtreeParents(Links(all), s)) ==>
      Parents(Links(all), null, Graft(t, s))
    ensures forall x | x in all && x !in Nodes(t) && x != node :: Links(all)[x] == old(Links(all)[x])
  {
    if node == null {
      return -1, tableRoot;
    }
    assert s.Node? && node in Nodes(s);
    ghost var m := Links(all);
    var parent := FindParent(tableRoot, node.base, t, all);
    if parent == null {
      node.parent := null;
      SameShape(m, Links(all), node, s);
      if SubtreeParents(m, s) {
        SameParents(m, Links(all), node, s.l);
        SameParents(m, Links(all), node, s.r);
      }
      return 0, node;
    }
    GraftShape(m, tableRoot, t, s, parent);
    if Parents(m, null, t) && SubtreeParents(m, s) {
      GraftParents(m, null, t, s, parent);
    }
    HangBelow(parent, node, all);
    return 0, tableRoot;
  }

  // `m` with the link from `p` to its child `x` redirected to `c`.
  ghost function Relink(m: map<Region, Link>, p: Region, x: Region, c: Region?): map<Region, Link>
    requires p in m
  {
    if m[p].left == x then m[p := m[p].(left := c)] else m[p := m[p].(right := c)]
  }

  // The parent link of a node that is not the root names a node of the tree outside the node's subtree.
  lemma {:induction false} ParentOf(m: map<Region, Link>, q: Region?, t: Tree, x: Region)
    requires Parents(m, q, t) && Proper(t) && x in Nodes(t)
    ensures x in m
    ensures if t.root == x then m[x].parent == q
      else m[x].parent != null && m[x].parent in Nodes(t) && m[x].parent in m && m[x].parent !in Nodes(At(t, x))
    decreases t
  {
    var Node(y, l, r) := t;
    AtNodes(t, x);
    if y != x {
      if x in Nodes(l) {
        AtNodes(l, x);
        ParentOf(m, y, l, x);
      } else {
        AtNodes(r, x);
        ParentOf(m, y, r, x);
      }
    }
  }

  // Redirecting one link replaces the subtree of `x`.
  lemma {:induction false} ReplaceShape(m: map<Region, Link>, q: Region?, n: Region?, t: Tree, x: Region, s: Tree,
                                        p: Region)
    requires Shape(m, n, t) && Parents(m, q, t) && Proper(t) && x in Nodes(t) && x != t.root
    requires x in m && m[x].parent == p && p in m && p in Nodes(t) && p !in Nodes(At(t, x))
    requires Nodes(s) <= Nodes(At(t, x)) && Shape(m, RootOf(s), s)
    ensures Shape(Relink(m, p, x, RootOf(s)), n, Replace(t, x, s))
    decreases t
  {
    var Node(y, l, r) := t;
    var m' := Relink(m, p, x, RootOf(s));
    SameShape(m, m', RootOf(s), s);
    if x in Nodes(l) {
      AtNodes(l, x);
      if l.root != x {
        ParentOf(m, y, l, x);
        ReplaceShape(m, y, m[y].left, l, x, s, p);
      }
      SameShape(m, m', m[y].right, r);
    } else {
      AtNodes(r, x);
      if r.root != x {
        ParentOf(m, y, r, x);
        ReplaceShape(m, y, m[y].right, r, x, s, p);
      } else {
        assert m[y].left != x;
      }
      SameShape(m, m', m[y].left, l);
    }
  }

  // The parent links stay right exactly when the replacement's own root points to the parent of `x`.
  lemma {:induction false} ReplaceParents(m: map<Region, Link>, m': map<Region, Link>, q: Region?, t: Tree,
                                          x: Region, s: Tree)
    requires Parents(m, q, t) && Proper(t) && x in Nodes(t) && x in m
    requires forall y | y in m :: y in m' && m'[y].parent == m[y].parent
    ensures Parents(m', q, Replace(t, x, s)) <==> Parents(m', m[x].parent, s)
    decreases t
  {
    var Node(y, l, r) := t;
    if y == x {
    } else if x in Nodes(l) {
      ReplaceParents(m, m', y, l, x, s);
      SameParents(m, m', y, r);
    } else {
      ReplaceParents(m, m', y, r, x, s);
      SameParents(m, m', y, l);
    }
  }

  lemma {:induction false} AtShape(m: map<Region, Link>, n: Region?, t: Tree, x: Region)
    requires Shape(m, n, t) && x in Nodes(t)
    ensures Shape(m, x, At(t, x))
    decreases t
  {
    var Node(y, l, r) := t;
    if y != x {
      if x in Nodes(l) { AtShape(m, m[y].left, l, x); } else { AtShape(m, m[y].right, r, x); }
    }
  }

  lemma {:induction false} AtParents(m: map<Region, Link>, q: Region?, t: Tree, x: Region)
    requires Parents(m, q, t) && x in Nodes(t)
    ensures x in m && Parents(m, m[x].parent, At(t, x))
    decreases t
  {
    var Node(y, l, r) := t;
    if y != x {
      if x in Nodes(l) { AtParents(m, y, l, x); } else { AtParents(m, y, r, x); }
    }
  }

  // parent->left == node ? parent->left = c : parent->right = c
  method Redirect(parent: Region, node: Region, c: Region?, ghost all: set<Region>)
    requires parent in all
    modifies parent
    ensures Links(all) == Relink(old(Links(all)), parent, node, c)
  {
    if parent.left == node {
      parent.left := c;
    } else {
      parent.right := c;
    }
  }

  // A tree whose links and parent links are all in order.
  ghost predicate Intact(all: set<Region>, tableRoot: Region?, t: Tree)
    reads all
  {
    && Nodes(t) <= all && Proper(t) && Search(t)
    && Shape(Links(all), tableRoot, t) && Parents(Links(all), null, t)
  }

  // Replaces the subtree of a node that is not the root by one of its children's subtrees, or by nothing.
  method Splice(tableRoot: Region?, node: Region, c: Region?, ghost t: Tree, ghost s: Tree, ghost all: set<Region>)
    requires Intact(all, tableRoot, t) && node in Nodes(t) && node != tableRoot && node.parent != null
    requires var u := At(t, node); u.Node? && (s == Leaf || s == u.l || s == u.r)
    requires c == RootOf(s)
    modifies all
    ensures Shape(Links(all), tableRoot, Replace(t, node, s))
    ensures forall x | x in all :: x.parent == old(x.parent)
    ensures Parents(Links(all), null, Replace(t, node, s)) <==> s == Leaf
    ensures forall x | x in all && x in Nodes(At(t, node)) :: Links(all)[x] == old(Links(all)[x])
  {
    ghost var m := Links(all);
    AtNodes(t, node);
    AtShape(m, tableRoot, t, node);
    AtParents(m, null, t, node);
    ParentOf(m, null, t, node);
    ReplaceShape(m, null, tableRoot, t, node, s, node.parent);
    Redirect(node.parent, node, c, all);
    ReplaceParents(m, Links(all), null, t, node, s);
  }

  lemma SubtreeKept(m: map<Region, Link>, m': map<Region, Link>, s: Tree)
    requires s.Node? && Shape(m, s.root, s) && SubtreeParents(m, s)
    requires forall x | x in Nodes(s) && x in m :: x in m' && m'[x] == m[x]
    ensures Shape(m', s.root, s) && SubtreeParents(m', s)
  {
    SameShape(m, m', s.root, s);
    SameParents(m, m', s.root, s.l);
    SameParents(m, m', s.root, s.r);
  }

  // The two-child branch of BST_GENERIC_DELETE: cut the node off, insert its right and then its left subtree.
  method DeleteTwo(tableRoot: Region, node: Region, ghost t: Tree, ghost all: set<Region>) returns (tableRoot': Region?)
    requires Intact(all, tableRoot, t) && node in Nodes(t) && node != tableRoot && node.parent != null
    requires node.left != null && node.right != null
    modifies all
    ensures Shape(Links(all), tableRoot', Delete(t, node)) && Parents(Links(all), null, Delete(t, node))
  {
    ghost var u := At(t, node);
    AtNodes(t, node);
    AtShape(Links(all), tableRoot, t, node);
    AtParents(Links(all), null, t, node);
    ghost var m := Links(all);
    ghost var cut := Replace(t, node, Leaf);
    ReplaceNodes(t, node, Leaf);
    ReplaceProper(t, node);
    Splice(tableRoot, node, null, t, Leaf, all);
    ghost var m1 := Links(all);
    SubtreeKept(m, m1, u.r);
    var ret;
    ret, tableRoot' := Insert(tableRoot, node.right, cut, u.r, all);
    ghost var m2 := Links(all);
    GraftNodes(cut, u.r);
    SubtreeKept(m, m2, u.l);
    ret, tableRoot' := Insert(tableRoot', node.left, Graft(cut, u.r), u.l, all);
  }

  lemma {:induction false} ReplaceProper(t: Tree, x: Region)
    requires Proper(t) && x in Nodes(t)
    ensures Proper(Replace(t, x, Leaf))
  {
    match t
    case Node(y, l, r) =>
      if y == x {
      } else if x in Nodes(l) {
        ReplaceProper(l, x);
        AtNodes(l, x);
        ReplaceNodes(l, x, Leaf);
      } else {
        ReplaceProper(r, x);
        AtNodes(r, x);
        ReplaceNodes(r, x, Leaf);
      }
  }

  // BST_GENERIC_DELETE of a leaf or of any node but the root. The tree that is left is Delete(t, node); its
  // parent links are all right exactly unless the node had one child.
  method DeleteNode(tableRoot: Region, node: Region, ghost t: Tree, ghost all: set<Region>)
    returns (tableRoot': Region?)
    requires Intact(all, tableRoot, t) && node in Nodes(t)
    requires node == tableRoot ==> node.left == null && node.right == null
    modifies all
    ensures Shape(Links(all), tableRoot', Delete(t, node))
    ensures Parents(Links(all), null, Delete(t, node)) <==> (old(node.left) == null <==> old(node.right) == null)
  {
    ghost var u := At(t, node);
    AtNodes(t, node);
    AtShape(Links(all), tableRoot, t, node);
    ParentOf(Links(all), null, t, node);
    var parent := node.parent;
    tableRoot' := tableRoot;
    if node.left == null && node.right == null {
      if parent == null {
        tableRoot' := null;
      } else {
        Splice(tableRoot, node, null, t, Leaf, all);
      }
    } else if node.right == null {
      Splice(tableRoot, node, node.left, t, u.l, all);
    } else if node.left == null {
      Splice(tableRoot, node, node.right, t, u.r, all);
    } else {
      tableRoot' := DeleteTwo(tableRoot, node, t, all);
    }
  }

  // Insertion of one new node keeps a tree intact.
  method InsertNew(tableRoot: Region?, node: Region, ghost t: Tree) returns (tableRoot': Region?)
    requires Intact(Nodes(t), tableRoot, t) && node !in Nodes(t) && node.left == null && node.right == null
    modifies Nodes(t), node
    ensures Intact(Nodes(t) + {node}, tableRoot', Graft(t, Node(node, Leaf, Leaf)))
    ensures Nodes(Graft(t, Node(node, Leaf, Leaf))) == Nodes(t) + {node}
  {
    ghost var s := Node(node, Leaf, Leaf);
    ghost var all := Nodes(t) + {node};
    SameShape(Links(Nodes(t)), Links(all), tableRoot, t);
    SameParents(Links(Nodes(t)), Links(all), null, t);
    SingleFits(t, node);
    GraftSearch(t, s);
    GraftNodes(t, s);
    var ret;
    ret, tableRoot' := Insert(tableRoot, node, t, s, all);
  }
}
