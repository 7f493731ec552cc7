// The region searches of kernel/mm/mmap.c and kernel/mm/vmm.c, and the placement of anonymous mappings.
module Mmap {
  import opened Common
  import opened Arith
  import opened RegionTree

  function End(x: Region): nat { x.base + x.limit }

  // The address lies in the region.
  predicate Holds(x: Region, a: nat) { x.base <= a < End(x) }

  predicate Apart(x: Region, y: Region) { End(x) <= y.base || End(y) <= x.base }

  ghost predicate Disjoint(t: Tree) {
    forall x, y | x in Nodes(t) && y in Nodes(t) && x != y :: Apart(x, y)
  }

  // ----- descents -----

  // validate_region's descent: half-open regions.
  function FindOpen(t: Tree, a: nat): Option<Region> {
    match t
    case Leaf => None
    case Node(x, l, r) => if Holds(x, a) then Some(x) else if x.base > a then FindOpen(l, a) else FindOpen(r, a)
  }

  // The descent of mmap_search_region, vmm_anon_map and vmm_file_map: the end address counts as inside.
  function FindClosed(t: Tree, a: nat): Option<Region> {
    match t
    case Leaf => None
    case Node(x, l, r) =>
      if x.base <= a <= End(x) then Some(x) else if x.base > a then FindClosed(l, a) else FindClosed(r, a)
  }

  // The descent meets a region that ends exactly at the address before it meets one that holds it.
  predicate EndsOnPath(t: Tree, a: nat) {
    match t
    case Leaf => false
    case Node(x, l, r) =>
      !Holds(x, a) && (End(x) == a || (if x.base > a then EndsOnPath(l, a) else EndsOnPath(r, a)))
  }

  // For disjoint regions the descent finds a region exactly when a scan of all regions does, and the same one.
  lemma {:induction false} DescentIsScan(t: Tree, a: nat, x: Region)
    requires Search(t) && Disjoint(t)
    ensures FindOpen(t, a) == Some(x) <==> x in Nodes(t) && Holds(x, a)
  {
    match t
    case Leaf =>
    case Node(y, l, r) =>
      assert Disjoint(l) && Disjoint(r);
      DescentIsScan(l, a, x);
      DescentIsScan(r, a, x);
      if x in Nodes(t) && x != y { assert Apart(x, y); }
  }

  lemma {:induction false} OpenHolds(t: Tree, a: nat)
    ensures FindOpen(t, a).Some? ==> FindOpen(t, a).value in Nodes(t) && Holds(FindOpen(t, a).value, a)
  {
    match t
    case Leaf =>
    case Node(x, l, r) => OpenHolds(l, a); OpenHolds(r, a);
  }

  // The closed-end descent gives the same answer exactly unless a region on the way ends at the address; then it
  // gives that region.
  lemma {:induction false} ClosedDescent(t: Tree, a: nat)
    ensures FindClosed(t, a) == FindOpen(t, a) <==> !EndsOnPath(t, a)
    ensures EndsOnPath(t, a) ==>
      FindClosed(t, a).Some? && FindClosed(t, a).value in Nodes(t) && End(FindClosed(t, a).value) == a
  {
    match t
    case Leaf =>
    case Node(x, l, r) =>
      OpenHolds(t, a);
      if x.base > a { ClosedDescent(l, a); } else { ClosedDescent(r, a); }
  }

  // validate_region: the distance to move on by when `base` is taken, -1 when it is free.
  method ValidateRegion(root: Region?, base: nat, length: nat, ghost t: Tree, ghost all: set<Region>) returns (r: int)
    requires Nodes(t) <= all && Shape(Links(all), root, t)
    ensures r == match FindOpen(t, base) case None => -1 case Some(x) => End(x) - base + length
  {
    var cur := root;
    ghost var u := t;
    while cur != null
      invariant Shape(Links(all), cur, u) && Nodes(u) <= all && FindOpen(t, base) == FindOpen(u, base)
      decreases u
    {
      if cur.base <= base && cur.base + cur.limit > base {
        return cur.base + cur.limit - base + length;
      }
      if cur.base > base {
        cur := cur.left;
        u := u.l;
      } else {
        cur := cur.right;
        u := u.r;
      }
    }
    return -1;
  }

  // mmap_search_region, and the same loop in vmm_anon_map.
  method SearchRegion(root: Region?, base: nat, ghost t: Tree, ghost all: set<Region>) returns (r: Region?)
    requires Nodes(t) <= all && Shape(Links(all), root, t)
    ensures r == match FindClosed(t, base) case None => null case Some(x) => x
  {
    r := root;
    ghost var u := t;
    while r != null
      invariant Shape(Links(all), r, u) && Nodes(u) <= all && FindClosed(t, base) == FindClosed(u, base)
      decreases u
    {
      if r.base <= base && r.base + r.limit >= base {
        return;
      }
      if r.base > base {
        r := r.left;
        u := u.l;
      } else {
        r := r.right;
        u := u.r;
      }
    }
  }

  // ----- copying -----

  // Same shape, same regions by value.
  ghost predicate Alike(t: Tree, u: Tree) {
    match t
    case Leaf => u == Leaf
    case Node(x, l, r) =>
      && u.Node? && x.base == u.root.base && x.limit == u.root.limit && x.prot == u.root.prot
      && Alike(l, u.l) && Alike(r, u.r)
  }

  // A copied tree answers every lookup alike.
  lemma {:induction false} AlikeAnswers(t: Tree, u: Tree, a: nat)
    requires Alike(t, u)
    ensures FindClosed(t, a).Some? <==> FindClosed(u, a).Some?
    ensures FindClosed(t, a).Some? ==>
      var x, y := FindClosed(t, a).value, FindClosed(u, a).value;
      x.base == y.base && x.limit == y.limit && x.prot == y.prot
    ensures FindOpen(t, a).Some? <==> FindOpen(u, a).Some?
  {
    match t
    case Leaf =>
    case Node(x, l, r) => AlikeAnswers(l, u.l, a); AlikeAnswers(r, u.r, a);
  }

  ghost predicate KeepsParents(m: map<Region, Link>, m': map<Region, Link>) {
    forall x | x in m :: x in m' && m'[x].parent == m[x].parent
  }

  // *region = *root with the copied children put in.
  method CopyNode(root: Region, left: Region?, right: Region?, ghost ul: Tree, ghost ur: Tree) returns (region: Region)
    requires Shape(Links(Nodes(ul)), left, ul) && Shape(Links(Nodes(ur)), right, ur)
    ensures fresh(region) && region.base == root.base && region.limit == root.limit && region.prot == root.prot
    ensures region.parent == root.parent && region !in Nodes(ul) && region !in Nodes(ur)
    ensures Shape(Links(Nodes(Node(region, ul, ur))), region, Node(region, ul, ur))
    ensures KeepsParents(old(Links(Nodes(ul))), Links(Nodes(Node(region, ul, ur))))
    ensures KeepsParents(old(Links(Nodes(ur))), Links(Nodes(Node(region, ul, ur))))
  {
    ghost var ml, mr := Links(Nodes(ul)), Links(Nodes(ur));
    region := new Region(root.base, root.limit, root.prot);
    region.parent := root.parent;
    region.left := left;
    region.right := right;
    assert Nodes(Node(region, ul, ur)) == {region} + Nodes(ul) + Nodes(ur);
    ghost var m := Links(Nodes(Node(region, ul, ur)));
    SameShape(ml, m, left, ul);
    SameShape(mr, m, right, ur);
  }

  // Each node of the copy has the parent link of the node it was copied from.
  ghost predicate ParentsCopied(m: map<Region, Link>, m': map<Region, Link>, t: Tree, u: Tree) {
    match t
    case Leaf => true
    case Node(x, l, r) =>
      && u.Node? && x in m && u.root in m' && m'[u.root].parent == m[x].parent
      && ParentsCopied(m, m', l, u.l) && ParentsCopied(m, m', r, u.r)
  }

  // So the links are right exactly in a tree of one node or none: below the root they lead into the old tree.
  lemma CopiedParents(m: map<Region, Link>, m': map<Region, Link>, p: Region?, t: Tree, u: Tree)
    requires Parents(m, p, t) && ParentsCopied(m, m', t, u) && Alike(t, u) && Nodes(t) !! Nodes(u)
    ensures Parents(m', p, u) <==> t.Leaf? || (t.l.Leaf? && t.r.Leaf?)
  {
    if t.Node? {
      assert t.root in Nodes(t) && u.root in Nodes(u);
    }
  }

  lemma {:induction false} ParentsElsewhere(m: map<Region, Link>, m0: map<Region, Link>, m': map<Region, Link>, t: Tree,
                                            u: Tree)
    requires ParentsCopied(m, m0, t, u) && KeepsParents(m0, m')
    ensures ParentsCopied(m, m', t, u)
  {
    match t
    case Leaf =>
    case Node(x, l, r) =>
      ParentsElsewhere(m, m0, m', l, u.l);
      ParentsElsewhere(m, m0, m', r, u.r);
  }

  // vmm_copy_region_tree: all nodes are new; each keeps the parent pointer of the node it was copied from.
  method CopyTree(root: Region?, ghost t: Tree, ghost all: set<Region>) returns (copy: Region?, ghost u: Tree)
    requires Nodes(t) <= all && Shape(Links(all), root, t)
    ensures Alike(t, u) && fresh(Nodes(u)) && Proper(u) && Shape(Links(Nodes(u)), copy, u)
    ensures ParentsCopied(Links(all), Links(Nodes(u)), t, u)
    decreases t, 1
  {
    if root == null {
      return null, Leaf;
    }
    ghost var ul, ur;
    var left, right;
    left, right, ul, ur := CopyChildren(root, t, all);
    copy, u := CopyRoot(root, left, right, t, ul, ur, all);
    assert Nodes(u) == {copy} + (Nodes(ul) + Nodes(ur));
  }

  // The root over its copied children.
  method CopyRoot(root: Region, left: Region?, right: Region?, ghost t: Tree, ghost ul: Tree, ghost ur: Tree,
                  ghost all: set<Region>) returns (region: Region, ghost u: Tree)
    requires t.Node? && t.root == root && root in all
    requires Alike(t.l, ul) && Proper(ul) && Shape(Links(Nodes(ul)), left, ul)
    requires Alike(t.r, ur) && Proper(ur) && Shape(Links(Nodes(ur)), right, ur) && Nodes(ul) !! Nodes(ur)
    requires ParentsCopied(Links(all), Links(Nodes(ul)), t.l, ul)
    requires ParentsCopied(Links(all), Links(Nodes(ur)), t.r, ur)
    ensures u == Node(region, ul, ur) && fresh(region) && Alike(t, u) && Proper(u) && Shape(Links(Nodes(u)), region, u)
    ensures ParentsCopied(Links(all), Links(Nodes(u)), t, u)
  {
    ghost var m, ml, mr := Links(all), Links(Nodes(ul)), Links(Nodes(ur));
    region := CopyNode(root, left, right, ul, ur);
    u := Node(region, ul, ur);
    assert Links(all) == m;
    JoinParents(m, ml, mr, Links(Nodes(u)), t, u);
  }

  // The two recursive calls.
  method CopyChildren(root: Region, ghost t: Tree, ghost all: set<Region>)
    returns (left: Region?, right: Region?, ghost ul: Tree, ghost ur: Tree)
    requires Nodes(t) <= all && Shape(Links(all), root, t) && t.Node?
    ensures Alike(t.l, ul) && Proper(ul) && Shape(Links(Nodes(ul)), left, ul)
    ensures Alike(t.r, ur) && Proper(ur) && Shape(Links(Nodes(ur)), right, ur)
    ensures Nodes(ul) !! Nodes(ur) && fresh(Nodes(ul) + Nodes(ur))
    ensures ParentsCopied(Links(all), Links(Nodes(ul)), t.l, ul) && ParentsCopied(Links(all), Links(Nodes(ur)), t.r, ur)
    decreases t, 0
  {
    left, ul := CopyTree(root.left, t.l, all);
    ghost var ml := Links(Nodes(ul));
    right, ur := CopyTree(root.right, t.r, all);
    assert Links(Nodes(ul)) == ml;
  }

  lemma JoinParents(m: map<Region, Link>, ml: map<Region, Link>, mr: map<Region, Link>, m': map<Region, Link>, t: Tree,
                    u: Tree)
    requires t.Node? && u.Node? && ParentsCopied(m, ml, t.l, u.l) && ParentsCopied(m, mr, t.r, u.r)
    requires KeepsParents(ml, m') && KeepsParents(mr, m')
    requires t.root in m && u.root in m' && m'[u.root].parent == m[t.root].parent
    ensures ParentsCopied(m, m', t, u)
  {
    ParentsElsewhere(m, ml, m', t.l, u.l);
    ParentsElsewhere(m, mr, m', t.r, u.r);
  }

  // ----- placement -----

  // The regions that reach beyond an address.
  ghost function Beyond(t: Tree, a: nat): set<Region> { set x | x in Nodes(t) && End(x) > a }

  // No region starts strictly inside [base, base + length).
  ghost predicate ClearAhead(t: Tree, base: nat, length: nat) {
    forall x | x in Nodes(t) :: !(base < x.base < base + length)
  }

  // A region placed at a free base keeps the regions disjoint exactly if none starts inside it.
  lemma PlacedApart(t: Tree, t': Tree, region: Region)
    requires Search(t) && Disjoint(t) && FindOpen(t, region.base).None? && region.limit > 0
    requires Nodes(t') == Nodes(t) + {region} && region !in Nodes(t) && forall x | x in Nodes(t) :: x.limit > 0
    ensures Disjoint(t') <==> ClearAhead(t, region.base, region.limit)
  {
    AddDisjoint(t, t', region);
    forall x | x in Nodes(t)
      ensures Apart(region, x) <==> !(region.base < x.base < End(region))
    {
      DescentIsScan(t, region.base, x);
    }
  }

  // Where the search stops: a length behind the end of some region that reaches beyond the start.
  ghost predicate Landed(t: Tree, start: nat, length: nat, base: nat, x: Region) {
    x in Nodes(t) && End(x) > start && base == End(x) + length
  }

  // The search moves only when the start is taken, first to a length behind the end of the region there, and stays if
  // that is free.
  ghost predicate Hops(t: Tree, start: nat, length: nat, base: nat) {
    match FindOpen(t, start)
    case None => base == start
    case Some(x) =>
      var first := End(x) + length;
      && base >= first && (FindOpen(t, first).None? ==> base == first)
      && exists y :: y in Nodes(t) && Landed(t, start, length, base, y)
  }

  class AddressSpace {
    var root: Region?   // mmap_region_root
    var bump: nat       // mmap_bump_base
    ghost var tree: Tree

    ghost predicate Valid()
      reads this, Nodes(tree)
    {
      Intact(Nodes(tree), root, tree) && forall x | x in Nodes(tree) :: x.limit > 0
    }

    // Only bump placement has been used: all regions lie below the bump pointer and are disjoint.
    ghost predicate Bumped()
      reads this
    {
      Disjoint(tree) && forall x | x in Nodes(tree) :: End(x) <= bump
    }

    constructor ()
      ensures Valid() && Bumped() && tree == Leaf && bump == 0x10000
    {
      root, bump, tree := null, 0x10000, Leaf;
    }

    // The search loop of mmap: it ends, since each round passes the end of a region, at a base in no region.
    method FindBase(length: nat) returns (base: nat)
      requires Valid()
      ensures base >= bump
      ensures FindOpen(tree, base).None?
      ensures FindOpen(tree, bump).None? ==> base == bump
      ensures Hops(tree, bump, length, base)
    {
      base := bump;
      while true
        invariant Valid() && base >= bump
        invariant FindOpen(tree, bump).None? ==> base == bump
        invariant base == bump || (FindOpen(tree, bump).Some? && Hops(tree, bump, length, base))
        decreases Beyond(tree, base)
      {
        assert Shape(Links(Nodes(tree)), root, tree);
        var conflictOffset := ValidateRegion(root, base, length, tree, Nodes(tree));
        OpenHolds(tree, base);
        if conflictOffset == -1 {
          return;
        }
        ghost var hit := FindOpen(tree, base).value;
        assert hit in Beyond(tree, base) && hit !in Beyond(tree, base + conflictOffset);
        assert Landed(tree, bump, length, base + conflictOffset, hit);
        base := base + conflictOffset;
      }
    }

    // The end of mmap: a new region node is inserted into the tree.
    method AddRegion(base: nat, length: nat, prot: bv64) returns (region: Region)
      requires Valid() && length > 0
      modifies this`root, this`tree, Nodes(tree)
      ensures Valid() && fresh(region) && region.base == base && region.limit == length && region.prot == prot
      ensures tree == Graft(old(tree), Node(region, Leaf, Leaf)) && Nodes(tree) == Nodes(old(tree)) + {region}
    {
      ghost var m := Links(Nodes(tree));
      region := new Region(base, length, prot);
      assert Links(Nodes(tree)) == m;
      root := InsertNew(root, region, tree);
      tree := Graft(tree, Node(region, Leaf, Leaf));
    }

    // mmap of an anonymous region; `fixed` is the address of a MAP_FIXED request, `base` the address used.
    method Map(fixed: Option<nat>, length0: nat, prot: bv64)
      returns (r: Option<nat>, ghost base: nat, ghost region: Region?)
      requires Valid()
      modifies this, Nodes(tree)
      ensures Valid()
      ensures fixed.Some? ==> base == fixed.value && bump == old(bump)
      ensures fixed.None? ==>
        && base >= old(bump) && FindOpen(old(tree), base).None? && bump == base + AlignUp(length0, PAGE)
        && Hops(old(tree), old(bump), AlignUp(length0, PAGE), base)
      ensures r == if AlignUp(length0, PAGE) == 0 || base == 0 || base % PAGE != 0 then None else Some(base)
      ensures fixed.None? && old(Bumped()) ==> base == old(bump) && Bumped()
      ensures r.None? ==> tree == old(tree)
      ensures r.Some? && fixed.None? && old(Disjoint(tree)) ==>
        (Disjoint(tree) <==> ClearAhead(old(tree), base, AlignUp(length0, PAGE)))
      ensures r.Some? ==>
        && region != null && fresh(region)
        && region.base == base && region.limit == AlignUp(length0, PAGE) && region.prot == prot
        && tree == Graft(old(tree), Node(region, Leaf, Leaf)) && Nodes(tree) == Nodes(old(tree)) + {region}
    {
      ghost var m := Links(Nodes(tree));
      var length := AlignUp(length0, PAGE);
      MultipleMod(DivRoundup(length0, PAGE), PAGE);
      var b;
      if fixed.Some? {
        b := fixed.value;
      } else {
        b := FindBase(length);
        bump := b + length;
      }
      base := b;
      assert Links(Nodes(tree)) == m;
      if old(Bumped()) { BumpIsFree(tree, old(bump)); }
      if length == 0 || b == 0 {
        return None, b, null;
      }
      if b % PAGE != 0 || length % PAGE != 0 {
        return None, b, null;
      }
      var added := AddRegion(b, length, prot);
      if fixed.None? && old(Bumped()) { BumpStaysDisjoint(old(tree), old(bump), tree, added); }
      if fixed.None? && old(Disjoint(tree)) { PlacedApart(old(tree), tree, added); }
      return Some(b), b, added;
    }
  }

  // One more region keeps the regions disjoint exactly when it is apart from each of them.
  lemma AddDisjoint(t: Tree, t': Tree, region: Region)
    requires Disjoint(t) && Nodes(t') == Nodes(t) + {region} && region !in Nodes(t)
    ensures Disjoint(t') <==> forall x | x in Nodes(t) :: Apart(region, x)
  {}

  // As long as only bump placement is used, the new region lies behind all others,
  // and the regions stay disjoint and below the pointer.
  lemma BumpStaysDisjoint(t: Tree, bump: nat, t': Tree, region: Region)
    requires Disjoint(t) && forall x | x in Nodes(t) :: End(x) <= bump
    requires region.base == bump && Nodes(t') == Nodes(t) + {region} && region !in Nodes(t)
    ensures Disjoint(t') && forall x | x in Nodes(t') :: End(x) <= bump + region.limit
  {
    AddDisjoint(t, t', region);
  }

  lemma BumpIsFree(t: Tree, bump: nat)
    requires forall x | x in Nodes(t) :: End(x) <= bump
    ensures FindOpen(t, bump).None?
  {
    OpenHolds(t, bump);
  }

  // A page at 0x12000 by MAP_FIXED, then four pages wherever the kernel puts them: they are put over it.
  method FixedThenBump() returns (space: AddressSpace)
    ensures fresh(space) && space.Valid() && !Disjoint(space.tree)
  {
    space := new AddressSpace();
    ghost var base, region, base', region';
    var r, r';
    r, base, region := space.Map(Some(0x12000), 0x1000, 0);
    ghost var before := space.tree;
    assert before == Node(region, Leaf, Leaf) && FindOpen(before, 0x10000) == None;
    r', base', region' := space.Map(None, 0x4000, 0);
    assert region in Nodes(before) && 0x10000 < region.base < 0x10000 + 0x4000;
    assert !ClearAhead(before, 0x10000, 0x4000);
  }
}
