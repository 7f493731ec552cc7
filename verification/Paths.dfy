// Paths (kernel/fs/vfs.c): the printer that follows parent pointers up to the root, and the walker that splits a path
// and descends through the children, following mounts and symbolic links.
module Paths {
  import opened Common

  const MAX_PATH_LENGTH: nat := 4096

  type Node = nat

  datatype Kind = Directory | Link(target: string) | Other

  datatype Info = Info(name: string, kind: Kind, parent: Option<Node>, mount: Option<Node>, children: seq<Node>)

  datatype Fs = Fs(nodes: map<Node, Info>, root: Node)

  // Every pointer leads to a node.
  predicate NodeOk(fs: Fs, info: Info) {
    && (info.parent.Some? ==> info.parent.value in fs.nodes)
    && (info.mount.Some? ==> info.mount.value in fs.nodes)
    && (forall i | 0 <= i < |info.children| :: info.children[i] in fs.nodes)
  }

  predicate Closed(fs: Fs) {
    && fs.root in fs.nodes
    && forall n | n in fs.nodes :: NodeOk(fs, fs.nodes[n])
  }

  // ----- splitting a path -----

  // The number of characters before the first slash.
  function Span(s: string): (n: nat)
    ensures n <= |s| && (s != [] && s[0] != '/' ==> n > 0)
  {
    if s == [] || s[0] == '/' then 0 else 1 + Span(s[1..])
  }

  // The components of a path; repeated, leading and trailing slashes count for nothing.
  function Components(s: string): seq<string>
    decreases |s|
  {
    if s == [] then []
    else if s[0] == '/' then Components(s[1..])
    else [s[..Span(s)]] + Components(s[Span(s)..])
  }

  predicate Plain(name: string) {
    name != "" && '/' !in name
  }

  lemma {:induction false} SpanPlain(name: string, rest: string)
    requires '/' !in name && (rest == [] || rest[0] == '/')
    ensures Span(name + rest) == |name|
  {
    if name == [] {
      assert name + rest == rest;
    } else {
      SpanPlain(name[1..], rest);
      assert (name + rest)[1..] == name[1..] + rest;
    }
  }

  lemma ComponentsFirst(name: string, rest: string)
    requires Plain(name) && (rest == [] || rest[0] == '/')
    ensures Components(name + rest) == [name] + Components(rest)
  {
    SpanPlain(name, rest);
    var s := name + rest;
    assert s[0] == name[0] && s[0] != '/';
    assert s[..|name|] == name && s[|name|..] == rest;
  }

  method SkipSlashes(path: string, from: nat) returns (i: nat)
    requires from <= |path|
    ensures from <= i <= |path| && (i < |path| ==> path[i] != '/')
    ensures Components(path[from..]) == Components(path[i..])
  {
    i := from;
    while i < |path| && path[i] == '/'
      invariant from <= i <= |path|
      invariant Components(path[from..]) == Components(path[i..])
    {
      assert path[i..][1..] == path[i + 1..];
      i := i + 1;
    }
  }

  method SkipName(path: string, from: nat) returns (i: nat)
    requires from < |path| && path[from] != '/'
    ensures from < i <= |path| && i - from == Span(path[from..])
  {
    i := from;
    while i < |path| && path[i] != '/'
      invariant from <= i <= |path|
      invariant Span(path[from..]) == (i - from) + Span(path[i..])
    {
      assert path[i..][1..] == path[i + 1..];
      i := i + 1;
    }
  }

  // The splitting loops shared by the walkers.
  method Split(path: string) returns (list: seq<string>)
    ensures list == Components(path)
  {
    list := [];
    var str := SkipSlashes(path, 0);
    assert path[0..] == path;
    while str < |path|
      invariant str <= |path| && (str < |path| ==> path[str] != '/')
      invariant Components(path) == list + Components(path[str..])
      decreases |path| - str
    {
      var end := SkipName(path, str);
      var next := SkipSlashes(path, end);
      SplitStep(path, str);
      Moved(Components(path), list, path[str..end], Components(path[next..]));
      list, str := list + [path[str..end]], next;
    }
  }

  lemma Moved<T>(all: seq<T>, list: seq<T>, x: T, rest: seq<T>)
    requires all == list + ([x] + rest)
    ensures all == (list + [x]) + rest
  {}

  lemma SplitStep(path: string, str: nat)
    requires str < |path| && path[str] != '/'
    ensures var end := str + Span(path[str..]);
      Components(path[str..]) == [path[str..end]] + Components(path[end..])
  {
    var n := Span(path[str..]);
    DropTake(path, str, n);
  }

  lemma DropTake<T>(s: seq<T>, i: nat, n: nat)
    requires i + n <= |s|
    ensures s[i..][..n] == s[i..i + n] && s[i..][n..] == s[i + n..]
  {}

  // ----- walking -----

  // Looping stands for a search whose links lead back into themselves.
  datatype Answer = Found(node: Node) | Missing | Looping

  function First(fs: Fs, list: seq<Node>, name: string): (r: Option<Node>)
    requires forall i | 0 <= i < |list| :: list[i] in fs.nodes
    ensures r.Some? ==> r.value in list && fs.nodes[r.value].name == name
    ensures r.None? ==> forall i | 0 <= i < |list| :: fs.nodes[list[i]].name != name
  {
    if list == [] then None
    else if fs.nodes[list[0]].name == name then Some(list[0])
    else First(fs, list[1..], name)
  }

  function Entry(fs: Fs, parent: Node, name: string): (r: Option<Node>)
    requires Closed(fs) && parent in fs.nodes
    ensures r.Some? ==> r.value in fs.nodes
  {
    assert NodeOk(fs, fs.nodes[parent]);
    First(fs, fs.nodes[parent].children, name)
  }

  // The directory a walk goes on from.
  function Enter(fs: Fs, n: Node): (r: Node)
    requires Closed(fs) && n in fs.nodes
    ensures r in fs.nodes
  {
    assert NodeOk(fs, fs.nodes[n]);
    if fs.nodes[n].mount.Some? then fs.nodes[n].mount.value else n
  }

  // vfs_search_relative; `links` bounds the links that may still be followed.
  function SearchRelative(fs: Fs, parent: Node, name: string, follow: bool, links: nat): (r: Answer)
    requires Closed(fs) && parent in fs.nodes
    ensures r.Found? ==> r.node in fs.nodes
    decreases links, 0, 0
  {
    if name == "." then Found(parent)
    else if name == ".." then
      assert NodeOk(fs, fs.nodes[parent]);
      if fs.nodes[parent].parent.Some? then Found(fs.nodes[parent].parent.value) else Missing
    else
      var e := Entry(fs, parent, name);
      if e.None? then Missing
      else if follow && fs.nodes[e.value].kind.Link? then
        var target := fs.nodes[e.value].kind.target;
        if links == 0 then Looping
        else SearchAbsolute(fs, if target != "" && target[0] == '/' then fs.root else parent, target, true, links - 1)
      else Found(e.value)
  }

  // The descent of vfs_search_absolute.
  function Walk(fs: Fs, parent: Node, list: seq<string>, follow: bool, links: nat): (r: Answer)
    requires Closed(fs) && parent in fs.nodes && list != []
    ensures r.Found? ==> r.node in fs.nodes
    decreases links, 1, |list|
  {
    if |list| == 1 then SearchRelative(fs, parent, list[0], follow, links)
    else
      var r := SearchRelative(fs, parent, list[0], true, links);
      if !r.Found? then r
      else
        var next := Enter(fs, r.node);
        if !fs.nodes[next].kind.Directory? then Missing else Walk(fs, next, list[1..], follow, links)
  }

  // vfs_search_absolute. A path without components means the root, whatever the parent.
  function SearchAbsolute(fs: Fs, parent: Node, path: string, follow: bool, links: nat): (r: Answer)
    requires Closed(fs) && parent in fs.nodes
    ensures r.Found? ==> r.node in fs.nodes
    decreases links, 2, 0
  {
    var list := Components(path);
    if list == [] then Found(fs.root) else Walk(fs, parent, list, follow, links)
  }

  // The descending loop of vfs_search_absolute.
  method SearchPath(fs: Fs, from: Option<Node>, path: string, follow: bool, links: nat) returns (r: Answer)
    requires Closed(fs) && (from.Some? ==> from.value in fs.nodes)
    ensures r == SearchAbsolute(fs, if from.Some? then from.value else fs.root, path, follow, links)
  {
    var parent := if from.Some? then from.value else fs.root;
    var list := Split(path);
    if |list| == 0 {
      return Found(fs.root);
    }
    ghost var goal := Walk(fs, parent, list, follow, links);
    assert list[0..] == list;
    for i := 0 to |list| - 1
      invariant parent in fs.nodes && Walk(fs, parent, list[i..], follow, links) == goal
    {
      assert list[i..][1..] == list[i + 1..];
      r := SearchRelative(fs, parent, list[i], true, links);
      if !r.Found? {
        return r;
      }
      parent := Enter(fs, r.node);
      if !fs.nodes[parent].kind.Directory? {
        return Missing;
      }
    }
    r := SearchRelative(fs, parent, list[|list| - 1], follow, links);
  }

  // ----- printing -----

  // The nodes from the root down to a node, by parent pointers.
  ghost predicate IsChain(fs: Fs, c: seq<Node>) {
    && c != [] && c[0] == fs.root
    && (forall i | 0 <= i < |c| :: c[i] in fs.nodes)
    && fs.nodes[fs.root].parent == None
    && forall i | 0 < i < |c| :: fs.nodes[c[i]].parent == Some(c[i - 1])
  }

  function Piece(info: Info): string {
    if info.kind.Directory? then info.name + "/" else info.name
  }

  function Print(fs: Fs, c: seq<Node>): string
    requires forall i | 0 <= i < |c| :: c[i] in fs.nodes
  {
    if c == [] then "" else Piece(fs.nodes[c[0]]) + Print(fs, c[1..])
  }

  function Names(fs: Fs, c: seq<Node>): seq<string>
    requires forall i | 0 <= i < |c| :: c[i] in fs.nodes
  {
    seq(|c|, i requires 0 <= i < |c| => fs.nodes[c[i]].name)
  }

  lemma {:induction false} PrintAppend(fs: Fs, c: seq<Node>, n: Node)
    requires (forall i | 0 <= i < |c| :: c[i] in fs.nodes) && n in fs.nodes
    ensures Print(fs, c + [n]) == Print(fs, c) + Piece(fs.nodes[n])
  {
    if c == [] {
      assert c + [n] == [n];
    } else {
      PrintAppend(fs, c[1..], n);
      assert (c + [n])[1..] == c[1..] + [n];
    }
  }

  // vfs_absolute_path of a node, the last of c. The buffer must hold the text and its terminator.
  method AbsolutePath(fs: Fs, n: Node, ghost c: seq<Node>) returns (path: string)
    requires IsChain(fs, c) && n == c[|c| - 1]
    requires Piece(fs.nodes[fs.root]) != "" && |Print(fs, c)| < MAX_PATH_LENGTH
    ensures path == Print(fs, c)[1..]
  {
    var list, node := [], Some(n);
    ghost var k := |c|;
    while node.Some?
      invariant 0 <= k <= |c| && node == if k == 0 then None else Some(c[k - 1])
      invariant |list| == |c| - k && forall i | 0 <= i < |list| :: list[i] == c[|c| - 1 - i]
      decreases k
    {
      list := list + [node.value];
      node := fs.nodes[node.value].parent;
      k := k - 1;
    }
    var ret := "";
    for i := |list| downto 0
      invariant ret == Print(fs, c[..|c| - i])
    {
      var info := fs.nodes[list[i]];
      ret := ret + if info.kind.Directory? then info.name + "/" else info.name;
      assert c[..|c| - i] == c[..|c| - i - 1] + [c[|c| - i - 1]];
      PrintAppend(fs, c[..|c| - i - 1], c[|c| - i - 1]);
    }
    assert c[..|c|] == c;
    path := ret[1..];
  }

  // ----- the walker undoes the printer -----

  predicate ProperName(name: string) {
    Plain(name) && name != "." && name != ".."
  }

  // What a walk meets on its way down from p: under the name of n, first of all, it finds n, or for the directories
  // it passes through, an entry on which n is mounted.
  ghost predicate Leads(fs: Fs, p: Node, n: Node, last: bool)
    requires Closed(fs) && p in fs.nodes && n in fs.nodes
  {
    var e := Entry(fs, p, fs.nodes[n].name);
    && ProperName(fs.nodes[n].name) && fs.nodes[p].kind.Directory?
    && e.Some?
    && if last then e.value == n else fs.nodes[e.value].kind.Directory? && Enter(fs, e.value) == n
  }

  // The last node of c can be reached from the root under the names it is printed with.
  ghost predicate Visible(fs: Fs, c: seq<Node>) {
    && Closed(fs) && IsChain(fs, c)
    && fs.nodes[fs.root].name == "/" && fs.nodes[fs.root].kind.Directory?
    && forall i | 0 < i < |c| :: Leads(fs, c[i - 1], c[i], i == |c| - 1)
  }

  lemma {:induction false} PrintComponents(fs: Fs, c: seq<Node>)
    requires forall i | 0 <= i < |c| :: c[i] in fs.nodes && Plain(fs.nodes[c[i]].name)
    requires forall i | 0 <= i < |c| - 1 :: fs.nodes[c[i]].kind.Directory?
    ensures Components(Print(fs, c)) == Names(fs, c)
  {
    if c != [] {
      var info, rest := fs.nodes[c[0]], Print(fs, c[1..]);
      assert Plain(info.name);
      PrintComponents(fs, c[1..]);
      assert Names(fs, c) == [info.name] + Names(fs, c[1..]);
      if info.kind.Directory? {
        ComponentsFirst(info.name, "/" + rest);
        assert info.name + "/" + rest == info.name + ("/" + rest);
        assert ("/" + rest)[1..] == rest;
      } else {
        assert c[1..] == [];
        ComponentsFirst(info.name, rest);
      }
    }
  }

  lemma {:induction false} WalkChain(fs: Fs, c: seq<Node>, k: nat, follow: bool, links: nat)
    requires Visible(fs, c) && 0 < k < |c|
    requires follow ==> !fs.nodes[c[|c| - 1]].kind.Link?
    ensures Walk(fs, c[k - 1], Names(fs, c[k..]), follow, links) == Found(c[|c| - 1])
    decreases |c| - k
  {
    assert Leads(fs, c[k - 1], c[k], k == |c| - 1);
    if k < |c| - 1 {
      assert Leads(fs, c[k], c[k + 1], k + 1 == |c| - 1);
      WalkChain(fs, c, k + 1, follow, links);
      assert Names(fs, c[k..])[1..] == Names(fs, c[k + 1..]);
    }
  }

  lemma BelowRoot(fs: Fs, c: seq<Node>)
    requires Visible(fs, c)
    ensures forall i | 0 <= i < |c[1..]| :: c[1..][i] in fs.nodes && Plain(fs.nodes[c[1..][i]].name)
    ensures forall i | 0 <= i < |c[1..]| - 1 :: fs.nodes[c[1..][i]].kind.Directory?
  {
    var d := c[1..];
    forall i | 0 <= i < |d|
      ensures d[i] in fs.nodes && Plain(fs.nodes[d[i]].name)
    {
      assert Leads(fs, c[i], c[i + 1], i + 1 == |c| - 1);
    }
    forall i | 0 <= i < |d| - 1
      ensures fs.nodes[d[i]].kind.Directory?
    {
      assert Leads(fs, c[i + 1], c[i + 2], i + 2 == |c| - 1);
    }
  }

  // The printed path of a node, without its first character, has the names below the root as components.
  lemma PathComponents(fs: Fs, c: seq<Node>)
    requires Visible(fs, c)
    ensures Components(Print(fs, c)[1..]) == Names(fs, c[1..])
  {
    BelowRoot(fs, c);
    PrintComponents(fs, c[1..]);
    RootPrint(fs, c);
  }

  lemma RootPrint(fs: Fs, c: seq<Node>)
    requires (forall i | 0 <= i < |c| :: c[i] in fs.nodes) && c != []
    requires fs.nodes[c[0]].name == "/" && fs.nodes[c[0]].kind.Directory?
    ensures Components(Print(fs, c)[1..]) == Components(Print(fs, c[1..]))
  {
    var rest := Print(fs, c[1..]);
    assert Print(fs, c)[1..] == "/" + rest;
    assert ("/" + rest)[1..] == rest;
  }

  // Walking the printed path of a node gives the node back, from any starting directory and with no link to follow.
  lemma WalkUndoesPrint(fs: Fs, c: seq<Node>, parent: Node, links: nat)
    requires Visible(fs, c) && (|c| > 1 ==> parent == fs.root) && parent in fs.nodes
    ensures SearchAbsolute(fs, parent, Print(fs, c)[1..], false, links) == Found(c[|c| - 1])
  {
    PathComponents(fs, c);
    if |c| > 1 {
      WalkChain(fs, c, 1, false, links);
    }
  }

  // ----- trees without mounts -----

  // Parents and children agree, only directories have children, and siblings have different, proper names. The two
  // entries named "." and ".." that every directory holds are never found by name and are left out of the children.
  ghost predicate ChildOk(fs: Fs, p: Node, i: nat)
    requires p in fs.nodes && i < |fs.nodes[p].children|
  {
    var n := fs.nodes[p].children[i];
    n in fs.nodes && fs.nodes[n].parent == Some(p) && ProperName(fs.nodes[n].name)
  }

  ghost predicate DirectoryOk(fs: Fs, p: Node)
    requires p in fs.nodes
  {
    var info := fs.nodes[p];
    && info.mount == None && (info.children != [] ==> info.kind.Directory?)
    && (forall i | 0 <= i < |info.children| :: ChildOk(fs, p, i))
    && forall i, j | 0 <= i < j < |info.children| && info.children[i] in fs.nodes && info.children[j] in fs.nodes ::
        fs.nodes[info.children[i]].name != fs.nodes[info.children[j]].name
  }

  ghost predicate Tree(fs: Fs) {
    && Closed(fs)
    && fs.nodes[fs.root].name == "/" && fs.nodes[fs.root].kind.Directory? && fs.nodes[fs.root].parent == None
    && (forall p {:trigger DirectoryOk(fs, p)} | p in fs.nodes :: DirectoryOk(fs, p))
    && (forall n {:trigger Listed(fs, n)} | n in fs.nodes :: Listed(fs, n))
  }

  // A node is among the children of its parent.
  ghost predicate Listed(fs: Fs, n: Node)
    requires n in fs.nodes
  {
    var parent := fs.nodes[n].parent;
    parent.Some? ==> parent.value in fs.nodes && n in fs.nodes[parent.value].children
  }

  lemma EntryOfChild(fs: Fs, p: Node, n: Node)
    requires Tree(fs) && p in fs.nodes && n in fs.nodes && n in fs.nodes[p].children
    ensures Entry(fs, p, fs.nodes[n].name) == Some(n)
    ensures ProperName(fs.nodes[n].name) && fs.nodes[p].kind.Directory? && Enter(fs, n) == n
  {
    var list := fs.nodes[p].children;
    var e := Entry(fs, p, fs.nodes[n].name);
    assert DirectoryOk(fs, p) && DirectoryOk(fs, n);
    var i :| 0 <= i < |list| && list[i] == n;
    assert ChildOk(fs, p, i);
    assert e.Some?;
    var j :| 0 <= j < |list| && list[j] == e.value;
    assert i == j;
  }

  lemma TreeVisible(fs: Fs, c: seq<Node>)
    requires Tree(fs) && IsChain(fs, c)
    ensures Visible(fs, c)
  {
    forall i | 0 < i < |c|
      ensures Leads(fs, c[i - 1], c[i], i == |c| - 1)
    {
      assert Listed(fs, c[i]);
      EntryOfChild(fs, c[i - 1], c[i]);
      if i < |c| - 1 {
        assert Listed(fs, c[i + 1]);
        EntryOfChild(fs, c[i], c[i + 1]);
      }
    }
  }

  // In every such tree each node of a chain from the root is the answer to its own printed path.
  lemma TreeRoundTrip(fs: Fs, c: seq<Node>, links: nat)
    requires Tree(fs) && IsChain(fs, c)
    ensures SearchAbsolute(fs, fs.root, Print(fs, c)[1..], false, links) == Found(c[|c| - 1])
  {
    TreeVisible(fs, c);
    WalkUndoesPrint(fs, c, fs.root, links);
  }

  // ----- the printer undoes the walker -----

  // The walk of the components meets no "." or ".." and follows no link.
  ghost predicate Direct(fs: Fs, parent: Node, list: seq<string>, follow: bool)
    requires Closed(fs) && parent in fs.nodes
    decreases |list|
  {
    list != [] ==>
      var e := Entry(fs, parent, list[0]);
      && ProperName(list[0])
      && (e.Some? && (follow || |list| > 1) ==> !fs.nodes[e.value].kind.Link?)
      && (e.Some? ==> Direct(fs, Enter(fs, e.value), list[1..], follow))
  }

  lemma ChainExtends(fs: Fs, c: seq<Node>, name: string)
    requires Tree(fs) && IsChain(fs, c) && Entry(fs, c[|c| - 1], name).Some?
    ensures var e := Entry(fs, c[|c| - 1], name).value;
      IsChain(fs, c + [e]) && fs.nodes[e].name == name && Enter(fs, e) == e
  {
    var p := c[|c| - 1];
    var e := Entry(fs, p, name).value;
    assert DirectoryOk(fs, p) && DirectoryOk(fs, e);
    var i :| 0 <= i < |fs.nodes[p].children| && fs.nodes[p].children[i] == e;
    assert ChildOk(fs, p, i);
  }

  // One step of a direct walk in such a tree.
  lemma DirectStep(fs: Fs, parent: Node, list: seq<string>, follow: bool, links: nat)
    requires Tree(fs) && parent in fs.nodes && list != [] && Direct(fs, parent, list, follow)
    requires Walk(fs, parent, list, follow, links).Found?
    ensures var e := Entry(fs, parent, list[0]);
      && e.Some?
      && (|list| == 1 ==> Walk(fs, parent, list, follow, links) == Found(e.value))
      && (|list| > 1 ==>
            && Direct(fs, e.value, list[1..], follow)
            && Walk(fs, e.value, list[1..], follow, links) == Walk(fs, parent, list, follow, links))
  {
    var e := Entry(fs, parent, list[0]);
    if e.Some? { assert DirectoryOk(fs, e.value); }
  }

  lemma JoinChain(fs: Fs, c: seq<Node>, e: Node, d: seq<Node>, list: seq<string>)
    requires list != [] && e in fs.nodes && fs.nodes[e].name == list[0]
    requires |d| == |c| + |list| && d[..|c| + 1] == c + [e] && forall i | 0 <= i < |d| :: d[i] in fs.nodes
    requires forall i | |c| + 1 <= i < |d| :: fs.nodes[d[i]].name == list[1..][i - |c| - 1]
    ensures d[..|c|] == c && forall i | |c| <= i < |d| :: fs.nodes[d[i]].name == list[i - |c|]
  {
    assert d[|c|] == d[..|c| + 1][|c|] == e;
    assert d[..|c|] == d[..|c| + 1][..|c|];
  }

  // From the node at the end of a chain, a direct walk that succeeds ends at the end of a longer chain, whose new
  // names are the components.
  lemma {:induction false} WalkExtends(fs: Fs, c: seq<Node>, list: seq<string>, follow: bool, links: nat)
    returns (d: seq<Node>)
    requires Tree(fs) && IsChain(fs, c) && list != [] && Direct(fs, c[|c| - 1], list, follow)
    requires Walk(fs, c[|c| - 1], list, follow, links).Found?
    ensures IsChain(fs, d) && |d| == |c| + |list| && d[..|c|] == c
    ensures forall i | |c| <= i < |d| :: fs.nodes[d[i]].name == list[i - |c|]
    ensures Walk(fs, c[|c| - 1], list, follow, links) == Found(d[|d| - 1])
    decreases |list|
  {
    DirectStep(fs, c[|c| - 1], list, follow, links);
    ChainExtends(fs, c, list[0]);
    var e := Entry(fs, c[|c| - 1], list[0]).value;
    if |list| == 1 {
      d := c + [e];
    } else {
      d := WalkExtends(fs, c + [e], list[1..], follow, links);
      JoinChain(fs, c, e, d, list);
    }
  }

  lemma ChainOfWalk(fs: Fs, list: seq<string>, follow: bool, links: nat) returns (c: seq<Node>)
    requires Tree(fs) && Direct(fs, fs.root, list, follow)
    requires list != [] ==> Walk(fs, fs.root, list, follow, links).Found?
    ensures IsChain(fs, c) && Names(fs, c[1..]) == list
    ensures Found(c[|c| - 1]) == if list == [] then Found(fs.root) else Walk(fs, fs.root, list, follow, links)
  {
    c := [fs.root];
    if list != [] {
      c := WalkExtends(fs, c, list, follow, links);
    }
    ChainNames(fs, c, list);
  }

  lemma ChainPrints(fs: Fs, c: seq<Node>)
    requires Tree(fs) && IsChain(fs, c)
    ensures Components(Print(fs, c)[1..]) == Names(fs, c[1..])
  {
    TreeVisible(fs, c);
    PathComponents(fs, c);
  }

  // Printing what a direct walk from the root found gives a path with the same components.
  lemma PrintUndoesWalk(fs: Fs, path: string, follow: bool, links: nat) returns (c: seq<Node>)
    requires Tree(fs) && Direct(fs, fs.root, Components(path), follow)
    requires SearchAbsolute(fs, fs.root, path, follow, links).Found?
    ensures IsChain(fs, c) && SearchAbsolute(fs, fs.root, path, follow, links) == Found(c[|c| - 1])
    ensures Components(Print(fs, c)[1..]) == Components(path)
  {
    c := ChainOfWalk(fs, Components(path), follow, links);
    ChainPrints(fs, c);
  }

  lemma ChainNames(fs: Fs, c: seq<Node>, names: seq<string>)
    requires |c| == |names| + 1 && forall i | 0 <= i < |c| :: c[i] in fs.nodes
    requires forall i | 1 <= i < |c| :: fs.nodes[c[i]].name == names[i - 1]
    ensures Names(fs, c[1..]) == names
  {}

  // ----- dots and links -----

  lemma DotsOf(name: string)
    requires Plain(name)
    ensures Components(name + "/..") == [name, ".."] && Components(name + "/.") == [name, "."]
  {
    ComponentsFirst(name, "/..");
    ComponentsFirst(name, "/.");
    ComponentsFirst("..", "");
    ComponentsFirst(".", "");
    assert "/.."[1..] == ".." && "/."[1..] == "." && ".." + "" == ".." && "." + "" == ".";
  }

  // Down into a subdirectory and up again is where the walk began, and "." is where it is.
  lemma UpUndoesDown(fs: Fs, p: Node, n: Node, follow: bool, links: nat)
    requires Tree(fs) && p in fs.nodes && n in fs.nodes && n in fs.nodes[p].children && fs.nodes[n].kind.Directory?
    ensures SearchAbsolute(fs, p, fs.nodes[n].name + "/..", follow, links) == Found(p)
    ensures SearchAbsolute(fs, p, fs.nodes[n].name + "/.", follow, links) == Found(n)
  {
    EntryOfChild(fs, p, n);
    ParentOfChild(fs, p, n);
    DotsOf(fs.nodes[n].name);
    StepDown(fs, p, n, "..", follow, links);
    StepDown(fs, p, n, ".", follow, links);
  }

  lemma ParentOfChild(fs: Fs, p: Node, n: Node)
    requires Tree(fs) && p in fs.nodes && n in fs.nodes[p].children
    ensures n in fs.nodes && fs.nodes[n].parent == Some(p)
  {
    assert DirectoryOk(fs, p);
    var i :| 0 <= i < |fs.nodes[p].children| && fs.nodes[p].children[i] == n;
    assert ChildOk(fs, p, i);
  }

  lemma StepDown(fs: Fs, p: Node, n: Node, last: string, follow: bool, links: nat)
    requires Closed(fs) && p in fs.nodes && n in fs.nodes && fs.nodes[n].kind.Directory? && Enter(fs, n) == n
    requires ProperName(fs.nodes[n].name) && Entry(fs, p, fs.nodes[n].name) == Some(n)
    ensures Walk(fs, p, [fs.nodes[n].name, last], follow, links) == SearchRelative(fs, n, last, follow, links)
  {
    assert [fs.nodes[n].name, last][1..] == [last];
  }

  // There is nothing above the root.
  lemma NothingAbove(fs: Fs, follow: bool, links: nat)
    requires Tree(fs)
    ensures SearchAbsolute(fs, fs.root, "..", follow, links) == Missing
  {
    OneComponent("..");
    assert SearchRelative(fs, fs.root, "..", follow, links) == Missing;
  }

  lemma OneComponent(name: string)
    requires Plain(name)
    ensures Components(name) == [name]
  {
    ComponentsFirst(name, "");
    assert name + "" == name;
  }

  // A link is the answer itself unless it is to be followed.
  lemma LinkItself(fs: Fs, p: Node, name: string, links: nat)
    requires Closed(fs) && p in fs.nodes && ProperName(name) && Entry(fs, p, name).Some?
    ensures SearchRelative(fs, p, name, false, links) == Found(Entry(fs, p, name).value)
  {}

  // A link that holds the printed path of a node leads to that node, from whatever directory it is met in.
  lemma AbsoluteLink(fs: Fs, p: Node, name: string, c: seq<Node>, links: nat)
    requires Tree(fs) && p in fs.nodes && ProperName(name) && Entry(fs, p, name).Some? && links > 0
    requires IsChain(fs, c) && !fs.nodes[c[|c| - 1]].kind.Link?
    requires fs.nodes[Entry(fs, p, name).value].kind == Link(Print(fs, c)[1..])
    ensures SearchRelative(fs, p, name, true, links) == Found(c[|c| - 1])
  {
    TreeVisible(fs, c);
    PathComponents(fs, c);
    RootFirst(fs, c);
    if |c| > 1 { WalkChain(fs, c, 1, true, links - 1); }
  }

  lemma RootFirst(fs: Fs, c: seq<Node>)
    requires Closed(fs) && IsChain(fs, c) && fs.nodes[fs.root].name == "/" && fs.nodes[fs.root].kind.Directory?
    ensures Print(fs, c)[1..] != "" && Print(fs, c)[1..][0] == '/'
  {
    assert Print(fs, c) == Piece(fs.nodes[c[0]]) + Print(fs, c[1..]);
  }

  // A link that holds a plain name leads to the entry of that name beside it.
  lemma RelativeLink(fs: Fs, p: Node, name: string, target: string, links: nat)
    requires Closed(fs) && p in fs.nodes && ProperName(name) && Entry(fs, p, name).Some? && links > 0
    requires ProperName(target) && fs.nodes[Entry(fs, p, name).value].kind == Link(target)
    requires Entry(fs, p, target).Some? && !fs.nodes[Entry(fs, p, target).value].kind.Link?
    ensures SearchRelative(fs, p, name, true, links) == Found(Entry(fs, p, target).value)
  {
    OneComponent(target);
    assert target[0] != '/';
    assert SearchAbsolute(fs, p, target, true, links - 1) == SearchRelative(fs, p, target, true, links - 1);
  }

  // A walk does not go through what is not a directory.
  lemma OnlyThroughDirectories(fs: Fs, p: Node, name: string, rest: seq<string>, follow: bool, links: nat)
    requires Closed(fs) && p in fs.nodes && ProperName(name) && rest != []
    requires Entry(fs, p, name).Some? && !fs.nodes[Entry(fs, p, name).value].kind.Link?
    requires !fs.nodes[Enter(fs, Entry(fs, p, name).value)].kind.Directory?
    ensures Walk(fs, p, [name] + rest, follow, links) == Missing
  {
    assert ([name] + rest)[0] == name;
  }

  // ----- the printed text -----

  // Slashes stand alone.
  predicate SingleSlashes(s: string) {
    forall i | 0 <= i < |s| - 1 :: !(s[i] == '/' && s[i + 1] == '/')
  }

  predicate EndsWithSlash(s: string) { s != "" && s[|s| - 1] == '/' }

  lemma SingleJoin(a: string, b: string)
    requires SingleSlashes(a) && SingleSlashes(b) && !(EndsWithSlash(a) && b != "" && b[0] == '/')
    ensures SingleSlashes(a + b)
  {}

  // Names below the root, as they are printed: no empty piece, single slashes, a slash at the end exactly for a
  // directory.
  lemma {:induction false} PieceText(fs: Fs, c: seq<Node>)
    requires c != [] && forall i | 0 <= i < |c| :: c[i] in fs.nodes && Plain(fs.nodes[c[i]].name)
    requires forall i | 0 <= i < |c| - 1 :: fs.nodes[c[i]].kind.Directory?
    ensures Print(fs, c) != "" && Print(fs, c)[0] != '/' && SingleSlashes(Print(fs, c))
    ensures EndsWithSlash(Print(fs, c)) <==> fs.nodes[c[|c| - 1]].kind.Directory?
  {
    var info := fs.nodes[c[0]];
    assert Plain(info.name);
    NameText(info);
    if |c| == 1 {
      assert Print(fs, c) == Piece(info) + "" == Piece(info);
    } else {
      PieceText(fs, c[1..]);
      SingleJoin(Piece(info), Print(fs, c[1..]));
    }
  }

  lemma NameText(info: Info)
    requires Plain(info.name)
    ensures Piece(info) != "" && Piece(info)[0] != '/' && SingleSlashes(Piece(info))
    ensures EndsWithSlash(Piece(info)) <==> info.kind.Directory?
  {
    forall i | 0 <= i < |info.name|
      ensures info.name[i] != '/'
    {
      assert info.name[i] in info.name;
    }
  }

  // The printed path begins with one slash, has single slashes throughout, and ends with one exactly for a directory.
  lemma PathText(fs: Fs, c: seq<Node>)
    requires Visible(fs, c)
    ensures var path := Print(fs, c)[1..];
      path != "" && path[0] == '/' && SingleSlashes(path) &&
      (EndsWithSlash(path) <==> fs.nodes[c[|c| - 1]].kind.Directory?)
  {
    BelowRoot(fs, c);
    RootText(fs, c);
    if |c| > 1 {
      PieceText(fs, c[1..]);
      SingleJoin("/", Print(fs, c[1..]));
    }
  }

  lemma RootText(fs: Fs, c: seq<Node>)
    requires IsChain(fs, c) && fs.nodes[fs.root].name == "/" && fs.nodes[fs.root].kind.Directory?
    ensures Print(fs, c)[1..] == "/" + Print(fs, c[1..])
  {
    assert Piece(fs.nodes[c[0]]) == "//";
    assert Print(fs, c) == "//" + Print(fs, c[1..]);
  }
}
