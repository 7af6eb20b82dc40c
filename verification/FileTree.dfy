/**
  The overlay tree in memory: nodes linked through subdir, next and prev, and the insertion
  routine that relinks them in place. Every insertion is proved to be the path map update of Overlay.
*/
module FileTrees {
  import opened CText
  import opened Overlay

  datatype Kind = KDir | KFile | KLink | KNode | KPipe | KSock

  function KindOf(n: Node): Kind {
    match n
    case Dir => KDir
    case File => KFile
    case Link(_) => KLink
    case Device(_, _, _) => KNode
    case Pipe => KPipe
    case Sock => KSock
  }

  class FileTree {
    var kind: Kind
    var name: string
    var source: Option<string>
    var link: string
    var mode: int
    var uid: int
    var gid: int
    var inodeType: char
    var major: nat
    var minor: nat
    var subdir: FileTree?
    var next: FileTree?
    var prev: FileTree?
    // The children, in the order of the list that starts at subdir.
    ghost var kids: seq<FileTree>
    // The directory it is listed in, and its path from the top.
    ghost var parent: FileTree?
    ghost var where: Path

    // Fields that the type of the node gives no meaning to are not part of its entry.
    function Node(): Node
      reads this`kind, this`link, this`inodeType, this`major, this`minor
    {
      match kind
      case KDir => Dir
      case KFile => File
      case KLink => Link(link)
      case KNode => Device(inodeType, major, minor)
      case KPipe => Pipe
      case KSock => Sock
    }

    function Entry(): Entry
      reads this`kind, this`link, this`inodeType, this`major, this`minor
      reads this`source, this`mode, this`uid, this`gid
    {
      Overlay.Entry(Node(), source, mode, uid, gid)
    }

    // A detached node holding `e`.
    constructor (e: Entry)
      ensures Entry() == e && Detached()
    {
      kind, source, mode, uid, gid := KindOf(e.node), e.source, e.mode, e.uid, e.gid;
      name, link, inodeType, major, minor := "", "", NUL, 0, 0;
      subdir, next, prev, kids, parent, where := null, null, null, [], null, [];
      match e.node {
        case Link(target) => link := target;
        case Device(t, ma, mi) => inodeType, major, minor := t, ma, mi;
        case _ =>
      }
    }

    // The directory invented for a path component that is not in the tree.
    constructor Missing(nm: string)
      ensures Entry() == DEFAULT_DIR && name == nm && Detached()
    {
      kind, source, mode, uid, gid := KDir, None, 0x1ED, 0, 0;
      name, link, inodeType, major, minor := nm, "", NUL, 0, 0;
      subdir, next, prev, kids, parent, where := null, null, null, [], null, [];
    }

    ghost predicate Detached()
      reads this`subdir, this`kids
    {
      subdir == null && kids == []
    }

    // Takes over source, mode and owner.
    method TakeFrom(other: FileTree)
      requires other != this
      modifies this`source, this`mode, this`uid, this`gid
      ensures Entry() == Overlay.Entry(old(Node()), other.source, other.mode, other.uid, other.gid)
    {
      source, mode, uid, gid := other.source, other.mode, other.uid, other.gid;
    }
  }

  const ROOT_DIR: Entry := Overlay.Entry(Dir, None, 0x16D, 0, 0)

  function Head(kids: seq<FileTree>): FileTree? {
    if kids == [] then null else kids[0]
  }

  function Preceding(kids: seq<FileTree>, i: nat): FileTree?
    requires i < |kids|
  {
    if i == 0 then null else kids[i - 1]
  }

  function Following(kids: seq<FileTree>, i: nat): FileTree?
    requires i < |kids|
  {
    if i + 1 == |kids| then null else kids[i + 1]
  }

  // `to` is `from` with x put in at position i.
  ghost predicate IsSplice(from: seq<FileTree>, to: seq<FileTree>, i: nat, x: FileTree) {
    && i <= |from| && |to| == |from| + 1 && to[i] == x
    && (forall k {:trigger to[k]} :: 0 <= k < i ==> to[k] == from[k])
    && (forall k {:trigger to[k]} :: i < k <= |from| ==> to[k] == from[k - 1])
  }

  lemma Splice(from: seq<FileTree>, i: nat, x: FileTree) returns (to: seq<FileTree>)
    requires i <= |from|
    ensures IsSplice(from, to, i, x)
  {
    to := from[..i] + [x] + from[i..];
  }

  // x takes the place in front of cur in cur's list.
  method LinkBefore(cur: FileTree, x: FileTree)
    requires cur.prev != null && x != cur && x != cur.prev && cur != cur.prev
    modifies x`prev, x`next, cur`prev, cur.prev`next
    ensures x.prev == old(cur.prev) && x.next == cur && old(cur.prev).next == x && cur.prev == x
  {
    x.prev, x.next := cur.prev, cur;
    cur.prev.next := x;
    cur.prev := x;
  }

  // x follows tmp at the end of its list.
  method LinkTail(tmp: FileTree, x: FileTree)
    requires x != tmp
    modifies x`prev, x`next, tmp`next
    ensures tmp.next == x && x.prev == tmp && x.next == null
  {
    tmp.next := x;
    x.prev, x.next := tmp, null;
  }

  // x becomes the first entry of cur's list.
  method LinkTop(cur: FileTree, x: FileTree)
    requires cur.subdir != null && x != cur.subdir
    modifies x`prev, x`next, cur`subdir, cur.subdir`prev
    ensures x.prev == null && x.next == old(cur.subdir) && old(cur.subdir).prev == x && cur.subdir == x
  {
    x.next, x.prev := cur.subdir, null;
    cur.subdir.prev := x;
    cur.subdir := x;
  }

  class Image {
    var top: FileTree
    ghost var nodes: set<FileTree>
    // The path map that the linked nodes stand for.
    ghost var contents: Tree

    // The empty tree: only the top directory, 0555 and owned by root.
    constructor ()
      ensures Valid() && fresh(nodes) && contents == map[[] := Overlay.Entry(Dir, None, 0x16D, 0, 0)]
    {
      var t := new FileTree(ROOT_DIR);
      t.name, t.where := "/", [];
      top, nodes, contents := t, {t}, map[[] := ROOT_DIR];
      new;
      assert Owned([]);
    }

    // Every node but the top is in the list of its parent.
    ghost predicate Named(n: FileTree)
      reads this, nodes, n
    {
      if n == top then n.where == []
      else n.parent != null && n.parent in nodes && n in n.parent.kids && n.where == n.parent.where + [n.name]
    }

    // The list below n: strictly ascending names, next and prev inverse to each other,
    // no node of another directory in it.
    ghost predicate Listed(n: FileTree)
      reads this, nodes, n
    {
      && Linked(n)
      && (forall i, j {:trigger StrLess(n.kids[i].name, n.kids[j].name)} :: 0 <= i < j < |n.kids| ==>
            StrLess(n.kids[i].name, n.kids[j].name))
    }

    ghost predicate Linked(n: FileTree)
      reads this, nodes, n
    {
      && n.subdir == Head(n.kids)
      && (forall i :: 0 <= i < |n.kids| ==> n.kids[i] in nodes && n.kids[i] != top && n.kids[i].parent == n)
      && (forall i {:trigger n.kids[i].prev} :: 0 <= i < |n.kids| ==> n.kids[i].prev == Preceding(n.kids, i))
      && (forall i {:trigger n.kids[i].next} :: 0 <= i < |n.kids| ==> n.kids[i].next == Following(n.kids, i))
    }

    ghost predicate Recorded(n: FileTree)
      reads this, n
    {
      n.where in contents && contents[n.where] == n.Entry()
    }

    ghost predicate Owned(p: Path)
      reads this, nodes
    {
      exists n :: n in nodes && n.where == p
    }

    // No two nodes have the same path.
    ghost predicate Distinct()
      reads this, nodes
    {
      forall n, m {:trigger n.where, m.where} :: n in nodes && m in nodes && n.where == m.where ==> n == m
    }

    ghost predicate Valid()
      reads this, nodes
    {
      && top in nodes
      && (forall n {:trigger Named(n)} :: n in nodes ==> Named(n))
      && (forall n {:trigger Listed(n)} :: n in nodes ==> Listed(n))
      && (forall n {:trigger Recorded(n)} :: n in nodes ==> Recorded(n))
      && (forall p {:trigger Owned(p)} :: p in contents ==> Owned(p))
      && Distinct()
    }

    lemma ContentsClosed()
      requires Valid()
      ensures PrefixClosed(contents)
    {
      assert Named(top) && Recorded(top);
      forall p | p in contents && p != [] ensures Parent(p) in contents {
        assert Owned(p);
        var n :| n in nodes && n.where == p;
        assert Named(n);
        assert Parent(p) == n.parent.where;
        assert Recorded(n.parent);
      }
    }

    lemma KidsDistinct(n: FileTree)
      requires Valid() && n in nodes
      ensures forall k, l :: 0 <= k < l < |n.kids| ==> n.kids[k] != n.kids[l]
    {
      assert Listed(n);
      forall k, l | 0 <= k < l < |n.kids| ensures n.kids[k] != n.kids[l] {
        assert StrLess(n.kids[k].name, n.kids[l].name);
        StrTrichotomy(n.kids[k].name, n.kids[k].name);
      }
    }

    // A child that is in the tree is in the list below its parent.
    lemma ChildListed(n: FileTree, c: string)
      requires Valid() && n in nodes && n.where + [c] in contents
      ensures exists k :: 0 <= k < |n.kids| && n.kids[k].name == c
    {
      var q := n.where + [c];
      assert Owned(q);
      var kid :| kid in nodes && kid.where == q;
      assert Named(kid) && Named(top);
      assert Parent(q) == n.where && Last(q) == c;
      assert Parent(kid.where) == kid.parent.where && Last(kid.where) == kid.name;
    }

    // The names in the list below n, in order: all its children, strictly ascending.
    lemma KidNames(n: FileTree) returns (names: seq<string>)
      requires Valid() && n in nodes
      ensures |names| == |n.kids| && forall i :: 0 <= i < |names| ==> n.kids[i].name == names[i]
      ensures forall i, j :: 0 <= i < j < |names| ==> StrLess(names[i], names[j])
      ensures forall c :: n.where + [c] in contents ==> c in names
    {
      assert Listed(n);
      names := seq(|n.kids|, i requires 0 <= i < |n.kids| reads n, n.kids => n.kids[i].name);
      forall i, j | 0 <= i < j < |names| ensures StrLess(names[i], names[j]) {
        assert StrLess(n.kids[i].name, n.kids[j].name);
      }
      forall c | n.where + [c] in contents ensures c in names {
        ChildListed(n, c);
        var k :| 0 <= k < |n.kids| && n.kids[k].name == c;
        assert names[k] == c;
      }
    }

    // ------------------------------------------------------------ linking one node in

    // Nodes change their links only in the list below p, and x is new there.
    twostate predicate Relinked(new p: FileTree, i: nat, new x: FileTree, new was: set<FileTree>)
      reads this, was, x, p
    {
      && was == old(nodes) && top == old(top) && nodes == was + {x} && x !in was && p in was
      && IsSplice(old(p.kids), p.kids, i, x)
      && x.parent == p && x.where == p.where + [x.name] && x.kids == [] && x.subdir == null
      && x.where !in old(contents) && contents == old(contents)[x.where := x.Entry()]
      && (forall n :: n in was ==> n.name == old(n.name) && n.where == old(n.where) && n.parent == old(n.parent))
      && (forall n :: n in was ==> n.Entry() == old(n.Entry()))
      && (forall n :: n in was && n != p ==> n.kids == old(n.kids) && n.subdir == old(n.subdir))
      && (forall n :: n in was && !(i > 0 && n == p.kids[i - 1]) ==> n.next == old(n.next))
      && (forall n :: n in was && !(i + 1 < |p.kids| && n == p.kids[i + 1]) ==> n.prev == old(n.prev))
      && (i > 0 ==> p.kids[i - 1] in was && p.kids[i - 1].next == x)
      && (i + 1 < |p.kids| ==> p.kids[i + 1] in was && p.kids[i + 1].prev == x)
      && x.prev == Preceding(p.kids, i) && x.next == Following(p.kids, i) && p.subdir == Head(p.kids)
    }

    twostate lemma RelinkedNamed(new p: FileTree, i: nat, new x: FileTree, new was: set<FileTree>)
      requires old(Valid()) && Relinked(p, i, x, was)
      ensures forall n :: n in nodes ==> Named(n)
    {
      assert p.kids[i] == x;
      forall n | n in nodes ensures Named(n) {
        if n != x {
          assert old(Named(n));
          if n != top && n.parent == p {
            var k :| 0 <= k < |old(p.kids)| && old(p.kids)[k] == n;
            var k1 := if k < i then k else k + 1;
            assert p.kids[k1] == n;
          }
        }
      }
    }

    // A list in another directory shares no node with the one that was relinked.
    twostate lemma RelinkedElsewhere(new p: FileTree, i: nat, new x: FileTree, new was: set<FileTree>)
      requires old(Valid()) && Relinked(p, i, x, was)
      ensures forall n :: n in was && n != p ==> Listed(n)
    {
      assert old(Listed(p));
      forall n | n in was && n != p ensures Listed(n) {
        assert old(Listed(n));
        var kids := n.kids;
        forall k | 0 <= k < |kids|
          ensures kids[k].prev == Preceding(kids, k) && kids[k].next == Following(kids, k)
        {
          assert kids[k] in was && old(kids[k].parent) == n;
          assert kids[k] !in old(p.kids);
        }
      }
    }

    // Position i of the list below n is where a new name c goes.
    ghost predicate Between(n: FileTree, i: nat, c: string)
      reads this, nodes, n
    {
      && i <= |n.kids|
      && (forall k :: 0 <= k < i && n.kids[k] in nodes ==> StrLess(n.kids[k].name, c))
      && (forall k :: i <= k < |n.kids| && n.kids[k] in nodes ==> StrLess(c, n.kids[k].name))
    }

    // Position i of the list below n is free for a new name c.
    ghost predicate Room(n: FileTree, i: nat, c: string)
      reads this, nodes, n
    {
      && Between(n, i, c) && n.where + [c] !in contents
      && (forall k, l :: 0 <= k < l < |n.kids| ==> n.kids[k] != n.kids[l])
    }

    // The neighbours of x are the only nodes of the list whose links had to change.
    twostate lemma SplicedPrev(new p: FileTree, i: nat, new x: FileTree, new was: set<FileTree>, new c: string)
      requires old(Valid()) && Relinked(p, i, x, was) && old(Room(p, i, c))
      ensures forall k {:trigger p.kids[k].prev} :: 0 <= k < |p.kids| ==> p.kids[k].prev == Preceding(p.kids, k)
    {
      assert old(Listed(p));
      var from, kids := old(p.kids), p.kids;
      forall k | 0 <= k < |kids| ensures kids[k].prev == Preceding(kids, k) {
        if k < i {
          assert from[k].prev == old(from[k].prev);
        } else if i + 1 < k {
          assert from[k - 1].prev == old(from[k - 1].prev);
        }
      }
    }

    twostate lemma SplicedNext(new p: FileTree, i: nat, new x: FileTree, new was: set<FileTree>, new c: string)
      requires old(Valid()) && Relinked(p, i, x, was) && old(Room(p, i, c))
      ensures forall k {:trigger p.kids[k].next} :: 0 <= k < |p.kids| ==> p.kids[k].next == Following(p.kids, k)
    {
      assert old(Listed(p));
      var from, kids := old(p.kids), p.kids;
      forall k | 0 <= k < |kids| ensures kids[k].next == Following(kids, k) {
        if k + 1 < i {
          assert from[k].next == old(from[k].next);
        } else if i < k {
          assert from[k - 1].next == old(from[k - 1].next);
        }
      }
    }

    twostate lemma SplicedLinked(new p: FileTree, i: nat, new x: FileTree, new was: set<FileTree>, new c: string)
      requires old(Valid()) && Relinked(p, i, x, was) && old(Room(p, i, c))
      ensures Linked(p)
    {
      assert old(Listed(p));
      var kids := p.kids;
      forall k | 0 <= k < |kids| && k != i ensures kids[k] in was && old(kids[k].parent) == p && kids[k] != top {
      }
      SplicedPrev(p, i, x, was, c);
      SplicedNext(p, i, x, was, c);
    }

    twostate lemma SplicedAscending(new p: FileTree, i: nat, new x: FileTree, new was: set<FileTree>, new c: string)
      requires old(Valid()) && Relinked(p, i, x, was)
      requires x.name == c && old(Room(p, i, c))
      ensures forall k, l {:trigger StrLess(p.kids[k].name, p.kids[l].name)} :: 0 <= k < l < |p.kids| ==>
                StrLess(p.kids[k].name, p.kids[l].name)
    {
      assert old(Listed(p));
      var from := old(p.kids);
      forall k, l | 0 <= k < l < |p.kids| ensures StrLess(p.kids[k].name, p.kids[l].name) {
        var k0, l0 := if k < i then k else k - 1, if l < i then l else l - 1;
        assert k != i ==> p.kids[k] == from[k0];
        assert l != i ==> p.kids[l] == from[l0];
        assert k != i && l != i ==> old(StrLess(from[k0].name, from[l0].name));
      }
    }

    twostate lemma RelinkedDistinct(new p: FileTree, i: nat, new x: FileTree, new was: set<FileTree>)
      requires old(Valid()) && Relinked(p, i, x, was)
      ensures Distinct()
    {
      forall n, m | n in nodes && m in nodes && n.where == m.where ensures n == m {
        assert n in was ==> old(Recorded(n)) && n.where == old(n.where);
        assert m in was ==> old(Recorded(m)) && m.where == old(m.where);
      }
    }

    twostate lemma RelinkedRecorded(new p: FileTree, i: nat, new x: FileTree, new was: set<FileTree>)
      requires old(Valid()) && Relinked(p, i, x, was)
      ensures forall n :: n in nodes ==> Recorded(n)
      ensures forall q :: q in contents ==> Owned(q)
    {
      forall n | n in nodes ensures Recorded(n) {
        assert n in was ==> old(Recorded(n));
      }
      forall q | q in contents ensures Owned(q) {
        if q != x.where {
          assert old(Owned(q));
          var n :| n in was && old(n.where) == q;
          assert n in nodes && n.where == q;
        }
      }
    }

    twostate lemma SplicedValid(new p: FileTree, i: nat, new x: FileTree, new was: set<FileTree>, new c: string)
      requires old(Valid()) && Relinked(p, i, x, was)
      requires x.name == c && old(Room(p, i, c))
      ensures Valid()
    {
      RelinkedNamed(p, i, x, was);
      RelinkedElsewhere(p, i, x, was);
      SplicedLinked(p, i, x, was, c);
      SplicedAscending(p, i, x, was, c);
      RelinkedDistinct(p, i, x, was);
      RelinkedRecorded(p, i, x, was);
      forall n | n in nodes ensures Listed(n) {
      }
    }

    // It is enough to compare with the neighbours.
    lemma BetweenNeighbours(n: FileTree, i: nat, c: string)
      requires Valid() && n in nodes && i <= |n.kids|
      requires i > 0 && n.kids[i - 1] in nodes ==> StrLess(n.kids[i - 1].name, c)
      requires i < |n.kids| && n.kids[i] in nodes ==> StrLess(c, n.kids[i].name)
      ensures Between(n, i, c)
    {
      assert Listed(n);
      forall k | 0 <= k < i ensures StrLess(n.kids[k].name, c) {
        if k < i - 1 {
          assert StrLess(n.kids[k].name, n.kids[i - 1].name);
          StrTransitive(n.kids[k].name, n.kids[i - 1].name, c);
        }
      }
      forall k | i <= k < |n.kids| ensures StrLess(c, n.kids[k].name) {
        if i < k {
          assert StrLess(n.kids[i].name, n.kids[k].name);
          StrTransitive(c, n.kids[i].name, n.kids[k].name);
        }
      }
    }

    lemma Vacant(n: FileTree, i: nat, c: string)
      requires Valid() && n in nodes && Between(n, i, c)
      ensures n.where + [c] !in contents
    {
      assert Listed(n);
      StrTrichotomy(c, c);
      if n.where + [c] in contents {
        ChildListed(n, c);
      }
    }

    // x became an entry of the list below q.
    twostate predicate Attached(new was: set<FileTree>, new q: FileTree, new x: FileTree)
      reads this, was, q, x
    {
      && top == old(top) && was == old(nodes) && nodes == was + {x} && q in was
      && (forall n :: n in was ==> n.where == old(n.where))
      && x.where == q.where + [x.name] && x.where !in old(contents)
      && contents == old(contents)[x.where := x.Entry()]
    }

    // The ghost side of linking x in at position i of the list below p.
    method Adopt(ghost p: FileTree, ghost i: nat, ghost x: FileTree)
      requires i <= |p.kids| && x != p
      modifies this`nodes, this`contents, x`parent, x`where, p`kids
      ensures nodes == old(nodes) + {x} && x.parent == p && x.where == p.where + [x.name]
      ensures contents == old(contents)[x.where := x.Entry()] && IsSplice(old(p.kids), p.kids, i, x)
    {
      x.parent, x.where, nodes := p, p.where + [x.name], nodes + {x};
      contents := contents[x.where := x.Entry()];
      p.kids := Splice(p.kids, i, x);
    }

    lemma RoomBetween(n: FileTree, i: nat, c: string)
      requires Valid() && n in nodes && Between(n, i, c)
      ensures Listed(n) && Room(n, i, c)
    {
      KidsDistinct(n);
      Vacant(n, i, c);
    }

    method SpliceOnly(cur: FileTree, x: FileTree)
      requires cur in nodes && x !in nodes && x.Detached() && cur.where + [x.name] !in contents
      requires cur.kids == []
      modifies this`nodes, this`contents, nodes, x
      ensures Relinked(cur, 0, x, old(nodes))
      ensures x.Entry() == old(x.Entry()) && x.name == old(x.name)
    {
      cur.subdir := x;
      x.next, x.prev := null, null;
      Adopt(cur, 0, x);
    }

    method AttachOnly(cur: FileTree, x: FileTree)
      requires Valid() && cur in nodes && x !in nodes && x.Detached() && Between(cur, 0, x.name)
      requires cur.subdir == null
      modifies this, nodes, x
      ensures Valid() && Attached(old(nodes), cur, x)
      ensures x.Entry() == old(x.Entry()) && x.name == old(x.name)
    {
      RoomBetween(cur, 0, x.name);
      ghost var was := nodes;
      SpliceOnly(cur, x);
      SplicedValid(cur, 0, x, was, x.name);
    }

    method SpliceTop(cur: FileTree, x: FileTree)
      requires cur in nodes && x !in nodes && x.Detached() && cur.where + [x.name] !in contents
      requires cur.kids != [] && cur.kids[0] == cur.subdir && cur.subdir in nodes
      modifies this`nodes, this`contents, nodes, x
      ensures Relinked(cur, 0, x, old(nodes))
      ensures x.Entry() == old(x.Entry()) && x.name == old(x.name)
    {
      LinkTop(cur, x);
      Adopt(cur, 0, x);
    }

    method AttachTop(cur: FileTree, x: FileTree)
      requires Valid() && cur in nodes && x !in nodes && x.Detached() && Between(cur, 0, x.name)
      requires cur.subdir != null
      modifies this, nodes, x
      ensures Valid() && Attached(old(nodes), cur, x)
      ensures x.Entry() == old(x.Entry()) && x.name == old(x.name)
    {
      RoomBetween(cur, 0, x.name);
      ghost var was := nodes;
      SpliceTop(cur, x);
      SplicedValid(cur, 0, x, was, x.name);
    }

    method SpliceBefore(cur: FileTree, x: FileTree, ghost q: FileTree, ghost i: nat)
      requires q in nodes && x !in nodes && x.Detached() && q.where + [x.name] !in contents
      requires 0 < i < |q.kids| && q.kids[i] == cur && cur in nodes && cur.prev == q.kids[i - 1] && cur.prev in nodes
      requires cur != cur.prev && q.subdir == q.kids[0]
      modifies this`nodes, this`contents, nodes, x
      ensures Relinked(q, i, x, old(nodes))
      ensures x.Entry() == old(x.Entry()) && x.name == old(x.name)
    {
      LinkBefore(cur, x);
      Adopt(q, i, x);
    }

    method AttachBefore(cur: FileTree, x: FileTree, ghost q: FileTree, ghost i: nat)
      requires Valid() && q in nodes && x !in nodes && x.Detached() && Between(q, i, x.name)
      requires 0 < i < |q.kids| && cur == q.kids[i]
      modifies this, nodes, x
      ensures Valid() && Attached(old(nodes), q, x)
      ensures x.Entry() == old(x.Entry()) && x.name == old(x.name)
    {
      RoomBetween(q, i, x.name);
      ghost var was := nodes;
      SpliceBefore(cur, x, q, i);
      SplicedValid(q, i, x, was, x.name);
    }

    method SpliceTail(tmp: FileTree, x: FileTree, ghost q: FileTree, ghost i: nat)
      requires q in nodes && x !in nodes && x.Detached() && q.where + [x.name] !in contents
      requires 0 < i == |q.kids| && tmp == q.kids[i - 1] && tmp in nodes && q.subdir == q.kids[0]
      modifies this`nodes, this`contents, nodes, x
      ensures Relinked(q, i, x, old(nodes))
      ensures x.Entry() == old(x.Entry()) && x.name == old(x.name)
    {
      LinkTail(tmp, x);
      Adopt(q, i, x);
    }

    method AttachTail(tmp: FileTree, x: FileTree, ghost q: FileTree, ghost i: nat)
      requires Valid() && q in nodes && x !in nodes && x.Detached() && Between(q, i, x.name)
      requires 0 < i == |q.kids| && tmp == q.kids[i - 1]
      modifies this, nodes, x
      ensures Valid() && Attached(old(nodes), q, x)
      ensures x.Entry() == old(x.Entry()) && x.name == old(x.name)
    {
      RoomBetween(q, i, x.name);
      ghost var was := nodes;
      SpliceTail(tmp, x, q, i);
      SplicedValid(q, i, x, was, x.name);
    }

    // ------------------------------------------------------------ the insertion routine

    // Nothing but the attributes of one node changed.
    twostate lemma Reattributed(new cur: FileTree, new was: set<FileTree>)
      requires old(Valid()) && was == old(nodes) && nodes == was && top == old(top) && cur in was
      requires contents == old(contents)[cur.where := cur.Entry()]
      requires forall n :: n in was ==>
        && n.name == old(n.name) && n.where == old(n.where) && n.parent == old(n.parent) && n.kids == old(n.kids)
        && n.subdir == old(n.subdir) && n.prev == old(n.prev) && n.next == old(n.next)
      requires forall n :: n in was && n != cur ==> n.Entry() == old(n.Entry())
      ensures Valid()
    {
      forall n | n in nodes ensures Named(n) && Listed(n) && Recorded(n) {
        assert old(Named(n)) && old(Listed(n)) && old(Recorded(n));
      }
      forall q | q in contents ensures Owned(q) {
        if q != cur.where {
          assert old(Owned(q));
          var n :| n in was && old(n.where) == q;
          assert n.where == q;
        }
      }
      assert Distinct();
    }

    // What an insertion below depth d of p leaves behind: the tree of the path map update.
    twostate predicate Inserted(new was: set<FileTree>, new p: Path, d: nat, e: Entry, ret: int)
      requires d < |p|
      reads this, was
    {
      && top == old(top) && was == old(nodes) && was <= nodes
      && (forall n :: n in was ==> n.where == old(n.where))
      && contents == Descend(old(contents), p, d, e)
      && ret == (if Rejected(old(contents), p, e) then 1 else 0)
    }

    // `name` is the next component of p at depth d, and `rest` is what follows it.
    static ghost predicate Ahead(p: Path, d: nat, name: string, rest: Option<string>) {
      && d < |p| && p[d] == name
      && match rest
         case None => d + 1 == |p| && name != ""
         case Some(r) => p[d + 1..] == Split(r, '/')
    }

    static lemma PathAhead(path: string, base: Path, cur: string, rest: Option<string>)
      requires path != "" && cur == path[..IndexOf(path, '/')]
      requires rest == if |cur| < |path| then Some(path[|cur| + 1..]) else None
      ensures base <= base + Split(path, '/') && Ahead(base + Split(path, '/'), |base|, cur, rest)
    {
      var others := if rest.Some? then Split(rest.value, '/') else [];
      FirstComponent(path, cur, rest, others);
      BeyondBase(base, cur, others);
    }

    static lemma FirstComponent(path: string, cur: string, rest: Option<string>, others: seq<string>)
      requires path != "" && cur == path[..IndexOf(path, '/')]
      requires rest == if |cur| < |path| then Some(path[|cur| + 1..]) else None
      requires others == if rest.Some? then Split(rest.value, '/') else []
      ensures Split(path, '/') == [cur] + others
    {
      if rest.None? {
        SplitNowhere(path, '/');
        assert path[..|path|] == path;
      } else {
        SplitThere(path, '/', |cur|);
      }
    }

    static lemma BeyondBase(base: Path, c: string, others: seq<string>)
      ensures var p := base + ([c] + others); base <= p && p[|base|] == c && p[|base| + 1..] == others
    {
    }

    // An empty path, and an empty last component, insert nothing.
    static lemma NothingAhead(m: Tree, base: Path, e: Entry)
      ensures Split("", '/') == [""]
      ensures Descend(m, base + [""], |base|, e) == m && !Rejected(m, base + [""], e)
    {
      assert Last(base + [""]) == "";
    }

    // p is the whole path from the top, of which `path` is the part below elem.
    method InsertList(path: string, newTree: FileTree, elem: FileTree, ghost p: Path) returns (ret: int)
      requires Valid() && newTree !in nodes && newTree.Detached()
      requires elem in nodes && p == elem.where + Split(path, '/')
      modifies this, nodes, newTree
      ensures Valid() && fresh(nodes - old(nodes) - {newTree})
      ensures Inserted(old(nodes), p, |old(elem.where)|, old(newTree.Entry()), ret)
      decreases |path|, 3
    {
      if |path| == 0 {
        NothingAhead(contents, elem.where, newTree.Entry());
        return 0;
      }
      var slash := IndexOf(path, '/');
      var cur := path[..slash];
      var rest := if slash < |path| then Some(path[slash + 1..]) else None;
      PathAhead(path, elem.where, cur, rest);
      assert Listed(elem);

      if elem.subdir == null {
        ret := InsertSubdir(elem, newTree, cur, rest, p);
      } else if StrCmp(cur, elem.subdir.name) < 0 {
        BetweenNeighbours(elem, 0, cur);
        ret := InsertTop(elem, newTree, cur, rest, p);
      } else {
        ret := InsertAmong(elem, newTree, cur, rest, p);
      }
    }

    // Walk the list below elem to the place of `cur`, which is not in front of its first entry.
    method InsertAmong(elem: FileTree, newTree: FileTree, cur: string, rest: Option<string>, ghost p: Path) returns (ret: int)
      requires Valid() && newTree !in nodes && newTree.Detached()
      requires elem in nodes && elem.where <= p && Ahead(p, |elem.where|, cur, rest)
      requires Listed(elem) && elem.subdir != null && !StrLess(cur, elem.subdir.name)
      modifies this, nodes, newTree
      ensures Valid() && fresh(nodes - old(nodes) - {newTree})
      ensures Inserted(old(nodes), p, |old(elem.where)|, old(newTree.Entry()), ret)
      decreases if rest.Some? then |rest.value| + 1 else 0, 2
    {
      ghost var i := 0;
      var tmp := elem.subdir;
      var node: FileTree? := elem.subdir;
      while node != null
        invariant 0 <= i <= |elem.kids|
        invariant node == if i < |elem.kids| then elem.kids[i] else null
        invariant i > 0 ==> tmp == elem.kids[i - 1] && StrLess(tmp.name, cur)
        invariant i == 0 ==> !StrLess(cur, elem.kids[0].name)
        decreases |elem.kids| - i
      {
        var miss := StrCmp(cur, node.name);
        if miss < 0 {
          BetweenNeighbours(elem, i, cur);
          ret := InsertBefore(node, newTree, cur, rest, p, elem, i);
          return;
        } else if miss == 0 {
          assert Named(node) && node.where == p[..|elem.where| + 1];
          ret := OverwriteEntry(node, newTree, cur, rest, p);
          return;
        } else {
          tmp := node;
          node := node.next;
          i := i + 1;
        }
      }
      BetweenNeighbours(elem, i, cur);
      ret := InsertTail(tmp, newTree, cur, rest, p, elem, i);
    }

    method InsertSubdir(cur: FileTree, newTree: FileTree, name: string, rest: Option<string>, ghost p: Path) returns (ret: int)
      requires Valid() && newTree !in nodes && newTree.Detached()
      requires cur in nodes && cur.where <= p && Ahead(p, |cur.where|, name, rest) && cur.subdir == null
      modifies this, nodes, newTree
      ensures Valid() && fresh(nodes - old(nodes) - {newTree})
      ensures Inserted(old(nodes), p, |old(cur.where)|, old(newTree.Entry()), ret)
      decreases if rest.Some? then |rest.value| + 1 else 0, 1
    {
      assert Listed(cur);
      ghost var m := contents;
      var x := NodeFor(newTree, name, rest);
      AttachOnly(cur, x);
      ret := Continue(x, newTree, rest, p, m);
    }

    method InsertTop(cur: FileTree, newTree: FileTree, name: string, rest: Option<string>, ghost p: Path) returns (ret: int)
      requires Valid() && newTree !in nodes && newTree.Detached()
      requires cur in nodes && cur.where <= p && Ahead(p, |cur.where|, name, rest)
      requires cur.subdir != null && Between(cur, 0, name)
      modifies this, nodes, newTree
      ensures Valid() && fresh(nodes - old(nodes) - {newTree})
      ensures Inserted(old(nodes), p, |old(cur.where)|, old(newTree.Entry()), ret)
      decreases if rest.Some? then |rest.value| + 1 else 0, 1
    {
      ghost var m := contents;
      var x := NodeFor(newTree, name, rest);
      AttachTop(cur, x);
      ret := Continue(x, newTree, rest, p, m);
    }

    method InsertBefore(cur: FileTree, newTree: FileTree, name: string, rest: Option<string>, ghost p: Path, ghost q: FileTree, ghost i: nat) returns (ret: int)
      requires Valid() && newTree !in nodes && newTree.Detached()
      requires q in nodes && q.where <= p && Ahead(p, |q.where|, name, rest)
      requires 0 < i < |q.kids| && q.kids[i] == cur && cur.prev != null && Between(q, i, name)
      modifies this, nodes, newTree
      ensures Valid() && fresh(nodes - old(nodes) - {newTree})
      ensures Inserted(old(nodes), p, |old(q.where)|, old(newTree.Entry()), ret)
      decreases if rest.Some? then |rest.value| + 1 else 0, 1
    {
      ghost var m := contents;
      var x := NodeFor(newTree, name, rest);
      AttachBefore(cur, x, q, i);
      ret := Continue(x, newTree, rest, p, m);
    }

    method InsertTail(tmp: FileTree, newTree: FileTree, name: string, rest: Option<string>, ghost p: Path, ghost q: FileTree, ghost i: nat) returns (ret: int)
      requires Valid() && newTree !in nodes && newTree.Detached()
      requires q in nodes && q.where <= p && Ahead(p, |q.where|, name, rest)
      requires 0 < i == |q.kids| && q.kids[i - 1] == tmp && Between(q, i, name)
      modifies this, nodes, newTree
      ensures Valid() && fresh(nodes - old(nodes) - {newTree})
      ensures Inserted(old(nodes), p, |old(q.where)|, old(newTree.Entry()), ret)
      decreases if rest.Some? then |rest.value| + 1 else 0, 1
    {
      ghost var m := contents;
      var x := NodeFor(newTree, name, rest);
      AttachTail(tmp, x, q, i);
      ret := Continue(x, newTree, rest, p, m);
    }

    // An existing entry: go on below it, whatever its type, or take over the new attributes.
    method OverwriteEntry(cur: FileTree, newTree: FileTree, name: string, rest: Option<string>, ghost p: Path) returns (ret: int)
      requires Valid() && newTree !in nodes && newTree.Detached()
      requires cur in nodes && cur.where != [] && cur.name == name && cur.where <= p && Ahead(p, |cur.where| - 1, name, rest)
      modifies this, nodes, newTree
      ensures Valid() && fresh(nodes - old(nodes) - {newTree})
      ensures Inserted(old(nodes), p, |old(cur.where)| - 1, old(newTree.Entry()), ret)
      decreases if rest.Some? then |rest.value| + 1 else 0, 1
    {
      ghost var d := |cur.where| - 1;
      assert Named(cur) && Recorded(cur);
      assert cur.where == p[..d + 1];
      if rest.Some? {
        assert p == cur.where + Split(rest.value, '/');
        ret := InsertList(rest.value, newTree, cur, p);
        return;
      }
      assert cur.where == p;
      if cur.kind != newTree.kind {
        return 1;
      }
      TakeOver(cur, newTree);
      ret := 0;
    }

    method TakeOver(cur: FileTree, newTree: FileTree)
      requires Valid() && cur in nodes && newTree !in nodes
      modifies this`contents, cur`source, cur`mode, cur`uid, cur`gid
      ensures Valid()
      ensures contents == old(contents)[cur.where :=
                Overlay.Entry(old(cur.Node()), newTree.source, newTree.mode, newTree.uid, newTree.gid)]
    {
      cur.TakeFrom(newTree);
      contents := contents[cur.where := cur.Entry()];
      Reattributed(cur, nodes);
    }

    // The node to link in: the new entry for the last component, an invented directory otherwise.
    method NodeFor(newTree: FileTree, name: string, rest: Option<string>) returns (x: FileTree)
      requires newTree.Detached()
      modifies newTree`name
      ensures x.name == name && x.Detached()
      ensures if rest.None? then x == newTree else fresh(x) && x.Entry() == DEFAULT_DIR
    {
      if rest.None? {
        newTree.name := name;
        x := newTree;
      } else {
        x := new FileTree.Missing(name);
      }
    }

    // x was just linked in; go on below it unless it is the new entry itself.
    method Continue(x: FileTree, newTree: FileTree, rest: Option<string>, ghost p: Path, ghost m: Tree) returns (ret: int)
      requires Valid() && x in nodes && x.where != [] && x.where <= p && Ahead(p, |x.where| - 1, x.name, rest)
      requires x.where !in m && contents == m[x.where := x.Entry()]
      requires rest.None? ==> x == newTree
      requires rest.Some? ==> x.Entry() == DEFAULT_DIR && newTree !in nodes && newTree.Detached()
      modifies this, nodes, newTree
      ensures Valid() && fresh(nodes - old(nodes) - {newTree})
      ensures top == old(top) && old(nodes) <= nodes && forall n :: n in old(nodes) ==> n.where == old(n.where)
      ensures contents == Descend(m, p, |old(x.where)| - 1, old(newTree.Entry()))
      ensures ret == if Rejected(m, p, old(newTree.Entry())) then 1 else 0
      decreases if rest.Some? then |rest.value| + 1 else 0, 0
    {
      assert x.where == p[..|x.where|];
      if rest.None? {
        assert x.where == p;
        ret := 0;
      } else {
        assert p == x.where + Split(rest.value, '/');
        ret := InsertList(rest.value, newTree, x, p);
      }
    }
  }
}
