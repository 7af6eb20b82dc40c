/**
  The overlay file tree as a map from paths to entries: what inserting a path means,
  when insertions commute, and which layer decides the attributes of a path.
*/
module Overlay {
  import opened CText

  // Components from the top of the tree; [] is the top itself.
  type Path = seq<string>

  datatype Node =
    | Dir
    | File
    | Link(target: string)
    | Device(inodeType: char, major: nat, minor: nat)
    | Pipe
    | Sock

  datatype Entry = Entry(node: Node, source: Option<string>, mode: int, uid: int, gid: int)

  type Tree = map<Path, Entry>

  // Entry types match when they are the same MPSS_* constant, whatever the link target or device.
  predicate SameType(a: Node, b: Node) {
    && a.Dir? == b.Dir? && a.File? == b.File? && a.Link? == b.Link?
    && a.Device? == b.Device? && a.Pipe? == b.Pipe? && a.Sock? == b.Sock?
  }

  // That is, when they are made by the same constructor.
  lemma SameTypeMeans(a: Node, b: Node)
    ensures SameType(a, b) <==>
            match a
            case Dir => b.Dir?
            case File => b.File?
            case Link(_) => b.Link?
            case Device(_, _, _) => b.Device?
            case Pipe => b.Pipe?
            case Sock => b.Sock?
  {
  }

  // A parent invented for a path whose directory was never listed: root owned, 0755.
  const DEFAULT_DIR: Entry := Entry(Dir, None, 0x1ED, 0, 0)

  function Parent(p: Path): Path
    requires p != []
  {
    p[..|p| - 1]
  }

  function Last(p: Path): string
    requires p != []
  {
    p[|p| - 1]
  }

  ghost predicate PrefixClosed(m: Tree) {
    [] in m && forall p :: p in m && p != [] ==> Parent(p) in m
  }

  // Overwriting keeps the node itself: its type, its link target and its device numbers.
  function Overwrite(was: Entry, e: Entry): Entry {
    was.(source := e.source, mode := e.mode, uid := e.uid, gid := e.gid)
  }

  function Place(m: Tree, p: Path, e: Entry): Tree {
    if p !in m then m[p := e]
    else if SameType(m[p].node, e.node) then m[p := Overwrite(m[p], e)]
    else m
  }

  // Walk down from depth d of p. An empty last component leaves the new entry out.
  function Descend(m: Tree, p: Path, d: nat, e: Entry): Tree
    requires d < |p|
    decreases |p| - d
  {
    var q := p[..d + 1];
    if d + 1 == |p| then
      if Last(p) == "" then m else Place(m, p, e)
    else
      Descend(if q in m then m else m[q := DEFAULT_DIR], p, d + 1, e)
  }

  predicate Rejected(m: Tree, p: Path, e: Entry)
    requires p != []
  {
    Last(p) != "" && p in m && !SameType(m[p].node, e.node)
  }

  // One insertion request: the components of the path and the attributes of the new entry.
  datatype Op = Op(path: Path, entry: Entry)

  type Request = op: Op | op.path != [] witness Op([""], DEFAULT_DIR)

  function Insert(m: Tree, op: Request): Tree {
    Descend(m, op.path, 0, op.entry)
  }

  // `op` writes its entry at q.
  predicate Writes(op: Request, q: Path) {
    op.path == q && Last(op.path) != ""
  }

  // `op` makes sure q exists: it writes q or needs it as a directory on the way.
  predicate Touches(op: Request, q: Path) {
    q != [] && q <= op.path && (q != op.path || Last(op.path) != "")
  }

  // What q holds after `op`, said without following the descent.
  ghost function After(m: Tree, op: Request, q: Path): Option<Entry> {
    var e := op.entry;
    if Writes(op, q) then
      if q !in m then Some(e)
      else if SameType(m[q].node, e.node) then Some(Entry(m[q].node, e.source, e.mode, e.uid, e.gid))
      else Some(m[q])
    else if q in m then Some(m[q])
    else if Touches(op, q) then Some(Entry(Dir, None, 0x1ED, 0, 0))
    else None
  }

  ghost function Lookup(m: Tree, q: Path): Option<Entry> {
    if q in m then Some(m[q]) else None
  }

  lemma {:induction false} DescendMeaning(m: Tree, p: Path, d: nat, e: Entry, q: Path)
    requires d < |p|
    ensures Lookup(Descend(m, p, d, e), q) ==
            if |q| <= d then Lookup(m, q) else After(m, Op(p, e), q)
    decreases |p| - d
  {
    var r := p[..d + 1];
    if d + 1 < |p| {
      var m1 := if r in m then m else m[r := DEFAULT_DIR];
      DescendMeaning(m1, p, d + 1, e, q);
      assert Touches(Op(p, e), r);
    } else {
      assert r == p;
    }
    assert |q| == d + 1 && q <= p ==> q == r;
  }

  // An insertion is a pointwise update of the path map.
  lemma InsertMeaning(m: Tree, op: Request, q: Path)
    requires [] in m
    ensures Lookup(Insert(m, op), q) == After(m, op, q)
  {
    DescendMeaning(m, op.path, 0, op.entry, q);
  }

  lemma SameTree(a: Tree, b: Tree)
    requires forall q :: Lookup(a, q) == Lookup(b, q)
    ensures a == b
  {
    forall q ensures q in a <==> q in b {
      assert Lookup(a, q) == Lookup(b, q);
    }
    forall q | q in a ensures a[q] == b[q] {
      assert Lookup(a, q) == Lookup(b, q);
    }
  }

  lemma InsertKeepsClosed(m: Tree, op: Request)
    requires PrefixClosed(m)
    ensures PrefixClosed(Insert(m, op))
    ensures m.Keys <= Insert(m, op).Keys
  {
    var m' := Insert(m, op);
    forall q ensures Lookup(m', q) == After(m, op, q) {
      InsertMeaning(m, op, q);
    }
    assert Lookup(m', []) == After(m, op, []);
    forall q | q in m' && q != [] ensures Parent(q) in m' {
      assert Lookup(m', q) == After(m, op, q);
      assert Lookup(m', Parent(q)) == After(m, op, Parent(q));
    }
    forall q | q in m ensures q in m' {
      assert Lookup(m', q) == After(m, op, q);
    }
  }

  // A path of another type than the one in the tree changes nothing at all.
  lemma RejectedChangesNothing(m: Tree, op: Request)
    requires PrefixClosed(m) && Rejected(m, op.path, op.entry)
    ensures Insert(m, op) == m
  {
    forall q ensures Lookup(Insert(m, op), q) == Lookup(m, q) {
      InsertMeaning(m, op, q);
      if q <= op.path {
        PrefixesPresent(m, op.path, |q|);
        assert op.path[..|q|] == q;
      }
    }
    SameTree(Insert(m, op), m);
  }

  // A request is rejected exactly when the path ends up with another type than the one asked for.
  lemma RejectedShows(m: Tree, op: Request)
    requires [] in m
    ensures Rejected(m, op.path, op.entry) <==>
            Last(op.path) != "" && op.path in Insert(m, op) && !SameType(Insert(m, op)[op.path].node, op.entry.node)
  {
    InsertMeaning(m, op, op.path);
    SameTypeMeans(op.entry.node, op.entry.node);
  }

  lemma {:induction false} PrefixesPresent(m: Tree, p: Path, n: nat)
    requires PrefixClosed(m) && p in m && n <= |p|
    ensures p[..n] in m
    decreases |p|
  {
    if n < |p| {
      PrefixesPresent(m, Parent(p), n);
      assert Parent(p)[..n] == p[..n];
    } else {
      assert p[..n] == p;
    }
  }

  // ---------------------------------------------------------------- order of insertion

  // a, inserted after b, finds an invented directory where it wants something else.
  ghost predicate Conflict(m: Tree, a: Request, b: Request) {
    && a.path < b.path && Last(a.path) != "" && a.path !in m && !a.entry.node.Dir?
  }

  // Two requests for different paths commute exactly when neither is a new non-directory above the other.
  lemma Commute(m: Tree, a: Request, b: Request)
    requires PrefixClosed(m) && a.path != b.path
    ensures Insert(Insert(m, a), b) == Insert(Insert(m, b), a) <==>
            !Conflict(m, a, b) && !Conflict(m, b, a)
  {
    var ab, ba := Insert(Insert(m, a), b), Insert(Insert(m, b), a);
    forall q ensures Lookup(ab, q) == After(Insert(m, a), b, q)
             ensures Lookup(ba, q) == After(Insert(m, b), a, q)
             ensures Lookup(Insert(m, a), q) == After(m, a, q)
             ensures Lookup(Insert(m, b), q) == After(m, b, q)
    {
      InsertKeepsClosed(m, a);
      InsertKeepsClosed(m, b);
      InsertMeaning(m, a, q);
      InsertMeaning(m, b, q);
      InsertMeaning(Insert(m, a), b, q);
      InsertMeaning(Insert(m, b), a, q);
    }
    if Conflict(m, a, b) {
      assert Lookup(ab, a.path) != Lookup(ba, a.path);
    } else if Conflict(m, b, a) {
      assert Lookup(ab, b.path) != Lookup(ba, b.path);
    } else {
      forall q ensures Lookup(ab, q) == Lookup(ba, q) {
      }
      SameTree(ab, ba);
    }
  }

  function Run(m: Tree, ops: seq<Request>): Tree
    decreases |ops|
  {
    if ops == [] then m else Run(Insert(m, ops[0]), ops[1..])
  }

  ghost predicate Compatible(m: Tree, ops: seq<Request>) {
    forall a, b :: a in ops && b in ops && a != b ==> a.path != b.path && !Conflict(m, a, b)
  }

  lemma {:induction false} RunAppend(m: Tree, xs: seq<Request>, ys: seq<Request>)
    ensures Run(m, xs + ys) == Run(Run(m, xs), ys)
    decreases |xs|
  {
    if xs == [] {
      assert xs + ys == ys;
    } else {
      assert (xs + ys)[1..] == xs[1..] + ys;
      RunAppend(Insert(m, xs[0]), xs[1..], ys);
    }
  }

  lemma {:induction false} RunKeepsClosed(m: Tree, ops: seq<Request>)
    requires PrefixClosed(m)
    ensures PrefixClosed(Run(m, ops))
    ensures m.Keys <= Run(m, ops).Keys
    decreases |ops|
  {
    if ops != [] {
      InsertKeepsClosed(m, ops[0]);
      RunKeepsClosed(Insert(m, ops[0]), ops[1..]);
    }
  }

  lemma InsertKeepsCompatible(m: Tree, a: Request, ops: seq<Request>, sub: seq<Request>)
    requires PrefixClosed(m) && Compatible(m, ops)
    requires forall b :: b in sub ==> b in ops
    ensures Compatible(Insert(m, a), sub)
  {
    InsertKeepsClosed(m, a);
  }

  function Without<T>(s: seq<T>, k: nat): seq<T>
    requires k < |s|
  {
    s[..k] + s[k + 1..]
  }

  lemma WithoutLater<T>(s: seq<T>, k: nat)
    requires 0 < k < |s|
    ensures var rest := Without(s, k); rest != [] && rest[0] == s[0] && rest[1..] == Without(s[1..], k - 1)
  {
  }

  lemma Swap(m: Tree, ops: seq<Request>, a: Request, b: Request)
    requires PrefixClosed(m) && Compatible(m, ops) && a in ops && b in ops
    ensures Insert(Insert(m, a), b) == Insert(Insert(m, b), a)
  {
    if a != b {
      Commute(m, a, b);
    }
  }

  // A request can be taken out of the middle of a run and done first.
  lemma {:induction false} MoveToFront(m: Tree, ops: seq<Request>, k: nat)
    requires PrefixClosed(m) && Compatible(m, ops) && k < |ops|
    ensures Run(m, ops) == Run(Insert(m, ops[k]), Without(ops, k))
    decreases k
  {
    if k == 0 {
      assert Without(ops, k) == ops[1..];
    } else {
      var a, b, tail := ops[0], ops[k], ops[1..];
      assert a in ops && b in ops;
      Swap(m, ops, a, b);
      WithoutLater(ops, k);
      InsertKeepsClosed(m, a);
      InsertKeepsCompatible(m, a, ops, tail);
      MoveToFront(Insert(m, a), tail, k - 1);
    }
  }

  lemma SameMembers<T>(xs: seq<T>, ys: seq<T>)
    requires multiset(xs) == multiset(ys)
    ensures |xs| == |ys|
    ensures forall b :: b in xs <==> b in ys
  {
    assert |xs| == |multiset(xs)|;
    forall b ensures b in xs <==> b in ys {
      assert b in xs <==> b in multiset(xs);
    }
  }

  lemma WithoutMultiset<T>(s: seq<T>, k: nat)
    requires k < |s|
    ensures multiset(s) == multiset{s[k]} + multiset(Without(s, k))
  {
    assert s == s[..k] + ([s[k]] + s[k + 1..]);
  }

  lemma TakeOut<T>(xs: seq<T>, ys: seq<T>, k: nat)
    requires multiset(xs) == multiset(ys)
    requires xs != [] && k < |ys| && ys[k] == xs[0]
    ensures multiset(xs[1..]) == multiset(Without(ys, k))
  {
    WithoutMultiset(ys, k);
    WithoutMultiset(xs, 0);
    assert Without(xs, 0) == xs[1..];
    assert multiset(xs[1..]) == multiset(xs) - multiset{xs[0]};
    assert multiset(Without(ys, k)) == multiset(ys) - multiset{ys[k]};
  }

  // The image does not depend on the order in which a directory is read.
  lemma {:induction false} OrderIndependent(m: Tree, xs: seq<Request>, ys: seq<Request>)
    requires PrefixClosed(m) && Compatible(m, xs)
    requires multiset(xs) == multiset(ys)
    ensures Run(m, xs) == Run(m, ys)
    decreases |xs|
  {
    SameMembers(xs, ys);
    if xs != [] {
      assert xs[0] in ys;
      var k :| 0 <= k < |ys| && ys[k] == xs[0];
      TakeOut(xs, ys, k);
      MoveToFront(m, ys, k);
      InsertKeepsClosed(m, xs[0]);
      InsertKeepsCompatible(m, xs[0], xs, xs[1..]);
      OrderIndependent(Insert(m, xs[0]), xs[1..], Without(ys, k));
    }
  }

  // ---------------------------------------------------------------- which insertion wins

  // The node that the first request touching q leaves there.
  function FirstNode(op: Request, q: Path): Node {
    if Writes(op, q) then op.entry.node else Dir
  }

  // A path never changes its node once it exists.
  lemma {:induction false} NodeIsKept(m: Tree, ops: seq<Request>, q: Path)
    requires PrefixClosed(m) && q in m
    ensures q in Run(m, ops) && Run(m, ops)[q].node == m[q].node
    decreases |ops|
  {
    if ops != [] {
      InsertMeaning(m, ops[0], q);
      InsertKeepsClosed(m, ops[0]);
      assert Lookup(Insert(m, ops[0]), q).Some?;
      NodeIsKept(Insert(m, ops[0]), ops[1..], q);
    }
  }

  lemma {:induction false} UntouchedIsKept(m: Tree, ops: seq<Request>, q: Path)
    requires PrefixClosed(m)
    requires forall op :: op in ops ==> !Touches(op, q)
    ensures Lookup(Run(m, ops), q) == Lookup(m, q)
    decreases |ops|
  {
    if ops != [] {
      InsertMeaning(m, ops[0], q);
      InsertKeepsClosed(m, ops[0]);
      assert ops[0] in ops;
      UntouchedIsKept(Insert(m, ops[0]), ops[1..], q);
    }
  }

  // Which paths there are after a run: those from before and those that some request touches.
  lemma {:induction false} RunPaths(m: Tree, ops: seq<Request>, q: Path)
    requires PrefixClosed(m)
    ensures q in Run(m, ops) <==> q in m || exists i :: 0 <= i < |ops| && Touches(ops[i], q)
    decreases |ops|
  {
    if ops != [] {
      var m' := Insert(m, ops[0]);
      InsertMeaning(m, ops[0], q);
      InsertKeepsClosed(m, ops[0]);
      RunPaths(m', ops[1..], q);
      assert q in m' <==> q in m || Touches(ops[0], q) by {
        assert q in m' <==> Lookup(m', q).Some?;
      }
      if i :| 0 <= i < |ops| && Touches(ops[i], q) && i > 0 {
        assert ops[1..][i - 1] == ops[i];
      }
    }
  }

  // The first request that touches a new path fixes its type, link target and device numbers.
  lemma {:induction false} FirstTypeWins(m: Tree, ops: seq<Request>, q: Path, i: nat)
    requires PrefixClosed(m) && q !in m
    requires i < |ops| && Touches(ops[i], q)
    requires forall k :: 0 <= k < i ==> !Touches(ops[k], q)
    ensures q in Run(m, ops) && Run(m, ops)[q].node == FirstNode(ops[i], q)
  {
    var before := Run(m, ops[..i]);
    RunKeepsClosed(m, ops[..i]);
    UntouchedIsKept(m, ops[..i], q);
    InsertMeaning(before, ops[i], q);
    InsertKeepsClosed(before, ops[i]);
    RunAppend(m, ops[..i], ops[i..]);
    assert ops == ops[..i] + ops[i..];
    NodeIsKept(Insert(before, ops[i]), ops[i + 1..], q);
    assert ops[i..][1..] == ops[i + 1..];
  }

  // `op` replaces the attributes of a path that holds `node`.
  predicate Replaces(op: Request, q: Path, node: Node) {
    Writes(op, q) && SameType(node, op.entry.node)
  }

  lemma {:induction false} UnreplacedIsKept(m: Tree, ops: seq<Request>, q: Path)
    requires PrefixClosed(m) && q in m
    requires forall op :: op in ops ==> !Replaces(op, q, m[q].node)
    ensures Lookup(Run(m, ops), q) == Some(m[q])
    decreases |ops|
  {
    if ops != [] {
      InsertMeaning(m, ops[0], q);
      InsertKeepsClosed(m, ops[0]);
      assert ops[0] in ops;
      UnreplacedIsKept(Insert(m, ops[0]), ops[1..], q);
    }
  }

  // The last request of the right type decides source, mode, uid and gid.
  lemma {:induction false} LastWriterWins(m: Tree, ops: seq<Request>, q: Path, j: nat)
    requires PrefixClosed(m) && j < |ops|
    requires q in Run(m, ops) && Replaces(ops[j], q, Run(m, ops)[q].node)
    requires forall k :: j < k < |ops| ==> !Replaces(ops[k], q, Run(m, ops)[q].node)
    ensures var r, e := Run(m, ops)[q], ops[j].entry;
            r.source == e.source && r.mode == e.mode && r.uid == e.uid && r.gid == e.gid
  {
    var before := Run(m, ops[..j]);
    RunKeepsClosed(m, ops[..j]);
    InsertMeaning(before, ops[j], q);
    InsertKeepsClosed(before, ops[j]);
    RunAppend(m, ops[..j], ops[j..]);
    assert ops == ops[..j] + ops[j..];
    assert ops[j..][1..] == ops[j + 1..];
    var mid := Insert(before, ops[j]);
    assert Lookup(mid, q).Some?;
    NodeIsKept(mid, ops[j + 1..], q);
    UnreplacedIsKept(mid, ops[j + 1..], q);
  }

  // A directory nobody described keeps the defaults it was invented with.
  lemma {:induction false} InventedKeepsDefaults(m: Tree, ops: seq<Request>, q: Path, i: nat)
    requires PrefixClosed(m) && q !in m
    requires i < |ops| && Touches(ops[i], q)
    requires forall k :: 0 <= k < |ops| ==> !Replaces(ops[k], q, Dir) && (k <= i ==> !Writes(ops[k], q))
    requires forall k :: 0 <= k < i ==> !Touches(ops[k], q)
    ensures Lookup(Run(m, ops), q) == Some(Entry(Dir, None, 0x1ED, 0, 0))
  {
    var before := Run(m, ops[..i]);
    RunKeepsClosed(m, ops[..i]);
    UntouchedIsKept(m, ops[..i], q);
    InsertMeaning(before, ops[i], q);
    InsertKeepsClosed(before, ops[i]);
    RunAppend(m, ops[..i], ops[i..]);
    assert ops == ops[..i] + ops[i..];
    assert ops[i..][1..] == ops[i + 1..];
    UnreplacedIsKept(Insert(before, ops[i]), ops[i + 1..], q);
  }

  // ---------------------------------------------------------------- when the order matters

  // An order of xs that starts with a.
  lemma StartingWith(xs: seq<Request>, a: Request) returns (ys: seq<Request>)
    requires a in xs
    ensures multiset(ys) == multiset(xs) && ys != [] && ys[0] == a
  {
    var k :| 0 <= k < |xs| && xs[k] == a;
    ys := [a] + Without(xs, k);
    WithoutMultiset(xs, k);
  }

  // With a done first its path is what a says, and with b done first it is a directory.
  lemma ConflictShows(m: Tree, a: Request, b: Request, ys: seq<Request>, zs: seq<Request>)
    requires PrefixClosed(m) && Conflict(m, a, b) && ys != [] && ys[0] == a && zs != [] && zs[0] == b
    ensures Run(m, ys) != Run(m, zs)
  {
    FirstTypeWins(m, ys, a.path, 0);
    FirstTypeWins(m, zs, a.path, 0);
    assert !Writes(b, a.path);
  }

  ghost predicate DifferentPaths(ops: seq<Request>) {
    forall a, b :: a in ops && b in ops && a != b ==> a.path != b.path
  }

  // Every order gives the same image.
  ghost predicate OrderFree(m: Tree, xs: seq<Request>) {
    forall ys: seq<Request> :: multiset(ys) == multiset(xs) ==> Run(m, ys) == Run(m, xs)
  }

  /**
    For requests with different paths, the image is the same for every order in which they are
    done if and only if no one is a new non-directory above another.
  */
  lemma OrderMatters(m: Tree, xs: seq<Request>)
    requires PrefixClosed(m) && DifferentPaths(xs)
    ensures OrderFree(m, xs) <==> Compatible(m, xs)
  {
    if Compatible(m, xs) {
      forall ys: seq<Request> | multiset(ys) == multiset(xs) ensures Run(m, ys) == Run(m, xs) {
        OrderIndependent(m, xs, ys);
      }
    } else {
      var a, b :| a in xs && b in xs && a != b && Conflict(m, a, b);
      var ys := StartingWith(xs, a);
      var zs := StartingWith(xs, b);
      ConflictShows(m, a, b, ys, zs);
      assert Run(m, ys) != Run(m, xs) || Run(m, zs) != Run(m, xs);
    }
  }
}
