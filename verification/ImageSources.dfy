/**
  The order in which the file sources of a card are folded into one tree:
  a directory base, then CommonDir, then the enabled overlays, then MicDir.
*/
module ImageSources {
  import opened CText
  import opened Overlay
  import opened FileTrees

  // What walking a source directory or file list asks to be inserted.
  datatype Item = Item(path: string, entry: Entry)

  datatype OverlayDir = OverlayDir(enabled: bool, items: seq<Item>)

  datatype FileSources = FileSources(
    baseIsDir: bool,
    base: seq<Item>,
    common: seq<Item>,
    overlays: seq<OverlayDir>,
    mic: seq<Item>)

  function RequestOf(item: Item): Request {
    Op(Split(item.path, '/'), item.entry)
  }

  function Requests(items: seq<Item>): (r: seq<Request>)
    ensures |r| == |items|
  {
    seq(|items|, i requires 0 <= i < |items| => RequestOf(items[i]))
  }

  function EnabledLayers(overlays: seq<OverlayDir>): seq<seq<Request>> {
    if overlays == [] then []
    else (if overlays[0].enabled then [Requests(overlays[0].items)] else []) + EnabledLayers(overlays[1..])
  }

  // Only a base of type DIR is read into the tree; a CPIO base is unpacked by the kernel first.
  function BaseLayer(src: FileSources): seq<seq<Request>> {
    if src.baseIsDir then [Requests(src.base)] else []
  }

  // Lowest layer first.
  function Layers(src: FileSources): seq<seq<Request>> {
    BaseLayer(src) + [Requests(src.common)] + EnabledLayers(src.overlays) + [Requests(src.mic)]
  }

  function Flatten<T>(layers: seq<seq<T>>): seq<T> {
    if layers == [] then [] else layers[0] + Flatten(layers[1..])
  }

  lemma {:induction false} FlattenAppend<T>(a: seq<seq<T>>, b: seq<seq<T>>)
    ensures Flatten(a + b) == Flatten(a) + Flatten(b)
  {
    if a == [] {
      assert a + b == b;
    } else {
      assert (a + b)[1..] == a[1..] + b;
      FlattenAppend(a[1..], b);
    }
  }

  lemma FlattenOne<T>(a: seq<T>)
    ensures Flatten([a]) == a
  {
    assert Flatten<T>([]) == [];
  }

  lemma {:induction false} FlattenMember<T>(layers: seq<seq<T>>, x: T)
    ensures x in Flatten(layers) ==> exists l :: 0 <= l < |layers| && x in layers[l]
  {
    if layers != [] {
      FlattenMember(layers[1..], x);
      if x in Flatten(layers[1..]) {
        var l :| 0 <= l < |layers[1..]| && x in layers[1..][l];
        assert layers[l + 1] == layers[1..][l];
      } else if x in Flatten(layers) {
        assert x in layers[0];
      }
    }
  }

  // The tree before any source is read.
  const EMPTY_TREE: Tree := map[[] := ROOT_DIR]

  function FinalTree(src: FileSources): Tree {
    Run(EMPTY_TREE, Flatten(Layers(src)))
  }

  // ---------------------------------------------------------------- which source decides

  // An item of a source, by its number in the source; overlays are numbered, too.
  datatype Origin = InBase(item: nat) | InCommon(item: nat) | InOverlay(dir: nat, item: nat) | InMic(item: nat)

  // The sources from below: base, common, overlays, mic.
  function Rank(o: Origin): nat {
    match o
    case InBase(_) => 0
    case InCommon(_) => 1
    case InOverlay(_, _) => 2
    case InMic(_) => 3
  }

  // Overlays are read in the order of their list, and the items of a source in theirs.
  predicate Before(a: Origin, b: Origin) {
    || Rank(a) < Rank(b)
    || (Rank(a) == Rank(b) && a.InOverlay? && a.dir < b.dir)
    || (Rank(a) == Rank(b) && (a.InOverlay? ==> a.dir == b.dir) && a.item < b.item)
  }

  // An item that is read: a base counts only when it is a directory, an overlay only when it is enabled.
  predicate IsRead(src: FileSources, o: Origin) {
    match o
    case InBase(j) => src.baseIsDir && j < |src.base|
    case InCommon(j) => j < |src.common|
    case InOverlay(k, j) => k < |src.overlays| && src.overlays[k].enabled && j < |src.overlays[k].items|
    case InMic(j) => j < |src.mic|
  }

  function ItemAt(src: FileSources, o: Origin): Item
    requires IsRead(src, o)
  {
    match o
    case InBase(j) => src.base[j]
    case InCommon(j) => src.common[j]
    case InOverlay(k, j) => src.overlays[k].items[j]
    case InMic(j) => src.mic[j]
  }

  function DirOrigins(overlays: seq<OverlayDir>, k: nat): seq<Origin>
    requires k < |overlays|
  {
    if overlays[k].enabled then seq(|overlays[k].items|, j requires 0 <= j => InOverlay(k, j)) else []
  }

  // All items that are read, lowest first.
  function OverlayOrigins(overlays: seq<OverlayDir>, k: nat): seq<Origin>
    requires k <= |overlays|
    decreases |overlays| - k
  {
    if k == |overlays| then [] else DirOrigins(overlays, k) + OverlayOrigins(overlays, k + 1)
  }

  function Origins(src: FileSources): seq<Origin> {
    (if src.baseIsDir then seq(|src.base|, j requires 0 <= j => InBase(j)) else [])
    + seq(|src.common|, j requires 0 <= j => InCommon(j))
    + OverlayOrigins(src.overlays, 0)
    + seq(|src.mic|, j requires 0 <= j => InMic(j))
  }

  ghost predicate InOrder(os: seq<Origin>) {
    forall i, j :: 0 <= i < j < |os| ==> Before(os[i], os[j])
  }

  lemma OrderedJoin(a: seq<Origin>, b: seq<Origin>)
    requires InOrder(a) && InOrder(b) && forall x, y :: x in a && y in b ==> Before(x, y)
    ensures InOrder(a + b)
  {
    forall i, j | 0 <= i < j < |a + b| ensures Before((a + b)[i], (a + b)[j]) {
      if i < |a| <= j {
        assert a[i] in a && b[j - |a|] in b;
      }
    }
  }

  ghost predicate InDir(overlays: seq<OverlayDir>, o: Origin) {
    o.InOverlay? && o.dir < |overlays| && overlays[o.dir].enabled && o.item < |overlays[o.dir].items|
  }

  lemma DirOriginsAre(overlays: seq<OverlayDir>, k: nat)
    requires k < |overlays|
    ensures InOrder(DirOrigins(overlays, k))
    ensures forall o :: o in DirOrigins(overlays, k) <==> InDir(overlays, o) && o.dir == k
  {
    forall o | InDir(overlays, o) && o.dir == k ensures o in DirOrigins(overlays, k) {
      assert DirOrigins(overlays, k)[o.item] == o;
    }
  }

  lemma {:induction false} OverlayOriginsAre(overlays: seq<OverlayDir>, k: nat)
    requires k <= |overlays|
    ensures InOrder(OverlayOrigins(overlays, k))
    ensures forall o :: o in OverlayOrigins(overlays, k) <==> InDir(overlays, o) && k <= o.dir
    decreases |overlays| - k
  {
    if k < |overlays| {
      OverlayOriginsAre(overlays, k + 1);
      DirOriginsAre(overlays, k);
      OrderedJoin(DirOrigins(overlays, k), OverlayOrigins(overlays, k + 1));
    }
  }

  // The list holds exactly the items that are read, in the order of the sources.
  lemma OriginsAre(src: FileSources)
    ensures InOrder(Origins(src))
    ensures forall o :: o in Origins(src) <==> IsRead(src, o)
  {
    var b := if src.baseIsDir then seq(|src.base|, j requires 0 <= j => InBase(j)) else [];
    var c := seq(|src.common|, j requires 0 <= j => InCommon(j));
    var v := OverlayOrigins(src.overlays, 0);
    var m := seq(|src.mic|, j requires 0 <= j => InMic(j));
    assert forall o :: o in b <==> o.InBase? && IsRead(src, o) by {
      forall o: Origin | o.InBase? && IsRead(src, o) ensures o in b {
        assert b[o.item] == o;
      }
    }
    assert forall o :: o in c <==> o.InCommon? && IsRead(src, o) by {
      forall o: Origin | o.InCommon? && IsRead(src, o) ensures o in c {
        assert c[o.item] == o;
      }
    }
    assert forall o :: o in m <==> o.InMic? && IsRead(src, o) by {
      forall o: Origin | o.InMic? && IsRead(src, o) ensures o in m {
        assert m[o.item] == o;
      }
    }
    OverlayOriginsAre(src.overlays, 0);
    OrderedJoin(b, c);
    OrderedJoin(b + c, v);
    OrderedJoin(b + c + v, m);
  }

  // The requests of some items.
  function RequestsOf(src: FileSources, os: seq<Origin>): (r: seq<Request>)
    requires forall o :: o in os ==> IsRead(src, o)
    ensures |r| == |os| && forall i :: 0 <= i < |os| ==> r[i] == RequestOf(ItemAt(src, os[i]))
  {
    seq(|os|, i requires 0 <= i < |os| => RequestOf(ItemAt(src, os[i])))
  }

  lemma RequestsOfAppend(src: FileSources, a: seq<Origin>, b: seq<Origin>)
    requires forall o :: o in a + b ==> IsRead(src, o)
    ensures (forall o :: o in a ==> IsRead(src, o)) && forall o :: o in b ==> IsRead(src, o)
    ensures RequestsOf(src, a + b) == RequestsOf(src, a) + RequestsOf(src, b)
  {
    assert forall o :: o in a ==> o in a + b;
    assert forall o :: o in b ==> o in a + b;
  }

  lemma {:induction false} OverlayRequests(src: FileSources, k: nat)
    requires k <= |src.overlays|
    ensures forall o :: o in OverlayOrigins(src.overlays, k) ==> IsRead(src, o)
    ensures Flatten(EnabledLayers(src.overlays[k..])) == RequestsOf(src, OverlayOrigins(src.overlays, k))
    decreases |src.overlays| - k
  {
    OverlayOriginsAre(src.overlays, k);
    if k < |src.overlays| {
      var dir, rest := src.overlays[k], OverlayOrigins(src.overlays, k + 1);
      OverlayRequests(src, k + 1);
      assert src.overlays[k..][1..] == src.overlays[k + 1..];
      if dir.enabled {
        var here := DirOrigins(src.overlays, k);
        RequestsOfAppend(src, here, rest);
        assert RequestsOf(src, here) == Requests(dir.items);
        FlattenAppend([Requests(dir.items)], EnabledLayers(src.overlays[k + 1..]));
        FlattenOne(Requests(dir.items));
      } else {
        assert OverlayOrigins(src.overlays, k) == rest;
        assert EnabledLayers(src.overlays[k..]) == EnabledLayers(src.overlays[k + 1..]);
      }
    }
  }

  // The tree is made of the items that are read, one after the other.
  lemma LayersAreItems(src: FileSources)
    ensures forall o :: o in Origins(src) ==> IsRead(src, o)
    ensures Flatten(Layers(src)) == RequestsOf(src, Origins(src))
  {
    OriginsAre(src);
    var b := if src.baseIsDir then seq(|src.base|, j requires 0 <= j => InBase(j)) else [];
    var c := seq(|src.common|, j requires 0 <= j => InCommon(j));
    var v := OverlayOrigins(src.overlays, 0);
    var m := seq(|src.mic|, j requires 0 <= j => InMic(j));
    RequestsOfAppend(src, b + c + v, m);
    RequestsOfAppend(src, b + c, v);
    RequestsOfAppend(src, b, c);
    OverlayRequests(src, 0);
    assert src.overlays[0..] == src.overlays;
    assert RequestsOf(src, c) == Requests(src.common) && RequestsOf(src, m) == Requests(src.mic);
    assert src.baseIsDir ==> RequestsOf(src, b) == Requests(src.base);
    FlattenLayers(BaseLayer(src), Requests(src.common), EnabledLayers(src.overlays), Requests(src.mic));
    if src.baseIsDir {
      FlattenOne(Requests(src.base));
    }
  }

  lemma FlattenLayers<T>(a: seq<seq<T>>, b: seq<T>, c: seq<seq<T>>, d: seq<T>)
    ensures Flatten(a + [b] + c + [d]) == Flatten(a) + b + Flatten(c) + d
  {
    FlattenAppend(a + [b] + c, [d]);
    FlattenAppend(a + [b], c);
    FlattenAppend(a, [b]);
    FlattenOne(b);
    FlattenOne(d);
  }

  // The item has an entry for q that can replace the attributes of a node of the given type.
  predicate Describes(item: Item, q: Path, node: Node) {
    q == Split(item.path, '/') && q[|q| - 1] != "" && SameType(node, item.entry.node)
  }

  // The item makes sure that q exists: it has an entry for it, or for something below.
  predicate Reaches(item: Item, q: Path) {
    var p := Split(item.path, '/');
    q != [] && q <= p && (q == p ==> q[|q| - 1] != "")
  }

  lemma DescribesIsReplaces(item: Item, q: Path, node: Node)
    ensures Describes(item, q, node) <==> Replaces(RequestOf(item), q, node)
  {
  }

  lemma ReachesIsTouches(item: Item, q: Path)
    ensures Reaches(item, q) <==> Touches(RequestOf(item), q)
  {
  }

  // The last item that describes a path with the type it has decides its source, mode and owner.
  lemma LastItemWins(src: FileSources, o: Origin, q: Path)
    requires IsRead(src, o) && q in FinalTree(src) && Describes(ItemAt(src, o), q, FinalTree(src)[q].node)
    requires forall o' :: IsRead(src, o') && Before(o, o') ==> !Describes(ItemAt(src, o'), q, FinalTree(src)[q].node)
    ensures var r, e := FinalTree(src)[q], ItemAt(src, o).entry;
            r.source == e.source && r.mode == e.mode && r.uid == e.uid && r.gid == e.gid
  {
    OriginsAre(src);
    LayersAreItems(src);
    var os := Origins(src);
    var ops, node := RequestsOf(src, os), FinalTree(src)[q].node;
    var j :| 0 <= j < |os| && os[j] == o;
    forall k | j < k < |ops| ensures !Replaces(ops[k], q, node) {
      assert os[k] in os && Before(o, os[k]);
      DescribesIsReplaces(ItemAt(src, os[k]), q, node);
    }
    DescribesIsReplaces(ItemAt(src, o), q, node);
    LastWriterWins(EMPTY_TREE, ops, q, j);
  }

  // The first item that reaches a path decides its type, link target and device numbers.
  lemma FirstItemDecides(src: FileSources, o: Origin, q: Path)
    requires IsRead(src, o) && Reaches(ItemAt(src, o), q)
    requires forall o' :: IsRead(src, o') && Before(o', o) ==> !Reaches(ItemAt(src, o'), q)
    ensures q in FinalTree(src)
    ensures FinalTree(src)[q].node == if q == Split(ItemAt(src, o).path, '/') then ItemAt(src, o).entry.node else Dir
  {
    OriginsAre(src);
    LayersAreItems(src);
    var os := Origins(src);
    var ops := RequestsOf(src, os);
    var j :| 0 <= j < |os| && os[j] == o;
    forall k | 0 <= k < j ensures !Touches(ops[k], q) {
      assert os[k] in os && Before(os[k], o);
      ReachesIsTouches(ItemAt(src, os[k]), q);
    }
    ReachesIsTouches(ItemAt(src, o), q);
    FirstTypeWins(EMPTY_TREE, ops, q, j);
  }

  ghost predicate Reached(src: FileSources, q: Path) {
    exists o :: IsRead(src, o) && Reaches(ItemAt(src, o), q)
  }

  lemma ReachedIffTouched(src: FileSources, ops: seq<Request>, q: Path)
    requires (forall o :: o in Origins(src) ==> IsRead(src, o)) && ops == RequestsOf(src, Origins(src))
    ensures Reached(src, q) <==> exists i :: 0 <= i < |ops| && Touches(ops[i], q)
  {
    OriginsAre(src);
    var os := Origins(src);
    if i :| 0 <= i < |ops| && Touches(ops[i], q) {
      assert os[i] in os;
      ReachesIsTouches(ItemAt(src, os[i]), q);
    }
    if o :| IsRead(src, o) && Reaches(ItemAt(src, o), q) {
      var i :| 0 <= i < |os| && os[i] == o;
      ReachesIsTouches(ItemAt(src, o), q);
      assert Touches(ops[i], q);
    }
  }

  // Nothing but the top and what items reach is in the tree; the top keeps its entry.
  lemma OnlyItemsCount(src: FileSources, q: Path)
    ensures q in FinalTree(src) <==> q == [] || Reached(src, q)
    ensures [] in FinalTree(src) && FinalTree(src)[[]] == Entry(Dir, None, 0x16D, 0, 0)
  {
    LayersAreItems(src);
    var ops := RequestsOf(src, Origins(src));
    ReachedIffTouched(src, ops, q);
    RunPaths(EMPTY_TREE, ops, q);
    assert Lookup(FinalTree(src), []) == Lookup(EMPTY_TREE, []) by {
      UntouchedIsKept(EMPTY_TREE, ops, []);
    }
  }

  // ---------------------------------------------------------------- the same, source by source

  // No enabled overlay from number k on has an item for q.
  ghost predicate OverlaysSilent(src: FileSources, k: nat, q: Path, node: Node) {
    forall l, i :: k <= l < |src.overlays| && src.overlays[l].enabled && 0 <= i < |src.overlays[l].items| ==>
      !Describes(src.overlays[l].items[i], q, node)
  }

  // No item from number j on is for q.
  ghost predicate Silent(items: seq<Item>, j: nat, q: Path, node: Node) {
    forall i :: j <= i < |items| ==> !Describes(items[i], q, node)
  }

  ghost predicate TakenFrom(m: Tree, q: Path, item: Item)
    requires q in m
  {
    var r, e := m[q], item.entry;
    r.source == e.source && r.mode == e.mode && r.uid == e.uid && r.gid == e.gid
  }

  // MicDir beats everything.
  lemma MicDirWins(src: FileSources, j: nat, q: Path)
    requires j < |src.mic| && q in FinalTree(src) && Describes(src.mic[j], q, FinalTree(src)[q].node)
    requires Silent(src.mic, j + 1, q, FinalTree(src)[q].node)
    ensures TakenFrom(FinalTree(src), q, src.mic[j])
  {
    LastItemWins(src, InMic(j), q);
  }

  // An overlay beats the base, CommonDir, and the overlays in front of it in the list.
  lemma OverlayWins(src: FileSources, k: nat, j: nat, q: Path)
    requires k < |src.overlays| && src.overlays[k].enabled && j < |src.overlays[k].items| && q in FinalTree(src)
    requires Describes(src.overlays[k].items[j], q, FinalTree(src)[q].node)
    requires Silent(src.overlays[k].items, j + 1, q, FinalTree(src)[q].node)
    requires OverlaysSilent(src, k + 1, q, FinalTree(src)[q].node) && Silent(src.mic, 0, q, FinalTree(src)[q].node)
    ensures TakenFrom(FinalTree(src), q, src.overlays[k].items[j])
  {
    LastItemWins(src, InOverlay(k, j), q);
  }

  // CommonDir beats the base only.
  lemma CommonWins(src: FileSources, j: nat, q: Path)
    requires j < |src.common| && q in FinalTree(src) && Describes(src.common[j], q, FinalTree(src)[q].node)
    requires Silent(src.common, j + 1, q, FinalTree(src)[q].node)
    requires OverlaysSilent(src, 0, q, FinalTree(src)[q].node) && Silent(src.mic, 0, q, FinalTree(src)[q].node)
    ensures TakenFrom(FinalTree(src), q, src.common[j])
  {
    LastItemWins(src, InCommon(j), q);
  }

  // A base directory decides only what no other source has.
  lemma BaseWins(src: FileSources, j: nat, q: Path)
    requires src.baseIsDir && j < |src.base| && q in FinalTree(src) && Describes(src.base[j], q, FinalTree(src)[q].node)
    requires Silent(src.base, j + 1, q, FinalTree(src)[q].node) && Silent(src.common, 0, q, FinalTree(src)[q].node)
    requires OverlaysSilent(src, 0, q, FinalTree(src)[q].node) && Silent(src.mic, 0, q, FinalTree(src)[q].node)
    ensures TakenFrom(FinalTree(src), q, src.base[j])
  {
    LastItemWins(src, InBase(j), q);
  }

  // ---------------------------------------------------------------- layers in general

  // The topmost layer that describes a path with the type it has decides its attributes.
  lemma {:induction false} TopmostLayerWins(m: Tree, layers: seq<seq<Request>>, k: nat, j: nat, q: Path)
    requires PrefixClosed(m) && k < |layers| && j < |layers[k]|
    requires q in Run(m, Flatten(layers))
    requires Replaces(layers[k][j], q, Run(m, Flatten(layers))[q].node)
    requires forall i :: j < i < |layers[k]| ==> !Replaces(layers[k][i], q, Run(m, Flatten(layers))[q].node)
    requires forall l, op :: k < l < |layers| && op in layers[l] ==> !Replaces(op, q, Run(m, Flatten(layers))[q].node)
    ensures var r, e := Run(m, Flatten(layers))[q], layers[k][j].entry;
            r.source == e.source && r.mode == e.mode && r.uid == e.uid && r.gid == e.gid
  {
    var below, above := Flatten(layers[..k]), Flatten(layers[k + 1..]);
    var ops := Flatten(layers);
    FlattenAppend(layers[..k], layers[k..]);
    assert layers == layers[..k] + layers[k..];
    assert layers[k..][1..] == layers[k + 1..];
    assert ops == below + layers[k] + above;
    var at := |below| + j;
    assert ops[at] == layers[k][j];
    forall i | at < i < |ops| ensures !Replaces(ops[i], q, Run(m, ops)[q].node) {
      if i < |below| + |layers[k]| {
        assert ops[i] == layers[k][i - |below|];
      } else {
        assert ops[i] == above[i - |below| - |layers[k]|];
        FlattenMember(layers[k + 1..], ops[i]);
        var l :| 0 <= l < |layers[k + 1..]| && ops[i] in layers[k + 1..][l];
        assert layers[k + 1..][l] == layers[k + 1 + l];
      }
    }
    LastWriterWins(m, ops, q, at);
  }

  // ---------------------------------------------------------------- building the tree

  method AddAll(image: Image, items: seq<Item>)
    requires image.Valid()
    modifies image, image.nodes
    ensures image.Valid() && fresh(image.nodes - old(image.nodes))
    ensures image.contents == Run(old(image.contents), Requests(items))
  {
    var i := 0;
    while i < |items|
      invariant 0 <= i <= |items|
      invariant image.Valid() && fresh(image.nodes - old(image.nodes))
      invariant Run(image.contents, Requests(items)[i..]) == Run(old(image.contents), Requests(items))
    {
      var node := new FileTree(items[i].entry);
      ghost var op := RequestOf(items[i]);
      assert image.Named(image.top);
      assert op.path == image.top.where + Split(items[i].path, '/');
      var err := image.InsertList(items[i].path, node, image.top, op.path);
      assert Requests(items)[i..][0] == op && Requests(items)[i..][1..] == Requests(items)[i + 1..];
      i := i + 1;
    }
  }

  // Puts one more source on top of the layers that are already in the tree.
  method AddLayer(image: Image, items: seq<Item>, ghost below: seq<seq<Request>>)
    requires image.Valid() && image.contents == Run(EMPTY_TREE, Flatten(below))
    modifies image, image.nodes
    ensures image.Valid() && fresh(image.nodes - old(image.nodes))
    ensures image.contents == Run(EMPTY_TREE, Flatten(below + [Requests(items)]))
  {
    AddAll(image, items);
    Extend(EMPTY_TREE, below, Requests(items));
  }

  lemma LayersFrom(overlays: seq<OverlayDir>, dir: nat, done: seq<seq<Request>>)
    requires dir < |overlays|
    ensures done + EnabledLayers(overlays[dir..]) ==
            (if overlays[dir].enabled then done + [Requests(overlays[dir].items)] else done) + EnabledLayers(overlays[dir + 1..])
  {
    assert overlays[dir..][1..] == overlays[dir + 1..];
    Associate(done, [Requests(overlays[dir].items)], EnabledLayers(overlays[dir + 1..]));
  }

  method AddOverlays(image: Image, overlays: seq<OverlayDir>, ghost below: seq<seq<Request>>)
    requires image.Valid() && image.contents == Run(EMPTY_TREE, Flatten(below))
    modifies image, image.nodes
    ensures image.Valid() && fresh(image.nodes - old(image.nodes))
    ensures image.contents == Run(EMPTY_TREE, Flatten(below + EnabledLayers(overlays)))
  {
    ghost var done := below;
    var dir := 0;
    while dir < |overlays|
      invariant 0 <= dir <= |overlays|
      invariant image.Valid() && fresh(image.nodes - old(image.nodes))
      invariant image.contents == Run(EMPTY_TREE, Flatten(done))
      invariant below + EnabledLayers(overlays) == done + EnabledLayers(overlays[dir..])
    {
      LayersFrom(overlays, dir, done);
      if overlays[dir].enabled {
        AddLayer(image, overlays[dir].items, done);
        done := done + [Requests(overlays[dir].items)];
      }
      dir := dir + 1;
    }
    assert done + EnabledLayers(overlays[dir..]) == done;
  }

  method GenFsTree(src: FileSources) returns (image: Image)
    ensures fresh(image) && image.Valid() && fresh(image.nodes)
    ensures image.contents == FinalTree(src)
  {
    image := new Image();
    if src.baseIsDir {
      AddLayer(image, src.base, []);
    }
    ghost var done := BaseLayer(src);
    AddLayer(image, src.common, done);
    done := done + [Requests(src.common)];
    AddOverlays(image, src.overlays, done);
    done := done + EnabledLayers(src.overlays);
    AddLayer(image, src.mic, done);
  }

  lemma Extend(m: Tree, done: seq<seq<Request>>, layer: seq<Request>)
    ensures Run(m, Flatten(done + [layer])) == Run(Run(m, Flatten(done)), layer)
  {
    FlattenAppend(done, [layer]);
    FlattenOne(layer);
    RunAppend(m, Flatten(done), layer);
  }
}
