/**
  Unpacking the archive record by record, the way the kernel fills its root file system:
  a record needs its parent directory, and no path may come twice.
*/
module Unpacking {
  import opened CText
  import opened Overlay
  import opened ImageSources
  import opened Preorder
  import opened Newc
  import opened ImageRecords
  import opened InitrdImage

  predicate IsDirRecord(r: Record) {
    r.mode / 0x1000 == 4
  }

  function Unpack(rs: seq<Record>, done: map<Path, Record>): Option<map<Path, Record>>
    decreases |rs|
  {
    if rs == [] then Some(done)
    else
      var p := Split(rs[0].name, '/');
      if p in done then None
      else if |p| > 1 && (Parent(p) !in done || !IsDirRecord(done[Parent(p)])) then None
      else Unpack(rs[1..], done[p := rs[0]])
  }

  // `done` holds the records of exactly those of the paths that get one.
  ghost predicate Rebuilt(host: Host, m: Tree, ps: seq<Path>, done: map<Path, Record>) {
    && (forall q :: q in done <==> q in ps && q in m && Usable(host, m[q]))
    && (forall q :: q in done ==> IsRecordOf(host, m, q, done[q]))
  }

  ghost predicate IsRecordOf(host: Host, m: Tree, q: Path, r: Record) {
    q in m && Usable(host, m[q]) && Says(host, Join(q, '/'), m[q], r)
  }

  // The directory of a path that gets a record gets one too.
  ghost predicate ParentWritten(host: Host, m: Tree, q: Path) {
    q in m && |q| > 1 && Usable(host, m[q]) ==> Parent(q) in m && Usable(host, m[Parent(q)])
  }

  lemma {:induction false} NumberIsKept(host: Host, m: Tree, ino: uint32, q: Path)
    ensures var r := RecordOf(host, m)(ino, q);
            && (r.Some? <==> q in m && Usable(host, m[q]))
            && (r.Some? ==> IsRecordOf(host, m, q, r.value) && r.value.name == Join(q, '/'))
  {
    if q in m {
      RecordMeaning(host, ino, Join(q, '/'), m[q]);
    }
  }

  lemma DirRecordsAreDirs(host: Host, m: Tree, q: Path, r: Record)
    requires IsRecordOf(host, m, q, r)
    ensures IsDirRecord(r) <==> m[q].node.Dir?
  {
    assert r.mode / 0x1000 == (r.mode - r.mode % 0x200) / 0x1000;
  }

  // The directory of the k-th path is one of the paths before it.
  lemma ParentBefore(m: Tree, ps: seq<Path>, k: nat)
    requires IsListing(m, ps) && k < |ps| && |ps[k]| > 1
    ensures Parent(ps[k]) in ps[..k] && Parent(ps[k]) in m && m[Parent(ps[k])].node.Dir?
  {
    var q := ps[k];
    var d := Parent(q);
    assert Visible(m, q);
    forall n | 0 < n < |d| ensures d[..n] in m && m[d[..n]].node.Dir? {
      assert d[..n] == q[..n];
    }
    assert Visible(m, d);
    PrefixFirst(d, q);
    PathTrichotomy(d, q);
    var j :| 0 <= j < |ps| && ps[j] == d;
    assert j < k;
    assert ps[..k][j] == d;
  }

  lemma NewPath(ps: seq<Path>, k: nat)
    requires Ascending(ps) && k < |ps|
    ensures ps[k] !in ps[..k]
  {
    PathTrichotomy(ps[k], ps[k]);
  }

  // The record of the k-th path can be unpacked exactly when that of its directory was.
  lemma UnpackOne(host: Host, m: Tree, ps: seq<Path>, k: nat, r: Record, rest: seq<Record>, done: map<Path, Record>)
    requires IsListing(m, ps) && SlashFree(m) && k < |ps| && Rebuilt(host, m, ps[..k], done)
    requires IsRecordOf(host, m, ps[k], r) && Usable(host, m[ps[k]]) && r.name == Join(ps[k], '/')
    ensures Unpack([r] + rest, done) == if ParentWritten(host, m, ps[k]) then Unpack(rest, done[ps[k] := r]) else None
    ensures Rebuilt(host, m, ps[..k + 1], done[ps[k] := r])
  {
    var q := ps[k];
    assert ps[..k + 1] == ps[..k] + [q];
    assert ([r] + rest)[1..] == rest;
    assert Visible(m, q);
    assert Split(r.name, '/') == q by {
      SplitJoin(q, '/');
    }
    NewPath(ps, k);
    if |q| > 1 {
      ParentBefore(m, ps, k);
      if Parent(q) in done {
        DirRecordsAreDirs(host, m, Parent(q), done[Parent(q)]);
      }
    }
  }

  lemma {:induction false} UnpackFrom(host: Host, m: Tree, ps: seq<Path>, k: nat, ino: uint32, done: map<Path, Record>)
    requires IsListing(m, ps) && SlashFree(m) && k <= |ps| && Rebuilt(host, m, ps[..k], done)
    ensures var res := Unpack(Emit(RecordOf(host, m), ps[k..], ino), done);
            && (res.Some? <==> forall i :: k <= i < |ps| ==> ParentWritten(host, m, ps[i]))
            && (res.Some? ==> Rebuilt(host, m, ps, res.value))
    decreases |ps| - k
  {
    var rec := RecordOf(host, m);
    if k == |ps| {
      assert ps[..k] == ps;
    } else {
      var q := ps[k];
      assert ps[k..][1..] == ps[k + 1..];
      assert ps[..k + 1] == ps[..k] + [q];
      NumberIsKept(host, m, ino, q);
      var r := rec(ino, q);
      if r.None? {
        UnpackFrom(host, m, ps, k + 1, ino, done);
      } else {
        UnpackOne(host, m, ps, k, r.value, Emit(rec, ps[k + 1..], Next(ino)), done);
        if ParentWritten(host, m, q) {
          UnpackFrom(host, m, ps, k + 1, Next(ino), done[q := r.value]);
        }
      }
    }
  }

  /**
    Unpacking the image in order succeeds if and only if no directory above a written path
    was skipped for an unusable source, and then it rebuilds exactly the written paths.
  */
  lemma UnpackImage(host: Host, m: Tree, ps: seq<Path>, bytes: string)
    requires IsImage(host, m, ps, bytes) && SlashFree(m) && TRAILER_PATH !in UsablePaths(host, m, ps)
    ensures ReadAll(bytes, 0).Some?
    ensures var res := Unpack(ReadAll(bytes, 0).value, map[]);
            && (res.Some? <==> forall q :: Visible(m, q) ==> ParentWritten(host, m, q))
            && (res.Some? ==> Rebuilt(host, m, ps, res.value))
  {
    ReadImage(host, m, ps, bytes);
    UnpackFrom(host, m, ps, 0, 721, map[]);
    assert ps[0..] == ps;
    forall q | Visible(m, q) ensures exists i :: 0 <= i < |ps| && ps[i] == q {
      assert q in ps;
    }
  }

  // Trees that insertions build from the empty one have no slash in a component.
  lemma FinalTreeSlashFree(src: FileSources)
    ensures SlashFree(FinalTree(src))
  {
    var ops := Flatten(Layers(src));
    forall q | q in FinalTree(src) ensures Free(q, '/') {
      if q != [] {
        if forall op :: op in ops ==> !Touches(op, q) {
          UntouchedIsKept(EMPTY_TREE, ops, q);
        } else {
          var op: Request :| op in ops && Touches(op, q);
          LayersSlashFree(src, op);
          assert forall k :: 0 <= k < |q| ==> q[k] == op.path[k];
        }
      }
    }
  }

  lemma LayersSlashFree(src: FileSources, op: Request)
    requires op in Flatten(Layers(src))
    ensures Free(op.path, '/')
  {
    LayersAreItems(src);
    var os := Origins(src);
    var i :| 0 <= i < |os| && RequestsOf(src, os)[i] == op;
    assert os[i] in os;
    SplitFree(ItemAt(src, os[i]).path, '/');
  }
}
