/**
  The image as a whole: what an archive reader and an unpacker get back from it.
*/
module InitrdImage {
  import opened CText
  import opened Overlay
  import opened FileTrees
  import opened ImageSources
  import opened Preorder
  import opened Newc
  import opened ImageRecords
  import opened ImageWriter

  // The records of a tree whose paths, in writing order, are ps.
  function TreeRecords(host: Host, m: Tree, ps: seq<Path>): seq<Record> {
    Emit(RecordOf(host, m), ps, 721)
  }

  ghost predicate IsImage(host: Host, m: Tree, ps: seq<Path>, bytes: string) {
    && IsListing(m, ps) && AllFit(TreeRecords(host, m, ps))
    && bytes == Archive(TreeRecords(host, m, ps))
  }

  method GenCpio(image: Image, host: Host) returns (bytes: string, ghost ps: seq<Path>)
    requires image.Valid() && AllStorable(image.contents)
    ensures IsImage(host, image.contents, ps, bytes)
  {
    var writer := new CpioWriter();
    ghost var rec := RecordOf(host, image.contents);
    assert image.Named(image.top);
    ps := writer.FollowDir(image, image.top.subdir, "", host, image.top, rec);
    ListsAll(image.contents, ps);
    assert writer.paths == ps;
    writer.CpioTrailer();
    bytes := writer.out;
  }

  // From the sources of a card to the bytes of its image.
  method GenInitrd(src: FileSources, host: Host) returns (bytes: string, ghost ps: seq<Path>)
    requires AllStorable(FinalTree(src))
    ensures IsImage(host, FinalTree(src), ps, bytes)
  {
    var image := GenFsTree(src);
    bytes, ps := GenCpio(image, host);
  }

  // The tree alone decides the image.
  lemma ImageUnique(host: Host, m: Tree, ps: seq<Path>, bytes: string, ps': seq<Path>, bytes': string)
    requires IsImage(host, m, ps, bytes) && IsImage(host, m, ps', bytes')
    ensures ps == ps' && bytes == bytes'
  {
    AscendingUnique(ps, ps');
  }

  // Reading a source directory in another order gives the same bytes.
  lemma ImageOrderIndependent(host: Host, m: Tree, xs: seq<Request>, ys: seq<Request>,
                              ps: seq<Path>, bytes: string, ps': seq<Path>, bytes': string)
    requires PrefixClosed(m) && Compatible(m, xs) && multiset(xs) == multiset(ys)
    requires IsImage(host, Run(m, xs), ps, bytes) && IsImage(host, Run(m, ys), ps', bytes')
    ensures bytes == bytes'
  {
    OrderIndependent(m, xs, ys);
    ImageUnique(host, Run(m, xs), ps, bytes, ps', bytes');
  }

  // ---------------------------------------------------------------- reading the image back

  function UsableAt(host: Host, m: Tree): Path -> bool {
    q => q in m && Usable(host, m[q])
  }

  // The paths that get a record.
  function UsablePaths(host: Host, m: Tree, ps: seq<Path>): seq<Path> {
    Filter(UsableAt(host, m), ps)
  }

  lemma RecordIffUsable(host: Host, m: Tree)
    ensures Decides(UsableAt(host, m), RecordOf(host, m))
  {
  }

  lemma RecordNumber(host: Host, m: Tree, ps: seq<Path>, i: nat)
    requires i < |UsablePaths(host, m, ps)|
    ensures |TreeRecords(host, m, ps)| == |UsablePaths(host, m, ps)|
    ensures var q := UsablePaths(host, m, ps)[i];
            q in ps && q in m && Some(TreeRecords(host, m, ps)[i]) == RecordFor(host, U32(721 + i), Join(q, '/'), m[q])
  {
    RecordIffUsable(host, m);
    var rec, has := RecordOf(host, m), UsableAt(host, m);
    EmitCount(rec, has, ps, 721);
    EmitAt(rec, has, ps, 721, i);
    var q := Filter(has, ps)[i];
    FilterMember(has, ps, q);
    assert rec(U32(721 + i), q) == RecordFor(host, U32(721 + i), Join(q, '/'), m[q]);
  }

  // The i-th record of the image says, field by field, what the i-th usable path holds.
  lemma ImageRecord(host: Host, m: Tree, ps: seq<Path>, i: nat)
    requires i < |UsablePaths(host, m, ps)|
    ensures |TreeRecords(host, m, ps)| == |UsablePaths(host, m, ps)|
    ensures var q, r := UsablePaths(host, m, ps)[i], TreeRecords(host, m, ps)[i];
            && q in ps && q in m && Usable(host, m[q])
            && r.ino == (721 + i) % 0x1_0000_0000 && Says(host, Join(q, '/'), m[q], r)
  {
    RecordNumber(host, m, ps, i);
    var q := UsablePaths(host, m, ps)[i];
    FilterMember(UsableAt(host, m), ps, q);
    RecordMeaning(host, U32(721 + i), Join(q, '/'), m[q]);
  }

  // Components never contain a slash.
  ghost predicate SlashFree(m: Tree) {
    forall q :: q in m ==> Free(q, '/')
  }

  const TRAILER_PATH: Path := [TRAILER_NAME]

  lemma NameIsTrailer(q: Path)
    requires q != [] && Free(q, '/')
    ensures Join(q, '/') == TRAILER_NAME <==> q == TRAILER_PATH
  {
    SplitJoin(q, '/');
    assert Free(TRAILER_PATH, '/');
    SplitJoin(TRAILER_PATH, '/');
  }

  /**
    Reading the image gives exactly the records of the tree, in preorder, with inode numbers
    from 721, if and only if no file of the top directory is called like the trailer.
  */
  lemma ReadImage(host: Host, m: Tree, ps: seq<Path>, bytes: string)
    requires IsImage(host, m, ps, bytes) && SlashFree(m)
    ensures ReadAll(bytes, 0).Some?
    ensures ReadAll(bytes, 0) == Some(TreeRecords(host, m, ps)) <==> TRAILER_PATH !in UsablePaths(host, m, ps)
  {
    var rs, us := TreeRecords(host, m, ps), UsablePaths(host, m, ps);
    ReadArchive(rs);
    UntilTrailerIsAll(rs);
    RecordIffUsable(host, m);
    EmitCount(RecordOf(host, m), UsableAt(host, m), ps, 721);
    forall i | 0 <= i < |us| ensures rs[i].name == TRAILER_NAME <==> us[i] == TRAILER_PATH {
      RecordName(host, m, ps, i);
      assert Visible(m, us[i]);
      NameIsTrailer(us[i]);
    }
  }

  // Every tree whose names and link targets can be stored has an image.
  lemma StorableHasImage(host: Host, m: Tree, ps: seq<Path>)
    requires IsListing(m, ps) && AllStorable(m)
    ensures AllFit(TreeRecords(host, m, ps)) && IsImage(host, m, ps, Archive(TreeRecords(host, m, ps)))
  {
    var rs := TreeRecords(host, m, ps);
    RecordIffUsable(host, m);
    EmitCount(RecordOf(host, m), UsableAt(host, m), ps, 721);
    forall i | 0 <= i < |rs| ensures Fits(rs[i]) {
      var q := UsablePaths(host, m, ps)[i];
      RecordNumber(host, m, ps, i);
      RecordFits(host, m, U32(721 + i), q);
    }
  }

  lemma RecordName(host: Host, m: Tree, ps: seq<Path>, i: nat)
    requires i < |UsablePaths(host, m, ps)| && |TreeRecords(host, m, ps)| == |UsablePaths(host, m, ps)|
    ensures var q := UsablePaths(host, m, ps)[i]; q in ps && TreeRecords(host, m, ps)[i].name == Join(q, '/')
  {
    ImageRecord(host, m, ps, i);
  }
}
