/**
  Writing the tree as an archive: the byte stream with its inode and offset counters,
  one routine per entry type, the recursive walk and the trailer.
*/
module ImageWriter {
  import opened CText
  import opened Overlay
  import opened FileTrees
  import opened Preorder
  import opened Newc
  import opened ImageRecords

  class CpioWriter {
    var out: string
    var inode: uint32
    var offset: uint32
    ghost var written: seq<Record>
    // The paths visited so far, whether or not they got a record.
    ghost var paths: seq<Path>

    constructor ()
      ensures Valid() && written == [] && paths == [] && inode == 721
    {
      out, inode, offset, written, paths := "", 721, 0, [], [];
    }

    // The offset is the number of bytes written, modulo the width of the counter.
    predicate Counted()
      reads this
    {
      offset == U32(|out|)
    }

    // Between records the stream is the bytes of the records so far, and ends on a multiple of four.
    ghost predicate Valid()
      reads this
    {
      Counted() && |out| % 4 == 0 && AllFit(written) && out == EncodeAll(written)
    }

    method Put(s: string)
      requires Counted()
      modifies this
      ensures Counted() && out == old(out) + s && inode == old(inode) && written == old(written) && paths == old(paths)
    {
      out := out + s;
      offset := U32(offset + |s|);
    }

    // The name with its NUL, padded by the length of the header and the name alone.
    method PushRest(name: string)
      requires Counted() && |name| < PATH_MAX
      modifies this
      ensures Counted() && inode == old(inode) && written == old(written) && paths == old(paths)
      ensures out == old(out) + name + [NUL] + Pad4(HEADER_SIZE + |name| + 1)
    {
      Put(name + [NUL]);
      ghost var named := out;
      var tmp := |name| + 1 + HEADER_SIZE;
      while tmp % 4 != 0
        invariant Counted() && inode == old(inode) && written == old(written) && paths == old(paths)
        invariant HEADER_SIZE + |name| + 1 <= tmp <= Align4(HEADER_SIZE + |name| + 1)
        invariant out == named + Zeros(tmp - (HEADER_SIZE + |name| + 1))
        decreases Align4(HEADER_SIZE + |name| + 1) - tmp
      {
        Put([NUL]);
        tmp := tmp + 1;
      }
    }

    // NUL bytes until the offset counter is a multiple of four.
    method PadToFour()
      requires Counted()
      modifies this
      ensures Counted() && inode == old(inode) && written == old(written) && paths == old(paths) && out == old(out) + Pad4(|old(out)|)
    {
      ghost var was, goal := out, Align4(|out|);
      WidthDivides(|out|);
      while offset % 4 != 0
        invariant Counted() && inode == old(inode) && written == old(written) && paths == old(paths)
        invariant offset % 4 == |out| % 4 && |was| <= |out| <= goal
        invariant out == was + Zeros(|out| - |was|)
        decreases goal - |out|
      {
        ZerosSnoc(was, |out| - |was|);
        Put([NUL]);
        WidthDivides(|out|);
      }
      WordIsFull(|was|, |out|);
    }

    // NUL bytes until the offset counter is a multiple of the block size.
    method PadToBlock()
      requires Counted()
      modifies this
      ensures Counted() && inode == old(inode) && written == old(written) && paths == old(paths) && out == old(out) + Zeros(RoundUp512(|old(out)|) - |old(out)|)
    {
      ghost var was, goal := out, RoundUp512(|out|);
      WidthDivides(|out|);
      while offset % 512 != 0
        invariant Counted() && inode == old(inode) && written == old(written) && paths == old(paths)
        invariant offset % 512 == |out| % 512 && |was| <= |out| <= goal
        invariant out == was + Zeros(|out| - |was|)
        decreases goal - |out|
      {
        ZerosSnoc(was, |out| - |was|);
        Put([NUL]);
        WidthDivides(|out|);
      }
      BlockIsFull(|was|, |out|);
    }

    // Exactly these records were added, numbered on from the inode counter.
    twostate predicate Wrote(rs: seq<Record>)
      reads this
    {
      written == old(written) + rs && paths == old(paths) && inode == U32(old(inode) + |rs|)
    }

    // The bytes just put out complete one record.
    method Complete(r: Record, ghost was: string)
      requires Fits(r) && AllFit(written) && was == EncodeAll(written)
      requires Counted() && out == was + Encode(r) && |out| % 4 == 0 && r.ino == inode
      modifies this`written, this`inode
      ensures Valid() && Wrote([r])
    {
      inode := Next(inode);
      EncodeSnoc(written, r);
      written := written + [r];
    }

    // The bytes of a record without a body.
    method PutPlain(r: Record)
      requires Counted() && |out| % 4 == 0 && Fits(r) && |r.name| < PATH_MAX && r.body == ""
      modifies this
      ensures Counted() && |out| % 4 == 0 && out == old(out) + Encode(r)
      ensures inode == old(inode) && written == old(written) && paths == old(paths)
    {
      Put(Header(r));
      PushRest(r.name);
      Assembled(old(out), r);
    }

    // A record without a body, for directories, devices, pipes and sockets.
    method PutBodiless(r: Record)
      requires Valid() && Fits(r) && |r.name| < PATH_MAX && r.body == "" && r.ino == inode
      modifies this
      ensures Valid() && Wrote([r])
    {
      PutPlain(r);
      Complete(r, old(out));
    }

    // The bytes of a record with a body: both paddings follow the offset counter.
    method PutParts(r: Record)
      requires Counted() && |out| % 4 == 0 && Fits(r)
      modifies this
      ensures Counted() && |out| % 4 == 0 && out == old(out) + Encode(r)
      ensures inode == old(inode) && written == old(written) && paths == old(paths)
    {
      Put(Header(r));
      Put(r.name + [NUL]);
      PadToFour();
      Put(r.body);
      PadToFour();
      Assembled(old(out), r);
    }

    // A record with a body, for files and links.
    method PutWithBody(r: Record)
      requires Valid() && Fits(r) && r.ino == inode
      modifies this
      ensures Valid() && Wrote([r])
    {
      PutParts(r);
      Complete(r, old(out));
    }

    method GenDir(d: FileTree, leader: string, host: Host)
      requires Valid() && d.kind == KDir && |leader| + 1 + |d.name| < PATH_MAX
      modifies this
      ensures Valid() && Wrote(OneOrNone(RecordFor(host, old(inode), (leader + "/" + d.name)[1..], d.Entry())))
    {
      var name := leader + "/" + d.name;
      var sbuf := Attributes(d.Entry(), host.stat);
      if sbuf.Some? {
        var st, mtime := sbuf.value, host.clock(name[1..]);
        PutBodiless(Record(inode, st.mode % 0x200 + IF_DIR, st.uid, st.gid, 2, mtime, 3, 1, 0, 0, name[1..], ""));
      }
    }

    method GenNode(n: FileTree, leader: string, host: Host)
      requires Valid() && n.kind == KNode && |leader| + 1 + |n.name| < PATH_MAX
      modifies this
      ensures Valid() && Wrote(OneOrNone(RecordFor(host, old(inode), (leader + "/" + n.name)[1..], n.Entry())))
    {
      var name := leader + "/" + n.name;
      var sbuf := Attributes(n.Entry(), host.stat);
      if sbuf.Some? {
        var st, mtime := sbuf.value, host.clock(name[1..]);
        PutBodiless(Record(inode, st.mode % 0x200 + (if n.inodeType == 'b' then IF_BLK else IF_CHR), st.uid, st.gid, 1, mtime, 3, 1,
                           DevMajor(st.rdev), DevMinor(st.rdev), name[1..], ""));
      }
    }

    method GenPipe(p: FileTree, leader: string, host: Host)
      requires Valid() && p.kind == KPipe && |leader| + 1 + |p.name| < PATH_MAX
      modifies this
      ensures Valid() && Wrote(OneOrNone(RecordFor(host, old(inode), (leader + "/" + p.name)[1..], p.Entry())))
    {
      var name := leader + "/" + p.name;
      var sbuf := Attributes(p.Entry(), host.stat);
      if sbuf.Some? {
        var st, mtime := sbuf.value, host.clock(name[1..]);
        PutBodiless(Record(inode, st.mode % 0x200 + IF_IFO, st.uid, st.gid, 2, mtime, 3, 1, 0, 0, name[1..], ""));
      }
    }

    method GenSock(s: FileTree, leader: string, host: Host)
      requires Valid() && s.kind == KSock && |leader| + 1 + |s.name| < PATH_MAX
      modifies this
      ensures Valid() && Wrote(OneOrNone(RecordFor(host, old(inode), (leader + "/" + s.name)[1..], s.Entry())))
    {
      var name := leader + "/" + s.name;
      var sbuf := Attributes(s.Entry(), host.stat);
      if sbuf.Some? {
        var st, mtime := sbuf.value, host.clock(name[1..]);
        PutBodiless(Record(inode, st.mode % 0x200 + IF_SOCK, st.uid, st.gid, 2, mtime, 3, 1, 0, 0, name[1..], ""));
      }
    }

    method GenSlink(l: FileTree, leader: string, host: Host)
      requires Valid() && l.kind == KLink && |leader| + 1 + |l.name| < PATH_MAX && |l.link| < PATH_MAX
      modifies this
      ensures Valid() && Wrote(OneOrNone(RecordFor(host, old(inode), (leader + "/" + l.name)[1..], l.Entry())))
    {
      var name := leader + "/" + l.name;
      var sbuf := Attributes(l.Entry(), host.lstat);
      if sbuf.Some? {
        var st, mtime := sbuf.value, host.clock(name[1..]);
        PutWithBody(Record(inode, st.mode % 0x200 + IF_LNK, st.uid, st.gid, 1, mtime, 3, 1, 0, 0, name[1..], l.link + [NUL]));
      }
    }

    // A file's record needs its source even when owner and mode are given.
    method GenFile(f: FileTree, leader: string, host: Host)
      requires Valid() && f.kind == KFile && |leader| + 1 + |f.name| < PATH_MAX
      modifies this
      ensures Valid() && Wrote(OneOrNone(RecordFor(host, old(inode), (leader + "/" + f.name)[1..], f.Entry())))
    {
      var name := leader + "/" + f.name;
      if f.source.None? || f.source.value !in host.files {
        return;
      }
      var src := host.files[f.source.value];
      if src.isLink || |src.bytes| > 0xffff_fffe {
        return;
      }
      var st := src.stat;
      if f.uid != -1 {
        st := Stat(U32(f.mode), U32(f.uid), U32(f.gid), 0);
      }
      PutWithBody(Record(inode, st.mode % 0x200 + IF_REG, st.uid, st.gid, 1, host.clock(name[1..]), 3, 1, 0, 0,
                         name[1..], src.bytes));
    }

    // One entry, by its type.
    method GenEntry(elem: FileTree, leader: string, host: Host, ghost r: Option<Record>)
      requires Valid() && |leader| + 1 + |elem.name| < PATH_MAX && (elem.kind == KLink ==> |elem.link| < PATH_MAX)
      requires r == RecordFor(host, inode, (leader + "/" + elem.name)[1..], elem.Entry())
      modifies this
      ensures Valid() && Wrote(OneOrNone(r))
    {
      match elem.kind {
        case KDir => GenDir(elem, leader, host);
        case KFile => GenFile(elem, leader, host);
        case KLink => GenSlink(elem, leader, host);
        case KNode => GenNode(elem, leader, host);
        case KPipe => GenPipe(elem, leader, host);
        case KSock => GenSock(elem, leader, host);
      }
    }

    // The records so far are those of the paths visited, numbered from 721.
    ghost predicate Follows(rec: Recorder)
      reads this
    {
      Valid() && written == Emit(rec, paths, 721) && inode == U32(721 + |written|)
    }

    // Writes one entry of the tree at its path w.
    method Visit(node: FileTree, leader: string, host: Host, ghost w: Path, ghost rec: Recorder)
      requires Follows(rec) && rec(inode, w) == RecordFor(host, inode, (leader + "/" + node.name)[1..], node.Entry())
      requires |leader| + 1 + |node.name| < PATH_MAX && (node.kind == KLink ==> |node.link| < PATH_MAX)
      modifies this
      ensures Follows(rec) && paths == old(paths) + [w]
    {
      EmitSnoc(rec, paths, w, 721, inode);
      GenEntry(node, leader, host, rec(inode, w));
      paths := paths + [w];
    }

    // Everything below a directory: each entry, followed by what it contains.
    method FollowDir(image: Image, elem: FileTree?, leader: string, host: Host, ghost dir: FileTree, ghost rec: Recorder)
      returns (ghost ps: seq<Path>)
      requires Follows(rec) && image.Valid() && AllStorable(image.contents) && Records(rec, host, image.contents)
      requires dir in image.nodes && elem == dir.subdir && leader == LeaderOf(dir.where)
      requires Opened(image.contents, dir.where)
      modifies this
      ensures Follows(rec) && paths == old(paths) + ps
      ensures ListsBelow(image.contents, dir.where, ps) && Ascending(ps)
      decreases |image.contents| - |dir.where|, 1
    {
      ghost var m, base, kids := image.contents, dir.where, dir.kids;
      ghost var names := image.KidNames(dir);
      assert image.Listed(dir);
      ps := [];
      var node := elem;
      ghost var i := 0;
      while node != null
        invariant 0 <= i <= |kids| && node == if i < |kids| then kids[i] else null
        invariant Lists(m, base, names[..i], ps)
        invariant Follows(rec) && paths == old(paths) + ps
        decreases |kids| - i
      {
        assert node.next == Following(kids, i);
        ghost var w, sub := FollowEntry(image, node, leader, host, dir, rec);
        ListsNext(m, base, names, i, ps, sub);
        Associate(old(paths), ps, [w] + sub);
        ps := ps + ([w] + sub);
        i := i + 1;
        node := node.next;
      }
      assert names[..i] == names;
      assert AllChildren(m, base, names);
    }

    // One entry and, when it is a directory, everything below it.
    method FollowEntry(image: Image, node: FileTree, leader: string, host: Host, ghost dir: FileTree, ghost rec: Recorder)
      returns (ghost w: Path, ghost sub: seq<Path>)
      requires Follows(rec) && image.Valid() && AllStorable(image.contents) && Records(rec, host, image.contents)
      requires dir in image.nodes && node in image.nodes && node != image.top && node.parent == dir
      requires leader == LeaderOf(dir.where) && Opened(image.contents, dir.where)
      modifies this
      ensures Follows(rec) && paths == old(paths) + ([w] + sub) && w == dir.where + [node.name]
      ensures Visible(image.contents, w) && ListsContents(image.contents, w, sub) && Ascending(sub)
      decreases |image.contents| - |dir.where|, 0
    {
      ghost var m := image.contents;
      w := node.where;
      assert image.Named(node) && image.Recorded(node);
      LeaderStep(dir.where, node.name);
      VisibleChild(m, dir.where, node.name);
      assert Storable(w, m[w]);
      Visit(node, leader, host, w, rec);
      sub := [];
      if node.kind == KDir {
        image.ContentsClosed();
        DepthBound(m, w);
        sub := FollowDir(image, node.subdir, leader + "/" + node.name, host, node, rec);
        Associate(old(paths), [w], sub);
      }
    }

    // The end marker, and NUL bytes up to a full block.
    method CpioTrailer()
      requires Valid()
      modifies this
      ensures out == Archive(old(written)) && offset == U32(|out|) && paths == old(paths)
    {
      var trailer := Record(0, 0, 0, 0, 1, 0, 0, 0, 0, 0, "TRAILER!!!", "");
      PutPlain(trailer);
      EncodeSnoc(written, trailer);
      PadToBlock();
    }
  }

  lemma ZerosSnoc(was: string, n: nat)
    ensures was + Zeros(n) + [NUL] == was + Zeros(n + 1)
  {
  }

  lemma WordIsFull(n: nat, m: nat)
    requires n <= m <= Align4(n) && m % 4 == 0
    ensures m == Align4(n)
  {
  }

  lemma BlockIsFull(n: nat, m: nat)
    requires n <= m <= RoundUp512(n) && m % 512 == 0
    ensures m == RoundUp512(n)
  {
  }

  // Everything above the entries of p is a directory.
  ghost predicate Opened(m: Tree, p: Path) {
    p == [] || (Visible(m, p) && m[p].node.Dir?)
  }

  lemma EncodeSnoc(rs: seq<Record>, r: Record)
    requires AllFit(rs) && Fits(r)
    ensures AllFit(rs + [r]) && EncodeAll(rs + [r]) == EncodeAll(rs) + Encode(r)
  {
    EncodeAppend(rs, [r]);
    assert EncodeAll([r]) == Encode(r) + EncodeAll([r][1..]);
  }

  // The leading part of the names below p.
  ghost function LeaderOf(p: Path): string {
    if p == [] then "" else "/" + Join(p, '/')
  }

  lemma LeaderStep(p: Path, c: string)
    ensures LeaderOf(p) + "/" + c == LeaderOf(p + [c])
    ensures (LeaderOf(p) + "/" + c)[1..] == Join(p + [c], '/')
  {
    if p != [] {
      JoinSnoc(p, c, '/');
    }
  }

  // The pieces of a record, in the order they are put out after `was`.
  lemma Assembled(was: string, r: Record)
    requires Fits(r) && |was| % 4 == 0
    ensures var named := was + Header(r) + (r.name + [NUL]);
            var padded := named + Pad4(|named|);
            var full := padded + r.body;
            && |was + Encode(r)| % 4 == 0
            && padded == was + Header(r) + r.name + [NUL] + Pad4(HEADER_SIZE + |r.name| + 1)
            && full + Pad4(|full|) == was + Encode(r)
            && (r.body == "" ==> padded == was + Encode(r))
  {
    var n := HEADER_SIZE + |r.name| + 1;
    var named := was + Header(r) + (r.name + [NUL]);
    AlignFrom(|was|, n);
    AlignFrom(|was| + Align4(n), |r.body|);
    var first, second := Pad4(n), Pad4(|r.body|);
    assert Pad4(|named|) == first;
    var full := named + first + r.body;
    assert Pad4(|full|) == second;
    Gather(was, Header(r), r.name, first, r.body, second);
    if r.body == "" {
      assert second == "";
    }
  }

  lemma Gather(was: string, h: string, name: string, first: string, body: string, second: string)
    ensures was + h + (name + [NUL]) + first + body + second == was + (h + name + [NUL] + first + body + second)
    ensures was + h + (name + [NUL]) + first == was + h + name + [NUL] + first
    ensures body == "" && second == "" ==>
              was + h + (name + [NUL]) + first == was + (h + name + [NUL] + first + body + second)
  {
  }
}
