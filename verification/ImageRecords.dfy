/**
  The record that each tree entry becomes, and the records of a whole tree.
  The host file system and the clock are parameters.
*/
module ImageRecords {
  import opened CText
  import opened Overlay
  import opened Newc

  datatype Stat = Stat(mode: nat, uid: uint32, gid: uint32, rdev: nat)

  datatype SourceFile = SourceFile(stat: Stat, isLink: bool, bytes: string)

  // A name that is not in a map is one for which the call fails.
  datatype Host = Host(
    stat: map<string, Stat>,
    lstat: map<string, Stat>,
    files: map<string, SourceFile>,
    clock: string -> uint32)

  const PATH_MAX: nat := 4096

  // C conversion of an int to a 32-bit unsigned type.
  function U32(n: int): uint32 {
    n % 0x1_0000_0000
  }

  function BitOr(a: nat, b: nat): nat {
    if a == 0 then b
    else if b == 0 then a
    else 2 * BitOr(a / 2, b / 2) + (if a % 2 == 1 || b % 2 == 1 then 1 else 0)
  }

  // MKDEV on unsigned ints: the high 24 bits and the low 8 bits of major << 8 | minor.
  function DeviceHigh(major: nat, minor: nat): nat {
    BitOr(major % 0x100_0000, U32(minor) / 0x100)
  }

  function MakeDev(major: nat, minor: nat): nat {
    DeviceHigh(major, minor) * 0x100 + minor % 0x100
  }

  function DevMajor(rdev: nat): uint32 {
    U32(rdev / 0x100)
  }

  function DevMinor(rdev: nat): uint32 {
    rdev % 0x100
  }

  lemma {:induction false} BitOrAtMostSum(a: nat, b: nat)
    ensures BitOr(a, b) <= a + b
  {
    if a != 0 && b != 0 {
      BitOrAtMostSum(a / 2, b / 2);
    }
  }

  // The k-th bit of n.
  predicate Bit(n: nat, k: nat) {
    if k == 0 then n % 2 == 1 else Bit(n / 2, k - 1)
  }

  lemma {:induction false} BitOrBits(a: nat, b: nat, k: nat)
    ensures Bit(BitOr(a, b), k) <==> Bit(a, k) || Bit(b, k)
    decreases k
  {
    if a == 0 || b == 0 {
      ZeroHasNoBits(k);
    } else if k > 0 {
      BitOrBits(a / 2, b / 2, k - 1);
    }
  }

  lemma {:induction false} ZeroHasNoBits(k: nat)
    ensures !Bit(0, k)
  {
    if k > 0 {
      ZeroHasNoBits(k - 1);
    }
  }

  // What MAJOR and MINOR get back from what MKDEV packed.
  lemma DeviceSplits(major: nat, minor: nat)
    ensures DevMinor(MakeDev(major, minor)) == minor % 0x100
    ensures DevMajor(MakeDev(major, minor)) == BitOr(major % 0x100_0000, minor % 0x1_0000_0000 / 0x100)
    ensures major < 0x100_0000 && minor < 0x100 ==> DevMajor(MakeDev(major, minor)) == major
  {
    var high := DeviceHigh(major, minor);
    BitOrAtMostSum(major % 0x100_0000, minor % 0x1_0000_0000 / 0x100);
    assert MakeDev(major, minor) / 0x100 == high && MakeDev(major, minor) % 0x100 == minor % 0x100;
    assert high < 0x1_0000_0000;
  }

  // Device numbers survive the trip through MKDEV exactly when they fit its 24 and 8 bits.
  lemma DeviceNumbersKept(major: uint32, minor: uint32)
    ensures DevMajor(MakeDev(major, minor)) == major && DevMinor(MakeDev(major, minor)) == minor
            <==> major < 0x100_0000 && minor < 0x100
  {
    BitOrAtMostSum(major % 0x100_0000, minor / 0x100);
    var high := DeviceHigh(major, minor);
    assert MakeDev(major, minor) / 0x100 == high && MakeDev(major, minor) % 0x100 == minor % 0x100;
  }

  // Owner and mode of an entry: its own, or those of its source when none were given.
  function Attributes(e: Entry, source: map<string, Stat>): Option<Stat> {
    if e.uid != -1 then
      var rdev := match e.node case Device(_, ma, mi) => MakeDev(ma, mi) case _ => 0;
      Some(Stat(U32(e.mode), U32(e.uid), U32(e.gid), rdev))
    else if e.source.Some? && e.source.value in source then Some(source[e.source.value])
    else None
  }

  const IF_SOCK: nat := 0xC000
  const IF_LNK: nat := 0xA000
  const IF_REG: nat := 0x8000
  const IF_BLK: nat := 0x6000
  const IF_DIR: nat := 0x4000
  const IF_CHR: nat := 0x2000
  const IF_IFO: nat := 0x1000

  function TypeBits(n: Node): nat {
    match n
    case Dir => IF_DIR
    case File => IF_REG
    case Link(_) => IF_LNK
    case Device(t, _, _) => if t == 'b' then IF_BLK else IF_CHR
    case Pipe => IF_IFO
    case Sock => IF_SOCK
  }

  function LinkCount(n: Node): nat {
    if n.Dir? || n.Pipe? || n.Sock? then 2 else 1
  }

  // (st_mode & 0777) | type
  function ModeField(n: Node, st: Stat): (r: uint32)
    ensures r % 0x200 == st.mode % 0x200 && r / 0x1000 == TypeBits(n) / 0x1000
  {
    st.mode % 0x200 + TypeBits(n)
  }

  function MakeRecord(ino: uint32, name: string, n: Node, st: Stat, mtime: uint32, body: string): Record {
    var device := n.Device?;
    Record(ino, ModeField(n, st), st.uid, st.gid, LinkCount(n), mtime, 3, 1,
           if device then DevMajor(st.rdev) else 0, if device then DevMinor(st.rdev) else 0, name, body)
  }

  // The file that a FILE entry copies, when it can be opened and is a plain file that fits.
  function SourceOf(host: Host, e: Entry): Option<SourceFile> {
    if e.source.Some? && e.source.value in host.files then
      var f := host.files[e.source.value];
      if f.isLink || |f.bytes| > 0xffff_fffe then None else Some(f)
    else None
  }

  /**
    The source of an entry can be used. A file needs one that can be opened, is no link and has a
    size that fits; anything else needs one only when no owner is given for it.
  */
  predicate Usable(host: Host, e: Entry) {
    match e.node
    case File =>
      && e.source.Some? && e.source.value in host.files
      && !host.files[e.source.value].isLink && |host.files[e.source.value].bytes| <= 0xffff_fffe
    case Link(_) => e.uid != -1 || (e.source.Some? && e.source.value in host.lstat)
    case _ => e.uid != -1 || (e.source.Some? && e.source.value in host.stat)
  }

  // The record written for an entry, or None when its source cannot be used and it is skipped.
  function RecordFor(host: Host, ino: uint32, name: string, e: Entry): Option<Record> {
    var mtime := host.clock(name);
    match e.node
    case File =>
      (match SourceOf(host, e)
       case None => None
       case Some(f) =>
         var st := if e.uid != -1 then Stat(U32(e.mode), U32(e.uid), U32(e.gid), 0) else f.stat;
         Some(MakeRecord(ino, name, e.node, st, mtime, f.bytes)))
    case Link(target) =>
      (match Attributes(e, host.lstat)
       case None => None
       case Some(st) => Some(MakeRecord(ino, name, e.node, st, mtime, target + [NUL])))
    case _ =>
      (match Attributes(e, host.stat)
       case None => None
       case Some(st) => Some(MakeRecord(ino, name, e.node, st, mtime, "")))
  }

  // ---------------------------------------------------------------- what a record says

  // What the host knows of the source of an entry that no owner is given for.
  function SourceStat(host: Host, e: Entry): Stat
    requires Usable(host, e) && e.uid == -1
  {
    match e.node
    case File => host.files[e.source.value].stat
    case Link(_) => host.lstat[e.source.value]
    case _ => host.stat[e.source.value]
  }

  // The contents of a file, the target of a link and its NUL, and nothing for anything else.
  ghost predicate SaysBody(host: Host, e: Entry, r: Record)
    requires Usable(host, e)
  {
    match e.node
    case File => r.body == host.files[e.source.value].bytes
    case Link(target) => r.body == target + "\0"
    case _ => r.body == ""
  }

  // Owner and permissions: the entry's own, or those of its source when none are given.
  ghost predicate SaysOwner(host: Host, e: Entry, r: Record)
    requires Usable(host, e)
  {
    if e.uid != -1 then
      r.uid == U32(e.uid) && r.gid == U32(e.gid) && r.mode % 0x200 == U32(e.mode) % 0x200
    else
      var st := SourceStat(host, e);
      r.uid == st.uid && r.gid == st.gid && r.mode % 0x200 == st.mode % 0x200
  }

  // The type above the permission bits, and the number of links.
  ghost predicate SaysType(e: Entry, r: Record) {
    match e.node
    case Dir => r.mode - r.mode % 0x200 == 0x4000 && r.nlink == 2
    case File => r.mode - r.mode % 0x200 == 0x8000 && r.nlink == 1
    case Link(_) => r.mode - r.mode % 0x200 == 0xA000 && r.nlink == 1
    case Device(t, _, _) => r.mode - r.mode % 0x200 == (if t == 'b' then 0x6000 else 0x2000) && r.nlink == 1
    case Pipe => r.mode - r.mode % 0x200 == 0x1000 && r.nlink == 2
    case Sock => r.mode - r.mode % 0x200 == 0xC000 && r.nlink == 2
  }

  // A device has its own numbers as MKDEV packs them, or those of its source; anything else has none.
  ghost predicate SaysDevice(host: Host, e: Entry, r: Record)
    requires Usable(host, e)
  {
    match e.node
    case Device(_, major, minor) =>
      if e.uid != -1 then
        && r.rdevMinor == minor % 0x100 && r.rdevMajor == BitOr(major % 0x100_0000, minor % 0x1_0000_0000 / 0x100)
        && (major < 0x100_0000 && minor < 0x100 ==> r.rdevMajor == major)
      else
        var rdev := SourceStat(host, e).rdev;
        r.rdevMajor == rdev / 0x100 % 0x1_0000_0000 && r.rdevMinor == rdev % 0x100
    case _ => r.rdevMajor == 0 && r.rdevMinor == 0
  }

  // Everything that a reader of the image is told about an entry.
  ghost predicate Says(host: Host, name: string, e: Entry, r: Record)
    requires Usable(host, e)
  {
    && r.name == name && r.mtime == host.clock(name) && r.devMajor == 3 && r.devMinor == 1
    && SaysBody(host, e, r) && SaysOwner(host, e, r) && SaysType(e, r) && SaysDevice(host, e, r)
  }

  // r is the record number ino of an entry.
  ghost predicate IsRecord(host: Host, ino: uint32, name: string, e: Entry, r: Option<Record>) {
    if Usable(host, e) then r.Some? && r.value.ino == ino && Says(host, name, e, r.value) else r.None?
  }

  lemma FileRecord(host: Host, ino: uint32, name: string, e: Entry)
    requires e.node.File?
    ensures IsRecord(host, ino, name, e, RecordFor(host, ino, name, e))
  {
  }

  lemma LinkRecord(host: Host, ino: uint32, name: string, e: Entry)
    requires e.node.Link?
    ensures IsRecord(host, ino, name, e, RecordFor(host, ino, name, e))
  {
  }

  lemma DeviceRecord(host: Host, ino: uint32, name: string, e: Entry)
    requires e.node.Device?
    ensures IsRecord(host, ino, name, e, RecordFor(host, ino, name, e))
  {
    DeviceSplits(e.node.major, e.node.minor);
  }

  lemma PlainRecord(host: Host, ino: uint32, name: string, e: Entry)
    requires e.node.Dir? || e.node.Pipe? || e.node.Sock?
    ensures IsRecord(host, ino, name, e, RecordFor(host, ino, name, e))
  {
  }

  // An entry gets a record exactly when its source can be used, and the record says what the entry is.
  lemma RecordMeaning(host: Host, ino: uint32, name: string, e: Entry)
    ensures IsRecord(host, ino, name, e, RecordFor(host, ino, name, e))
  {
    match e.node
    case File => FileRecord(host, ino, name, e);
    case Link(_) => LinkRecord(host, ino, name, e);
    case Device(_, _, _) => DeviceRecord(host, ino, name, e);
    case _ => PlainRecord(host, ino, name, e);
  }

  // ---------------------------------------------------------------- the records of a tree

  // Names and link targets come out of buffers of PATH_MAX bytes.
  ghost predicate Storable(q: Path, e: Entry) {
    |Join(q, '/')| + 1 < PATH_MAX && (e.node.Link? ==> |e.node.target| < PATH_MAX)
  }

  ghost predicate AllStorable(m: Tree) {
    forall q :: q in m && q != [] ==> Storable(q, m[q])
  }

  function Next(ino: uint32): uint32 {
    U32(ino + 1)
  }

  // The record of a path, if it gets one, given the next inode number.
  type Recorder = (uint32, Path) -> Option<Record>

  function RecordOf(host: Host, m: Tree): Recorder {
    (ino: uint32, q: Path) => if q in m then RecordFor(host, ino, Join(q, '/'), m[q]) else None
  }

  ghost predicate Records(rec: Recorder, host: Host, m: Tree) {
    forall ino, q {:trigger rec(ino, q)} :: q in m ==> rec(ino, q) == RecordFor(host, ino, Join(q, '/'), m[q])
  }

  // The records of some paths, in that order, with consecutive inode numbers.
  function Emit(rec: Recorder, ps: seq<Path>, ino: uint32): (rs: seq<Record>)
    decreases |ps|
  {
    if ps == [] then []
    else
      match rec(ino, ps[0])
      case None => Emit(rec, ps[1..], ino)
      case Some(r) => [r] + Emit(rec, ps[1..], Next(ino))
  }

  function OneOrNone(r: Option<Record>): seq<Record> {
    if r.Some? then [r.value] else []
  }

  lemma EmitOne(rec: Recorder, w: Path, ino: uint32)
    ensures Emit(rec, [w], ino) == OneOrNone(rec(ino, w))
  {
    assert Emit(rec, [w][1..], ino) == [];
    assert Emit(rec, [w][1..], Next(ino)) == [];
  }

  lemma U32Add(x: nat, n: nat)
    ensures U32(U32(x) + n) == U32(x + n)
  {
  }

  lemma {:induction false} EmitAppend(rec: Recorder, ps: seq<Path>, qs: seq<Path>, ino: uint32)
    ensures var rs := Emit(rec, ps, ino);
            Emit(rec, ps + qs, ino) == rs + Emit(rec, qs, U32(ino + |rs|))
    decreases |ps|
  {
    if ps == [] {
      assert ps + qs == qs;
    } else {
      assert (ps + qs)[1..] == ps[1..] + qs;
      match rec(ino, ps[0])
      case None => EmitAppend(rec, ps[1..], qs, ino);
      case Some(r) =>
        EmitAppend(rec, ps[1..], qs, Next(ino));
        NumbersGoOn(rec, r, Emit(rec, ps[1..], Next(ino)), qs, ino);
    }
  }

  // The records behind r and rs have the numbers that they would have behind rs, one further on.
  lemma NumbersGoOn(rec: Recorder, r: Record, rs: seq<Record>, qs: seq<Path>, ino: uint32)
    ensures [r] + (rs + Emit(rec, qs, U32(Next(ino) + |rs|))) == [r] + rs + Emit(rec, qs, U32(ino + |[r] + rs|))
  {
    assert U32(Next(ino) + |rs|) == U32(ino + |[r] + rs|) by {
      U32Add(ino + 1, |rs|);
    }
    Associate([r], rs, Emit(rec, qs, U32(Next(ino) + |rs|)));
  }

  // One more path adds its record, if it gets one, under the next number.
  lemma EmitSnoc(rec: Recorder, ps: seq<Path>, w: Path, from: uint32, ino: uint32)
    requires ino == U32(from + |Emit(rec, ps, from)|)
    ensures Emit(rec, ps + [w], from) == Emit(rec, ps, from) + OneOrNone(rec(ino, w))
    ensures U32(ino + |OneOrNone(rec(ino, w))|) == U32(from + |Emit(rec, ps + [w], from)|)
  {
    EmitAppend(rec, ps, [w], from);
    EmitOne(rec, w, ino);
    U32Add(from + |Emit(rec, ps, from)|, |OneOrNone(rec(ino, w))|);
  }

  // `has` says which paths get a record, whatever their number.
  ghost predicate Decides(has: Path -> bool, rec: Recorder) {
    forall ino, q {:trigger rec(ino, q)} :: rec(ino, q).Some? <==> has(q)
  }

  lemma {:induction false} EmitCount(rec: Recorder, has: Path -> bool, ps: seq<Path>, from: uint32)
    requires Decides(has, rec)
    ensures |Emit(rec, ps, from)| == |Filter(has, ps)|
    decreases |ps|
  {
    if ps != [] {
      var r := rec(from, ps[0]);
      EmitCount(rec, has, ps[1..], if r.None? then from else Next(from));
    }
  }

  // The i-th record is that of the i-th path that gets one, under the i-th number.
  lemma {:induction false} EmitAt(rec: Recorder, has: Path -> bool, ps: seq<Path>, from: uint32, i: nat)
    requires Decides(has, rec) && i < |Filter(has, ps)| && |Emit(rec, ps, from)| == |Filter(has, ps)|
    ensures rec(U32(from + i), Filter(has, ps)[i]) == Some(Emit(rec, ps, from)[i])
    decreases |ps|
  {
    var r := rec(from, ps[0]);
    var ino := if r.None? then from else Next(from);
    EmitCount(rec, has, ps[1..], ino);
    if r.None? {
      EmitAt(rec, has, ps[1..], from, i);
    } else if i > 0 {
      EmitAt(rec, has, ps[1..], ino, i - 1);
      U32Add(from + 1, i - 1);
    }
  }

  // The counter's width is a multiple of both alignments.
  lemma WidthDivides(n: nat)
    ensures U32(n) % 4 == n % 4 && U32(n) % 512 == n % 512
  {
    var q, b := n / 0x1_0000_0000, U32(n);
    Remainders(0x4000_0000 * q + b / 4, b % 4, 0x80_0000 * q + b / 512, b % 512);
    assert n == 4 * (0x4000_0000 * q + b / 4) + b % 4;
    assert n == 512 * (0x80_0000 * q + b / 512) + b % 512;
  }

  lemma Remainders(a: nat, r: nat, c: nat, s: nat)
    requires r < 4 && s < 512
    ensures (4 * a + r) % 4 == r && (512 * c + s) % 512 == s
  {
  }

  lemma RecordFits(host: Host, m: Tree, ino: uint32, q: Path)
    requires q in m && q != [] && AllStorable(m)
    ensures RecordOf(host, m)(ino, q).Some? ==> Fits(RecordOf(host, m)(ino, q).value)
  {
    assert Storable(q, m[q]);
  }
}
