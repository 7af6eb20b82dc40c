/**
  The "newc" archive format of cpio(5), section "New ASCII Format": how a record is
  laid out in bytes, and a reader that follows absolute offsets and knows nothing of the writer.
*/
module Newc {
  import opened CText

  type uint32 = n: nat | n < 0x1_0000_0000

  datatype Record = Record(
    ino: uint32, mode: uint32, uid: uint32, gid: uint32, nlink: uint32, mtime: uint32,
    devMajor: uint32, devMinor: uint32, rdevMajor: uint32, rdevMinor: uint32,
    name: string, body: string)

  // The sizes of the name and the body have to fit their header fields.
  predicate Fits(r: Record) {
    |r.name| + 1 < 0x1_0000_0000 && |r.body| < 0x1_0000_0000
  }

  // ---------------------------------------------------------------- hexadecimal fields

  function HexDigit(d: nat): (c: char)
    requires d < 16
  {
    if d < 10 then '0' + d as char else 'A' + (d - 10) as char
  }

  function HexValue(c: char): Option<nat> {
    if '0' <= c <= '9' then Some((c - '0') as nat)
    else if 'A' <= c <= 'F' then Some((c - 'A') as nat + 10)
    else if 'a' <= c <= 'f' then Some((c - 'a') as nat + 10)
    else None
  }

  function Pow16(w: nat): nat {
    if w == 0 then 1 else 16 * Pow16(w - 1)
  }

  // The low w hexadecimal digits of n, most significant first.
  function Hex(n: nat, w: nat): (s: string)
    ensures |s| == w
  {
    if w == 0 then "" else Hex(n / 16, w - 1) + [HexDigit(n % 16)]
  }

  function ParseHex(s: string): Option<nat> {
    if s == "" then Some(0)
    else
      match (ParseHex(s[..|s| - 1]), HexValue(s[|s| - 1]))
      case (Some(hi), Some(lo)) => Some(16 * hi + lo)
      case _ => None
  }

  lemma {:induction false} ParseHexUndoesHex(n: nat, w: nat)
    requires n < Pow16(w)
    ensures ParseHex(Hex(n, w)) == Some(n)
  {
    if w > 0 {
      ParseHexUndoesHex(n / 16, w - 1);
      assert Hex(n, w)[..w - 1] == Hex(n / 16, w - 1);
    }
  }

  // %08X
  function Hex8(n: uint32): (s: string)
    ensures |s| == 8 && ParseHex(s) == Some(n)
  {
    assert Pow16(8) == 0x1_0000_0000;
    ParseHexUndoesHex(n, 8);
    Hex(n, 8)
  }

  function HexAll(fields: seq<uint32>): (s: string)
    ensures |s| == 8 * |fields|
  {
    if fields == [] then "" else Hex8(fields[0]) + HexAll(fields[1..])
  }

  function ReadFields(s: string): (res: Option<seq<uint32>>)
    requires |s| % 8 == 0
    ensures res.Some? ==> 8 * |res.value| == |s|
  {
    if s == "" then Some([])
    else
      match (ParseHex(s[..8]), ReadFields(s[8..]))
      case (Some(n), Some(rest)) => if n < 0x1_0000_0000 then Some([n] + rest) else None
      case _ => None
  }

  lemma {:induction false} ReadFieldsUndoesHexAll(fields: seq<uint32>)
    ensures ReadFields(HexAll(fields)) == Some(fields)
  {
    if fields != [] {
      var s := HexAll(fields);
      assert s[..8] == Hex8(fields[0]) && s[8..] == HexAll(fields[1..]);
      ReadFieldsUndoesHexAll(fields[1..]);
      assert fields == [fields[0]] + fields[1..];
    }
  }

  // ---------------------------------------------------------------- writing

  const MAGIC: string := "070701"

  const HEADER_SIZE: nat := 110

  function Fields(r: Record): (f: seq<uint32>)
    requires Fits(r)
    ensures |f| == 13
  {
    [r.ino, r.mode, r.uid, r.gid, r.nlink, r.mtime, |r.body|,
     r.devMajor, r.devMinor, r.rdevMajor, r.rdevMinor, |r.name| + 1, 0]
  }

  function Header(r: Record): (s: string)
    requires Fits(r)
    ensures |s| == HEADER_SIZE
  {
    MAGIC + HexAll(Fields(r))
  }

  function Align4(n: nat): (r: nat)
    ensures r % 4 == 0 && n <= r < n + 4
  {
    (n + 3) / 4 * 4
  }

  function Zeros(n: nat): (s: string)
    ensures |s| == n && forall i :: 0 <= i < n ==> s[i] == NUL
  {
    seq(n, i => NUL)
  }

  // NUL bytes that bring a length of n to a multiple of four.
  function Pad4(n: nat): (s: string)
    ensures n + |s| == Align4(n) && forall i :: 0 <= i < |s| ==> s[i] == NUL
  {
    Zeros(Align4(n) - n)
  }

  // A record that starts on a multiple of four.
  function Encode(r: Record): (s: string)
    requires Fits(r)
    ensures |s| % 4 == 0
  {
    Header(r) + r.name + [NUL] + Pad4(HEADER_SIZE + |r.name| + 1) + r.body + Pad4(|r.body|)
  }

  // ---------------------------------------------------------------- reading

  // The fields of the header at offset pos.
  function ReadHeader(b: string, pos: nat): (res: Option<seq<uint32>>)
    ensures res.Some? ==> |res.value| == 13 && pos + HEADER_SIZE <= |b|
  {
    if |b| < pos + HEADER_SIZE || b[pos..pos + 6] != "070701" then None
    else ReadFields(b[pos + 6..pos + HEADER_SIZE])
  }

  // The NUL-terminated name of n bytes at offset pos.
  function ReadName(b: string, pos: nat, n: nat): Option<string> {
    if n == 0 || |b| < pos + n || b[pos + n - 1] != NUL then None else Some(b[pos..pos + n - 1])
  }

  function ReadBody(b: string, pos: nat, n: nat): Option<string> {
    if |b| < pos + n then None else Some(b[pos..pos + n])
  }

  // The record at offset pos and the offset of the next one.
  function ReadAt(b: string, pos: nat): (res: Option<(Record, nat)>)
    ensures res.Some? ==> pos + HEADER_SIZE <= |b| && res.value.1 >= pos + HEADER_SIZE
  {
    match ReadHeader(b, pos)
    case None => None
    case Some(f) =>
      var dataAt := Align4(pos + HEADER_SIZE + f[11]);
      match (ReadName(b, pos + HEADER_SIZE, f[11]), ReadBody(b, dataAt, f[6]))
      case (Some(name), Some(body)) =>
        Some((Record(f[0], f[1], f[2], f[3], f[4], f[5], f[7], f[8], f[9], f[10], name, body), Align4(dataAt + f[6])))
      case _ => None
  }

  const TRAILER_NAME: string := "TRAILER!!!"

  // All records from pos up to the trailer; None when the bytes are not an archive.
  function ReadAll(b: string, pos: nat): Option<seq<Record>>
    decreases if pos <= |b| then |b| - pos else 0
  {
    match ReadAt(b, pos)
    case None => None
    case Some((r, next)) =>
      if r.name == "TRAILER!!!" then Some([])
      else
        match ReadAll(b, next)
        case None => None
        case Some(rest) => Some([r] + rest)
  }

  // ---------------------------------------------------------------- reading undoes writing

  lemma HeaderRead(b: string, pos: nat, r: Record)
    requires Fits(r) && pos + HEADER_SIZE <= |b| && b[pos..pos + HEADER_SIZE] == Header(r)
    ensures ReadHeader(b, pos) == Some(Fields(r))
  {
    var h := b[pos..pos + HEADER_SIZE];
    assert b[pos..pos + 6] == h[..6] == MAGIC;
    assert b[pos + 6..pos + HEADER_SIZE] == h[6..] == HexAll(Fields(r));
    ReadFieldsUndoesHexAll(Fields(r));
  }

  lemma Within(b: string, pos: nat, e: string, i: nat, j: nat)
    requires pos + |e| <= |b| && b[pos..pos + |e|] == e && i <= j <= |e|
    ensures b[pos + i..pos + j] == e[i..j]
  {
    forall k | 0 <= k < j - i ensures b[pos + i..pos + j][k] == e[i..j][k] {
      assert e[i + k] == b[pos..pos + |e|][i + k];
    }
  }

  // The parts of a record are in e where their sizes say, counted from its start.
  ghost predicate LaidOut(e: string, r: Record, dataAt: nat) {
    var n := HEADER_SIZE + |r.name|;
    && Fits(r) && dataAt == Align4(n + 1) && |e| == Align4(dataAt + |r.body|)
    && e[0..HEADER_SIZE] == Header(r) && e[HEADER_SIZE..n] == r.name && e[n..n + 1] == [NUL]
    && e[dataAt..dataAt + |r.body|] == r.body
  }

  lemma Layout(r: Record)
    requires Fits(r)
    ensures LaidOut(Encode(r), r, Align4(HEADER_SIZE + |r.name| + 1))
  {
    FirstParts(Header(r), r.name, [NUL], Pad4(HEADER_SIZE + |r.name| + 1), r.body, Pad4(|r.body|));
    PaddedSizes(HEADER_SIZE + |r.name| + 1, |r.body|);
  }

  lemma PaddedSizes(n: nat, m: nat)
    ensures n + |Pad4(n)| == Align4(n) && Align4(n) + m + |Pad4(m)| == Align4(Align4(n) + m)
  {
    AlignFrom(Align4(n), m);
  }

  // Where the parts of a text made of six are.
  lemma FirstParts(a: string, b: string, c: string, d: string, e: string, f: string)
    ensures var s := a + b + c + d + e + f;
            var ab := |a| + |b|; var abcd := ab + |c| + |d|;
            && |s| == abcd + |e| + |f| && s[0..|a|] == a && s[|a|..ab] == b && s[ab..ab + |c|] == c && s[abcd..abcd + |e|] == e
  {
    var abc := a + b + c;
    assert abc[0..|a|] == a && abc[|a|..|a| + |b|] == b && abc[|a| + |b|..] == c;
  }

  // The parts of a record that was laid out in e are found in b, where e stands at pos.
  lemma PartsWithin(b: string, pos: nat, e: string, r: Record, at: nat, nameAt: nat, nulAt: nat, dataAt: nat, end: nat)
    requires LaidOut(e, r, at) && pos + |e| <= |b| && b[pos..pos + |e|] == e
    requires nameAt == pos + HEADER_SIZE && nulAt == nameAt + |r.name| && dataAt == pos + at && end == dataAt + |r.body|
    ensures nulAt < dataAt && end <= |b| && b[pos..nameAt] == Header(r) && b[nameAt..nulAt] == r.name
    ensures b[nulAt..nulAt + 1] == [NUL] && b[dataAt..end] == r.body
  {
    var n := HEADER_SIZE + |r.name|;
    Within(b, pos, e, 0, HEADER_SIZE);
    Within(b, pos, e, HEADER_SIZE, n);
    Within(b, pos, e, n, n + 1);
    Within(b, pos, e, at, at + |r.body|);
  }

  lemma OffsetsWithin(pos: nat, e: string, r: Record, at: nat)
    requires pos % 4 == 0 && LaidOut(e, r, at)
    ensures pos + at == Align4(pos + HEADER_SIZE + |r.name| + 1) && pos + |e| == Align4(pos + at + |r.body|)
  {
    AlignFrom(pos, HEADER_SIZE + |r.name| + 1);
    AlignFrom(pos, at + |r.body|);
  }

  lemma ReadLaidOut(b: string, pos: nat, e: string, r: Record, at: nat)
    requires pos % 4 == 0 && LaidOut(e, r, at) && pos + |e| <= |b| && b[pos..pos + |e|] == e
    ensures ReadAt(b, pos) == Some((r, pos + |e|))
  {
    var nameAt, dataAt := pos + HEADER_SIZE, pos + at;
    var nulAt, end := nameAt + |r.name|, dataAt + |r.body|;
    PartsWithin(b, pos, e, r, at, nameAt, nulAt, dataAt, end);
    OffsetsWithin(pos, e, r, at);
    ReadParts(b, pos, r, nameAt, nulAt, dataAt, end);
  }

  // s is in b at offset pos.
  ghost predicate StandsAt(b: string, pos: nat, s: string) {
    pos + |s| <= |b| && b[pos..pos + |s|] == s
  }

  ghost predicate RecordAt(b: string, pos: nat, r: Record) {
    Fits(r) && StandsAt(b, pos, Encode(r))
  }

  lemma ReadOne(b: string, pos: nat, r: Record)
    requires pos % 4 == 0 && RecordAt(b, pos, r)
    ensures ReadAt(b, pos) == Some((r, pos + |Encode(r)|)) && (pos + |Encode(r)|) % 4 == 0
  {
    Layout(r);
    ReadLaidOut(b, pos, Encode(r), r, Align4(HEADER_SIZE + |r.name| + 1));
  }

  // From a multiple of four, aligning the offset and aligning the distance is the same.
  lemma AlignFrom(pos: nat, n: nat)
    requires pos % 4 == 0
    ensures Align4(pos + n) == pos + Align4(n)
  {
    assert (pos + n + 3) / 4 == pos / 4 + (n + 3) / 4;
  }

  // A record is found when its parts are where their sizes say.
  lemma ReadParts(b: string, pos: nat, r: Record, nameAt: nat, nulAt: nat, dataAt: nat, end: nat)
    requires Fits(r) && nameAt == pos + HEADER_SIZE && nulAt == nameAt + |r.name| && nulAt < |b|
    requires dataAt == Align4(nulAt + 1) && end == dataAt + |r.body| && end <= |b|
    requires b[pos..nameAt] == Header(r) && b[nameAt..nulAt] == r.name && b[nulAt..nulAt + 1] == [NUL]
    requires b[dataAt..end] == r.body
    ensures ReadAt(b, pos) == Some((r, Align4(end)))
  {
    HeaderRead(b, pos, r);
    assert b[nulAt] == b[nulAt..nulAt + 1][0];
    assert ReadName(b, nameAt, |r.name| + 1) == Some(r.name);
  }

  predicate AllFit(rs: seq<Record>) {
    forall i :: 0 <= i < |rs| ==> Fits(rs[i])
  }

  function EncodeAll(rs: seq<Record>): string
    requires AllFit(rs)
  {
    if rs == [] then "" else Encode(rs[0]) + EncodeAll(rs[1..])
  }

  lemma {:induction false} EncodeAppend(xs: seq<Record>, ys: seq<Record>)
    requires AllFit(xs) && AllFit(ys)
    ensures AllFit(xs + ys) && EncodeAll(xs + ys) == EncodeAll(xs) + EncodeAll(ys)
  {
    if xs == [] {
      assert xs + ys == ys;
    } else {
      assert (xs + ys)[1..] == xs[1..] + ys;
      EncodeAppend(xs[1..], ys);
      Associate(Encode(xs[0]), EncodeAll(xs[1..]), EncodeAll(ys));
    }
  }

  const TRAILER: Record := Record(0, 0, 0, 0, 1, 0, 0, 0, 0, 0, TRAILER_NAME, "")

  function RoundUp512(n: nat): (r: nat)
    ensures r % 512 == 0 && n <= r < n + 512
  {
    (n + 511) / 512 * 512
  }

  // The archive of some records: the records, the trailer, and NUL bytes up to a multiple of 512.
  function Archive(rs: seq<Record>): (s: string)
    requires AllFit(rs)
    ensures |s| % 512 == 0
  {
    var s := EncodeAll(rs + [TRAILER]);
    s + Zeros(RoundUp512(|s|) - |s|)
  }

  // The records in front of the first one that a reader takes for the trailer.
  function UntilTrailer(rs: seq<Record>): seq<Record> {
    if rs == [] || rs[0].name == TRAILER_NAME then [] else [rs[0]] + UntilTrailer(rs[1..])
  }

  // The records are read one after the other from offset pos on.
  ghost predicate Readable(b: string, pos: nat, rs: seq<Record>)
    decreases |rs|
  {
    rs != [] ==>
      var first := ReadAt(b, pos); first.Some? && first.value.0 == rs[0] && Readable(b, first.value.1, rs[1..])
  }

  lemma {:induction false} ReadRecords(b: string, pos: nat, rs: seq<Record>)
    requires Readable(b, pos, rs) && rs != [] && rs[|rs| - 1].name == TRAILER_NAME
    ensures ReadAll(b, pos) == Some(UntilTrailer(rs))
    decreases |rs|
  {
    if rs[0].name != TRAILER_NAME {
      ReadRecords(b, ReadAt(b, pos).value.1, rs[1..]);
    }
  }

  lemma ReadFirst(b: string, pos: nat, rs: seq<Record>) returns (next: nat)
    requires pos % 4 == 0 && AllFit(rs) && rs != [] && StandsAt(b, pos, EncodeAll(rs))
    ensures ReadAt(b, pos) == Some((rs[0], next)) && next % 4 == 0 && StandsAt(b, next, EncodeAll(rs[1..]))
  {
    FirstAndRest(b, pos, Encode(rs[0]), EncodeAll(rs[1..]));
    next := pos + |Encode(rs[0])|;
    assert RecordAt(b, pos, rs[0]);
    ReadOne(b, pos, rs[0]);
  }

  lemma {:induction false} EncodedIsReadable(b: string, pos: nat, rs: seq<Record>)
    requires pos % 4 == 0 && AllFit(rs) && StandsAt(b, pos, EncodeAll(rs))
    ensures Readable(b, pos, rs)
    decreases |rs|
  {
    if rs != [] {
      var next := ReadFirst(b, pos, rs);
      EncodedIsReadable(b, next, rs[1..]);
    }
  }

  lemma FirstAndRest(b: string, pos: nat, x: string, y: string)
    requires StandsAt(b, pos, x + y)
    ensures StandsAt(b, pos, x) && StandsAt(b, pos + |x|, y)
  {
    Within(b, pos, x + y, 0, |x|);
    Within(b, pos, x + y, |x|, |x| + |y|);
  }

  lemma {:induction false} UntilTrailerStops(rs: seq<Record>, t: Record)
    requires t.name == TRAILER_NAME
    ensures UntilTrailer(rs + [t]) == UntilTrailer(rs)
  {
    if rs != [] {
      assert (rs + [t])[1..] == rs[1..] + [t];
      UntilTrailerStops(rs[1..], t);
    }
  }

  // The reader gets back every record up to one that is called like the trailer.
  lemma ReadArchive(rs: seq<Record>)
    requires AllFit(rs)
    ensures ReadAll(Archive(rs), 0) == Some(UntilTrailer(rs))
  {
    EncodedIsReadable(Archive(rs), 0, rs + [TRAILER]);
    ReadRecords(Archive(rs), 0, rs + [TRAILER]);
    UntilTrailerStops(rs, TRAILER);
  }

  // Nothing is lost exactly when no record has the trailer's name.
  lemma {:induction false} UntilTrailerIsAll(rs: seq<Record>)
    ensures UntilTrailer(rs) == rs <==> forall i :: 0 <= i < |rs| ==> rs[i].name != TRAILER_NAME
  {
    if rs != [] {
      UntilTrailerIsAll(rs[1..]);
      assert rs == [rs[0]] + rs[1..];
      assert forall i :: 0 <= i < |rs| - 1 ==> rs[i + 1] == rs[1..][i];
      if rs[0].name != TRAILER_NAME && UntilTrailer(rs) == rs {
        assert UntilTrailer(rs)[1..] == UntilTrailer(rs[1..]);
      }
    }
  }
}
