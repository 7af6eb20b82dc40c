/**
  NFS entries in a card's fstab: finding, removing and adding the line for a mount directory.
*/
module Fstab {
  import opened CText
  import opened TextFiles

  const LINE_SIZE: nat := 256

  predicate Blank(c: char) {
    c == ' ' || c == '\t'
  }

  // ---------------------------------------------------------------- what an entry is

  function FieldEnd(s: string, i: nat): (j: nat)
    requires i <= |s|
    ensures i <= j <= |s|
    decreases |s| - i
  {
    if i < |s| && !Blank(s[i]) then FieldEnd(s, i + 1) else i
  }

  function GapEnd(s: string, i: nat): (j: nat)
    requires i <= |s|
    ensures i <= j <= |s|
    decreases |s| - i
  {
    if i < |s| && Blank(s[i]) then GapEnd(s, i + 1) else i
  }

  // The second field of a line, when something follows it.
  function MountField(l: string): Option<string> {
    var start := GapEnd(l, FieldEnd(l, 0));
    var end := FieldEnd(l, start);
    if end < |l| then Some(l[start..end]) else None
  }

  // Without trailing slashes.
  function Stripped(s: string): (r: string)
    ensures |r| <= |s| && r == s[..|r|]
    ensures r != "" ==> r[|r| - 1] != '/'
  {
    if s != "" && s[|s| - 1] == '/' then Stripped(s[..|s| - 1]) else s
  }

  // Without trailing slashes, but never less than the first character.
  function Trimmed(dir: string): (r: string)
    ensures |r| <= |dir| && r == dir[..|r|]
  {
    if |dir| > 1 && dir[|dir| - 1] == '/' then Trimmed(dir[..|dir| - 1]) else dir
  }

  predicate IsEntry(l: string, dir: string) {
    MountField(l).Some? && Stripped(MountField(l).value) == Trimmed(dir)
  }

  // ---------------------------------------------------------------- the scan of a line

  // What is in the buffer besides the newline at its end.
  function Body(buffer: string): string {
    if buffer != "" && buffer[|buffer| - 1] == NL then buffer[..|buffer| - 1] else buffer
  }

  // The scan of the buffer ends in it: there is a newline, or a blank behind the second field.
  predicate Scannable(buffer: string) {
    NL !in Body(buffer) && (buffer == Body(buffer) + [NL] || MountField(buffer).Some?)
  }

  // The buffer holds the line l, ended or not.
  ghost predicate Holds(line: string, l: string) {
    NL !in l && (line == l || line == l + [NL])
  }

  // Moves over what is not blank, up to the end of the line at most.
  method SkipField(line: string, from: nat, ghost l: string) returns (j: nat)
    requires Holds(line, l) && from <= |l| && from < |line| && (line == l ==> FieldEnd(l, from) < |l|)
    ensures j == FieldEnd(l, from) && j < |line| && (j < |l| ==> Blank(line[j]))
  {
    j := from;
    while !Blank(line[j]) && line[j] != NL
      invariant from <= j <= |l| && j < |line| && FieldEnd(l, j) == FieldEnd(l, from)
      decreases |l| - j
    {
      j := j + 1;
    }
  }

  // Moves over blanks.
  method SkipGap(line: string, from: nat, ghost l: string) returns (j: nat)
    requires Holds(line, l) && from <= |l| && from < |line| && (line == l ==> GapEnd(l, from) < |l|)
    ensures j == GapEnd(l, from) && j < |line| && (j > from ==> Blank(line[j - 1]))
    ensures from < |l| && Blank(line[from]) ==> j > from
  {
    j := from;
    while Blank(line[j])
      invariant from <= j <= |l| && j < |line| && GapEnd(l, j) == GapEnd(l, from)
      invariant j > from ==> Blank(line[j - 1])
      decreases |l| - j
    {
      j := j + 1;
    }
  }

  // Moves the start and end pointers to the second field of the line.
  method FindMount(line: string, ghost l: string) returns (start: nat, stop: nat)
    requires Scannable(line) && l == Body(line)
    ensures start <= stop <= |l| && stop < |line| && MountField(l) == if stop < |l| then Some(l[start..stop]) else None
    ensures if stop < |l| then start > 0 && Blank(line[start - 1]) && Blank(line[stop]) else line[stop] == NL
  {
    assert Holds(line, l);
    start := SkipField(line, 0, l);
    start := SkipGap(line, start, l);
    stop := SkipField(line, start, l);
  }

  /**
    Compares the second field of the line in the buffer with a directory, both without trailing
    slashes. A field that ends the line is compared together with the newline, and never matches.
  */
  method LineMatches(line: string, dir: string) returns (found: bool)
    requires Scannable(line) && NL !in dir
    ensures found <==> IsEntry(Body(line), dir)
  {
    ghost var l := Body(line);
    var start, stop := FindMount(line, l);
    var end := StripEnd(line, start, stop, l);
    var dirEnd := TrimEnd(dir);
    var n := end - start + 1;
    found := dirEnd + 1 == n && dir[..n] == line[start..start + n];
    if stop == |l| {
      assert line[start..start + n][n - 1] == NL;
    }
  }

  lemma StrippedSlash(l: string, start: nat, end: nat)
    requires start <= end < |l| && l[end] == '/'
    ensures Stripped(l[start..end + 1]) == Stripped(l[start..end])
  {
    assert l[start..end + 1][..end - start] == l[start..end];
  }

  lemma StrippedStops(l: string, start: nat, end: int)
    requires start - 1 <= end < |l| && (end >= start ==> l[end] != '/')
    ensures Stripped(l[start..end + 1]) == l[start..end + 1]
  {
    assert end >= start ==> l[start..end + 1][end - start] == l[end];
  }

  // Steps the end pointer back over the blank behind the field and over trailing slashes.
  method StripEnd(line: string, start: nat, stop: nat, ghost l: string) returns (end: int)
    requires (line == l || line == l + [NL]) && NL !in l && start <= stop <= |l| && stop < |line|
    requires if stop < |l| then start > 0 && Blank(line[start - 1]) && Blank(line[stop]) else line[stop] == NL
    ensures start - 1 <= end <= stop && (stop == |l| ==> end == stop)
    ensures stop < |l| ==> end < stop && line[start..end + 1] == Stripped(l[start..stop])
  {
    end := stop;
    if Blank(line[end]) {
      end := end - 1;
    }
    assert stop < |l| ==> l[start..end + 1] == l[start..stop];
    while line[end] == '/'
      invariant start - 1 <= end < |line| && 0 <= end && (stop == |l| ==> end == |l|) && (stop < |l| ==> end < stop)
      invariant stop < |l| ==> Stripped(l[start..end + 1]) == Stripped(l[start..stop])
      decreases end
    {
      StrippedSlash(l, start, end);
      end := end - 1;
    }
    if stop < |l| {
      StrippedStops(l, start, end);
      assert line[start..end + 1] == l[start..end + 1];
    }
  }

  // The index of the last character of dir that counts, or -1 for an empty dir.
  method TrimEnd(dir: string) returns (end: int)
    ensures end + 1 == |Trimmed(dir)| && -1 <= end < |dir|
  {
    end := |dir| - 1;
    assert dir[..|dir|] == dir;
    while end > 0 && dir[end] == '/'
      invariant -1 <= end < |dir| && (dir != "" ==> end >= 0)
      invariant Trimmed(dir[..end + 1]) == Trimmed(dir)
      decreases end
    {
      assert dir[..end + 1][..end] == dir[..end];
      end := end - 1;
    }
  }

  // ---------------------------------------------------------------- the file

  function EntryChunk(dir: string): string -> bool {
    c => IsEntry(Body(c), dir)
  }

  function OtherChunk(dir: string): string -> bool {
    c => !IsEntry(Body(c), dir)
  }

  predicate HasEntry(text: string, dir: string) {
    Filter(EntryChunk(dir), Chunks(text, LINE_SIZE)) != []
  }

  // The text of the file after a removal.
  function RemoveText(text: string, dir: string): string {
    if HasEntry(text, dir) then PrintAll(Filter(OtherChunk(dir), Chunks(text, LINE_SIZE))) else text
  }

  // The scan of no buffer runs past its end.
  ghost predicate AllScannable(text: string) {
    forall c :: c in Chunks(text, LINE_SIZE) ==> Scannable(c)
  }

  method Check(text: string, dir: string) returns (found: bool)
    requires AllScannable(text) && NL !in dir
    ensures found <==> HasEntry(text, dir)
  {
    var rest := text;
    while rest != ""
      invariant AllScannable(rest) && (HasEntry(rest, dir) <==> HasEntry(text, dir))
      decreases |rest|
    {
      ghost var cs := Chunks(rest, LINE_SIZE);
      var buffer: string;
      buffer, rest := Fgets(rest, LINE_SIZE);
      assert cs[0] == buffer && cs[1..] == Chunks(rest, LINE_SIZE);
      assert buffer in cs && forall c :: c in cs[1..] ==> c in cs;
      found := LineMatches(buffer, dir);
      if found {
        return;
      }
    }
    found := false;
  }

  // What the first buffer adds to what is printed, when p picks the entries and q the rest.
  lemma FilterStep(p: string -> bool, q: string -> bool, cs: seq<string>)
    requires cs != [] && (q(cs[0]) <==> !p(cs[0]))
    ensures PrintAll(Filter(q, cs)) == (if p(cs[0]) then "" else CString(cs[0])) + PrintAll(Filter(q, cs[1..]))
    ensures Filter(p, cs) != [] <==> p(cs[0]) || Filter(p, cs[1..]) != []
  {
    var more := Filter(q, cs[1..]);
    assert ([cs[0]] + more)[1..] == more;
  }

  // Returns 1 and leaves the file alone when there is no entry.
  method Remove(text: string, dir: string) returns (ret: int, out: string)
    requires AllScannable(text) && NL !in dir
    ensures ret == if HasEntry(text, dir) then 0 else 1
    ensures out == RemoveText(text, dir)
  {
    var found: bool;
    out, found := CopyOthers(text, dir, EntryChunk(dir), OtherChunk(dir));
    ret := if found then 0 else 1;
    if !found {
      out := text;
    }
  }

  // Prints every buffer that is no entry.
  method CopyOthers(text: string, dir: string, ghost entry: string -> bool, ghost other: string -> bool)
    returns (out: string, found: bool)
    requires AllScannable(text) && NL !in dir
    requires forall c :: (entry(c) <==> IsEntry(Body(c), dir)) && (other(c) <==> !entry(c))
    ensures out == PrintAll(Filter(other, Chunks(text, LINE_SIZE)))
    ensures found <==> Filter(entry, Chunks(text, LINE_SIZE)) != []
  {
    out, found := "", false;
    var rest := text;
    while rest != ""
      invariant AllScannable(rest)
      invariant out + PrintAll(Filter(other, Chunks(rest, LINE_SIZE))) == PrintAll(Filter(other, Chunks(text, LINE_SIZE)))
      invariant found || Filter(entry, Chunks(rest, LINE_SIZE)) != [] <==> Filter(entry, Chunks(text, LINE_SIZE)) != []
      decreases |rest|
    {
      ghost var cs := Chunks(rest, LINE_SIZE);
      var buffer: string;
      buffer, rest := Fgets(rest, LINE_SIZE);
      assert cs[0] == buffer && cs[1..] == Chunks(rest, LINE_SIZE);
      assert buffer in cs && forall c :: c in cs[1..] ==> c in cs;
      var hit := LineMatches(buffer, dir);
      FilterStep(entry, other, cs);
      if hit {
        found := true;
      } else {
        Associate(out, CString(buffer), PrintAll(Filter(other, cs[1..])));
        out := out + CString(buffer);
      }
    }
  }

  function NewLine(server: string, edir: string, mdir: string, opts: Option<string>): string {
    server + ":" + edir + "\t" + mdir + "\tnfs\t\t" + (if opts.Some? then opts.value else "defaults") + "\t\t1 1"
  }

  // The text of the file after an entry was added: an older one for the same directory goes first.
  function AddText(text: string, mdir: string, line: string): string {
    RemoveText(text, mdir) + (line + [NL])
  }

  method Add(text: string, server: string, edir: string, mdir: string, opts: Option<string>) returns (out: string)
    requires AllScannable(text) && NL !in mdir
    ensures out == AddText(text, mdir, NewLine(server, edir, mdir, opts))
  {
    out := text;
    var found := Check(text, mdir);
    if found {
      var ret: int;
      ret, out := Remove(text, mdir);
    }
    out := out + (NewLine(server, edir, mdir, opts) + [NL]);
  }

  // ---------------------------------------------------------------- the same, line by line

  function EntryFor(dir: string): string -> bool {
    l => IsEntry(l, dir)
  }

  function NoEntryFor(dir: string): string -> bool {
    l => !IsEntry(l, dir)
  }

  // The lines that are an entry for dir, and those that are not.
  function Entries(ls: seq<string>, dir: string): seq<string> {
    Filter(EntryFor(dir), ls)
  }

  function Rest(ls: seq<string>, dir: string): seq<string> {
    Filter(NoEntryFor(dir), ls)
  }

  // The lines of the file after an entry was added.
  function Added(ls: seq<string>, dir: string, line: string): seq<string> {
    Rest(ls, dir) + [line]
  }

  lemma RestTidy(ls: seq<string>, dir: string)
    requires Tidy(ls, LINE_SIZE)
    ensures Tidy(Rest(ls, dir), LINE_SIZE)
  {
    FilterTidy(NoEntryFor(dir), ls, LINE_SIZE);
  }

  lemma BodyOfLine(l: string)
    ensures Body(l + [NL]) == l
  {
  }

  lemma ChunkFilters(ls: seq<string>, dir: string)
    ensures Filter(EntryChunk(dir), WithNewlines(ls)) == WithNewlines(Entries(ls, dir))
    ensures Filter(OtherChunk(dir), WithNewlines(ls)) == WithNewlines(Rest(ls, dir))
  {
    forall l: string ensures EntryChunk(dir)(l + [NL]) == EntryFor(dir)(l) && OtherChunk(dir)(l + [NL]) == NoEntryFor(dir)(l) {
      BodyOfLine(l);
    }
    FilterLines(EntryChunk(dir), EntryFor(dir), ls);
    FilterLines(OtherChunk(dir), NoEntryFor(dir), ls);
  }

  // A file of newline-ended lines that fit the buffer can be scanned, and is edited line by line.
  lemma RemoveTextLines(ls: seq<string>, dir: string)
    requires Tidy(ls, LINE_SIZE)
    ensures AllScannable(Text(ls))
    ensures HasEntry(Text(ls), dir) <==> Entries(ls, dir) != []
    ensures RemoveText(Text(ls), dir) == Text(Rest(ls, dir))
  {
    var cs := WithNewlines(ls);
    ChunksOfText(ls, LINE_SIZE);
    forall c | c in cs ensures Scannable(c) {
      var i :| 0 <= i < |cs| && cs[i] == c;
      assert TidyLine(ls[i], LINE_SIZE);
      BodyOfLine(ls[i]);
    }
    ChunkFilters(ls, dir);
    if Entries(ls, dir) == [] {
      FilterNone(EntryFor(dir), NoEntryFor(dir), ls);
    } else {
      RestTidy(ls, dir);
      PrintLines(Rest(ls, dir), LINE_SIZE);
    }
  }

  // ---------------------------------------------------------------- laws

  // What remains after a removal has no entry, and removing again changes nothing.
  lemma RestHasNone(ls: seq<string>, dir: string)
    ensures Entries(Rest(ls, dir), dir) == [] && Rest(Rest(ls, dir), dir) == Rest(ls, dir)
  {
    FilterTwice(EntryFor(dir), NoEntryFor(dir), ls);
  }

  // A word for one field of a line.
  predicate Word(s: string) {
    s != "" && forall k :: 0 <= k < |s| ==> !Blank(s[k]) && s[k] != NL
  }

  lemma {:induction false} FieldEndIs(s: string, i: nat, j: nat)
    requires i <= j < |s| && Blank(s[j]) && forall k :: i <= k < j ==> !Blank(s[k])
    ensures FieldEnd(s, i) == j
    decreases j - i
  {
    if i < j {
      FieldEndIs(s, i + 1, j);
    }
  }

  lemma MountOf(first: string, mdir: string, tail: string)
    requires Word(first) && Word(mdir) && tail != "" && Blank(tail[0])
    ensures MountField(first + "\t" + mdir + tail) == Some(mdir)
  {
    var l := first + "\t" + mdir + tail;
    var a := |first|;
    assert forall k :: 0 <= k < a ==> l[k] == first[k];
    assert l[a] == '\t' && l[a + 1] == mdir[0];
    FieldEndIs(l, 0, a);
    assert GapEnd(l, a) == a + 1;
    var b := a + 1 + |mdir|;
    assert forall k :: a + 1 <= k < b ==> l[k] == mdir[k - a - 1];
    assert l[b] == tail[0];
    FieldEndIs(l, a + 1, b);
    assert l[a + 1..b] == mdir;
  }

  predicate AllSlashes(s: string) {
    forall k :: 0 <= k < |s| ==> s[k] == '/'
  }

  lemma {:induction false} StrippedIsTrimmed(dir: string)
    requires dir != ""
    ensures Stripped(dir) == Trimmed(dir) <==> !AllSlashes(dir)
    ensures AllSlashes(dir) <==> Stripped(dir) == ""
  {
    var n := |dir| - 1;
    if dir[n] == '/' {
      assert AllSlashes(dir) <==> AllSlashes(dir[..n]) by {
        assert forall k :: 0 <= k < n ==> dir[k] == dir[..n][k];
      }
      if n > 0 {
        StrippedIsTrimmed(dir[..n]);
      } else {
        assert Stripped(dir) == "" && Trimmed(dir) == dir;
      }
    }
  }

  lemma NewLineShape(server: string, edir: string, mdir: string, opts: Option<string>)
    requires Word(server + ":" + edir) && Word(mdir)
    ensures MountField(NewLine(server, edir, mdir, opts)) == Some(mdir)
  {
    var tail := "\tnfs\t\t" + (if opts.Some? then opts.value else "defaults") + "\t\t1 1";
    assert NewLine(server, edir, mdir, opts) == server + ":" + edir + "\t" + mdir + tail;
    MountOf(server + ":" + edir, mdir, tail);
  }

  // The fields of a line, however many blanks are between them.
  function Fields(l: string): seq<string>
    decreases |l|
  {
    var start := GapEnd(l, 0);
    var end := FieldEnd(l, start);
    if start == end then [] else [l[start..end]] + Fields(l[end..])
  }

  lemma {:induction false} GapEndIs(s: string, i: nat, j: nat)
    requires i <= j <= |s| && (j < |s| ==> !Blank(s[j])) && forall k :: i <= k < j ==> Blank(s[k])
    ensures GapEnd(s, i) == j
    decreases j - i
  {
    if i < j {
      GapEndIs(s, i + 1, j);
    }
  }

  lemma {:induction false} FieldEndAtEnd(s: string, i: nat)
    requires i <= |s| && forall k :: i <= k < |s| ==> !Blank(s[k])
    ensures FieldEnd(s, i) == |s|
    decreases |s| - i
  {
    if i < |s| {
      FieldEndAtEnd(s, i + 1);
    }
  }

  lemma LastFieldIs(gap: string, word: string)
    requires Word(word) && forall k :: 0 <= k < |gap| ==> Blank(gap[k])
    ensures Fields(gap + word) == [word]
  {
    var l := gap + word;
    GapEndIs(l, 0, |gap|);
    FieldEndAtEnd(l, |gap|);
    assert l[|gap|..|l|] == word && l[|l|..] == "";
    assert Fields("") == [];
  }

  lemma FirstFieldIs(gap: string, word: string, rest: string)
    requires Word(word) && (forall k :: 0 <= k < |gap| ==> Blank(gap[k])) && rest != "" && Blank(rest[0])
    ensures Fields(gap + word + rest) == [word] + Fields(rest)
  {
    var l, a, b := gap + word + rest, |gap|, |gap| + |word|;
    assert l[a] == word[0] && l[b] == rest[0];
    assert forall k :: a <= k < b ==> l[k] == word[k - a];
    GapEndIs(l, 0, a);
    FieldEndIs(l, a, b);
    assert l[a..b] == word && l[b..] == rest;
  }

  lemma Regroup(a: string, b: string, c: string, d: string, e: string, f: string)
    ensures a + b + c + d + e + f == a + (b + c + (d + e + f))
  {
  }

  lemma LastThree(d: string, e: string, f: string)
    requires Word(d) && Word(e) && Word(f)
    ensures Fields("\t\t" + d + ("\t\t" + e + (" " + f))) == [d, e, f]
  {
    FirstFieldIs("\t\t", d, "\t\t" + e + (" " + f));
    FirstFieldIs("\t\t", e, " " + f);
    LastFieldIs(" ", f);
  }

  lemma FirstThree(a: string, b: string, c: string, rest: string)
    requires Word(a) && Word(b) && Word(c) && rest != "" && Blank(rest[0])
    ensures Fields("" + a + ("\t" + b + ("\t" + c + rest))) == [a, b, c] + Fields(rest)
  {
    FirstFieldIs("", a, "\t" + b + ("\t" + c + rest));
    FirstFieldIs("\t", b, "\t" + c + rest);
    FirstFieldIs("\t", c, rest);
    assert [a] + ([b] + ([c] + Fields(rest))) == [a, b, c] + Fields(rest);
  }

  lemma NewLineParts(dev: string, mdir: string, o: string)
    ensures dev + "\t" + mdir + "\tnfs\t\t" + o + "\t\t1 1" ==
            "" + dev + ("\t" + mdir + ("\t" + "nfs" + ("\t\t" + o + ("\t\t" + "1" + (" " + "1")))))
  {
    Regroup(dev, "\t", mdir, "\tnfs\t\t", o, "\t\t1 1");
    assert "" + dev == dev;
    assert "\t\t" + "1" + (" " + "1") == "\t\t1 1";
    assert "\t" + "nfs" + "\t\t" == "\tnfs\t\t";
    Associate("\t" + "nfs", "\t\t" + o, "\t\t1 1");
    Associate("\t" + "nfs", "\t\t", o);
  }

  // What the line that is written says: device, directory, type, options and the two numbers.
  lemma NewLineFields(server: string, edir: string, mdir: string, opts: Option<string>)
    requires Word(server + ":" + edir) && Word(mdir) && (opts.Some? ==> Word(opts.value))
    ensures Fields(NewLine(server, edir, mdir, opts)) ==
            [server + ":" + edir, mdir, "nfs", if opts.Some? then opts.value else "defaults", "1", "1"]
  {
    FieldsOfParts(server + ":" + edir, mdir, if opts.Some? then opts.value else "defaults");
  }

  lemma FieldsOfParts(dev: string, mdir: string, o: string)
    requires Word(dev) && Word(mdir) && Word(o)
    ensures Fields(dev + "\t" + mdir + "\tnfs\t\t" + o + "\t\t1 1") == [dev, mdir, "nfs", o, "1", "1"]
  {
    var rest := "\t\t" + o + ("\t\t" + "1" + (" " + "1"));
    NewLineParts(dev, mdir, o);
    FirstThree(dev, mdir, "nfs", rest);
    assert Fields(rest) == [o, "1", "1"] by {
      LastThree(o, "1", "1");
    }
  }

  // The line that is added is found again under its directory, unless the directory is the root.
  lemma NewLineIsEntry(server: string, edir: string, mdir: string, opts: Option<string>)
    requires Word(server + ":" + edir) && Word(mdir)
    ensures IsEntry(NewLine(server, edir, mdir, opts), mdir) <==> !AllSlashes(mdir)
  {
    NewLineShape(server, edir, mdir, opts);
    StrippedIsTrimmed(mdir);
  }

  /**
    Adding an entry leaves exactly one for its directory, and removing it gives back the other
    lines in their order, if and only if the directory is not written as the root.
  */
  lemma AddLeavesOne(ls: seq<string>, server: string, edir: string, mdir: string, opts: Option<string>)
    requires Word(server + ":" + edir) && Word(mdir)
    ensures var line := NewLine(server, edir, mdir, opts);
            var added := Added(ls, mdir, line);
            && (Entries(added, mdir) == [line] <==> !AllSlashes(mdir))
            && (Rest(added, mdir) == Rest(ls, mdir) <==> !AllSlashes(mdir))
  {
    NewLineIsEntry(server, edir, mdir, opts);
    RestOfAdded(ls, mdir, NewLine(server, edir, mdir, opts));
  }

  // Trailing slashes make no difference to which entries are meant.
  lemma TrailingSlash(l: string, dir: string)
    requires dir != ""
    ensures IsEntry(l, dir + "/") <==> IsEntry(l, dir)
  {
    assert (dir + "/")[..|dir|] == dir;
  }

  lemma RestOfAdded(ls: seq<string>, dir: string, line: string)
    ensures Entries(Added(ls, dir, line), dir) == if IsEntry(line, dir) then [line] else []
    ensures Rest(Added(ls, dir, line), dir) == Rest(ls, dir) + if IsEntry(line, dir) then [] else [line]
  {
    RestHasNone(ls, dir);
    FilterAppend(EntryFor(dir), Rest(ls, dir), [line]);
    FilterAppend(NoEntryFor(dir), Rest(ls, dir), [line]);
    assert [line][1..] == [];
  }

  // An editor of texts that works line by line on tidy files.
  ghost predicate EditsLines(remove: string -> string, has: string -> bool, dir: string) {
    forall ls {:trigger remove(Text(ls))} {:trigger has(Text(ls))} :: Tidy(ls, LINE_SIZE) ==>
      (has(Text(ls)) <==> Entries(ls, dir) != []) && remove(Text(ls)) == Text(Rest(ls, dir))
  }

  lemma AddThenRemove(remove: string -> string, has: string -> bool, ls: seq<string>, dir: string, line: string)
    requires EditsLines(remove, has, dir) && Tidy(ls, LINE_SIZE) && TidyLine(line, LINE_SIZE)
    ensures var added := remove(Text(ls)) + (line + [NL]);
            && added == Text(Added(ls, dir, line)) && Tidy(Added(ls, dir, line), LINE_SIZE)
            && (has(added) <==> IsEntry(line, dir)) && !has(remove(added))
            && (remove(added) == Text(Rest(ls, dir)) <==> IsEntry(line, dir))
  {
    var rest, ladded := Rest(ls, dir), Added(ls, dir, line);
    var left := Rest(ladded, dir);
    RestTidy(ls, dir);
    RestTidy(ladded, dir);
    TextAppend(rest, [line]);
    TextOne(line);
    RestOfAdded(ls, dir, line);
    RestHasNone(ladded, dir);
    LongerText(rest, line);
    assert rest + [] == rest;
    assert has(Text(ladded)) <==> Entries(ladded, dir) != [];
    assert has(Text(left)) <==> Entries(left, dir) != [];
  }

  lemma LongerText(ls: seq<string>, line: string)
    ensures Text(ls + [line]) != Text(ls)
  {
    TextAppend(ls, [line]);
    TextOne(line);
    assert |Text(ls) + (line + [NL])| > |Text(ls)|;
  }

  function Remover(dir: string): string -> string {
    text => RemoveText(text, dir)
  }

  function Finder(dir: string): string -> bool {
    text => HasEntry(text, dir)
  }

  lemma EditorEditsLines(dir: string)
    ensures EditsLines(Remover(dir), Finder(dir), dir)
  {
    forall ls | Tidy(ls, LINE_SIZE)
      ensures (Finder(dir)(Text(ls)) <==> Entries(ls, dir) != []) && Remover(dir)(Text(ls)) == Text(Rest(ls, dir))
    {
      RemoveTextLines(ls, dir);
    }
  }

  /**
    On the text itself: after an addition whose line fits the buffer the check finds the entry,
    and a removal gives back the other lines, if and only if the directory is not written as the
    root.
  */
  lemma RemoveAfterAdd(ls: seq<string>, server: string, edir: string, mdir: string, opts: Option<string>)
    requires Tidy(ls, LINE_SIZE) && Word(server + ":" + edir) && Word(mdir)
    requires TidyLine(NewLine(server, edir, mdir, opts), LINE_SIZE)
    ensures var remove, has, line := Remover(mdir), Finder(mdir), NewLine(server, edir, mdir, opts);
            var added := remove(Text(ls)) + (line + [NL]);
            && added == Text(Added(ls, mdir, line)) && Tidy(Added(ls, mdir, line), LINE_SIZE)
            && (has(added) <==> !AllSlashes(mdir)) && !has(remove(added))
            && (remove(added) == Text(Rest(ls, mdir)) <==> !AllSlashes(mdir))
  {
    EditorEditsLines(mdir);
    NewLineIsEntry(server, edir, mdir, opts);
    AddThenRemove(Remover(mdir), Finder(mdir), ls, mdir, NewLine(server, edir, mdir, opts));
  }

  // ---------------------------------------------------------------- a last line that is not ended

  lemma {:induction false} FieldEndAppend(s: string, t: string, i: nat)
    requires i <= |s| && FieldEnd(s, i) < |s|
    ensures FieldEnd(s + t, i) == FieldEnd(s, i)
    decreases |s| - i
  {
    if !Blank(s[i]) {
      FieldEndAppend(s, t, i + 1);
    }
  }

  lemma {:induction false} GapEndAppend(s: string, t: string, i: nat)
    requires i <= |s| && GapEnd(s, i) < |s|
    ensures GapEnd(s + t, i) == GapEnd(s, i)
    decreases |s| - i
  {
    if Blank(s[i]) {
      GapEndAppend(s, t, i + 1);
    }
  }

  // What is glued to a line does not change its second field.
  lemma GluedMount(l: string, t: string)
    requires MountField(l).Some?
    ensures MountField(l + t) == MountField(l)
  {
    var gap := FieldEnd(l, 0);
    var start := GapEnd(l, gap);
    var end := FieldEnd(l, start);
    FieldEndAppend(l, t, 0);
    GapEndAppend(l, t, gap);
    FieldEndAppend(l, t, start);
    assert (l + t)[start..end] == l[start..end];
  }

  lemma {:induction false} PrintAppend(cs: seq<string>, c: string)
    ensures PrintAll(cs + [c]) == PrintAll(cs) + CString(c)
  {
    if cs == [] {
      assert cs + [c] == [c];
    } else {
      assert (cs + [c])[1..] == cs[1..] + [c];
      PrintAppend(cs[1..], c);
      Associate(CString(cs[0]), PrintAll(cs[1..]), CString(c));
    }
  }

  // What is printed of a file with such a line, when p picks the entries and q the rest.
  lemma PrintOpenRest(p: string -> bool, q: string -> bool, pLine: string -> bool, qLine: string -> bool,
                      ls: seq<string>, last: string)
    requires Tidy(ls, LINE_SIZE) && TidyLine(last, LINE_SIZE) && forall l :: qLine(l) <==> !pLine(l)
    requires Filter(p, WithNewlines(ls)) == WithNewlines(Filter(pLine, ls)) && p(last) == pLine(last)
    requires Filter(q, WithNewlines(ls)) == WithNewlines(Filter(qLine, ls)) && q(last) == qLine(last)
    ensures var cs := WithNewlines(ls) + [last];
            (if Filter(p, cs) != [] then PrintAll(Filter(q, cs)) else Text(ls) + last) ==
            Text(Filter(qLine, ls)) + if pLine(last) then "" else last
  {
    var cs, others := WithNewlines(ls), WithNewlines(Filter(qLine, ls));
    FilterAppend(p, cs, [last]);
    FilterAppend(q, cs, [last]);
    FilterCons(p, last, []);
    FilterCons(q, last, []);
    assert [last] + [] == [last];
    FilterTidy(qLine, ls, LINE_SIZE);
    PrintLines(Filter(qLine, ls), LINE_SIZE);
    if pLine(last) {
      assert Filter(q, cs + [last]) == others;
      assert (Filter(p, cs) + [last])[|Filter(p, cs)|] == last;
      assert Text(Filter(qLine, ls)) + "" == Text(Filter(qLine, ls));
    } else {
      CStringWhole(last);
      PrintAppend(others, last);
      FilterNone(pLine, qLine, ls);
      assert Filter(p, cs + [last]) == WithNewlines(Filter(pLine, ls));
    }
  }

  lemma RemoveOpenText(ls: seq<string>, last: string, dir: string)
    requires Tidy(ls, LINE_SIZE) && TidyLine(last, LINE_SIZE) && last != ""
    ensures RemoveText(Text(ls) + last, dir) == Text(Rest(ls, dir)) + if IsEntry(last, dir) then "" else last
  {
    assert Chunks(Text(ls) + last, LINE_SIZE) == WithNewlines(ls) + [last] by {
      ChunksOfOpenText(ls, last, LINE_SIZE);
    }
    ChunkFilters(ls, dir);
    assert Body(last) == last;
    PrintOpenRest(EntryChunk(dir), OtherChunk(dir), EntryFor(dir), NoEntryFor(dir), ls, last);
  }

  lemma AddOpenReplaced(ls: seq<string>, last: string, dir: string, line: string)
    requires Tidy(ls, LINE_SIZE) && TidyLine(last, LINE_SIZE) && last != "" && IsEntry(last, dir)
    ensures AddText(Text(ls) + last, dir, line) == Text(Added(ls, dir, line))
  {
    RemoveOpenText(ls, last, dir);
    GlueText(Rest(ls, dir), "", line);
    assert "" + line == line;
  }

  lemma AddOpenGlued(ls: seq<string>, last: string, dir: string, line: string)
    requires Tidy(ls, LINE_SIZE) && TidyLine(last, LINE_SIZE) && last != "" && !IsEntry(last, dir)
    ensures AddText(Text(ls) + last, dir, line) == Text(Added(ls, dir, last + line))
  {
    RemoveOpenText(ls, last, dir);
    GlueText(Rest(ls, dir), last, line);
  }

  lemma AddOpenText(ls: seq<string>, last: string, dir: string, line: string)
    requires Tidy(ls, LINE_SIZE) && TidyLine(last, LINE_SIZE) && last != ""
    ensures AddText(Text(ls) + last, dir, line) == Text(Added(ls, dir, if IsEntry(last, dir) then line else last + line))
  {
    if IsEntry(last, dir) {
      AddOpenReplaced(ls, last, dir, line);
    } else {
      AddOpenGlued(ls, last, dir, line);
    }
  }

  lemma FoundIfEntry(ls: seq<string>, dir: string, end: string)
    requires Tidy(ls, LINE_SIZE) && TidyLine(end, LINE_SIZE)
    ensures HasEntry(Text(Added(ls, dir, end)), dir) <==> IsEntry(end, dir)
  {
    RestTidy(ls, dir);
    RestOfAdded(ls, dir, end);
    assert HasEntry(Text(Added(ls, dir, end)), dir) <==> Entries(Added(ls, dir, end), dir) != [] by {
      RemoveTextLines(Added(ls, dir, end), dir);
    }
  }

  lemma GluedIsEntry(last: string, line: string, dir: string)
    requires MountField(last).Some?
    ensures IsEntry(last + line, dir) <==> IsEntry(last, dir)
  {
    GluedMount(last, line);
  }

  /**
    In a file whose last line is not ended, but has a blank behind its second field, a new entry
    is glued to that line and not found again, unless that line is the entry it replaces.
  */
  lemma GluedEntryIsLost(ls: seq<string>, last: string, dir: string, line: string)
    requires Tidy(ls, LINE_SIZE) && TidyLine(last, LINE_SIZE) && last != "" && MountField(last).Some?
    requires TidyLine(line, LINE_SIZE) && TidyLine(last + line, LINE_SIZE) && IsEntry(line, dir)
    ensures var out := AddText(Text(ls) + last, dir, line);
            && out == Text(Added(ls, dir, if IsEntry(last, dir) then line else last + line))
            && (HasEntry(out, dir) <==> IsEntry(last, dir))
  {
    AddOpenText(ls, last, dir, line);
    GluedIsEntry(last, line, dir);
    FoundIfEntry(ls, dir, if IsEntry(last, dir) then line else last + line);
  }
}
