/**
  Text files read with `fgets` into a buffer of fixed size, and the files that such
  a loop sees line by line.
*/
module TextFiles {
  import opened CText

  const NL: char := '\n'

  // The length of what one fgets into a buffer of `size` bytes takes from a non-empty rest of a file.
  function ChunkLength(s: string, size: nat): (n: nat)
    requires s != "" && size >= 2
    ensures 0 < n <= |s| && n < size
    ensures forall k :: 0 <= k < n - 1 ==> s[k] != NL
    ensures n < |s| && n < size - 1 ==> s[n - 1] == NL
  {
    var i := IndexOf(s, NL);
    var line := if i < |s| then i + 1 else |s|;
    if line < size then line else size - 1
  }

  // The successive contents of the buffer.
  function Chunks(s: string, size: nat): (cs: seq<string>)
    requires size >= 2
    decreases |s|
  {
    if s == "" then [] else [s[..ChunkLength(s, size)]] + Chunks(s[ChunkLength(s, size)..], size)
  }

  // What fgets puts into the buffer, and what is left of the file.
  method Fgets(rest: string, size: nat) returns (chunk: string, rest': string)
    requires rest != "" && size >= 2
    ensures [chunk] + Chunks(rest', size) == Chunks(rest, size) && |rest'| < |rest|
    ensures chunk + rest' == rest && 0 < |chunk| < size && NL !in chunk[..|chunk| - 1]
    ensures rest' != "" ==> chunk[|chunk| - 1] == NL || |chunk| == size - 1
  {
    var n := 0;
    while n < |rest| && n < size - 1 && (n == 0 || rest[n - 1] != NL)
      invariant 0 <= n <= |rest| && n < size && forall k :: 0 <= k < n - 1 ==> rest[k] != NL
    {
      n := n + 1;
    }
    assert n == ChunkLength(rest, size);
    chunk, rest' := rest[..n], rest[n..];
  }

  // What is printed of a buffer as a C string: everything before its first NUL.
  function CString(buffer: string): (r: string)
    ensures r <= buffer && NUL !in r && (|r| < |buffer| ==> buffer[|r|] == NUL)
  {
    buffer[..IndexOf(buffer, NUL)]
  }

  lemma CStringWhole(s: string)
    requires NUL !in s
    ensures CString(s) == s
  {
    assert IndexOf(s, NUL) == |s|;
  }

  lemma CStringOfLine(l: string)
    requires NUL !in l
    ensures CString(l + [NL]) == l + [NL]
  {
    assert IndexOf(l + [NL], NUL) == |l| + 1;
  }

  // A file of lines, each ended by a newline.
  function Text(lines: seq<string>): string {
    if lines == [] then "" else lines[0] + [NL] + Text(lines[1..])
  }

  // A line that fits a buffer of `size` bytes together with its newline and the final NUL.
  predicate TidyLine(l: string, size: nat) {
    NL !in l && NUL !in l && |l| + 1 < size
  }

  predicate Tidy(lines: seq<string>, size: nat) {
    forall i :: 0 <= i < |lines| ==> TidyLine(lines[i], size)
  }

  lemma {:induction false} TextAppend(a: seq<string>, b: seq<string>)
    ensures Text(a + b) == Text(a) + Text(b)
  {
    if a == [] {
      assert a + b == b;
    } else {
      assert (a + b)[1..] == a[1..] + b;
      TextAppend(a[1..], b);
    }
  }

  lemma TextOne(l: string)
    ensures Text([l]) == l + [NL]
  {
    assert Text([l][1..]) == "";
  }

  // A line behind a last line that is not ended is glued to it.
  lemma GlueText(ls: seq<string>, last: string, newLine: string)
    ensures Text(ls) + last + (newLine + [NL]) == Text(ls + [last + newLine])
  {
    TextAppend(ls, [last + newLine]);
    TextOne(last + newLine);
    assert Text(ls) + last + (newLine + [NL]) == Text(ls) + (last + newLine + [NL]);
  }

  function WithNewlines(lines: seq<string>): (cs: seq<string>)
    ensures |cs| == |lines|
    ensures forall i :: 0 <= i < |lines| ==> cs[i] == lines[i] + [NL]
  {
    seq(|lines|, i requires 0 <= i < |lines| => lines[i] + [NL])
  }

  // Reading a tidy file into the buffer gives its lines one at a time.
  lemma {:induction false} ChunksOfText(lines: seq<string>, size: nat)
    requires size >= 2 && Tidy(lines, size)
    ensures Chunks(Text(lines), size) == WithNewlines(lines)
  {
    if lines != [] {
      var l, rest := lines[0], Text(lines[1..]);
      FirstChunk(l, rest, size);
      ChunksOfText(lines[1..], size);
      assert WithNewlines(lines) == [l + [NL]] + WithNewlines(lines[1..]);
    }
  }

  lemma FirstChunk(l: string, rest: string, size: nat)
    requires size >= 2 && TidyLine(l, size)
    ensures Chunks(l + [NL] + rest, size) == [l + [NL]] + Chunks(rest, size)
  {
    var s := l + [NL] + rest;
    assert forall k :: 0 <= k < |l| ==> s[k] == l[k];
    assert s[|l|] == NL;
    assert IndexOf(s, NL) == |l|;
    assert s[..|l| + 1] == l + [NL] && s[|l| + 1..] == rest;
  }

  lemma {:induction false} TextIsJoin(init: seq<string>, last: string)
    ensures Join(init + [last], NL) == Text(init) + last
  {
    if init == [] {
      assert init + [last] == [last];
    } else {
      TextIsJoin(init[1..], last);
      JoinCons(init[0], init[1..] + [last], NL);
      assert init + [last] == [init[0]] + (init[1..] + [last]);
      Associate(init[0] + [NL], Text(init[1..]), last);
    }
  }

  // The lines of a text that end in newlines, and the one, perhaps empty, that does not.
  function EndedLines(text: string): seq<string> {
    Split(text, NL)[..|Split(text, NL)| - 1]
  }

  function LastLine(text: string): string {
    Split(text, NL)[|Split(text, NL)| - 1]
  }

  // Every text is made of such lines.
  lemma TextOfLines(text: string)
    ensures Text(EndedLines(text)) + LastLine(text) == text && Split(text, NL) == EndedLines(text) + [LastLine(text)]
  {
    JoinSplit(text, NL);
    TextIsJoin(EndedLines(text), LastLine(text));
    assert Split(text, NL) == EndedLines(text) + [LastLine(text)];
  }

  // The same for a file whose last line is not ended.
  lemma {:induction false} ChunksOfOpenText(lines: seq<string>, last: string, size: nat)
    requires size >= 2 && Tidy(lines, size) && TidyLine(last, size) && last != ""
    ensures Chunks(Text(lines) + last, size) == WithNewlines(lines) + [last]
  {
    if lines == [] {
      assert IndexOf(last, NL) == |last|;
      assert last[..|last|] == last && last[|last|..] == "";
      assert Text(lines) + last == last;
    } else {
      var l := lines[0];
      Associate(l + [NL], Text(lines[1..]), last);
      FirstChunk(l, Text(lines[1..]) + last, size);
      ChunksOfOpenText(lines[1..], last, size);
      assert WithNewlines(lines) == [l + [NL]] + WithNewlines(lines[1..]);
    }
  }

  // Buffers printed one after the other.
  function PrintAll(cs: seq<string>): string {
    if cs == [] then "" else CString(cs[0]) + PrintAll(cs[1..])
  }

  lemma {:induction false} PrintLines(lines: seq<string>, size: nat)
    requires Tidy(lines, size)
    ensures PrintAll(WithNewlines(lines)) == Text(lines)
  {
    if lines != [] {
      assert TidyLine(lines[0], size);
      CStringOfLine(lines[0]);
      assert WithNewlines(lines)[1..] == WithNewlines(lines[1..]);
      PrintLines(lines[1..], size);
    }
  }

  // Filtering buffers that hold whole lines is filtering lines.
  lemma {:induction false} FilterLines(p: string -> bool, q: string -> bool, lines: seq<string>)
    requires forall l :: l in lines ==> p(l + [NL]) == q(l)
    ensures Filter(p, WithNewlines(lines)) == WithNewlines(Filter(q, lines))
  {
    if lines != [] {
      assert WithNewlines(lines)[1..] == WithNewlines(lines[1..]);
      FilterLines(p, q, lines[1..]);
      var more := Filter(q, lines[1..]);
      assert lines[0] in lines;
      assert q(lines[0]) ==> WithNewlines([lines[0]] + more) == [lines[0] + [NL]] + WithNewlines(more);
    }
  }

  // Lines that are picked from a tidy file are tidy.
  lemma FilterTidy(p: string -> bool, lines: seq<string>, size: nat)
    requires Tidy(lines, size)
    ensures Tidy(Filter(p, lines), size)
  {
    var more := Filter(p, lines);
    forall i | 0 <= i < |more| ensures TidyLine(more[i], size) {
      FilterMember(p, lines, more[i]);
    }
  }

  // A buffer as fgets fills it has a newline at its end or none.
  predicate IsChunk(buffer: string) {
    buffer != "" && NL !in buffer[..|buffer| - 1]
  }

  lemma {:induction false} AllChunks(s: string, size: nat)
    requires size >= 2
    ensures forall c :: c in Chunks(s, size) ==> IsChunk(c)
    decreases |s|
  {
    if s != "" {
      var n := ChunkLength(s, size);
      AllChunks(s[n..], size);
      assert IsChunk(s[..n]) by {
        assert s[..n][..n - 1] == s[..n - 1];
      }
    }
  }

  // ---------------------------------------------------------------- prefixes

  predicate StartsWith(s: string, prefix: string) {
    |prefix| <= |s| && s[..|prefix|] == prefix
  }

  function Lower(c: char): char {
    if 'A' <= c <= 'Z' then ((c as int) + 32) as char else c
  }

  predicate SameIgnoringCase(a: string, b: string) {
    |a| == |b| && forall i :: 0 <= i < |a| ==> Lower(a[i]) == Lower(b[i])
  }

  // !strncasecmp(s, prefix, strlen(prefix))
  predicate StartsWithIgnoringCase(s: string, prefix: string) {
    |prefix| <= |s| && SameIgnoringCase(s[..|prefix|], prefix)
  }
}
