/**
  Editing a configuration file: replacing or appending a parameter line, and removing one
  together with the blank line behind it. Both copy the file through a buffer of 1024 bytes.
*/
module ConfigEdit {
  import opened CText
  import opened TextFiles

  const BUFFER_SIZE: nat := 1024
  // Stands in for a prefix when the caller gives none.
  const NO_MATCH: string := "DONOTMATCH"

  // What vsnprintf leaves of a text in the buffer.
  function Clip(s: string): (r: string)
    ensures |r| < BUFFER_SIZE
  {
    if |s| < BUFFER_SIZE then s else s[..BUFFER_SIZE - 1]
  }

  // ---------------------------------------------------------------- replace or append

  // Every chunk that starts with `prefix`, in any case, is replaced.
  function Replace(cs: seq<string>, prefix: string, line: string): string {
    if cs == [] then ""
    else (if StartsWithIgnoringCase(cs[0], prefix) then Clip(line) else CString(cs[0])) + Replace(cs[1..], prefix, line)
  }

  predicate AnyMatch(cs: seq<string>, prefix: string) {
    cs != [] && (StartsWithIgnoringCase(cs[0], prefix) || AnyMatch(cs[1..], prefix))
  }

  function Addition(desc: Option<string>, line: string): string {
    (if desc.Some? then desc.value + [NL] else "") + Clip(line)
  }

  // The text that the file is rewritten to. A file that cannot be opened counts as empty.
  function UpdateText(text: string, prefix: Option<string>, desc: Option<string>, line: string): string {
    var m := if prefix.Some? then prefix.value else NO_MATCH;
    var cs := Chunks(text, BUFFER_SIZE);
    Replace(cs, m, line) + if AnyMatch(cs, m) then "" else Addition(desc, line)
  }

  method UpdateConfig(file: Option<string>, prefix: Option<string>, desc: Option<string>, line: string) returns (out: string)
    ensures out == UpdateText(if file.Some? then file.value else "", prefix, desc, line)
  {
    var m := if prefix.Some? then prefix.value else NO_MATCH;
    out := "";
    var changed := false;
    if file.Some? {
      out, changed := ReplaceLines(file.value, m, line);
    }
    if !changed {
      out := AddLine(out, desc, line);
    }
  }

  method AddLine(text: string, desc: Option<string>, line: string) returns (out: string)
    ensures out == text + Addition(desc, line)
  {
    out := text;
    if desc.Some? {
      out := out + (desc.value + [NL]);
    }
    Associate(text, if desc.Some? then desc.value + [NL] else "", Clip(line));
    out := out + Clip(line);
  }

  method ReplaceLines(text: string, m: string, line: string) returns (out: string, changed: bool)
    ensures out == Replace(Chunks(text, BUFFER_SIZE), m, line) && changed == AnyMatch(Chunks(text, BUFFER_SIZE), m)
  {
    out, changed := "", false;
    var rest := text;
    while rest != ""
      invariant out + Replace(Chunks(rest, BUFFER_SIZE), m, line) == Replace(Chunks(text, BUFFER_SIZE), m, line)
      invariant changed || AnyMatch(Chunks(rest, BUFFER_SIZE), m) <==> AnyMatch(Chunks(text, BUFFER_SIZE), m)
      decreases |rest|
    {
      ghost var cs := Chunks(rest, BUFFER_SIZE);
      var buffer: string;
      buffer, rest := Fgets(rest, BUFFER_SIZE);
      assert cs[0] == buffer && cs[1..] == Chunks(rest, BUFFER_SIZE);
      if StartsWithIgnoringCase(buffer, m) {
        buffer := Clip(line);
        changed := true;
      } else {
        buffer := CString(buffer);
      }
      Associate(out, buffer, Replace(cs[1..], m, line));
      out := out + buffer;
    }
  }

  // ---------------------------------------------------------------- remove

  // Chunks that start with `prefix` go, and with each of them one blank line that follows it.
  function Remove(cs: seq<string>, prefix: string, skipBlank: bool): string
    decreases |cs|
  {
    if cs == [] then ""
    else if skipBlank && StartsWith(cs[0], [NL]) then Remove(cs[1..], prefix, false)
    else if StartsWith(cs[0], prefix) then Remove(cs[1..], prefix, true)
    else CString(cs[0]) + Remove(cs[1..], prefix, false)
  }

  function RemoveText(text: string, prefix: string): string {
    Remove(Chunks(text, BUFFER_SIZE), prefix, false)
  }

  method RemoveConfig(text: string, prefix: string) returns (out: string)
    ensures out == RemoveText(text, prefix)
  {
    out := "";
    var skip := false;
    var rest := text;
    while rest != ""
      invariant out + Remove(Chunks(rest, BUFFER_SIZE), prefix, skip) == RemoveText(text, prefix)
      decreases |rest|
    {
      ghost var cs := Chunks(rest, BUFFER_SIZE);
      var buffer: string;
      buffer, rest := Fgets(rest, BUFFER_SIZE);
      assert cs[0] == buffer && cs[1..] == Chunks(rest, BUFFER_SIZE);
      if skip && StartsWith(buffer, [NL]) {
        skip := false;
      } else if !StartsWith(buffer, prefix) {
        Associate(out, CString(buffer), Remove(cs[1..], prefix, false));
        out := out + CString(buffer);
        skip := false;
      } else {
        skip := true;
      }
    }
  }

  // ---------------------------------------------------------------- the same, line by line

  predicate Matches(l: string, m: string) {
    StartsWithIgnoringCase(l, m)
  }

  // A replacement for a whole line.
  function ReplaceLine(l: string, m: string, newLine: string): string {
    if Matches(l, m) then newLine else l
  }

  function Replaced(ls: seq<string>, m: string, newLine: string): (r: seq<string>)
    ensures |r| == |ls| && forall i :: 0 <= i < |ls| ==> r[i] == ReplaceLine(ls[i], m, newLine)
  {
    seq(|ls|, i requires 0 <= i < |ls| => ReplaceLine(ls[i], m, newLine))
  }

  predicate SomeMatches(ls: seq<string>, m: string) {
    exists i :: 0 <= i < |ls| && Matches(ls[i], m)
  }

  // The lines of a file after its parameter was set to the line `newLine`.
  function Updated(ls: seq<string>, m: string, newLine: string): seq<string> {
    if SomeMatches(ls, m) then Replaced(ls, m, newLine) else ls + [newLine]
  }

  lemma MatchWithNewline(l: string, m: string)
    requires NL !in m
    ensures StartsWithIgnoringCase(l + [NL], m) <==> Matches(l, m)
  {
    if |m| <= |l| {
      assert (l + [NL])[..|m|] == l[..|m|];
    } else if |m| == |l| + 1 {
      assert (l + [NL])[..|m|][|l|] == NL;
      assert Lower(m[|l|]) != NL;
    }
  }

  lemma SomeMatchesHead(ls: seq<string>, m: string)
    requires ls != []
    ensures SomeMatches(ls, m) <==> Matches(ls[0], m) || SomeMatches(ls[1..], m)
  {
    assert forall i :: 0 < i < |ls| ==> ls[i] == ls[1..][i - 1];
    assert forall i :: 0 <= i < |ls[1..]| ==> ls[1..][i] == ls[i + 1];
  }

  // One line of a tidy file is replaced or printed as it is.
  lemma ReplaceFirst(ls: seq<string>, m: string, line: string)
    requires Tidy(ls, BUFFER_SIZE) && NL !in m && ls != []
    ensures Replace(WithNewlines(ls), m, line) ==
            (if Matches(ls[0], m) then Clip(line) else ls[0] + [NL]) + Replace(WithNewlines(ls[1..]), m, line)
    ensures AnyMatch(WithNewlines(ls), m) <==> Matches(ls[0], m) || AnyMatch(WithNewlines(ls[1..]), m)
  {
    assert WithNewlines(ls)[1..] == WithNewlines(ls[1..]);
    assert TidyLine(ls[0], BUFFER_SIZE);
    MatchWithNewline(ls[0], m);
    CStringOfLine(ls[0]);
  }

  lemma {:induction false} ReplaceLinesText(ls: seq<string>, m: string, newLine: string)
    requires Tidy(ls, BUFFER_SIZE) && NL !in m && TidyLine(newLine, BUFFER_SIZE)
    ensures Replace(WithNewlines(ls), m, newLine + [NL]) == Text(Replaced(ls, m, newLine))
    ensures AnyMatch(WithNewlines(ls), m) <==> SomeMatches(ls, m)
  {
    if ls != [] {
      assert Replaced(ls, m, newLine)[1..] == Replaced(ls[1..], m, newLine);
      ReplaceFirst(ls, m, newLine + [NL]);
      ReplaceLinesText(ls[1..], m, newLine);
      SomeMatchesHead(ls, m);
    }
  }

  // On a tidy file the editor works line by line.
  lemma UpdateTextLines(ls: seq<string>, m: string, newLine: string)
    requires Tidy(ls, BUFFER_SIZE) && NL !in m && TidyLine(newLine, BUFFER_SIZE)
    ensures UpdateText(Text(ls), Some(m), None, newLine + [NL]) == Text(Updated(ls, m, newLine))
  {
    var cs, line := WithNewlines(ls), newLine + [NL];
    assert Chunks(Text(ls), BUFFER_SIZE) == cs by {
      ChunksOfText(ls, BUFFER_SIZE);
    }
    ReplaceLinesText(ls, m, newLine);
    var body := Replace(cs, m, line);
    if SomeMatches(ls, m) {
      assert body + "" == body;
    } else {
      assert Replaced(ls, m, newLine) == ls;
      assert Addition(None, line) == line;
      assert Text(ls + [newLine]) == Text(ls) + line by {
        TextAppend(ls, [newLine]);
        TextOne(newLine);
      }
    }
  }

  lemma {:induction false} ReplaceAppend(cs: seq<string>, c: string, m: string, line: string)
    ensures Replace(cs + [c], m, line) ==
            Replace(cs, m, line) + if StartsWithIgnoringCase(c, m) then Clip(line) else CString(c)
    ensures AnyMatch(cs + [c], m) <==> AnyMatch(cs, m) || StartsWithIgnoringCase(c, m)
  {
    if cs == [] {
      assert cs + [c] == [c] && [c][1..] == [];
    } else {
      var first := if StartsWithIgnoringCase(cs[0], m) then Clip(line) else CString(cs[0]);
      assert (cs + [c])[1..] == cs[1..] + [c];
      ReplaceAppend(cs[1..], c, m, line);
      Associate(first, Replace(cs[1..], m, line), if StartsWithIgnoringCase(c, m) then Clip(line) else CString(c));
    }
  }

  /**
    On a file whose last line is not ended, a new line is glued to that one when no line is
    replaced.
  */
  lemma UpdateOpenText(ls: seq<string>, last: string, m: string, newLine: string)
    requires Tidy(ls, BUFFER_SIZE) && TidyLine(last, BUFFER_SIZE) && last != "" && NL !in m && TidyLine(newLine, BUFFER_SIZE)
    ensures UpdateText(Text(ls) + last, Some(m), None, newLine + [NL]) ==
            if SomeMatches(ls, m) || Matches(last, m) then
              Text(Replaced(ls, m, newLine)) + if Matches(last, m) then newLine + [NL] else last
            else Text(ls + [last + newLine])
  {
    var line := newLine + [NL];
    var cs := WithNewlines(ls) + [last];
    assert Chunks(Text(ls) + last, BUFFER_SIZE) == cs by {
      ChunksOfOpenText(ls, last, BUFFER_SIZE);
    }
    var end := if Matches(last, m) then line else last;
    assert Replace(cs, m, line) == Text(Replaced(ls, m, newLine)) + end && (AnyMatch(cs, m) <==> SomeMatches(ls, m) || Matches(last, m)) by {
      ReplaceAppend(WithNewlines(ls), last, m, line);
      ReplaceLinesText(ls, m, newLine);
      CStringWhole(last);
    }
    if AnyMatch(cs, m) {
      assert Replace(cs, m, line) + "" == Replace(cs, m, line);
    } else {
      assert Replaced(ls, m, newLine) == ls;
      assert Addition(None, line) == line;
      GlueText(ls, last, newLine);
    }
  }

  lemma UpdatedTidy(ls: seq<string>, m: string, newLine: string)
    requires Tidy(ls, BUFFER_SIZE) && TidyLine(newLine, BUFFER_SIZE)
    ensures Tidy(Updated(ls, m, newLine), BUFFER_SIZE)
  {
  }

  // ---------------------------------------------------------------- laws of the editor

  function NotMatching(m: string): string -> bool {
    l => !Matches(l, m)
  }

  // The lines that do not belong to the parameter.
  function Others(ls: seq<string>, m: string): seq<string> {
    Filter(NotMatching(m), ls)
  }

  lemma {:induction false} OthersReplaced(ls: seq<string>, m: string, newLine: string)
    requires Matches(newLine, m)
    ensures Others(Replaced(ls, m, newLine), m) == Others(ls, m)
  {
    if ls != [] {
      assert Replaced(ls, m, newLine)[1..] == Replaced(ls[1..], m, newLine);
      OthersReplaced(ls[1..], m, newLine);
    }
  }

  // All other lines stay, in order, and all lines of the parameter are the new one.
  lemma UpdateKeepsOthers(ls: seq<string>, m: string, newLine: string)
    requires Matches(newLine, m)
    ensures Others(Updated(ls, m, newLine), m) == Others(ls, m)
    ensures SomeMatches(Updated(ls, m, newLine), m)
    ensures forall i :: 0 <= i < |Updated(ls, m, newLine)| ==>
              Matches(Updated(ls, m, newLine)[i], m) ==> Updated(ls, m, newLine)[i] == newLine
  {
    var us := Updated(ls, m, newLine);
    if SomeMatches(ls, m) {
      OthersReplaced(ls, m, newLine);
      var i :| 0 <= i < |ls| && Matches(ls[i], m);
      assert us[i] == newLine;
    } else {
      FilterAppend(NotMatching(m), ls, [newLine]);
      assert [newLine][1..] == [];
      assert us[|ls|] == newLine;
    }
  }

  // Setting a parameter again to the same line changes nothing.
  lemma UpdateIdempotent(ls: seq<string>, m: string, newLine: string)
    requires Matches(newLine, m)
    ensures Updated(Updated(ls, m, newLine), m, newLine) == Updated(ls, m, newLine)
  {
    UpdateKeepsOthers(ls, m, newLine);
  }
}
