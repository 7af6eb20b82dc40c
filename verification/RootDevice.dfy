/**
  Changing the root file system of a card between RamFS and StaticRamFS: the old parameter and
  its description are removed from the configuration file, and the new ones are appended.
*/
module RootDevice {
  import opened CText
  import opened TextFiles
  import opened ConfigLexer
  import opened ConfigEdit

  const DESCRIPTOR: string := "# Root device for MIC card"
  const PARAMETER: string := "RootDevice"

  datatype FsType = RamFS | StaticRamFS

  function FsName(t: FsType): string {
    match t
    case RamFS => "RamFS"
    case StaticRamFS => "StaticRamFS"
  }

  function RootLine(t: FsType, target: string): string {
    PARAMETER + " " + FsName(t) + " " + target
  }

  // ---------------------------------------------------------------- removing lines

  // The lines that are left, when a blank line in front is to be dropped or not.
  function Removed(ls: seq<string>, prefix: string, skipBlank: bool): seq<string>
    decreases |ls|
  {
    if ls == [] then []
    else if skipBlank && ls[0] == "" then Removed(ls[1..], prefix, false)
    else if StartsWith(ls[0], prefix) then Removed(ls[1..], prefix, true)
    else [ls[0]] + Removed(ls[1..], prefix, false)
  }

  // Whether a blank line behind ls is to be dropped.
  function SkipsAfter(ls: seq<string>, prefix: string, skipBlank: bool): bool
    decreases |ls|
  {
    if ls == [] then skipBlank
    else if skipBlank && ls[0] == "" then SkipsAfter(ls[1..], prefix, false)
    else SkipsAfter(ls[1..], prefix, StartsWith(ls[0], prefix))
  }

  lemma PrefixWithNewline(l: string, prefix: string)
    requires NL !in prefix && NL !in l
    ensures StartsWith(l + [NL], prefix) <==> StartsWith(l, prefix)
    ensures StartsWith(l + [NL], [NL]) <==> l == ""
  {
    if |prefix| <= |l| {
      assert (l + [NL])[..|prefix|] == l[..|prefix|];
    } else if |prefix| == |l| + 1 {
      assert (l + [NL])[..|prefix|][|l|] == NL;
    }
    assert l != "" ==> (l + [NL])[..1][0] == l[0];
  }

  lemma {:induction false} RemoveLines(ls: seq<string>, prefix: string, skipBlank: bool)
    requires NL !in prefix && Tidy(ls, BUFFER_SIZE)
    ensures Remove(WithNewlines(ls), prefix, skipBlank) == Text(Removed(ls, prefix, skipBlank))
    decreases |ls|
  {
    if ls != [] {
      var l, rest := ls[0], ls[1..];
      assert WithNewlines(ls)[1..] == WithNewlines(rest);
      assert TidyLine(l, BUFFER_SIZE);
      CStringOfLine(l);
      PrefixWithNewline(l, prefix);
      RemoveLines(rest, prefix, false);
      RemoveLines(rest, prefix, true);
    }
  }

  lemma RemoveTextLines(ls: seq<string>, prefix: string)
    requires NL !in prefix && Tidy(ls, BUFFER_SIZE)
    ensures RemoveText(Text(ls), prefix) == Text(Removed(ls, prefix, false))
  {
    ChunksOfText(ls, BUFFER_SIZE);
    RemoveLines(ls, prefix, false);
  }

  lemma {:induction false} RemovedAppend(a: seq<string>, b: seq<string>, prefix: string, skipBlank: bool)
    ensures Removed(a + b, prefix, skipBlank) == Removed(a, prefix, skipBlank) + Removed(b, prefix, SkipsAfter(a, prefix, skipBlank))
    decreases |a|
  {
    if a == [] {
      assert a + b == b;
    } else {
      assert (a + b)[1..] == a[1..] + b;
      RemovedAppend(a[1..], b, prefix, false);
      RemovedAppend(a[1..], b, prefix, true);
    }
  }

  ghost predicate NoneStarts(ls: seq<string>, prefix: string) {
    forall i :: 0 <= i < |ls| ==> !StartsWith(ls[i], prefix)
  }

  // What is left is a part of what was there, and nothing of it starts with the prefix.
  lemma {:induction false} RemovedLeavesNone(ls: seq<string>, prefix: string, skipBlank: bool)
    ensures NoneStarts(Removed(ls, prefix, skipBlank), prefix)
    ensures forall i :: 0 <= i < |Removed(ls, prefix, skipBlank)| ==> Removed(ls, prefix, skipBlank)[i] in ls
    decreases |ls|
  {
    if ls != [] {
      RemovedLeavesNone(ls[1..], prefix, false);
      RemovedLeavesNone(ls[1..], prefix, true);
    }
  }

  // Removing changes nothing exactly when there is nothing to remove.
  lemma {:induction false} RemovedIsAll(ls: seq<string>, prefix: string)
    ensures |Removed(ls, prefix, false)| <= |ls| && |Removed(ls, prefix, true)| <= |ls|
    ensures Removed(ls, prefix, false) == ls <==> NoneStarts(ls, prefix)
    ensures |Removed(ls, prefix, false)| == |ls| ==> NoneStarts(ls, prefix)
    decreases |ls|
  {
    if ls != [] {
      RemovedIsAll(ls[1..], prefix);
      assert ls == [ls[0]] + ls[1..];
      assert NoneStarts(ls, prefix) <==> !StartsWith(ls[0], prefix) && NoneStarts(ls[1..], prefix) by {
        assert forall i :: 0 < i < |ls| ==> ls[i] == ls[1..][i - 1];
        assert forall i :: 0 <= i < |ls[1..]| ==> ls[1..][i] == ls[i + 1];
      }
      if !StartsWith(ls[0], prefix) {
        assert Removed(ls, prefix, false)[1..] == Removed(ls[1..], prefix, false);
      }
    }
  }

  // The k-th line stays: it does not start with the prefix, and is no blank line right behind one that does.
  predicate Stays(ls: seq<string>, prefix: string, k: nat)
    requires k < |ls|
  {
    !StartsWith(ls[k], prefix) && !(ls[k] == "" && k > 0 && StartsWith(ls[k - 1], prefix))
  }

  // Those of the first n lines that stay, in order.
  function Staying(ls: seq<string>, prefix: string, n: nat): seq<string>
    requires n <= |ls|
  {
    if n == 0 then []
    else Staying(ls, prefix, n - 1) + if Stays(ls, prefix, n - 1) then [ls[n - 1]] else []
  }

  // What is left, said line by line without carrying anything along.
  lemma {:induction false} RemovedMeaning(ls: seq<string>, prefix: string, n: nat)
    requires prefix != "" && n <= |ls|
    ensures Removed(ls[..n], prefix, false) == Staying(ls, prefix, n)
    ensures SkipsAfter(ls[..n], prefix, false) <==> n > 0 && StartsWith(ls[n - 1], prefix)
  {
    if n > 0 {
      var init, l := ls[..n - 1], ls[n - 1];
      RemovedMeaning(ls, prefix, n - 1);
      assert ls[..n] == init + [l];
      RemovedAppend(init, [l], prefix, false);
      SkipsAppend(init, l, prefix, false);
      assert [l][1..] == [];
    }
  }

  lemma {:induction false} SkipsAppend(a: seq<string>, l: string, prefix: string, skipBlank: bool)
    ensures SkipsAfter(a + [l], prefix, skipBlank) ==
            if SkipsAfter(a, prefix, skipBlank) && l == "" then false else StartsWith(l, prefix)
    decreases |a|
  {
    if a == [] {
      assert a + [l] == [l] && [l][1..] == [];
    } else {
      assert (a + [l])[1..] == a[1..] + [l];
      SkipsAppend(a[1..], l, prefix, false);
      SkipsAppend(a[1..], l, prefix, true);
    }
  }

  function Keeps(prefix: string): string -> bool {
    l => l != "" && !StartsWith(l, prefix)
  }

  // Every line that is not blank and does not start with the prefix stays, in order.
  lemma {:induction false} RemovedKeepsOthers(ls: seq<string>, prefix: string, skipBlank: bool)
    ensures Filter(Keeps(prefix), Removed(ls, prefix, skipBlank)) == Filter(Keeps(prefix), ls)
    decreases |ls|
  {
    if ls != [] {
      RemovedKeepsOthers(ls[1..], prefix, false);
      RemovedKeepsOthers(ls[1..], prefix, true);
      FilterCons(Keeps(prefix), ls[0], Removed(ls[1..], prefix, false));
    }
  }

  // ---------------------------------------------------------------- adding the new lines

  function Doubled(ls: seq<string>, m: string, line: string): seq<string> {
    if ls == [] then []
    else (if Matches(ls[0], m) then [line, ""] else [ls[0]]) + Doubled(ls[1..], m, line)
  }

  // A line that happens to start like the stand-in for a missing match is replaced; otherwise
  // the description, the parameter and a blank line are appended.
  function Added(ls: seq<string>, desc: string, line: string): seq<string> {
    if SomeMatches(ls, NO_MATCH) then Doubled(ls, NO_MATCH, line) else ls + [desc, line, ""]
  }

  lemma TextPair(a: string, b: string, rest: seq<string>)
    ensures Text([a, b] + rest) == a + [NL] + b + [NL] + Text(rest)
  {
    assert ([a, b] + rest)[1..] == [b] + rest;
    assert ([b] + rest)[1..] == rest;
  }

  lemma {:induction false} ReplaceDoubled(ls: seq<string>, m: string, line: string)
    requires Tidy(ls, BUFFER_SIZE) && NL !in m && |line| + 2 < BUFFER_SIZE
    ensures Replace(WithNewlines(ls), m, line + [NL] + [NL]) == Text(Doubled(ls, m, line))
    ensures AnyMatch(WithNewlines(ls), m) <==> SomeMatches(ls, m)
    ensures !SomeMatches(ls, m) ==> Doubled(ls, m, line) == ls
  {
    if ls != [] {
      ReplaceFirst(ls, m, line + [NL] + [NL]);
      ReplaceDoubled(ls[1..], m, line);
      SomeMatchesHead(ls, m);
      DoubledHead(ls, m, line);
    }
  }

  lemma DoubledHead(ls: seq<string>, m: string, line: string)
    requires ls != []
    ensures Text(Doubled(ls, m, line)) ==
            (if Matches(ls[0], m) then line + [NL] + [NL] else ls[0] + [NL]) + Text(Doubled(ls[1..], m, line))
    ensures !Matches(ls[0], m) && Doubled(ls[1..], m, line) == ls[1..] ==> Doubled(ls, m, line) == ls
  {
    var rest := Doubled(ls[1..], m, line);
    if Matches(ls[0], m) {
      TextPair(line, "", rest);
      assert line + [NL] + "" + [NL] == line + [NL] + [NL];
    } else {
      assert ([ls[0]] + rest)[1..] == rest;
    }
  }

  // Without a match the lines are printed as they are, whatever the new line.
  lemma {:induction false} ReplaceNone(ls: seq<string>, m: string, line: string)
    requires Tidy(ls, BUFFER_SIZE) && NL !in m && !SomeMatches(ls, m)
    ensures Replace(WithNewlines(ls), m, line) == Text(ls) && !AnyMatch(WithNewlines(ls), m)
  {
    if ls != [] {
      ReplaceFirst(ls, m, line);
      SomeMatchesHead(ls, m);
      ReplaceNone(ls[1..], m, line);
    }
  }

  // As much of the new line as fits in the buffer is appended, behind the description.
  lemma AddTextClipped(ls: seq<string>, desc: string, line: string)
    requires Tidy(ls, BUFFER_SIZE) && !SomeMatches(ls, NO_MATCH)
    ensures UpdateText(Text(ls), None, Some(desc), line) == Text(ls + [desc]) + Clip(line)
  {
    assert Chunks(Text(ls), BUFFER_SIZE) == WithNewlines(ls) by {
      ChunksOfText(ls, BUFFER_SIZE);
    }
    ReplaceNone(ls, NO_MATCH, line);
    assert Text(ls + [desc]) == Text(ls) + (desc + [NL]) by {
      TextAppend(ls, [desc]);
      TextOne(desc);
    }
    Associate(Text(ls), desc + [NL], Clip(line));
  }

  lemma TextThree(desc: string, line: string)
    ensures Text([desc, line, ""]) == desc + [NL] + (line + [NL] + [NL])
  {
    TextPair(desc, line, [""]);
    assert [desc, line] + [""] == [desc, line, ""];
    TextOne("");
    assert "" + [NL] == [NL];
  }

  lemma AddTextLines(ls: seq<string>, desc: string, line: string)
    requires Tidy(ls, BUFFER_SIZE) && |line| + 2 < BUFFER_SIZE
    ensures UpdateText(Text(ls), None, Some(desc), line + [NL] + [NL]) == Text(Added(ls, desc, line))
  {
    var newLine := line + [NL] + [NL];
    assert Chunks(Text(ls), BUFFER_SIZE) == WithNewlines(ls) by {
      ChunksOfText(ls, BUFFER_SIZE);
    }
    ReplaceDoubled(ls, NO_MATCH, line);
    if !SomeMatches(ls, NO_MATCH) {
      assert Text(ls + [desc, line, ""]) == Text(ls) + (desc + [NL] + newLine) by {
        TextAppend(ls, [desc, line, ""]);
        TextThree(desc, line);
      }
    }
  }

  // ---------------------------------------------------------------- changing the root device

  function Cleared(ls: seq<string>): seq<string> {
    Removed(Removed(ls, DESCRIPTOR, false), PARAMETER, false)
  }

  function Changed(ls: seq<string>, t: FsType, target: string): seq<string> {
    Added(Cleared(ls), DESCRIPTOR, RootLine(t, target))
  }

  ghost predicate Usable(target: string, t: FsType) {
    NL !in target && NUL !in target && |RootLine(t, target)| + 2 < BUFFER_SIZE
  }

  lemma {:induction false} TidySublist(ls: seq<string>, sub: seq<string>, size: nat)
    requires Tidy(ls, size) && forall i :: 0 <= i < |sub| ==> sub[i] in ls
    ensures Tidy(sub, size)
  {
    forall i | 0 <= i < |sub| ensures TidyLine(sub[i], size) {
      assert sub[i] in ls;
    }
  }

  lemma RemovedTidy(ls: seq<string>, prefix: string)
    requires Tidy(ls, BUFFER_SIZE)
    ensures Tidy(Removed(ls, prefix, false), BUFFER_SIZE)
  {
    RemovedLeavesNone(ls, prefix, false);
    TidySublist(ls, Removed(ls, prefix, false), BUFFER_SIZE);
  }

  /**
    The editing of the file itself: two removals and one update. A line too long for the buffer
    is cut, and then the file does not end with a newline.
  */
  method SetRamfsRoot(text: string, t: FsType, target: string, ghost ls: seq<string>) returns (out: string)
    requires text == Text(ls) && Tidy(ls, BUFFER_SIZE)
    ensures Usable(target, t) ==> out == Text(Changed(ls, t, target))
    ensures !SomeMatches(Cleared(ls), NO_MATCH) ==>
              out == Text(Cleared(ls) + [DESCRIPTOR]) + Clip(RootLine(t, target) + [NL] + [NL])
  {
    out := ClearRoot(text, ls);
    ghost var b := Cleared(ls);
    if Usable(target, t) {
      AddTextLines(b, DESCRIPTOR, RootLine(t, target));
    }
    if !SomeMatches(b, NO_MATCH) {
      AddTextClipped(b, DESCRIPTOR, RootLine(t, target) + [NL] + [NL]);
    }
    out := UpdateConfig(Some(out), None, Some(DESCRIPTOR), RootLine(t, target) + [NL] + [NL]);
  }

  method ClearRoot(text: string, ghost ls: seq<string>) returns (out: string)
    requires text == Text(ls) && Tidy(ls, BUFFER_SIZE)
    ensures out == Text(Cleared(ls)) && Tidy(Cleared(ls), BUFFER_SIZE)
  {
    ghost var a := Removed(ls, DESCRIPTOR, false);
    RemoveTextLines(ls, DESCRIPTOR);
    RemovedTidy(ls, DESCRIPTOR);
    RemoveTextLines(a, PARAMETER);
    RemovedTidy(a, PARAMETER);
    out := RemoveConfig(text, DESCRIPTOR);
    out := RemoveConfig(out, PARAMETER);
  }

  function IsRoot(): string -> bool {
    l => StartsWith(l, PARAMETER)
  }

  // The RootDevice lines of a file.
  function Roots(ls: seq<string>): seq<string> {
    Filter(IsRoot(), ls)
  }

  function Count(ls: seq<string>, m: string): nat {
    if ls == [] then 0 else (if Matches(ls[0], m) then 1 else 0) + Count(ls[1..], m)
  }

  function Copies(line: string, n: nat): seq<string> {
    if n == 0 then [] else [line] + Copies(line, n - 1)
  }

  lemma {:induction false} NoRoots(ls: seq<string>)
    requires NoneStarts(ls, PARAMETER)
    ensures Roots(ls) == []
  {
    if ls != [] {
      NoRoots(ls[1..]);
    }
  }

  lemma RootsOfPair(line: string, rest: seq<string>)
    requires StartsWith(line, PARAMETER)
    ensures Roots([line, ""] + rest) == [line] + Roots(rest)
  {
    FilterCons(IsRoot(), line, [""] + rest);
    FilterCons(IsRoot(), "", rest);
    assert [line, ""] + rest == [line] + ([""] + rest);
  }

  lemma {:induction false} RootsDoubled(ls: seq<string>, m: string, line: string)
    requires NoneStarts(ls, PARAMETER) && StartsWith(line, PARAMETER)
    ensures Roots(Doubled(ls, m, line)) == Copies(line, Count(ls, m))
  {
    if ls != [] {
      var rest := Doubled(ls[1..], m, line);
      RootsDoubled(ls[1..], m, line);
      if Matches(ls[0], m) {
        RootsOfPair(line, rest);
      } else {
        assert ([ls[0]] + rest)[1..] == rest;
        assert !StartsWith(ls[0], PARAMETER);
      }
    }
  }

  lemma {:induction false} CountZero(ls: seq<string>, m: string)
    ensures Count(ls, m) == 0 <==> !SomeMatches(ls, m)
  {
    if ls != [] {
      CountZero(ls[1..], m);
      SomeMatchesHead(ls, m);
    }
  }

  // A line that starts with a prefix beginning with another letter is no stand-in.
  lemma NoStandIn(l: string, prefix: string)
    requires prefix != "" && Lower(prefix[0]) != 'd' && StartsWith(l, prefix)
    ensures !Matches(l, NO_MATCH)
  {
    assert l[0] == l[..|prefix|][0];
    if |NO_MATCH| <= |l| {
      assert l[..|NO_MATCH|][0] == l[0];
      assert Lower(NO_MATCH[0]) == 'd';
    }
  }

  // Removing lines removes no stand-in.
  lemma {:induction false} RemovedKeepsStandIns(ls: seq<string>, prefix: string, skipBlank: bool)
    requires prefix != "" && Lower(prefix[0]) != 'd'
    ensures Count(Removed(ls, prefix, skipBlank), NO_MATCH) == Count(ls, NO_MATCH)
    decreases |ls|
  {
    if ls != [] {
      RemovedKeepsStandIns(ls[1..], prefix, false);
      RemovedKeepsStandIns(ls[1..], prefix, true);
      if StartsWith(ls[0], prefix) {
        NoStandIn(ls[0], prefix);
      }
      assert ([ls[0]] + Removed(ls[1..], prefix, false))[1..] == Removed(ls[1..], prefix, false);
    }
  }

  lemma ClearedKeepsStandIns(ls: seq<string>)
    ensures Count(Cleared(ls), NO_MATCH) == Count(ls, NO_MATCH)
  {
    RemovedKeepsStandIns(ls, DESCRIPTOR, false);
    RemovedKeepsStandIns(Removed(ls, DESCRIPTOR, false), PARAMETER, false);
  }

  lemma ClearedHasNoRoots(ls: seq<string>)
    ensures NoneStarts(Cleared(ls), PARAMETER) && Roots(Cleared(ls)) == []
  {
    RemovedLeavesNone(Removed(ls, DESCRIPTOR, false), PARAMETER, false);
    NoRoots(Cleared(ls));
  }

  // How many RootDevice lines a change writes: one, or one for each stand-in.
  function Written(ls: seq<string>): nat {
    if Count(ls, NO_MATCH) == 0 then 1 else Count(ls, NO_MATCH)
  }

  /**
    After a change every RootDevice line of the file is the new one. There is exactly one,
    unless several lines start like the stand-in for a missing match.
  */
  lemma ChangeLeavesOne(ls: seq<string>, t: FsType, target: string)
    ensures Roots(Changed(ls, t, target)) == Copies(RootLine(t, target), Written(ls))
  {
    var b, line := Cleared(ls), RootLine(t, target);
    ClearedHasNoRoots(ls);
    ClearedKeepsStandIns(ls);
    CountZero(b, NO_MATCH);
    assert line[..|PARAMETER|] == PARAMETER;
    if SomeMatches(b, NO_MATCH) {
      RootsDoubled(b, NO_MATCH, line);
    } else {
      FilterAppend(IsRoot(), b, [DESCRIPTOR, line, ""]);
      assert DESCRIPTOR[..|PARAMETER|][0] == '#' && PARAMETER[0] == 'R';
      assert [DESCRIPTOR, line, ""][1..] == [line, ""] + [];
      RootsOfPair(line, []);
      assert Copies(line, 1) == [line] + Copies(line, 0);
    }
  }

  /**
    Removing the description and the parameter from a file they were appended to, with the blank
    line behind them, gives back the file, if and only if it had neither before.
  */
  lemma ClearUndoesAppend(ls: seq<string>, t: FsType, target: string)
    ensures Cleared(ls + [DESCRIPTOR, RootLine(t, target), ""]) == ls <==>
            NoneStarts(ls, DESCRIPTOR) && NoneStarts(ls, PARAMETER)
  {
    var line := RootLine(t, target);
    var a := Removed(ls, DESCRIPTOR, false);
    assert line[..|PARAMETER|] == PARAMETER;
    RemovedAppend(ls, [DESCRIPTOR, line, ""], DESCRIPTOR, false);
    RemovedTail(line, SkipsAfter(ls, DESCRIPTOR, false), SkipsAfter(a, PARAMETER, false));
    RemovedAppend(a, [line, ""], PARAMETER, false);
    assert a + [line, ""] == Removed(ls + [DESCRIPTOR, line, ""], DESCRIPTOR, false);
    assert Cleared(ls + [DESCRIPTOR, line, ""]) == Cleared(ls);
    RemovedIsAll(ls, DESCRIPTOR);
    RemovedIsAll(a, PARAMETER);
  }

  lemma RemovedTail(line: string, s: bool, s': bool)
    requires StartsWith(line, PARAMETER)
    ensures Removed([DESCRIPTOR, line, ""], DESCRIPTOR, s) == [line, ""]
    ensures Removed([line, ""], PARAMETER, s') == []
  {
    assert [DESCRIPTOR, line, ""][1..] == [line, ""];
    assert [line, ""][1..] == [""];
    assert [""][1..] == [];
    assert line[0] == 'R' by {
      assert line[..|PARAMETER|][0] == 'R';
    }
    assert !StartsWith(line, DESCRIPTOR) by {
      assert |DESCRIPTOR| <= |line| ==> line[..|DESCRIPTOR|][0] == 'R';
      assert DESCRIPTOR[0] == '#';
    }
    assert !StartsWith("", DESCRIPTOR);
    assert Removed([""], DESCRIPTOR, false) == [""];
    assert Removed([line, ""], DESCRIPTOR, true) == [line] + Removed([""], DESCRIPTOR, false);
    assert StartsWith(DESCRIPTOR, DESCRIPTOR);
  }

  // ---------------------------------------------------------------- runs of changes

  // A card's root type, when it is one of the two, and the lines of its file.
  datatype Card = Card(current: Option<FsType>, lines: seq<string>)

  // What the typed text is compared with, letter for letter, to find a request needless.
  function LowerName(t: FsType): string {
    match t
    case RamFS => "ramfs"
    case StaticRamFS => "staticramfs"
  }

  // The type that the typed text names, in any case.
  function KindOf(typed: string): Option<FsType> {
    if SameIgnoringCase(typed, LowerName(RamFS)) then Some(RamFS)
    else if SameIgnoringCase(typed, LowerName(StaticRamFS)) then Some(StaticRamFS)
    else None
  }

  // The type as it was typed, and the target.
  datatype Wish = Wish(typed: string, target: string)

  // Neither of the two network types, which are not modelled.
  predicate NotNfs(typed: string) {
    !SameIgnoringCase(typed, "nfs") && !SameIgnoringCase(typed, "splitnfs")
  }

  type Request = w: Wish | NotNfs(w.typed) witness Wish("ramfs", "")

  predicate Skipped(c: Card, r: Request) {
    c.current.Some? && r.typed == LowerName(c.current.value)
  }

  // A skipped request changes nothing. For an unknown type the old lines are gone all the same.
  function Change(c: Card, r: Request): Card {
    if Skipped(c, r) then c
    else match KindOf(r.typed)
      case Some(t) => Card(Some(t), Changed(c.lines, t, r.target))
      case None => Card(None, Cleared(c.lines))
  }

  function Lowered(s: string): (r: string)
    ensures |r| == |s| && forall i :: 0 <= i < |s| ==> r[i] == Lower(s[i])
  {
    seq(|s|, i requires 0 <= i < |s| => Lower(s[i]))
  }

  // What the handler of the parameter takes from its arguments: the type, in any case, and the target.
  function ReadRoot(args: seq<string>): Option<(FsType, string)> {
    if |args| < 2 || KindOf(args[0]).None? then None else Some((KindOf(args[0]).value, args[1]))
  }

  // The line that is written is read back as the type and the target, when that is one word.
  lemma RootLineReadBack(t: FsType, target: string)
    requires Printable(Plain(target))
    ensures LexLine(RootLine(t, target)).Words? && LexLine(RootLine(t, target)).keyword == "RootDevice"
    ensures ReadRoot(LexLine(RootLine(t, target)).args) == Some((t, target))
  {
    var name := FsName(t);
    var l := Then(Plain(PARAMETER), 1, Then(Plain(name), 1, Last(Plain(target))));
    assert Printable(Plain(PARAMETER)) && Printable(Plain(name));
    RootLinePrinted(t, target);
    LexUndoesPrint(l);
    assert Texts(l.more.more) == [target] && Texts(l.more) == [name, target];
    assert Texts(l)[1..] == [name, target];
    FsNameKind(t);
  }

  lemma RootLinePrinted(t: FsType, target: string)
    ensures RootLine(t, target) == Print(Then(Plain(PARAMETER), 1, Then(Plain(FsName(t)), 1, Last(Plain(target)))))
  {
    var l := Then(Plain(FsName(t)), 1, Last(Plain(target)));
    assert Blanks(1) == " ";
    assert Print(l) == FsName(t) + " " + target;
    assert PARAMETER + " " + (FsName(t) + " " + target) == PARAMETER + " " + FsName(t) + " " + target;
  }

  lemma FsNameKind(t: FsType)
    ensures KindOf(FsName(t)) == Some(t)
  {
    match t
    case RamFS => assert SameIgnoringCase("RamFS", "ramfs");
    case StaticRamFS =>
      assert |FsName(t)| != |LowerName(RamFS)|;
      assert SameIgnoringCase("StaticRamFS", "staticramfs");
  }

  // A request is skipped if and only if it names the type the card has, and is typed in lower case.
  lemma SkippedInLowerCase(c: Card, r: Request)
    ensures Skipped(c, r) <==> c.current.Some? && KindOf(r.typed) == c.current && r.typed == Lowered(r.typed)
  {
    if c.current.Some? {
      var name := LowerName(c.current.value);
      assert forall i :: 0 <= i < |name| ==> Lower(name[i]) == name[i];
      if KindOf(r.typed) == c.current {
        assert Lowered(r.typed) == name;
      }
      if r.typed == name {
        LowerNameKind(c.current.value);
        assert Lowered(name) == name;
      }
    }
  }

  lemma LowerNameKind(t: FsType)
    ensures KindOf(LowerName(t)) == Some(t)
  {
    assert |LowerName(RamFS)| == 5 && |LowerName(StaticRamFS)| == 11;
  }

  // The card after a run of requests.
  function Run(c: Card, rs: seq<Request>): Card
    decreases |rs|
  {
    if rs == [] then c else Change(Run(c, rs[..|rs| - 1]), rs[|rs| - 1])
  }

  // The last request of a run that is carried out.
  function LastDone(c: Card, rs: seq<Request>): (i: Option<nat>)
    ensures i.Some? ==> i.value < |rs|
    decreases |rs|
  {
    if rs == [] then None
    else if Skipped(Run(c, rs[..|rs| - 1]), rs[|rs| - 1]) then LastDone(c, rs[..|rs| - 1])
    else Some(|rs| - 1)
  }

  // How many requests of a run write lines.
  function Writes(c: Card, rs: seq<Request>): nat
    decreases |rs|
  {
    if rs == [] then 0
    else
      var r := rs[|rs| - 1];
      Writes(c, rs[..|rs| - 1]) + if !Skipped(Run(c, rs[..|rs| - 1]), r) && KindOf(r.typed).Some? then 1 else 0
  }

  lemma OwnLines(t: FsType, target: string)
    ensures !Matches(RootLine(t, target), NO_MATCH) && !Matches(DESCRIPTOR, NO_MATCH) && !Matches("", NO_MATCH)
  {
    var line := RootLine(t, target);
    assert line[..|PARAMETER|] == PARAMETER;
    NoStandIn(line, PARAMETER);
    NoStandIn(DESCRIPTOR, DESCRIPTOR);
  }

  lemma {:induction false} DoubledLeavesNone(ls: seq<string>, m: string, line: string)
    requires !Matches(line, m) && !Matches("", m)
    ensures !SomeMatches(Doubled(ls, m, line), m)
  {
    if ls != [] {
      DoubledLeavesNone(ls[1..], m, line);
    }
  }

  // Whatever the file was, no stand-in is left after a change.
  lemma ChangedHasNone(ls: seq<string>, t: FsType, target: string)
    ensures Count(Changed(ls, t, target), NO_MATCH) == 0
  {
    OwnLines(t, target);
    DoubledLeavesNone(Cleared(ls), NO_MATCH, RootLine(t, target));
    CountZero(Changed(ls, t, target), NO_MATCH);
  }

  // The stand-ins last until lines are written for the first time.
  lemma {:induction false} StandInsOfRun(c: Card, rs: seq<Request>)
    ensures Count(Run(c, rs).lines, NO_MATCH) == if Writes(c, rs) == 0 then Count(c.lines, NO_MATCH) else 0
    decreases |rs|
  {
    if rs != [] {
      var before, r := Run(c, rs[..|rs| - 1]), rs[|rs| - 1];
      StandInsOfRun(c, rs[..|rs| - 1]);
      if !Skipped(before, r) {
        ClearedKeepsStandIns(before.lines);
        if KindOf(r.typed).Some? {
          ChangedHasNone(before.lines, KindOf(r.typed).value, r.target);
        }
      }
    }
  }

  // A card as the request r, carried out, leaves it, with n RootDevice lines.
  ghost predicate LeftBy(c: Card, r: Request, n: nat) {
    && c.current == KindOf(r.typed)
    && Roots(c.lines) == if c.current.Some? then Copies(RootLine(c.current.value, r.target), n) else []
  }

  /**
    Over any run on any file: if every request is skipped nothing changes. Otherwise the card is
    as the last request left it that was carried out: for an unknown type there is no RootDevice
    line; for a known one every RootDevice line is the one asked for, and there is one, unless
    no request before wrote lines and several stand-ins were in the file.
  */
  lemma {:induction false} RunKeepsOneRoot(c: Card, rs: seq<Request>)
    ensures LastDone(c, rs).None? ==> Run(c, rs) == c
    ensures LastDone(c, rs).Some? ==>
              LeftBy(Run(c, rs), rs[LastDone(c, rs).value], if Writes(c, rs) == 1 then Written(c.lines) else 1)
    decreases |rs|
  {
    if rs != [] {
      var before, r := Run(c, rs[..|rs| - 1]), rs[|rs| - 1];
      if Skipped(before, r) {
        RunKeepsOneRoot(c, rs[..|rs| - 1]);
      } else if KindOf(r.typed).Some? {
        StandInsOfRun(c, rs[..|rs| - 1]);
        ChangeLeavesOne(before.lines, KindOf(r.typed).value, r.target);
      } else {
        ClearedHasNoRoots(before.lines);
      }
    }
  }

  // ---------------------------------------------------------------- runs on the text of the file

  lemma {:induction false} DoubledTidy(ls: seq<string>, m: string, line: string)
    requires Tidy(ls, BUFFER_SIZE) && TidyLine(line, BUFFER_SIZE)
    ensures Tidy(Doubled(ls, m, line), BUFFER_SIZE)
  {
    if ls != [] {
      DoubledTidy(ls[1..], m, line);
      assert TidyLine(ls[0], BUFFER_SIZE);
    }
  }

  lemma ChangedTidy(ls: seq<string>, t: FsType, target: string)
    requires Tidy(ls, BUFFER_SIZE) && Usable(target, t)
    ensures Tidy(Changed(ls, t, target), BUFFER_SIZE)
  {
    var line := RootLine(t, target);
    RemovedTidy(ls, DESCRIPTOR);
    RemovedTidy(Removed(ls, DESCRIPTOR, false), PARAMETER);
    LineTidy(t, target);
    DescriptorTidy();
    DoubledTidy(Cleared(ls), NO_MATCH, line);
  }

  lemma LineTidy(t: FsType, target: string)
    requires Usable(target, t)
    ensures TidyLine(RootLine(t, target), BUFFER_SIZE)
  {
    assert forall c :: c in RootLine(t, target) ==> c in PARAMETER || c == ' ' || c in FsName(t) || c in target;
    assert NL !in FsName(t) && NUL !in FsName(t) && NL !in PARAMETER && NUL !in PARAMETER;
  }

  lemma DescriptorTidy()
    ensures TidyLine(DESCRIPTOR, BUFFER_SIZE)
  {
  }

  // A request with a target that its line has room for.
  ghost predicate Sound(r: Request) {
    KindOf(r.typed).Some? ==> Usable(r.target, KindOf(r.typed).value)
  }

  // One pass of rootdev over a card.
  method ChangeRoot(text: string, current: Option<FsType>, r: Request, ghost ls: seq<string>)
    returns (out: string, now: Option<FsType>)
    requires text == Text(ls) && Tidy(ls, BUFFER_SIZE) && Sound(r)
    ensures var end := Change(Card(current, ls), r);
            out == Text(end.lines) && now == end.current && Tidy(end.lines, BUFFER_SIZE)
  {
    if current.Some? && r.typed == LowerName(current.value) {
      return text, current;
    }
    now := KindOf(r.typed);
    if now.Some? {
      out := SetRamfsRoot(text, now.value, r.target, ls);
      ChangedTidy(ls, now.value, r.target);
    } else {
      out := ClearRoot(text, ls);
    }
  }

  // Requests one after the other, each editing the file that the one before left.
  method ChangeAll(text: string, current: Option<FsType>, rs: seq<Request>, ghost ls: seq<string>)
    returns (out: string, now: Option<FsType>)
    requires text == Text(ls) && Tidy(ls, BUFFER_SIZE) && forall i :: 0 <= i < |rs| ==> Sound(rs[i])
    ensures var end := Run(Card(current, ls), rs); out == Text(end.lines) && now == end.current && Tidy(end.lines, BUFFER_SIZE)
  {
    out, now := text, current;
    ghost var c := Card(current, ls);
    var i := 0;
    while i < |rs|
      invariant 0 <= i <= |rs| && out == Text(c.lines) && now == c.current && Tidy(c.lines, BUFFER_SIZE)
      invariant c == Run(Card(current, ls), rs[..i])
    {
      out, now := ChangeRoot(out, now, rs[i], c.lines);
      assert rs[..i + 1][..i] == rs[..i];
      c := Change(c, rs[i]);
      i := i + 1;
    }
    assert rs[..i] == rs;
  }
}
