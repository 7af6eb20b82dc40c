/**
  Parsing a configuration file: one lexed line after another is looked up in the table of
  parameters and handed to its handler. Only the handler of PowerManagement is spelled out;
  the others are known by the order in which they are called and by whether they give up.
*/
module ConfigParser {
  import opened CText
  import opened TextFiles
  import opened ConfigLexer

  datatype Token = Token(name: string, minArgs: nat, maxArgs: nat)

  const TOKENS: seq<Token> := [
    Token("Include", 1, 1),
    Token("Version", 1, 2),
    Token("OSimage", 0, 2),
    Token("EFIimage", 0, 1),
    Token("BootOnStart", 1, 1),
    Token("VerboseLogging", 1, 1),
    Token("Hostname", 1, 1),
    Token("Network", 2, 7),
    Token("Bridge", 2, 6),
    Token("MacAddrs", 1, 2),
    Token("ExtraCommandLine", 1, 1),
    Token("Console", 1, 1),
    Token("PowerManagement", 1, 1),
    Token("Base", 2, 2),
    Token("CommonDir", 1, 2),
    Token("MicDir", 1, 2),
    Token("UserAuthentication", 1, 3),
    Token("Overlay", 2, 4),
    Token("K1omRpms", 1, 1),
    Token("RootDevice", 1, 3),
    Token("ShutdownTimeout", 1, 1),
    Token("CrashDump", 2, 2),
    Token("Service", 4, 4),
    Token("Cgroup", 1, 8),
    Token("Family", 0, 1),
    Token("MPSSVersion", 0, 1)
  ]

  const INCLUDE_TOKEN: nat := 0
  const POWER_TOKEN: nat := 12

  function FindIn(tokens: seq<Token>, keyword: string): (r: nat)
    ensures r <= |tokens|
  {
    if tokens == [] || SameIgnoringCase(keyword, tokens[0].name) then 0 else 1 + FindIn(tokens[1..], keyword)
  }

  lemma {:induction false} FindInFirst(tokens: seq<Token>, keyword: string)
    ensures var r := FindIn(tokens, keyword);
            && (r < |tokens| ==> SameIgnoringCase(keyword, tokens[r].name))
            && forall k :: 0 <= k < r ==> !SameIgnoringCase(keyword, tokens[k].name)
  {
    if tokens != [] && !SameIgnoringCase(keyword, tokens[0].name) {
      FindInFirst(tokens[1..], keyword);
    }
  }

  // The row of the table for a keyword, or the number of rows when there is none.
  function FindToken(keyword: string): (r: nat)
    ensures r <= |TOKENS|
  {
    FindIn(TOKENS, keyword)
  }

  // A call of the handler of one row.
  datatype Directive = Directive(token: nat, args: seq<string>)

  /**
    What the handlers other than PowerManagement's do, given every call of them so far:
    whether the last one gives up, and what PowerManagement value an included file sets, if any.
  */
  datatype Handlers = Handlers(fails: seq<Directive> -> bool, included: seq<Directive> -> Option<string>)

  datatype Settings = Settings(pm: Option<string>, calls: seq<Directive>)

  datatype Parsed = Completed(settings: Settings) | GaveUp(settings: Settings)

  function Dispatch(h: Handlers, t: nat, args: seq<string>, st: Settings): Parsed
    requires t < |TOKENS|
  {
    if |args| < TOKENS[t].minArgs || |args| > TOKENS[t].maxArgs then Completed(st)
    else if t == POWER_TOKEN then Completed(st.(pm := Some(args[0])))
    else
      var calls := st.calls + [Directive(t, args)];
      if h.fails(calls) then GaveUp(Settings(st.pm, calls))
      else if t == INCLUDE_TOKEN && h.included(calls).Some? then Completed(Settings(h.included(calls), calls))
      else Completed(Settings(st.pm, calls))
  }

  // Lines with an unknown parameter or a wrong number of arguments are reported and skipped.
  function HandleWords(h: Handlers, keyword: string, args: seq<string>, st: Settings): Parsed {
    if args == [] && keyword == "" then Completed(st)
    else
      var t := FindToken(keyword);
      if t == |TOKENS| then Completed(st) else Dispatch(h, t, args, st)
  }

  function HandleLine(h: Handlers, line: string, st: Settings): Parsed {
    match LexLine(line)
    case Comment => Completed(st)
    case Words(keyword, args) => HandleWords(h, keyword, args, st)
  }

  // Where the line that starts at pos ends.
  function LineEnd(text: string, pos: nat): (e: nat)
    requires pos <= |text|
    ensures pos <= e <= |text|
    decreases |text| - pos
  {
    if pos == |text| || text[pos] == NL || text[pos] == NUL then pos else LineEnd(text, pos + 1)
  }

  lemma {:induction false} LineEndIs(text: string, pos: nat, e: nat)
    requires pos <= e <= |text| && (e < |text| ==> text[e] == NL || text[e] == NUL)
    requires forall k :: pos <= k < e ==> text[k] != NL && text[k] != NUL
    ensures LineEnd(text, pos) == e
    decreases e - pos
  {
    if pos < e {
      LineEndIs(text, pos + 1, e);
    }
  }

  // What handling a line does to the settings.
  type LineHandler = (string, Settings) -> Parsed

  function HandlerOf(h: Handlers): LineHandler {
    (line, st) => HandleLine(h, line, st)
  }

  ghost predicate Handles(step: LineHandler, h: Handlers) {
    forall line, st {:trigger step(line, st), HandleLine(h, line, st)} :: step(line, st) == HandleLine(h, line, st)
  }

  lemma HandlerHandles(h: Handlers)
    ensures Handles(HandlerOf(h), h)
  {
  }

  // The loop over the file image. It does not look at the last byte of the file alone.
  function ParseFrom(step: LineHandler, text: string, pos: nat, st: Settings): Parsed
    decreases if pos <= |text| then |text| - pos else 0
  {
    if pos + 1 >= |text| then Completed(st)
    else
      var e := LineEnd(text, pos);
      match step(text[pos..e], st)
      case GaveUp(st') => GaveUp(st')
      case Completed(st') => ParseFrom(step, text, e + 1, st')
  }

  const UNSET: Settings := Settings(None, [])

  function Parse(h: Handlers, text: string): Parsed {
    ParseFrom(HandlerOf(h), text, 0, UNSET)
  }

  // ---------------------------------------------------------------- parsing line by line

  function ParseLines(step: LineHandler, lines: seq<string>, st: Settings): Parsed
    decreases |lines|
  {
    if lines == [] then Completed(st)
    else
      match step(lines[0], st)
      case GaveUp(st') => GaveUp(st')
      case Completed(st') => ParseLines(step, lines[1..], st')
  }

  // The keyword is the beginning of the line, white space and quotes included.
  lemma KeywordIsPrefix(line: string)
    requires LexLine(line).Words?
    ensures var k := LexLine(line).keyword; |k| <= |line| && line[..|k|] == k
  {
  }

  // A line is only recognised by a parameter's name in its first column.
  lemma RecognisedAtStart(line: string)
    requires LexLine(line).Words?
    ensures var t := FindToken(LexLine(line).keyword); t < |TOKENS| ==> StartsWithIgnoringCase(line, TOKENS[t].name)
  {
    var keyword := LexLine(line).keyword;
    KeywordIsPrefix(line);
    var tokens := TOKENS;
    FindInFirst(tokens, keyword);
  }

  // Every parameter's name starts with a letter and has more than one.
  lemma NamesAreWords()
    ensures forall t :: 0 <= t < |TOKENS| ==>
              |TOKENS[t].name| > 1 && ('a' <= TOKENS[t].name[0] <= 'z' || 'A' <= TOKENS[t].name[0] <= 'Z')
  {
  }

  // A parameter behind white space, or a quoted one, is not recognised, and neither is a line of one character.
  lemma NotRecognised(h: Handlers, line: string, st: Settings)
    requires |line| <= 1 || IsSpace(line[0]) || line[0] == '"'
    ensures HandleLine(h, line, st) == Completed(st)
  {
    if LexLine(line).Words? {
      RecognisedAtStart(line);
      NamesAreWords();
    }
  }

  /**
    What a caller sees of a line's words: a keyword that no row has, or a number of arguments
    that the row does not take, does nothing at all; otherwise there is exactly one effect, the
    value for the power management row and one call for any other, and only a failing call ends
    the parse.
  */
  lemma HandlingMeaning(h: Handlers, keyword: string, args: seq<string>, st: Settings, t: nat)
    requires t <= |TOKENS| && forall k :: 0 <= k < t ==> !SameIgnoringCase(keyword, TOKENS[k].name)
    requires t < |TOKENS| ==> SameIgnoringCase(keyword, TOKENS[t].name)
    ensures var r := HandleWords(h, keyword, args, st);
            if t == |TOKENS| || !(TOKENS[t].minArgs <= |args| <= TOKENS[t].maxArgs) then r == Completed(st)
            else if t == POWER_TOKEN then r == Completed(Settings(Some(args[0]), st.calls))
            else
              && r.settings.calls == st.calls + [Directive(t, args)]
              && (r.GaveUp? <==> h.fails(r.settings.calls))
              && r.settings.pm ==
                 if t == INCLUDE_TOKEN && r.Completed? && h.included(r.settings.calls).Some? then h.included(r.settings.calls) else st.pm
  {
    NamesAreWords();
    var tokens := TOKENS;
    FindInFirst(tokens, keyword);
    assert FindToken(keyword) == t;
  }

  // The text of lines that end in newlines, followed by one that does not.
  lemma {:induction false} ParseTextFrom(step: LineHandler, text: string, pos: nat, lines: seq<string>, last: string, size: nat, st: Settings)
    requires Tidy(lines, size) && TidyLine(last, size) && pos <= |text| && text[pos..] == Text(lines) + last
    requires forall l, st' {:trigger step(l, st')} :: |l| <= 1 ==> step(l, st') == Completed(st')
    ensures ParseFrom(step, text, pos, st) == ParseLines(step, lines + [last], st)
    decreases |lines|
  {
    var all := lines + [last];
    if lines == [] {
      assert all == [last] && all[1..] == [];
      assert text[pos..] == last;
      if pos + 1 < |text| {
        assert forall k :: pos <= k < |text| ==> text[k] == last[k - pos];
        LineEndIs(text, pos, |text|);
        assert text[pos..|text|] == last;
      }
    } else {
      var l := lines[0];
      var e := pos + |l|;
      assert all[0] == l && all[1..] == lines[1..] + [last];
      assert TidyLine(l, size);
      Associate(l + [NL], Text(lines[1..]), last);
      assert text[pos..] == l + [NL] + (Text(lines[1..]) + last);
      assert forall k :: 0 <= k < |l| ==> text[pos..][k] == l[k];
      assert text[pos..][|l|] == NL;
      LineEndIs(text, pos, e);
      assert text[pos..e] == l;
      assert text[e + 1..] == Text(lines[1..]) + last;
      if pos + 1 >= |text| {
        assert l == "" && text[e + 1..] == "";
        ParseTextFrom(step, text, e + 1, lines[1..], last, size, st);
      } else {
        var r := step(l, st);
        if r.Completed? {
          ParseTextFrom(step, text, e + 1, lines[1..], last, size, r.settings);
        }
      }
    }
  }

  // A file whose lines fit is parsed one line after the other, whether the last one is ended or not.
  lemma ParseOpenText(h: Handlers, lines: seq<string>, last: string, size: nat)
    requires Tidy(lines, size) && TidyLine(last, size)
    ensures Parse(h, Text(lines) + last) == ParseLines(HandlerOf(h), lines + [last], UNSET)
  {
    var step, text := HandlerOf(h), Text(lines) + last;
    assert text[0..] == text;
    forall l, st | |l| <= 1 ensures step(l, st) == Completed(st) {
      NotRecognised(h, l, st);
    }
    ParseTextFrom(step, text, 0, lines, last, size, UNSET);
  }

  lemma {:induction false} ParseLinesAppend(step: LineHandler, ls: seq<string>, l: string, st: Settings)
    ensures ParseLines(step, ls + [l], st) ==
            match ParseLines(step, ls, st) case GaveUp(st') => GaveUp(st') case Completed(st') => step(l, st')
    decreases |ls|
  {
    if ls == [] {
      assert ls + [l] == [l] && [l][1..] == [];
    } else {
      assert (ls + [l])[1..] == ls[1..] + [l];
      ParseLinesAppend(step, ls[1..], l, step(ls[0], st).settings);
    }
  }

  // A tidy file is parsed one line after the other.
  lemma ParseText(h: Handlers, lines: seq<string>, size: nat)
    requires Tidy(lines, size) && size > 1
    ensures Parse(h, Text(lines)) == ParseLines(HandlerOf(h), lines, UNSET)
  {
    ParseOpenText(h, lines, "", size);
    assert Text(lines) + "" == Text(lines);
    ParseLinesAppend(HandlerOf(h), lines, "", UNSET);
    var r := ParseLines(HandlerOf(h), lines, UNSET);
    NotRecognised(h, "", r.settings);
  }

  // ---------------------------------------------------------------- the parser over the file buffer

  // Reads the C string that a pointer into the buffer points to.
  method ReadCString(buf: array<char>, i: nat, ghost t: string) returns (r: string)
    requires CStringAt(buf[..], i, t)
    ensures r == t
  {
    var j := i;
    ghost var n := i + |t|;
    assert forall k :: i <= k < n ==> buf[..][k] == buf[..][i..n][k - i];
    r := "";
    while buf[j] != NUL
      invariant i <= j <= n && r == t[..j - i]
      decreases n - j
    {
      assert buf[j] == t[j - i];
      r := r + [buf[j]];
      j := j + 1;
    }
  }

  method ReadArgs(buf: array<char>, config: nat, arg: nat, args: seq<nat>, ghost s: string, ghost all: seq<Span>)
    returns (r: seq<string>)
    requires Finished(buf[..], config, s, all) && PointTo(args, config, all, |all|) && |args| == |all| == arg + 1
    requires forall k :: 0 <= k < |all| ==> all[k].from <= all[k].to <= |s|
    ensures r == Slices(s, all[1..])
  {
    r := [];
    var i := 1;
    while i <= arg
      invariant 1 <= i <= arg + 1 && r == Slices(s, all[1..])[..i - 1]
    {
      var t := ReadCString(buf, args[i], s[all[i].from..all[i].to]);
      assert all[1..][i - 1] == all[i];
      r := r + [t];
      i := i + 1;
    }
  }

  // Ends the line that starts at `config` with a NUL, like the ones between its pieces.
  method EndLine(buf: array<char>, config: nat, ghost file: string) returns (end: nat)
    requires buf.Length == |file| + 1 && config <= |file| && buf[|file|] == NUL
    requires forall k :: config <= k < |file| ==> buf[k] == file[k]
    modifies buf
    ensures end == LineEnd(file, config) && Pristine(buf[..], config, end, config, file[config..end])
    ensures forall k :: end < k < |file| ==> buf[k] == file[k]
    ensures buf[|file|] == NUL
  {
    end := config;
    while buf[end] != NL && buf[end] != NUL
      invariant config <= end <= |file| && LineEnd(file, end) == LineEnd(file, config)
      invariant forall k :: config <= k < end ==> file[k] != NUL
      decreases |file| - end
    {
      end := end + 1;
    }
    buf[end] := NUL;
  }

  // Searches a table for a keyword.
  method FindRow(tokens: seq<Token>, keyword: string) returns (t: nat)
    ensures t == FindIn(tokens, keyword)
  {
    t := 0;
    while t < |tokens|
      invariant 0 <= t <= |tokens| && t + FindIn(tokens[t..], keyword) == FindIn(tokens, keyword)
    {
      assert tokens[t..][1..] == tokens[t + 1..];
      if SameIgnoringCase(keyword, tokens[t].name) {
        break;
      }
      t := t + 1;
    }
  }

  // Hands the words of a line to the handler of their keyword.
  method CallHandler(h: Handlers, keyword: string, words: seq<string>, st: Settings) returns (r: Parsed)
    ensures r == HandleWords(h, keyword, words, st)
  {
    if |words| == 0 && |keyword| == 0 {
      return Completed(st);
    }
    var t := FindRow(TOKENS, keyword);
    r := if t == |TOKENS| then Completed(st) else Dispatch(h, t, words, st);
  }

  // Lexes and handles the line that starts at `config`.
  method ParseLine(h: Handlers, buf: array<char>, config: nat, end: nat, st: Settings, ghost line: string, ghost step: LineHandler)
    returns (r: Parsed)
    requires Pristine(buf[..], config, end, config, line) && Handles(step, h)
    modifies buf
    ensures r == step(line, st)
    ensures OutsideKept(old(buf[..]), buf[..], config, end)
  {
    var comment, arg, args := LexInPlace(buf, config, end, line);
    assert step(line, st) == HandleLine(h, line, st);
    if comment {
      return Completed(st);
    }
    ghost var all := Pieces(line, 0, 0);
    var keyword := ReadCString(buf, config, line[..all[0].to]);
    var words := ReadArgs(buf, config, arg, args, line, all);
    r := CallHandler(h, keyword, words, st);
  }

  // The parser as it works on the file image, writing NUL bytes as it goes.
  method ParseConfigFile(h: Handlers, file: string) returns (r: Parsed)
    ensures r == Parse(h, file)
  {
    HandlerHandles(h);
    r := ParseImage(h, file, HandlerOf(h));
  }

  method ParseImage(h: Handlers, file: string, ghost step: LineHandler) returns (r: Parsed)
    requires Handles(step, h)
    ensures r == ParseFrom(step, file, 0, UNSET)
  {
    var size := |file|;
    var buf := new char[size + 1](i requires 0 <= i => if i < |file| then file[i] else NUL);
    var config := 0;
    r := Completed(UNSET);
    while config + 1 < size
      invariant 0 <= config && r.Completed? && buf.Length == size + 1 && buf[size] == NUL
      invariant forall k :: config <= k < size ==> buf[k] == file[k]
      invariant ParseFrom(step, file, config, r.settings) == ParseFrom(step, file, 0, UNSET)
      decreases size - config
    {
      ghost var st := r.settings;
      var end := EndLine(buf, config, file);
      ghost var was := buf[..];
      r := ParseLine(h, buf, config, end, r.settings, file[config..end], step);
      assert forall k :: end <= k <= size ==> buf[..][k] == was[k];
      if r.GaveUp? {
        return;
      }
      config := end + 1;
    }
  }
}
