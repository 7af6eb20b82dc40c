/**
  The power management setting: written into the configuration file as one line with four
  flags, and read back from the parsed file.
*/
module PowerManagement {
  import opened CText
  import opened TextFiles
  import opened ConfigLexer
  import opened ConfigParser
  import opened ConfigEdit

  datatype Flags = Flags(cpufreq: bool, corec6: bool, pc3: bool, pc6: bool)

  function OnOff(on: bool): string {
    if on then "on" else "off"
  }

  function Field(name: string, on: bool): string {
    name + "_" + OnOff(on)
  }

  // The four flags in the order in which they are written.
  const NAMES: seq<string> := ["cpufreq", "corec6", "pc3", "pc6"]

  function FieldsOf(names: seq<string>, f: Flags): (fs: seq<string>)
    requires |names| == 4
    ensures |fs| == 4
  {
    [Field(names[0], f.cpufreq), Field(names[1], f.corec6), Field(names[2], f.pc3), Field(names[3], f.pc6)]
  }

  // The value as the format string puts it together.
  function PmString(f: Flags): string {
    Join(FieldsOf(NAMES, f), ';')
  }

  lemma JoinFour(a: string, b: string, c: string, d: string, sep: char)
    ensures Join([a, b, c, d], sep) == a + [sep] + (b + [sep] + (c + [sep] + d))
  {
    JoinCons(a, [b, c, d], sep);
    JoinCons(b, [c, d], sep);
    JoinCons(c, [d], sep);
    assert [a, b, c, d] == [a] + [b, c, d] && [b, c, d] == [b] + [c, d] && [c, d] == [c] + [d];
  }

  lemma FieldIs(name: string, on: bool)
    ensures Field(name, on) == name + if on then "_on" else "_off"
  {
    assert "_" + "on" == "_on" && "_" + "off" == "_off";
    Associate(name, "_", OnOff(on));
  }

  function Suffix(on: bool): string {
    if on then "_on" else "_off"
  }

  // Which flag stands where.
  lemma PmStringIs(f: Flags)
    ensures PmString(f) == "cpufreq" + Suffix(f.cpufreq) + ";" + ("corec6" + Suffix(f.corec6) + ";" +
                           ("pc3" + Suffix(f.pc3) + ";" + ("pc6" + Suffix(f.pc6))))
  {
    FieldIs("cpufreq", f.cpufreq);
    FieldIs("corec6", f.corec6);
    FieldIs("pc3", f.pc3);
    FieldIs("pc6", f.pc6);
    JoinFour(Field("cpufreq", f.cpufreq), Field("corec6", f.corec6), Field("pc3", f.pc3), Field("pc6", f.pc6), ';');
  }

  const KEYWORD: string := "PowerManagement"

  function PmLine(f: Flags): string {
    KEYWORD + " \"" + PmString(f) + "\""
  }

  // ---------------------------------------------------------------- reading the value

  lemma FieldPlain(name: string, on: bool, c: char)
    requires c !in name && c != '_' && c != 'o' && c != 'n' && c != 'f'
    ensures c !in Field(name, on)
  {
  }

  lemma FieldsFree(names: seq<string>, f: Flags)
    requires |names| == 4 && Free(names, ';')
    ensures Free(FieldsOf(names, f), ';')
  {
    FieldPlain(names[0], f.cpufreq, ';');
    FieldPlain(names[1], f.corec6, ';');
    FieldPlain(names[2], f.pc3, ';');
    FieldPlain(names[3], f.pc6, ';');
  }

  // A value is the string for some flags exactly when its parts between semicolons are their fields.
  lemma PmParts(names: seq<string>, pm: string, f: Flags)
    requires |names| == 4 && Free(names, ';')
    ensures pm == Join(FieldsOf(names, f), ';') <==> Split(pm, ';') == FieldsOf(names, f)
  {
    FieldsFree(names, f);
    SplitJoin(FieldsOf(names, f), ';');
    JoinSplit(pm, ';');
  }

  const MALFORMED_ERROR: int := 4

  predicate IsField(s: string, name: string) {
    s == Field(name, true) || s == Field(name, false)
  }

  ghost predicate Good(names: seq<string>, parts: seq<string>)
    requires |names| == 4
  {
    && |parts| == 4 && IsField(parts[0], names[0]) && IsField(parts[1], names[1])
    && IsField(parts[2], names[2]) && IsField(parts[3], names[3])
  }

  lemma GoodParts(names: seq<string>, parts: seq<string>)
    requires |names| == 4
    ensures Good(names, parts) <==> exists g :: parts == FieldsOf(names, g)
  {
    if Good(names, parts) {
      var g := Flags(parts[0] == Field(names[0], true), parts[1] == Field(names[1], true),
                     parts[2] == Field(names[2], true), parts[3] == Field(names[3], true));
      assert parts == FieldsOf(names, g);
    }
  }

  // One flag: on, off or neither.
  method ReadField(s: string, name: string, was: bool) returns (ok: bool, on: bool)
    ensures ok <==> IsField(s, name)
    ensures if ok then s == Field(name, on) else on == was
  {
    ok, on := true, was;
    if s == name + "_on" {
      on := true;
    } else if s == name + "_off" {
      on := false;
    } else {
      ok := false;
    }
    assert Field(name, true) == name + "_on" && Field(name, false) == name + "_off";
  }

  // Cuts s at its first semicolon and reads the flag in front of it.
  method ReadNext(s: string, name: string, was: bool, ghost parts: seq<string>) returns (ok: bool, on: bool, rest: string)
    requires Split(s, ';') == parts
    ensures ok <==> |parts| > 1 && IsField(parts[0], name)
    ensures ok ==> parts[0] == Field(name, on) && Split(rest, ';') == parts[1..]
  {
    var i := IndexOf(s, ';');
    if i == |s| {
      return false, was, s;
    }
    rest := s[i + 1..];
    ok, on := ReadField(s[..i], name, was);
  }

  // What is left behind the third semicolon is the last field, or still has a semicolon in it.
  lemma LastPart(s: string, name: string, parts: seq<string>)
    requires Split(s, ';') == parts && ';' !in name
    ensures IsField(s, name) <==> |parts| == 1 && IsField(parts[0], name)
    ensures IsField(s, name) ==> parts[0] == s
  {
    FieldPlain(name, true, ';');
    FieldPlain(name, false, ';');
    JoinSplit(s, ';');
  }

  /**
    Reads the four flags out of a value. The results are assigned one by one, so on a
    malformed value those in front of the fault are already set.
  */
  method ReadFlags(names: seq<string>, pm: string, was: Flags) returns (err: int, f: Flags)
    requires |names| == 4 && Free(names, ';')
    ensures err == 0 || err == MALFORMED_ERROR
    ensures err == 0 <==> Good(names, Split(pm, ';'))
    ensures err == 0 ==> Split(pm, ';') == FieldsOf(names, f)
  {
    ghost var parts := Split(pm, ';');
    f, err := was, MALFORMED_ERROR;
    var ok, on, s := ReadNext(pm, names[0], f.cpufreq, parts);
    if !ok {
      return;
    }
    f := f.(cpufreq := on);
    ok, on, s := ReadNext(s, names[1], f.corec6, parts[1..]);
    if !ok {
      return;
    }
    f := f.(corec6 := on);
    ok, on, s := ReadNext(s, names[2], f.pc3, parts[2..]);
    if !ok {
      return;
    }
    f := f.(pc3 := on);
    ok, on := ReadField(s, names[3], f.pc6);
    LastPart(s, names[3], parts[3..]);
    if !ok {
      return;
    }
    f := f.(pc6 := on);
    assert parts == FieldsOf(names, f);
    err := 0;
  }

  // Reading succeeds on exactly the sixteen strings that are written, and gives their flags.
  method ReadPm(pm: string, was: Flags) returns (err: int, f: Flags)
    ensures err == 0 || err == MALFORMED_ERROR
    ensures err == 0 <==> exists g :: pm == PmString(g)
    ensures err == 0 ==> pm == PmString(f) && forall g :: pm == PmString(g) ==> f == g
  {
    err, f := ReadFlags(NAMES, pm, was);
    GoodParts(NAMES, Split(pm, ';'));
    forall g | FieldsOf(NAMES, f) == FieldsOf(NAMES, g) ensures f == g {
      FieldsInjective(NAMES, f, g);
    }
    forall g ensures pm == PmString(g) <==> Split(pm, ';') == FieldsOf(NAMES, g) {
      PmParts(NAMES, pm, g);
    }
  }

  lemma FieldInjective(name: string, a: bool, b: bool)
    requires Field(name, a) == Field(name, b)
    ensures a == b
  {
    assert |Field(name, true)| != |Field(name, false)|;
  }

  lemma FieldsInjective(names: seq<string>, f: Flags, g: Flags)
    requires |names| == 4 && FieldsOf(names, f) == FieldsOf(names, g)
    ensures f == g
  {
    var a, b := FieldsOf(names, f), FieldsOf(names, g);
    assert a[0] == b[0] && a[1] == b[1] && a[2] == b[2] && a[3] == b[3];
    FieldInjective(names[0], f.cpufreq, g.cpufreq);
    FieldInjective(names[1], f.corec6, g.corec6);
    FieldInjective(names[2], f.pc3, g.pc3);
    FieldInjective(names[3], f.pc6, g.pc6);
  }

  // ---------------------------------------------------------------- the line that is written

  lemma {:induction false} JoinPlain(parts: seq<string>, sep: char, c: char, bound: nat)
    requires c != sep && Free(parts, c) && forall k :: 0 <= k < |parts| ==> |parts[k]| <= bound
    ensures c !in Join(parts, sep) && |Join(parts, sep)| <= |parts| * (bound + 1)
  {
    if |parts| > 1 {
      JoinPlain(parts[1..], sep, c, bound);
    }
  }

  // A character that no part of the value contains.
  predicate Foreign(c: char) {
    c != ';' && c != '_' && !('a' <= c <= 'z') && !('0' <= c <= '9')
  }

  lemma PmStringPlain(f: Flags, c: char)
    requires Foreign(c)
    ensures c !in PmString(f) && |PmString(f)| <= 100
  {
    var fields := FieldsOf(NAMES, f);
    forall k | 0 <= k < 4 ensures c !in fields[k] && |fields[k]| <= 11 {
      assert c !in NAMES[0] && c !in NAMES[1] && c !in NAMES[2] && c !in NAMES[3];
      FieldPlain(NAMES[0], f.cpufreq, c);
      FieldPlain(NAMES[1], f.corec6, c);
      FieldPlain(NAMES[2], f.pc3, c);
      FieldPlain(NAMES[3], f.pc6, c);
    }
    JoinPlain(fields, ';', c, 11);
  }

  lemma PmLineTidy(f: Flags)
    ensures TidyLine(PmLine(f), BUFFER_SIZE) && Matches(PmLine(f), KEYWORD)
  {
    PmStringPlain(f, NL);
    PmStringPlain(f, NUL);
    assert PmLine(f)[..|KEYWORD|] == KEYWORD;
  }

  // A keyword and one quoted text.
  lemma QuotedLine(keyword: string, text: string)
    requires Printable(Plain(keyword)) && '"' !in text
    ensures LexLine(keyword + " \"" + text + "\"") == Words(keyword, [text])
  {
    var l := Then(Plain(keyword), 1, Last(Quoted(text)));
    LexUndoesPrint(l);
    assert Blanks(1) == " ";
    assert Print(l) == keyword + " " + ("\"" + text + "\"");
    assert keyword + " \"" + text + "\"" == keyword + " " + ("\"" + text + "\"");
    assert Texts(l)[1..] == [text];
  }

  lemma PmLineLexed(f: Flags)
    ensures LexLine(PmLine(f)) == Words(KEYWORD, [PmString(f)])
  {
    PmStringPlain(f, '"');
    QuotedLine(KEYWORD, PmString(f));
  }

  // The first rows of the table differ from the keyword in length already.
  lemma EarlierRows()
    ensures POWER_TOKEN < |TOKENS| && TOKENS[POWER_TOKEN] == Token(KEYWORD, 1, 1) && |KEYWORD| == 15
    ensures forall k :: 0 <= k < POWER_TOKEN ==> |TOKENS[k].name| != 15
  {
  }

  lemma PowerRow()
    ensures FindToken(KEYWORD) == POWER_TOKEN
  {
    EarlierRows();
    var tokens := TOKENS;
    FindInFirst(tokens, KEYWORD);
    assert SameIgnoringCase(KEYWORD, KEYWORD);
  }

  // A line whose keyword is found in the row of PowerManagement sets the value.
  lemma PowerDispatched(h: Handlers, line: string, keyword: string, value: string, st: Settings)
    requires LexLine(line) == Words(keyword, [value]) && FindToken(keyword) == POWER_TOKEN
    ensures HandleLine(h, line, st) == Completed(Settings(Some(value), st.calls))
  {
    EarlierRows();
    assert HandleWords(h, keyword, [value], st) == Dispatch(h, POWER_TOKEN, [value], st);
  }

  lemma PmLineHandled(h: Handlers, f: Flags, st: Settings)
    ensures HandleLine(h, PmLine(f), st) == Completed(Settings(Some(PmString(f)), st.calls))
  {
    var line, value := PmLine(f), PmString(f);
    assert LexLine(line) == Words(KEYWORD, [value]) by {
      PmLineLexed(f);
    }
    PowerRow();
    PowerDispatched(h, line, KEYWORD, value, st);
  }

  // ---------------------------------------------------------------- lines with and without the keyword

  lemma LowerLetters(c: char, d: char)
    requires Lower(c) == Lower(d) && ('a' <= d <= 'z' || 'A' <= d <= 'Z')
    ensures !IsSpace(c) && c != '#' && c != '"'
  {
  }

  // A line that starts with the keyword has a first word that starts with it.
  lemma KeywordFirst(line: string, m: string)
    requires Matches(line, m) && m != "" && forall k :: 0 <= k < |m| ==> 'a' <= m[k] <= 'z' || 'A' <= m[k] <= 'Z'
    ensures LexLine(line).Words? && Matches(LexLine(line).keyword, m)
  {
    forall k | 0 <= k < |m| ensures !IsSpace(line[k]) && line[k] != '#' && line[k] != '"' {
      assert line[..|m|][k] == line[k];
      LowerLetters(line[k], m[k]);
    }
    SkipSpaceStays(line, 0);
    IndexFromFirst(line, ' ', 0);
    IndexFromFirst(line, '\t', 0);
    var end := WordEnd(line, 0);
    assert Piece(line, 0) == Span(0, end) && |m| <= end;
    var ps := Pieces(line, 0, 0);
    assert ps[0] == Piece(line, 0);
    assert line[..end][..|m|] == line[..|m|];
  }

  // Rows that are as long as the keyword, or longer, do not start like it.
  lemma OtherRows()
    ensures forall t :: 0 <= t < |TOKENS| && t != POWER_TOKEN ==>
              |TOKENS[t].name| < 15 || (|TOKENS[t].name| > 0 && Lower(TOKENS[t].name[0]) != 'p')
  {
  }

  lemma KeywordRow(keyword: string)
    requires Matches(keyword, KEYWORD)
    ensures FindToken(keyword) == POWER_TOKEN || FindToken(keyword) == |TOKENS|
  {
    EarlierRows();
    OtherRows();
    var tokens := TOKENS;
    FindInFirst(tokens, keyword);
    assert Lower(keyword[..|KEYWORD|][0]) == 'p';
  }

  // Such a line is never handed to another handler, and never stops the parser.
  lemma MatchingLine(h: Handlers, line: string, st: Settings)
    requires Matches(line, KEYWORD)
    ensures HandleLine(h, line, st).Completed? && HandleLine(h, line, st).settings.calls == st.calls
  {
    KeywordFirst(line, KEYWORD);
    KeywordRow(LexLine(line).keyword);
  }

  // The line does not call the handler of Include.
  ghost predicate IncludeFree(line: string) {
    LexLine(line).Words? ==> FindToken(LexLine(line).keyword) != INCLUDE_TOKEN
  }

  lemma PowerKeywordMatches(line: string, keyword: string)
    requires FindToken(keyword) == POWER_TOKEN && |keyword| <= |line| && line[..|keyword|] == keyword
    ensures Matches(line, KEYWORD)
  {
    EarlierRows();
    var tokens := TOKENS;
    FindInFirst(tokens, keyword);
  }

  function Override(later: Option<string>, pm: Option<string>): Option<string> {
    if later.Some? then later else pm
  }

  // Any other line either sets the value itself, whatever it was, or leaves it alone.
  lemma OtherLine(h: Handlers, line: string, st: Settings)
    requires !Matches(line, KEYWORD)
    ensures Passes(HandleLine(h, line, st), HandleLine(h, line, Settings(None, st.calls)), st.pm)
    ensures IncludeFree(line) ==> HandleLine(h, line, st).settings.pm == st.pm
  {
    if LexLine(line).Words? {
      var keyword := LexLine(line).keyword;
      KeywordIsPrefix(line);
      if FindToken(keyword) == POWER_TOKEN {
        PowerKeywordMatches(line, keyword);
      }
    }
  }

  // ---------------------------------------------------------------- update, parse, read

  // r is what a line makes of the value pm, and r0 what it makes of no value.
  ghost predicate Passes(r: Parsed, r0: Parsed, pm: Option<string>) {
    && r.settings.calls == r0.settings.calls && r.Completed? == r0.Completed?
    && r.settings.pm == Override(r0.settings.pm, pm)
  }

  /**
    How the lines of a file behave towards the value, whatever they mean otherwise:
    lines that match m leave the other handlers alone, and all others set the value or pass it on.
  */
  ghost predicate Separate(step: LineHandler, ls: seq<string>, m: string) {
    && (forall l, st {:trigger step(l, st)} :: l in ls && Matches(l, m) ==>
          step(l, st).Completed? && step(l, st).settings.calls == st.calls)
    && (forall l, st {:trigger step(l, st)} :: l in ls && !Matches(l, m) ==>
          Passes(step(l, st), step(l, Settings(None, st.calls)), st.pm))
  }

  // What the lines after the last one that matches m set the value to by themselves.
  function SetLater(step: LineHandler, ls: seq<string>, m: string, st: Settings): Option<string>
    decreases |ls|
  {
    if SomeMatches(ls, m) then SetLater(step, ls[1..], m, step(ls[0], st).settings)
    else ParseLines(step, ls, Settings(None, st.calls)).settings.pm
  }

  // Replacing the matching lines changes the value and nothing else.
  lemma {:induction false} RunReplaced(step: LineHandler, ls: seq<string>, m: string, newLine: string, value: string, st: Settings, pm: Option<string>)
    requires Separate(step, ls, m)
    requires forall st' {:trigger step(newLine, st')} :: step(newLine, st') == Completed(Settings(Some(value), st'.calls))
    requires ParseLines(step, ls, st).Completed?
    ensures ParseLines(step, Replaced(ls, m, newLine), Settings(pm, st.calls)) ==
            Completed(Settings(Override(SetLater(step, ls, m, st), if SomeMatches(ls, m) then Some(value) else pm),
                               ParseLines(step, ls, st).settings.calls))
    decreases |ls|
  {
    if ls != [] {
      var l, rest := ls[0], ls[1..];
      assert l in ls;
      assert Replaced(ls, m, newLine)[1..] == Replaced(rest, m, newLine);
      SomeMatchesHead(ls, m);
      var r := step(l, st);
      if Matches(l, m) {
        RunReplaced(step, rest, m, newLine, value, r.settings, Some(value));
      } else {
        var setBy := step(l, Settings(None, st.calls)).settings.pm;
        assert step(l, Settings(pm, st.calls)).settings == Settings(Override(setBy, pm), r.settings.calls);
        RunReplaced(step, rest, m, newLine, value, r.settings, Override(setBy, pm));
        if !SomeMatches(rest, m) {
          assert Replaced(rest, m, newLine) == rest;
          RunReplaced(step, rest, m, newLine, value, r.settings, setBy);
        }
      }
    }
  }

  // What overrules a value that is written to the file: nothing, when it is written at its end.
  function Overruling(step: LineHandler, ls: seq<string>, m: string): Option<string> {
    if SomeMatches(ls, m) then SetLater(step, ls, m, UNSET) else None
  }

  lemma FileIsSeparate(h: Handlers, ls: seq<string>)
    ensures Separate(HandlerOf(h), ls, KEYWORD)
  {
    var step := HandlerOf(h);
    forall l, st | l in ls && Matches(l, KEYWORD)
      ensures step(l, st).Completed? && step(l, st).settings.calls == st.calls
    {
      MatchingLine(h, l, st);
    }
    forall l, st | l in ls && !Matches(l, KEYWORD)
      ensures Passes(step(l, st), step(l, Settings(None, st.calls)), st.pm)
    {
      OtherLine(h, l, st);
    }
  }

  // Lines that neither match nor include other files leave the value alone.
  lemma {:induction false} ValueKept(h: Handlers, ls: seq<string>, st: Settings)
    requires forall l :: l in ls ==> !Matches(l, KEYWORD) && IncludeFree(l)
    ensures ParseLines(HandlerOf(h), ls, st).settings.pm == st.pm
    decreases |ls|
  {
    if ls != [] {
      OtherLine(h, ls[0], st);
      ValueKept(h, ls[1..], HandlerOf(h)(ls[0], st).settings);
    }
  }

  // Nothing overrules the value when every file is included before the last line that matches.
  lemma {:induction false} IncludesBefore(h: Handlers, ls: seq<string>, k: nat, st: Settings)
    requires k < |ls| && Matches(ls[k], KEYWORD)
    requires forall i :: k < i < |ls| ==> !Matches(ls[i], KEYWORD) && IncludeFree(ls[i])
    ensures SetLater(HandlerOf(h), ls, KEYWORD, st) == None
    decreases k
  {
    var st' := HandlerOf(h)(ls[0], st).settings;
    if k == 0 {
      ValueKept(h, ls[1..], Settings(None, st'.calls));
    } else {
      IncludesBefore(h, ls[1..], k - 1, st');
    }
  }

  // The text of a file after its power management setting was updated.
  function UpdatePm(text: string, f: Flags): string {
    UpdateText(text, Some(KEYWORD), None, PmLine(f) + [NL])
  }

  lemma UpdatePmLines(ls: seq<string>, f: Flags)
    requires Tidy(ls, BUFFER_SIZE)
    ensures UpdatePm(Text(ls), f) == Text(Updated(ls, KEYWORD, PmLine(f)))
    ensures Tidy(Updated(ls, KEYWORD, PmLine(f)), BUFFER_SIZE)
  {
    PmLineTidy(f);
    UpdateTextLines(ls, KEYWORD, PmLine(f));
    UpdatedTidy(ls, KEYWORD, PmLine(f));
  }

  // The new line is glued to a last line that is not ended.
  predicate Glued(ls: seq<string>, last: string) {
    last != "" && !SomeMatches(ls + [last], KEYWORD)
  }

  lemma LastMatches(ls: seq<string>, last: string)
    ensures SomeMatches(ls + [last], KEYWORD) <==> SomeMatches(ls, KEYWORD) || Matches(last, KEYWORD)
  {
    var all := ls + [last];
    assert all[|ls|] == last && forall i :: 0 <= i < |ls| ==> all[i] == ls[i];
  }

  lemma ReplacedSnoc(ls: seq<string>, last: string, m: string, newLine: string)
    ensures Replaced(ls + [last], m, newLine) == Replaced(ls, m, newLine) + [ReplaceLine(last, m, newLine)]
  {
  }

  lemma ReplacedTidy(ls: seq<string>, m: string, newLine: string)
    requires Tidy(ls, BUFFER_SIZE) && TidyLine(newLine, BUFFER_SIZE)
    ensures Tidy(Replaced(ls, m, newLine), BUFFER_SIZE)
  {
  }

  // The text of an updated file is parsed like its lines with the matching ones replaced.
  lemma ReplacedParse(h: Handlers, ls: seq<string>, last: string, f: Flags)
    requires Tidy(ls, BUFFER_SIZE) && TidyLine(last, BUFFER_SIZE) && SomeMatches(ls + [last], KEYWORD)
    ensures Parse(h, UpdatePm(Text(ls) + last, f)) == ParseLines(HandlerOf(h), Replaced(ls + [last], KEYWORD, PmLine(f)), UNSET)
  {
    var newLine := PmLine(f);
    var rs := Replaced(ls, KEYWORD, newLine);
    LastMatches(ls, last);
    PmLineTidy(f);
    ReplacedTidy(ls, KEYWORD, newLine);
    ReplacedSnoc(ls, last, KEYWORD, newLine);
    if last == "" {
      assert Text(ls) + last == Text(ls) && Text(rs) + last == Text(rs);
      UpdateTextLines(ls, KEYWORD, newLine);
      ParseOpenText(h, rs, last, BUFFER_SIZE);
    } else {
      UpdateOpenText(ls, last, KEYWORD, newLine);
      if Matches(last, KEYWORD) {
        TextAppend(rs, [newLine]);
        TextOne(newLine);
        ParseText(h, rs + [newLine], BUFFER_SIZE);
      } else {
        ParseOpenText(h, rs, last, BUFFER_SIZE);
      }
    }
  }

  lemma HandlesPmLine(h: Handlers, f: Flags)
    ensures forall st {:trigger HandlerOf(h)(PmLine(f), st)} ::
              HandlerOf(h)(PmLine(f), st) == Completed(Settings(Some(PmString(f)), st.calls))
  {
    forall st ensures HandlerOf(h)(PmLine(f), st) == Completed(Settings(Some(PmString(f)), st.calls)) {
      PmLineHandled(h, f, st);
    }
  }

  /**
    Writing the flags to a file whose lines fit and parsing it again gives the value written, with
    every other handler called as before, unless a file that is included further down sets
    another value. The one exception is a file that is not ended by a newline and has no line to
    replace, since the new line does not stand for itself then.
  */
  lemma UpdateThenParse(h: Handlers, ls: seq<string>, last: string, f: Flags)
    requires Tidy(ls, BUFFER_SIZE) && TidyLine(last, BUFFER_SIZE) && Parse(h, Text(ls) + last).Completed?
    requires !Glued(ls, last)
    ensures Parse(h, UpdatePm(Text(ls) + last, f)) ==
            Completed(Settings(Override(Overruling(HandlerOf(h), ls + [last], KEYWORD), Some(PmString(f))),
                               Parse(h, Text(ls) + last).settings.calls))
  {
    var step, newLine, all := HandlerOf(h), PmLine(f), ls + [last];
    ParseOpenText(h, ls, last, BUFFER_SIZE);
    FileIsSeparate(h, all);
    HandlesPmLine(h, f);
    if SomeMatches(all, KEYWORD) {
      ReplacedParse(h, ls, last, f);
      RunReplaced(step, all, KEYWORD, newLine, PmString(f), UNSET, None);
    } else {
      LastMatches(ls, last);
      assert Text(ls) + last == Text(ls);
      UpdatePmLines(ls, f);
      ParseText(h, ls + [newLine], BUFFER_SIZE);
      ParseLinesAppend(step, ls, last, UNSET);
      ParseLinesAppend(step, ls, newLine, UNSET);
      NotRecognised(h, last, ParseLines(step, ls, UNSET).settings);
    }
  }

  // No shift of the keyword fits on itself, so a line that something is glued to never starts with it.
  lemma GluedIsOther(last: string, line: string)
    requires last != "" && !Matches(last, KEYWORD) && StartsWith(line, KEYWORD)
    ensures !Matches(last + line, KEYWORD)
  {
    var n, both := |last|, last + line;
    if n >= |KEYWORD| {
      assert both[..|KEYWORD|] == last[..|KEYWORD|];
    } else {
      assert both[n] == line[0] == line[..|KEYWORD|][0] == 'P';
      assert both[..|KEYWORD|][n] == 'P' && Lower(KEYWORD[n]) != 'p';
    }
  }

  lemma GluedParse(h: Handlers, ls: seq<string>, last: string, f: Flags)
    requires Tidy(ls, BUFFER_SIZE) && TidyLine(last, BUFFER_SIZE) && Glued(ls, last)
    ensures Parse(h, UpdatePm(Text(ls) + last, f)) == ParseLines(HandlerOf(h), ls + [last + PmLine(f)], UNSET)
  {
    LastMatches(ls, last);
    PmLineTidy(f);
    UpdateOpenText(ls, last, KEYWORD, PmLine(f));
    assert Tidy(ls, 2 * BUFFER_SIZE) by {
      assert forall i :: 0 <= i < |ls| ==> TidyLine(ls[i], BUFFER_SIZE);
    }
    ParseText(h, ls + [last + PmLine(f)], 2 * BUFFER_SIZE);
  }

  /**
    In the exceptional case the update is lost: the glued line is not recognised as a setting of
    the value, which stays what the lines before and, if it has any, its own include make it.
  */
  lemma GluedUpdateIsLost(h: Handlers, ls: seq<string>, last: string, f: Flags)
    requires Tidy(ls, BUFFER_SIZE) && TidyLine(last, BUFFER_SIZE) && Parse(h, Text(ls) + last).Completed? && Glued(ls, last)
    ensures var before := ParseLines(HandlerOf(h), ls, UNSET).settings;
            var glued := last + PmLine(f);
            && Parse(h, UpdatePm(Text(ls) + last, f)) == HandleLine(h, glued, before)
            && HandleLine(h, glued, before).settings.pm ==
               Override(HandleLine(h, glued, Settings(None, before.calls)).settings.pm, before.pm)
            && (IncludeFree(glued) ==> HandleLine(h, glued, before).settings.pm == before.pm)
  {
    var step, newLine := HandlerOf(h), PmLine(f);
    var glued := last + newLine;
    LastMatches(ls, last);
    assert Parse(h, UpdatePm(Text(ls) + last, f)) == ParseLines(step, ls + [glued], UNSET) by {
      GluedParse(h, ls, last, f);
    }
    assert ParseLines(step, ls, UNSET).Completed? by {
      ParseOpenText(h, ls, last, BUFFER_SIZE);
      ParseLinesAppend(step, ls, last, UNSET);
    }
    ParseLinesAppend(step, ls, glued, UNSET);
    assert StartsWith(newLine, KEYWORD) by {
      assert newLine[..|KEYWORD|] == KEYWORD;
    }
    GluedIsOther(last, newLine);
    OtherLine(h, glued, ParseLines(step, ls, UNSET).settings);
  }

  // Every other line of the file stays as it is and where it is, and a second update changes nothing.
  lemma UpdatePmKeepsTheRest(ls: seq<string>, f: Flags)
    requires Tidy(ls, BUFFER_SIZE)
    ensures var us := Updated(ls, KEYWORD, PmLine(f));
            && UpdatePm(Text(ls), f) == Text(us) && Others(us, KEYWORD) == Others(ls, KEYWORD)
            && UpdatePm(Text(us), f) == Text(us)
  {
    var us := Updated(ls, KEYWORD, PmLine(f));
    PmLineTidy(f);
    UpdatePmLines(ls, f);
    UpdatePmLines(us, f);
    UpdateKeepsOthers(ls, KEYWORD, PmLine(f));
    UpdateIdempotent(ls, KEYWORD, PmLine(f));
  }

  /**
    The whole trip: update the file, parse it, read the four flags. They come back if and only
    if no file that is included after the last power management line sets another value.
  */
  method UpdateAndRead(h: Handlers, text: string, f: Flags) returns (err: int, g: Flags)
    requires Tidy(Split(text, NL), BUFFER_SIZE) && Parse(h, text).Completed?
    requires !Glued(EndedLines(text), LastLine(text))
    ensures var later := Overruling(HandlerOf(h), Split(text, NL), KEYWORD);
            err == 0 && g == f <==> later == None || later == Some(PmString(f))
  {
    ghost var ls, last := EndedLines(text), LastLine(text);
    assert text == Text(ls) + last && Split(text, NL) == ls + [last] by {
      TextOfLines(text);
    }
    assert Tidy(ls, BUFFER_SIZE) && TidyLine(last, BUFFER_SIZE) by {
      TidyParts(ls, last, BUFFER_SIZE);
    }
    var updated := UpdateConfig(Some(text), Some(KEYWORD), None, PmLine(f) + [NL]);
    UpdateThenParse(h, ls, last, f);
    var parsed := ParseConfigFile(h, updated);
    err, g := ReadPm(parsed.settings.pm.value, Flags(false, false, false, false));
  }

  lemma TidyParts(ls: seq<string>, last: string, size: nat)
    requires Tidy(ls + [last], size)
    ensures Tidy(ls, size) && TidyLine(last, size)
  {
    var all := ls + [last];
    assert all[|ls|] == last && forall i :: 0 <= i < |ls| ==> all[i] == ls[i];
  }
}
