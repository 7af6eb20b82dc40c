/**
  The lexer of configuration lines: cuts a line into a keyword and arguments by writing NUL
  bytes into the file buffer and keeping a pointer to each piece.
*/
module ConfigLexer {
  import opened CText

  // isspace() in the C locale
  predicate IsSpace(c: char) {
    c == ' ' || '\t' <= c <= '\r'
  }

  function SkipSpace(s: string, i: nat): (j: nat)
    requires i <= |s|
    ensures i <= j <= |s|
    decreases |s| - i
  {
    if i < |s| && IsSpace(s[i]) then SkipSpace(s, i + 1) else i
  }

  function SkipBlanks(s: string, i: nat): (j: nat)
    requires i <= |s|
    ensures i <= j <= |s|
    decreases |s| - i
  {
    if i < |s| && s[i] == ' ' then SkipBlanks(s, i + 1) else i
  }

  const MAX_ARGS: nat := 10

  // The piece of a line from one offset up to another.
  datatype Span = Span(from: nat, to: nat)

  // Where an unquoted word ends: at the first blank, or without one at the first tab.
  function WordEnd(s: string, p: nat): (q: nat)
    requires p <= |s|
    ensures p <= q <= |s|
  {
    var blank := IndexFrom(s, ' ', p);
    if blank < |s| then blank else IndexFrom(s, '\t', p)
  }

  // The first piece at or after offset i. It reaches the end of the line unless it is cut there.
  function Piece(s: string, i: nat): (sp: Span)
    requires i <= |s|
    ensures i <= sp.from <= sp.to <= |s|
  {
    var p := SkipSpace(s, i);
    if p == |s| || s[p] == '#' then Span(p, |s|)
    else if s[p] == '"' then Span(p + 1, IndexFrom(s, '"', p + 1))
    else Span(p, WordEnd(s, p))
  }

  // From p on, e is where the first c is, or the end of the line.
  ghost predicate EndsAt(s: string, p: nat, e: nat, c: char) {
    p <= e <= |s| && (e < |s| ==> s[e] == c) && forall k :: p <= k < e ==> s[k] != c
  }

  // Nothing but white space is between i and p, and p is as far as it goes.
  ghost predicate SpaceUpTo(s: string, i: nat, p: nat) {
    i <= p <= |s| && (p < |s| ==> !IsSpace(s[p])) && forall k :: i <= k < p ==> IsSpace(s[k])
  }

  /**
    What a piece that starts at p is: the rest of the line behind a hash, the text between quotes,
    of which the second may be missing, or a word up to the first blank or, without one, the first tab.
  */
  ghost predicate PieceFrom(s: string, p: nat, sp: Span)
    requires p <= |s|
  {
    if p == |s| || s[p] == '#' then sp == Span(p, |s|)
    else if s[p] == '"' then sp.from == p + 1 && EndsAt(s, p + 1, sp.to, '"')
    else sp.from == p && EndsAt(s, p, sp.to, if exists k :: p <= k < |s| && s[k] == ' ' then ' ' else '\t')
  }

  lemma {:induction false} SkipSpaceUpTo(s: string, i: nat)
    requires i <= |s|
    ensures SpaceUpTo(s, i, SkipSpace(s, i))
    decreases |s| - i
  {
    if i < |s| && IsSpace(s[i]) {
      SkipSpaceUpTo(s, i + 1);
    }
  }

  // The first piece at or after i, said without following the code.
  lemma PieceMeaning(s: string, i: nat)
    requires i <= |s|
    ensures exists p: nat :: SpaceUpTo(s, i, p) && PieceFrom(s, p, Piece(s, i))
  {
    var p := SkipSpace(s, i);
    SkipSpaceUpTo(s, i);
    IndexFromFirst(s, ' ', p);
    IndexFromFirst(s, '\t', p);
    if p < |s| {
      IndexFromFirst(s, '"', p + 1);
    }
    assert PieceFrom(s, p, Piece(s, i));
  }

  // The pieces from offset i on, when `arg` pieces precede it. The last slot takes all that is left.
  function Pieces(s: string, i: nat, arg: nat): (ps: seq<Span>)
    requires i <= |s| && arg < MAX_ARGS
    ensures |ps| >= 1 && arg + |ps| <= MAX_ARGS
    ensures forall k :: 0 <= k < |ps| ==> i <= ps[k].from <= ps[k].to <= |s|
    decreases |s| - i
  {
    if arg == MAX_ARGS - 1 then [Span(i, |s|)]
    else
      var sp := Piece(s, i);
      if sp.to == |s| then [sp]
      else
        var next := SkipBlanks(s, sp.to + 1);
        if next == |s| then [sp] else [sp] + Pieces(s, next, arg + 1)
  }

  datatype Lexed = Comment | Words(keyword: string, args: seq<string>)

  function Slices(s: string, ps: seq<Span>): (ts: seq<string>)
    requires forall k :: 0 <= k < |ps| ==> ps[k].from <= ps[k].to <= |s|
    ensures |ts| == |ps|
    ensures forall k :: 0 <= k < |ps| ==> ts[k] == s[ps[k].from..ps[k].to]
  {
    seq(|ps|, k requires 0 <= k < |ps| => s[ps[k].from..ps[k].to])
  }

  // The first character at or after offset i that is not a space starts a comment.
  predicate HashAt(s: string, i: nat)
    requires i <= |s|
  {
    var p := SkipSpace(s, i);
    p < |s| && s[p] == '#'
  }

  predicate IsComment(s: string) {
    HashAt(s, 0)
  }

  // A line is a comment when a hash comes first on it, behind white space or not.
  lemma CommentMeans(s: string)
    ensures IsComment(s) <==> exists p: nat :: SpaceUpTo(s, 0, p) && p < |s| && s[p] == '#'
  {
    SkipSpaceUpTo(s, 0);
    var j := SkipSpace(s, 0);
    forall p: nat | SpaceUpTo(s, 0, p) ensures p == j {
      SpaceUnique(s, p, j);
    }
  }

  lemma SpaceUnique(s: string, p: nat, j: nat)
    requires SpaceUpTo(s, 0, p) && SpaceUpTo(s, 0, j)
    ensures p == j
  {
  }

  // The keyword keeps whatever stands in front of the first word on the line.
  function LexLine(s: string): Lexed {
    if IsComment(s) then Comment
    else
      var ps := Pieces(s, 0, 0);
      Words(s[..ps[0].to], Slices(s, ps[1..]))
  }

  // ---------------------------------------------------------------- lexing undoes printing

  datatype Word = Plain(text: string) | Quoted(text: string)

  // The words of a line and the number of blanks between them.
  datatype Line = Last(word: Word) | Then(word: Word, gap: nat, more: Line)

  predicate Printable(w: Word) {
    match w
    case Plain(t) => t != "" && t[0] != '#' && t[0] != '"' && forall k :: 0 <= k < |t| ==> !IsSpace(t[k])
    case Quoted(t) => '"' !in t
  }

  function PrintWord(w: Word): (s: string)
    ensures Printable(w) ==> s != "" && !IsSpace(s[0])
  {
    match w
    case Plain(t) => t
    case Quoted(t) => "\"" + t + "\""
  }

  function Blanks(n: nat): (s: string)
    ensures |s| == n && forall k :: 0 <= k < n ==> s[k] == ' '
  {
    seq(n, i => ' ')
  }

  function Print(l: Line): string {
    match l
    case Last(w) => PrintWord(w)
    case Then(w, gap, more) => PrintWord(w) + Blanks(gap) + Print(more)
  }

  predicate PrintableLine(l: Line) {
    Printable(l.word) && (l.Then? ==> l.gap >= 1 && PrintableLine(l.more))
  }

  // How many words there are, and what they say.
  function Count(l: Line): nat {
    if l.Last? then 1 else 1 + Count(l.more)
  }

  function Texts(l: Line): (ts: seq<string>)
    ensures |ts| == Count(l)
  {
    if l.Last? then [l.word.text] else [l.word.text] + Texts(l.more)
  }

  function LastWord(l: Line): Word {
    if l.Last? then l.word else LastWord(l.more)
  }

  // s has t at offset i.
  ghost predicate At(s: string, i: nat, t: string) {
    i + |t| <= |s| && s[i..i + |t|] == t
  }

  lemma AtChars(s: string, i: nat, t: string)
    requires At(s, i, t)
    ensures forall k :: 0 <= k < |t| ==> s[i + k] == t[k]
  {
    forall k | 0 <= k < |t| ensures s[i + k] == t[k] {
      assert s[i..i + |t|][k] == t[k];
    }
  }

  lemma AtParts(s: string, i: nat, a: string, b: string)
    requires At(s, i, a + b)
    ensures At(s, i, a) && At(s, i + |a|, b)
  {
    AtChars(s, i, a + b);
    assert forall k :: 0 <= k < |a| ==> (a + b)[k] == a[k];
    forall k | 0 <= k < |b| ensures s[i + |a| + k] == b[k] {
      assert s[i + (|a| + k)] == (a + b)[|a| + k];
    }
  }

  lemma SkipSpaceStays(s: string, i: nat)
    requires i < |s| && !IsSpace(s[i])
    ensures SkipSpace(s, i) == i
  {
  }

  lemma {:induction false} SkipBlanksOver(s: string, i: nat, j: nat)
    requires i <= j < |s| && s[j] != ' ' && forall k :: i <= k < j ==> s[k] == ' '
    ensures SkipBlanks(s, i) == j
    decreases j - i
  {
    if i < j {
      SkipBlanksOver(s, i + 1, j);
    }
  }

  // A printed word is one piece, and ends where its text ends.
  lemma PieceOfWord(s: string, i: nat, w: Word)
    requires Printable(w) && At(s, i, PrintWord(w))
    requires i + |PrintWord(w)| < |s| ==> s[i + |PrintWord(w)|] == ' '
    ensures var sp := Piece(s, i);
            && sp.from <= sp.to <= |s| && s[sp.from..sp.to] == w.text
            && sp.to == i + |PrintWord(w)| - (if w.Quoted? then 1 else 0)
  {
    var n := i + |PrintWord(w)|;
    AtChars(s, i, PrintWord(w));
    assert PrintWord(w)[0] == s[i];
    SkipSpaceStays(s, i);
    match w {
      case Plain(t) =>
        forall k | i <= k < n ensures !IsSpace(s[k]) {
          assert s[k] == t[k - i];
        }
        IndexFromIs(s, ' ', i, n);
        if n == |s| {
          IndexFromIs(s, '\t', i, n);
        }
      case Quoted(t) =>
        assert PrintWord(w)[|t| + 1] == '"';
        forall k | i + 1 <= k < n - 1 ensures s[k] == t[k - i - 1] {
          assert s[k] == PrintWord(w)[k - i];
        }
        IndexFromIs(s, '"', i + 1, n - 1);
        assert s[i + 1..n - 1] == t;
    }
  }

  // A word that others follow: its piece is cut off and the next one starts behind the blanks.
  lemma PieceThenNext(s: string, i: nat, w: Word, next: nat, arg: nat)
    requires Printable(w) && At(s, i, PrintWord(w)) && arg + 1 < MAX_ARGS
    requires i + |PrintWord(w)| < next < |s| && s[next] != ' '
    requires forall k :: i + |PrintWord(w)| <= k < next ==> s[k] == ' '
    ensures var sp := Piece(s, i);
            sp.from <= sp.to < |s| && s[sp.from..sp.to] == w.text && Pieces(s, i, arg) == [sp] + Pieces(s, next, arg + 1)
  {
    PieceOfWord(s, i, w);
    SkipBlanksOver(s, Piece(s, i).to + 1, next);
  }

  // Where the words behind the first one start.
  lemma NextWord(s: string, i: nat, l: Line, next: nat)
    requires PrintableLine(l) && l.Then? && i <= |s| && s[i..] == Print(l) && next == i + |PrintWord(l.word)| + l.gap
    ensures i + |PrintWord(l.word)| < next < |s| && s[next] != ' ' && At(s, i, PrintWord(l.word))
    ensures s[next..] == Print(l.more)
    ensures forall k :: i + |PrintWord(l.word)| <= k < next ==> s[k] == ' '
  {
    var w, gap, more := PrintWord(l.word), Blanks(l.gap), Print(l.more);
    assert At(s, i, w + gap + more);
    AtParts(s, i, w + gap, more);
    AtParts(s, i, w, gap);
    var n := i + |w|;
    AtChars(s, n, gap);
    forall k | n <= k < next ensures s[k] == ' ' {
      assert s[n + (k - n)] == ' ';
    }
    FirstCharacter(s, next, l.more);
  }

  // What is in the slots from arg on: a word in each, but in the last slot the rest of the line as it was printed.
  function Slotted(l: Line, arg: nat): seq<string>
    requires arg < MAX_ARGS
    decreases l
  {
    if arg == MAX_ARGS - 1 then [Print(l)]
    else if l.Last? then [l.word.text]
    else [l.word.text] + Slotted(l.more, arg + 1)
  }

  lemma LexLastSlot(s: string, i: nat, arg: nat, l: Line)
    requires i <= |s| && s[i..] == Print(l) && arg == MAX_ARGS - 1
    ensures Slices(s, Pieces(s, i, arg)) == Slotted(l, arg)
  {
    assert s[i..|s|] == s[i..];
  }

  lemma LexLastWord(s: string, i: nat, arg: nat, l: Line)
    requires PrintableLine(l) && l.Last? && i <= |s| && s[i..] == Print(l) && arg < MAX_ARGS - 1
    ensures Slices(s, Pieces(s, i, arg)) == Slotted(l, arg)
  {
    PieceOfWord(s, i, l.word);
  }

  // One word is cut off, and lexing goes on with the rest of the printed line.
  lemma LexNext(s: string, i: nat, arg: nat, l: Line, next: nat)
    requires PrintableLine(l) && l.Then? && i <= |s| && s[i..] == Print(l) && arg < MAX_ARGS - 1
    requires next == i + |PrintWord(l.word)| + l.gap
    ensures next <= |s| && s[next..] == Print(l.more)
    ensures Slices(s, Pieces(s, i, arg)) == [l.word.text] + Slices(s, Pieces(s, next, arg + 1))
  {
    NextWord(s, i, l, next);
    LexStep(s, i, arg, l.word, next);
  }

  lemma {:induction false} LexThen(s: string, i: nat, arg: nat, l: Line)
    requires PrintableLine(l) && l.Then? && i <= |s| && s[i..] == Print(l) && arg < MAX_ARGS - 1
    ensures Slices(s, Pieces(s, i, arg)) == Slotted(l, arg)
    decreases l, 0
  {
    var next := i + |PrintWord(l.word)| + l.gap;
    LexNext(s, i, arg, l, next);
    LexPrinted(s, next, arg + 1, l.more);
  }

  // The lexer puts the words of a printed line into the slots one by one.
  lemma {:induction false} LexPrinted(s: string, i: nat, arg: nat, l: Line)
    requires PrintableLine(l) && i <= |s| && s[i..] == Print(l) && arg < MAX_ARGS
    ensures Slices(s, Pieces(s, i, arg)) == Slotted(l, arg)
    decreases l, 1
  {
    if arg == MAX_ARGS - 1 {
      LexLastSlot(s, i, arg, l);
    } else if l.Last? {
      LexLastWord(s, i, arg, l);
    } else {
      LexThen(s, i, arg, l);
    }
  }

  // The slots hold the words exactly when there are enough slots and the last one holds no quotes.
  ghost predicate EnoughSlots(l: Line, arg: nat) {
    arg + Count(l) < MAX_ARGS || (arg + Count(l) == MAX_ARGS && LastWord(l).Plain?)
  }

  lemma {:induction false} SlottedIsTexts(l: Line, arg: nat)
    requires arg < MAX_ARGS
    ensures Slotted(l, arg) == Texts(l) <==> EnoughSlots(l, arg)
    decreases l
  {
    if arg == MAX_ARGS - 1 {
      assert Texts(l) == [Print(l)] <==> l.Last? && l.word.text == PrintWord(l.word) by {
        assert |Texts(l)| == 1 <==> l.Last?;
        assert Texts(l)[0] == l.word.text;
      }
    } else if l.Then? {
      SlottedIsTexts(l.more, arg + 1);
      assert Slotted(l, arg)[1..] == Slotted(l.more, arg + 1) && Texts(l)[1..] == Texts(l.more);
    }
  }

  lemma LexStep(s: string, i: nat, arg: nat, w: Word, next: nat)
    requires Printable(w) && At(s, i, PrintWord(w)) && arg + 1 < MAX_ARGS
    requires i + |PrintWord(w)| < next < |s| && s[next] != ' '
    requires forall k :: i + |PrintWord(w)| <= k < next ==> s[k] == ' '
    ensures Slices(s, Pieces(s, i, arg)) == [w.text] + Slices(s, Pieces(s, next, arg + 1))
  {
    PieceThenNext(s, i, w, next, arg);
    SlicesCons(s, Piece(s, i), Pieces(s, next, arg + 1));
  }

  lemma SlicesCons(s: string, sp: Span, ps: seq<Span>)
    requires sp.from <= sp.to <= |s| && forall k :: 0 <= k < |ps| ==> ps[k].from <= ps[k].to <= |s|
    ensures Slices(s, [sp] + ps) == [s[sp.from..sp.to]] + Slices(s, ps)
  {
  }

  lemma FirstCharacter(s: string, i: nat, l: Line)
    requires PrintableLine(l) && At(s, i, Print(l))
    ensures i < |s| && !IsSpace(s[i]) && s[i] != ' ' && s[i] == PrintWord(l.word)[0]
  {
    AtChars(s, i, Print(l));
    assert Print(l)[0] == PrintWord(l.word)[0];
    assert s[i + 0] == PrintWord(l.word)[0];
  }

  // What the lexer makes of a printed line, however many words it has.
  lemma {:induction false} LexOfPrint(l: Line)
    requires PrintableLine(l) && l.word.Plain?
    ensures LexLine(Print(l)) == Words(l.word.text, Slotted(l, 0)[1..])
  {
    var s := Print(l);
    assert s[0..] == s && At(s, 0, s);
    LexPrinted(s, 0, 0, l);
    FirstCharacter(s, 0, l);
    SkipSpaceStays(s, 0);
    var ps := Pieces(s, 0, 0);
    assert Slices(s, ps[1..]) == Slices(s, ps)[1..];
    assert Slices(s, ps)[0] == s[ps[0].from..ps[0].to] == l.word.text;
    assert ps[0] == Piece(s, 0) && ps[0].from == 0;
  }

  /**
    Words printed with blanks between them come back from the lexer unchanged, quoted or not,
    if and only if there is a slot for each and the last slot is not given a quoted one.
  */
  lemma LexUndoesPrint(l: Line)
    requires PrintableLine(l) && l.word.Plain?
    ensures LexLine(Print(l)) == Words(l.word.text, Texts(l)[1..]) <==> EnoughSlots(l, 0)
  {
    LexOfPrint(l);
    SlottedIsTexts(l, 0);
    var all := Slotted(l, 0);
    assert all == [l.word.text] + all[1..] && Texts(l) == [l.word.text] + Texts(l)[1..];
  }

  // ---------------------------------------------------------------- lexing in place

  // b holds the C string t at offset i.
  ghost predicate CStringAt(b: string, i: nat, t: string) {
    NUL !in t && i + |t| < |b| && b[i..i + |t|] == t && b[i + |t|] == NUL
  }

  // From offset `from` on, the line s that starts at `config` is still as it was read.
  ghost predicate Pristine(b: string, config: nat, end: nat, from: nat, s: string) {
    && config <= from <= end < |b| && end - config == |s| && b[end] == NUL && NUL !in s
    && forall k :: from <= k < end ==> b[k] == s[k - config]
  }

  method StrChr(buf: array<char>, from: nat, c: char, ghost config: nat, ghost end: nat, ghost s: string) returns (j: nat)
    requires Pristine(buf[..], config, end, from, s) && c != NUL
    ensures config <= j <= end && j - config == IndexFrom(s, c, from - config)
  {
    j := from;
    while buf[j] != c && buf[j] != NUL
      invariant from <= j <= end && IndexFrom(s, c, j - config) == IndexFrom(s, c, from - config)
      decreases end - j
    {
      assert buf[..][j] == s[j - config];
      j := j + 1;
    }
    assert j < end ==> buf[..][j] == s[j - config];
  }

  method SkipSpaceAt(buf: array<char>, from: nat, ghost config: nat, ghost end: nat, ghost s: string) returns (j: nat)
    requires Pristine(buf[..], config, end, from, s)
    ensures config <= j <= end && j - config == SkipSpace(s, from - config)
  {
    j := from;
    while IsSpace(buf[j])
      invariant from <= j <= end && SkipSpace(s, j - config) == SkipSpace(s, from - config)
      decreases end - j
    {
      assert buf[..][j] == s[j - config];
      j := j + 1;
    }
    assert j < end ==> buf[..][j] == s[j - config];
  }

  method SkipBlanksAt(buf: array<char>, from: nat, ghost config: nat, ghost end: nat, ghost s: string) returns (j: nat)
    requires Pristine(buf[..], config, end, from, s)
    ensures config <= j <= end && j - config == SkipBlanks(s, from - config)
  {
    j := from;
    while buf[j] == ' '
      invariant from <= j <= end && SkipBlanks(s, j - config) == SkipBlanks(s, from - config)
      decreases end - j
    {
      assert buf[..][j] == s[j - config];
      j := j + 1;
    }
    assert j < end ==> buf[..][j] == s[j - config];
  }

  // Where the piece at or after `from` starts and ends. Nothing is written yet.
  method FindPiece(buf: array<char>, from: nat, ghost config: nat, end: nat, ghost s: string)
    returns (first: nat, cut: nat, hash: bool)
    requires Pristine(buf[..], config, end, from, s)
    ensures config <= first <= cut <= end
    ensures Piece(s, from - config) == Span(first - config, cut - config)
    ensures hash <==> HashAt(s, from - config)
  {
    var p := SkipSpaceAt(buf, from, config, end, s);
    assert p < end ==> buf[..][p] == s[p - config];
    hash := buf[p] == '#';
    if p == end || hash {
      return p, end, hash;
    }
    if buf[p] == '"' {
      first := p + 1;
      cut := StrChr(buf, first, '"', config, end, s);
    } else {
      first := p;
      cut := StrChr(buf, p, ' ', config, end, s);
      if cut == end {
        cut := StrChr(buf, p, '\t', config, end, s);
      }
    }
  }

  // The first n pieces of s have been cut out of the buffer.
  ghost predicate CutOut(b: string, config: nat, s: string, all: seq<Span>, n: nat) {
    && n <= |all|
    && forall k {:trigger all[k]} :: 0 <= k < n ==>
         all[k].from <= all[k].to <= |s| && CStringAt(b, config + all[k].from, s[all[k].from..all[k].to])
  }

  // The first n arguments point to the first n pieces.
  ghost predicate PointTo(args: seq<nat>, config: nat, all: seq<Span>, n: nat) {
    n <= |all| && n <= |args| && forall k {:trigger all[k]} :: 0 <= k < n ==> args[k] == config + all[k].from
  }

  // Writing beyond the end of a C string leaves it alone.
  lemma CStringKept(b: string, b': string, i: nat, t: string, from: nat)
    requires CStringAt(b, i, t) && i + |t| < from && |b'| == |b| && forall k :: 0 <= k < |b| && k < from ==> b'[k] == b[k]
    ensures CStringAt(b', i, t)
  {
    assert b'[i..i + |t|] == b[i..i + |t|];
  }

  // A piece that was cut, or that reaches the end of the line, is a C string.
  lemma PieceIsCString(b: string, config: nat, end: nat, from: nat, s: string, sp: Span)
    requires config <= from <= end < |b| && |s| == end - config && NUL !in s
    requires from - config <= sp.from <= sp.to <= |s| && b[config + sp.to] == NUL
    requires forall k :: from <= k < config + sp.to ==> b[k] == s[k - config]
    ensures CStringAt(b, config + sp.from, s[sp.from..sp.to])
  {
    assert b[config + sp.from..config + sp.to] == s[sp.from..sp.to];
  }

  // What one turn does to the buffer: it cuts off sp, or sp reaches the end of the line.
  ghost predicate Turned(b: string, b': string, config: nat, end: nat, s: string, sp: Span) {
    && |b'| == |b| && sp.from <= sp.to <= |s| && end < |b| && b'[end] == NUL && config + |s| == end
    && (forall k :: 0 <= k < |b| && k != config + sp.to ==> b'[k] == b[k])
    && CStringAt(b', config + sp.from, s[sp.from..sp.to])
  }

  // Everything but the line itself is as before.
  ghost predicate OutsideKept(b: string, b': string, config: nat, end: nat) {
    |b'| == |b| && forall k :: 0 <= k < |b| && !(config <= k < end) ==> b'[k] == b[k]
  }

  lemma TurnedOutside(b: string, b': string, config: nat, end: nat, s: string, sp: Span)
    requires Turned(b, b', config, end, s, sp) && b[end] == NUL
    ensures OutsideKept(b, b', config, end)
  {
  }

  // One turn of the lexer: cut the next piece off, and find where the one after it starts.
  method CutPiece(buf: array<char>, from: nat, ghost config: nat, end: nat, ghost s: string, ghost i: nat, ghost sp: Span)
    returns (first: nat, next: nat, hash: bool)
    requires Pristine(buf[..], config, end, from, s) && from == config + i && sp == Piece(s, i)
    modifies buf
    ensures Turned(old(buf[..]), buf[..], config, end, s, sp) && first == config + sp.from && i <= sp.from
    ensures next == config + NextStart(s, sp) && (hash <==> HashAt(s, i))
    ensures next < end ==> Pristine(buf[..], config, end, next, s)
  {
    var cut: nat;
    first, cut, hash := FindPiece(buf, from, config, end, s);
    ghost var was := buf[..];
    if cut < end {
      buf[cut] := NUL;
    }
    assert forall k :: 0 <= k < |was| && k != cut ==> buf[..][k] == was[k];
    assert Turned(was, buf[..], config, end, s, sp) by {
      PieceIsCString(buf[..], config, end, from, s, sp);
    }
    next := end;
    if cut < end {
      next := SkipBlanksAt(buf, cut + 1, config, end, s);
    }
  }

  /**
    starts[k] is where the lexer begins to look for piece k. The last slot takes the rest of the
    line; any other piece is cut off, and the next one looked for behind the blanks that follow.
  */
  ghost predicate Planned(s: string, all: seq<Span>, starts: seq<nat>, k: nat, before: nat)
    requires k < |all| == |starts|
  {
    && starts[k] <= |s|
    && if before + k == MAX_ARGS - 1 then all[k] == Span(starts[k], |s|) && k + 1 == |all|
       else
         && all[k] == Piece(s, starts[k])
         && NextStart(s, all[k]) == (if k + 1 < |all| then starts[k + 1] else |s|)
         && (k + 1 < |all| ==> all[k].to < starts[k + 1] < |s|)
  }

  function NextStart(s: string, sp: Span): nat
    requires sp.to <= |s|
  {
    if sp.to == |s| then |s| else SkipBlanks(s, sp.to + 1)
  }

  // A plan stays one when another piece is put before it.
  lemma PlanShifted(s: string, all: seq<Span>, starts: seq<nat>, sp: Span, i: nat, k: nat, before: nat)
    requires k < |all| == |starts| && Planned(s, all, starts, k, before + 1)
    ensures Planned(s, [sp] + all, [i] + starts, k + 1, before)
  {
    assert ([sp] + all)[k + 1] == all[k] && ([i] + starts)[k + 1] == starts[k];
    assert k + 1 < |all| ==> ([i] + starts)[k + 2] == starts[k + 1];
  }

  // starts are where the lexer starts each of the pieces `all`, the first of which goes to slot `before`.
  ghost predicate IsPlan(s: string, all: seq<Span>, starts: seq<nat>, before: nat) {
    |starts| == |all| && forall k {:trigger Planned(s, all, starts, k, before)} :: 0 <= k < |all| ==> Planned(s, all, starts, k, before)
  }

  lemma PlanCons(s: string, rest: seq<Span>, more: seq<nat>, sp: Span, i: nat, arg: nat)
    requires IsPlan(s, rest, more, arg + 1) && Planned(s, [sp] + rest, [i] + more, 0, arg)
    ensures IsPlan(s, [sp] + rest, [i] + more, arg)
  {
    var all, starts := [sp] + rest, [i] + more;
    forall k | 0 <= k < |all| ensures Planned(s, all, starts, k, arg) {
      if k > 0 {
        assert Planned(s, rest, more, k - 1, arg + 1);
        PlanShifted(s, rest, more, sp, i, k - 1, arg);
      }
    }
  }

  // A piece that others follow.
  lemma PlanFirst(s: string, i: nat, arg: nat, rest: seq<Span>, more: seq<nat>)
    requires i <= |s| && arg < MAX_ARGS && |Pieces(s, i, arg)| > 1
    requires var next := SkipBlanks(s, Piece(s, i).to + 1);
             rest == Pieces(s, next, arg + 1) && |more| == |rest| && more[0] == next
    ensures Pieces(s, i, arg) == [Piece(s, i)] + rest && Planned(s, [Piece(s, i)] + rest, [i] + more, 0, arg)
  {
    assert ([i] + more)[1] == more[0];
  }

  lemma {:induction false} PlanOf(s: string, i: nat, arg: nat) returns (starts: seq<nat>)
    requires i <= |s| && arg < MAX_ARGS
    ensures starts != [] && starts[0] == i && IsPlan(s, Pieces(s, i, arg), starts, arg)
    decreases |s| - i
  {
    if |Pieces(s, i, arg)| == 1 {
      starts := [i];
    } else {
      var next := SkipBlanks(s, Piece(s, i).to + 1);
      var more := PlanOf(s, next, arg + 1);
      PlanFirst(s, i, arg, Pieces(s, next, arg + 1), more);
      PlanCons(s, Pieces(s, next, arg + 1), more, Piece(s, i), i, arg);
      starts := [i] + more;
    }
  }

  // The pieces before the arg-th are cut out, and the rest of the line, from starts[arg] on, is untouched.
  ghost predicate Lexing(b: string, config: nat, end: nat, s: string, all: seq<Span>, starts: seq<nat>, arg: nat) {
    && arg < |all| == |starts| && Pristine(b, config, end, config + starts[arg], s) && CutOut(b, config, s, all, arg)
    && (forall k {:trigger all[k]} :: 0 <= k < arg ==> all[k].to < starts[arg])
    && if arg == 0 then starts[0] == 0 else all[0].to <= |s| && CStringAt(b, config, s[..all[0].to])
  }

  // All pieces of s are cut out, and the keyword stands at the start of the line.
  ghost predicate Finished(b: string, config: nat, s: string, all: seq<Span>) {
    0 < |all| && CutOut(b, config, s, all, |all|) && all[0].to <= |s| && CStringAt(b, config, s[..all[0].to])
  }

  lemma TurnCutsOut(b: string, b': string, config: nat, end: nat, s: string, all: seq<Span>, starts: seq<nat>, arg: nat)
    requires Lexing(b, config, end, s, all, starts, arg)
    requires starts[arg] <= all[arg].from && Turned(b, b', config, end, s, all[arg])
    ensures CutOut(b', config, s, all, arg + 1) && CStringAt(b', config, s[..all[0].to])
  {
    var sp := all[arg];
    forall k | 0 <= k < arg ensures CStringAt(b', config + all[k].from, s[all[k].from..all[k].to]) {
      CStringKept(b, b', config + all[k].from, s[all[k].from..all[k].to], config + sp.to);
    }
    if arg == 0 {
      PieceIsCString(b', config, end, config, s, Span(0, sp.to));
      assert s[0..sp.to] == s[..sp.to];
    } else {
      CStringKept(b, b', config, s[..all[0].to], config + sp.to);
    }
  }

  // One turn of the lexer: afterwards there is one more piece, and either it was the last or the next one follows.
  lemma TurnResult(b: string, b': string, config: nat, end: nat, s: string, all: seq<Span>, starts: seq<nat>, arg: nat)
    requires Lexing(b, config, end, s, all, starts, arg) && arg < MAX_ARGS - 1 && Planned(s, all, starts, arg, 0)
    requires starts[arg] <= all[arg].from && Turned(b, b', config, end, s, all[arg])
    requires arg + 1 < |all| ==> Pristine(b', config, end, config + starts[arg + 1], s)
    ensures if arg + 1 < |all| then Lexing(b', config, end, s, all, starts, arg + 1) else Finished(b', config, s, all)
  {
    TurnCutsOut(b, b', config, end, s, all, starts, arg);
  }

  // The last slot takes the rest of the line as it is.
  lemma LastSlot(b: string, config: nat, end: nat, s: string, all: seq<Span>, starts: seq<nat>, arg: nat)
    requires Lexing(b, config, end, s, all, starts, arg) && arg + 1 == |all| == MAX_ARGS && Planned(s, all, starts, arg, 0)
    ensures Finished(b, config, s, all)
  {
    PieceIsCString(b, config, end, config + starts[arg], s, all[arg]);
  }

  // A turn of the lexer on the piece for slot arg.
  method TakeTurn(buf: array<char>, from: nat, ghost config: nat, end: nat, ghost s: string, ghost all: seq<Span>,
                  ghost starts: seq<nat>, ghost arg: nat)
    returns (first: nat, next: nat, hash: bool)
    requires Lexing(buf[..], config, end, s, all, starts, arg) && arg < MAX_ARGS - 1 && Planned(s, all, starts, arg, 0)
    requires from == config + starts[arg]
    modifies buf
    ensures OutsideKept(old(buf[..]), buf[..], config, end)
    ensures first == config + all[arg].from && (hash <==> HashAt(s, starts[arg]))
    ensures next == if arg + 1 < |all| then config + starts[arg + 1] else end
    ensures next < end <==> arg + 1 < |all|
    ensures if arg + 1 < |all| then Lexing(buf[..], config, end, s, all, starts, arg + 1) else Finished(buf[..], config, s, all)
  {
    first, next, hash := CutPiece(buf, from, config, end, s, starts[arg], all[arg]);
    TurnedOutside(old(buf[..]), buf[..], config, end, s, all[arg]);
    TurnResult(old(buf[..]), buf[..], config, end, s, all, starts, arg);
  }

  // The lexer's loop, for a line whose pieces are planned.
  method LexPlanned(buf: array<char>, config: nat, end: nat, ghost s: string, ghost all: seq<Span>,
                    ghost starts: seq<nat>)
    returns (comment: bool, arg: nat, args: seq<nat>)
    requires Pristine(buf[..], config, end, config, s)
    requires 0 < |all| <= MAX_ARGS && IsPlan(s, all, starts, 0) && starts[0] == 0
    modifies buf
    ensures OutsideKept(old(buf[..]), buf[..], config, end)
    ensures comment <==> IsComment(s)
    ensures !comment ==> arg + 1 == |args| == |all| && PointTo(args, config, all, |args|)
    ensures !comment ==> Finished(buf[..], config, s, all)
  {
    comment, arg, args := false, 0, [config];
    while arg < MAX_ARGS - 1
      invariant |args| == arg + 1 && Lexing(buf[..], config, end, s, all, starts, arg)
      invariant args[arg] == config + starts[arg] && PointTo(args, config, all, arg)
      invariant arg > 0 ==> !IsComment(s)
      invariant OutsideKept(old(buf[..]), buf[..], config, end)
      decreases MAX_ARGS - arg
    {
      assert Planned(s, all, starts, arg, 0);
      var first, next, hash := TakeTurn(buf, args[arg], config, end, s, all, starts, arg);
      if arg == 0 && hash {
        comment := true;
        return;
      }
      args := args[arg := first];
      if next == end {
        return;
      }
      args := args + [next];
      arg := arg + 1;
    }
    assert Planned(s, all, starts, arg, 0);
    LastSlot(buf[..], config, end, s, all, starts, arg);
  }

  /**
    Lexes the line between `config` and the NUL at `end`. Afterwards the pieces of the line are
    the C strings at args[0..arg], and the keyword is the C string at `config`.
  */
  method LexInPlace(buf: array<char>, config: nat, end: nat, ghost s: string)
    returns (comment: bool, arg: nat, args: seq<nat>)
    requires Pristine(buf[..], config, end, config, s)
    modifies buf
    ensures OutsideKept(old(buf[..]), buf[..], config, end)
    ensures comment <==> IsComment(s)
    ensures !comment ==>
              && arg + 1 == |args| == |Pieces(s, 0, 0)| && PointTo(args, config, Pieces(s, 0, 0), |args|)
              && Finished(buf[..], config, s, Pieces(s, 0, 0))
  {
    ghost var starts := PlanOf(s, 0, 0);
    comment, arg, args := LexPlanned(buf, config, end, s, Pieces(s, 0, 0), starts);
  }
}
