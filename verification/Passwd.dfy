/**
  A card's passwd file: the parser of a line, the line that is written for a user, and adding
  and removing users.
*/
module Passwd {
  import opened CText
  import opened TextFiles
  import opened ConfigLexer

  const LINE_SIZE: nat := 4352

  type Id = n: nat | n < 0x1_0000_0000

  datatype User = User(user: string, pw: string, uid: Id, gid: Id, name: string, home: string, app: string)

  // ---------------------------------------------------------------- numbers

  predicate IsDigit(c: char) {
    '0' <= c <= '9'
  }

  function DigitValue(c: char): nat
    requires IsDigit(c)
  {
    (c - '0') as nat
  }

  function DigitsFrom(s: string, i: nat, acc: nat): nat
    requires i <= |s|
    decreases |s| - i
  {
    if i < |s| && IsDigit(s[i]) then DigitsFrom(s, i + 1, 10 * acc + DigitValue(s[i])) else acc
  }

  // strtol keeps to the range of a long.
  function ToLong(n: int): int {
    if n < -0x8000_0000_0000_0000 then -0x8000_0000_0000_0000
    else if n > 0x7fff_ffff_ffff_ffff then 0x7fff_ffff_ffff_ffff
    else n
  }

  // atoi, before the result is cut to the width of an int
  function Atoi(s: string): int {
    var j := SkipSpace(s, 0);
    if j < |s| && s[j] == '-' then ToLong(0 - DigitsFrom(s, j + 1, 0))
    else if j < |s| && s[j] == '+' then ToLong(DigitsFrom(s, j + 1, 0))
    else ToLong(DigitsFrom(s, j, 0))
  }

  function ToId(n: int): Id {
    n % 0x1_0000_0000
  }

  // %u
  function Decimal(n: nat): (s: string)
    ensures s != "" && forall k :: 0 <= k < |s| ==> IsDigit(s[k])
  {
    if n < 10 then [('0' as int + n) as char] else Decimal(n / 10) + [('0' as int + n % 10) as char]
  }

  function Value(d: string): nat
    requires forall k :: 0 <= k < |d| ==> IsDigit(d[k])
  {
    if d == "" then 0 else 10 * Value(d[..|d| - 1]) + DigitValue(d[|d| - 1])
  }

  lemma {:induction false} ValueOfDecimal(n: nat)
    ensures Value(Decimal(n)) == n
  {
    if n >= 10 {
      ValueOfDecimal(n / 10);
      assert Decimal(n)[..|Decimal(n)| - 1] == Decimal(n / 10);
    }
  }

  lemma {:induction false} DigitsRead(d: string, tail: string, i: nat)
    requires i <= |d| && (forall k :: 0 <= k < |d| ==> IsDigit(d[k])) && (tail != "" ==> !IsDigit(tail[0]))
    ensures DigitsFrom(d + tail, i, Value(d[..i])) == Value(d)
    decreases |d| - i
  {
    if i < |d| {
      assert d[..i + 1][..i] == d[..i];
      DigitsRead(d, tail, i + 1);
    } else {
      assert d[..i] == d;
    }
  }

  lemma AtoiDecimal(n: nat, tail: string)
    requires tail != "" ==> !IsDigit(tail[0])
    ensures Atoi(Decimal(n) + tail) == ToLong(n)
  {
    var d := Decimal(n);
    DigitsRead(d, tail, 0);
    ValueOfDecimal(n);
    assert (d + tail)[0] == d[0];
  }

  // A sign in front is taken into account.
  lemma AtoiSigned(n: nat, tail: string)
    requires tail != "" ==> !IsDigit(tail[0])
    ensures Atoi("-" + (Decimal(n) + tail)) == ToLong(0 - n) && Atoi("+" + (Decimal(n) + tail)) == ToLong(n)
  {
    var d := Decimal(n);
    DigitsRead(d, tail, 0);
    ValueOfDecimal(n);
    DigitsBehind("-", d + tail, 0, 0);
    DigitsBehind("+", d + tail, 0, 0);
  }

  lemma {:induction false} DigitsBehind(sign: string, s: string, i: nat, acc: nat)
    requires |sign| == 1 && i <= |s|
    ensures DigitsFrom(sign + s, i + 1, acc) == DigitsFrom(s, i, acc)
    decreases |s| - i
  {
    if i < |s| && IsDigit(s[i]) {
      DigitsBehind(sign, s, i + 1, 10 * acc + DigitValue(s[i]));
    }
  }

  // ---------------------------------------------------------------- one line

  // The first n fields of a line and what is left behind them, when there are that many colons.
  function Fields(l: string, n: nat): (r: Option<seq<string>>)
    ensures r.Some? ==> |r.value| == n + 1
    decreases |l|
  {
    if n == 0 then Some([l])
    else
      var i := IndexOf(l, ':');
      if i == |l| then None
      else
        match Fields(l[i + 1..], n - 1)
        case None => None
        case Some(fs) => Some([l[..i]] + fs)
  }

  function ParseLine(l: string): Option<User> {
    match Fields(l, 6)
    case None => None
    case Some(fs) => Some(UserOf(fs))
  }

  function UserOf(fs: seq<string>): User
    requires |fs| == 7
  {
    User(fs[0], fs[1], ToId(Atoi(fs[2])), ToId(Atoi(fs[3])), fs[4], fs[5], fs[6])
  }

  // The password is kept in the shadow file.
  const SHADOWED: string := "x"

  function Columns(u: User): (fs: seq<string>)
    ensures |fs| == 7
  {
    [u.user, SHADOWED, Decimal(u.uid), Decimal(u.gid), u.name, u.home, u.app]
  }

  // The line that is written for a user.
  function PrintUser(u: User): string {
    Join(Columns(u), ':')
  }

  // The columns in their order.
  lemma PrintUserIs(u: User)
    ensures PrintUser(u) == u.user + ":" + ("x" + ":" + (Decimal(u.uid) + ":" + (Decimal(u.gid) + ":" +
                            (u.name + ":" + (u.home + ":" + u.app)))))
  {
    JoinSeven(u.user, "x", Decimal(u.uid), Decimal(u.gid), u.name, u.home, u.app);
  }

  lemma JoinSeven(a: string, b: string, c: string, d: string, e: string, f: string, g: string)
    ensures Join([a, b, c, d, e, f, g], ':') ==
            a + ":" + (b + ":" + (c + ":" + (d + ":" + (e + ":" + (f + ":" + g)))))
  {
    JoinCons(a, [b, c, d, e, f, g], ':');
    JoinCons(b, [c, d, e, f, g], ':');
    JoinCons(c, [d, e, f, g], ':');
    assert [a, b, c, d, e, f, g] == [a] + [b, c, d, e, f, g];
    assert [b, c, d, e, f, g] == [b] + [c, d, e, f, g] && [c, d, e, f, g] == [c] + [d, e, f, g];
    JoinFour(d, e, f, g);
  }

  lemma JoinFour(d: string, e: string, f: string, g: string)
    ensures Join([d, e, f, g], ':') == d + ":" + (e + ":" + (f + ":" + g))
  {
    JoinCons(d, [e, f, g], ':');
    JoinCons(e, [f, g], ':');
    JoinCons(f, [g], ':');
    assert [d, e, f, g] == [d] + [e, f, g] && [e, f, g] == [e] + [f, g] && [f, g] == [f] + [g];
  }

  // No text but the last has a colon in it.
  predicate ColonFree(u: User) {
    ':' !in u.user && ':' !in u.name && ':' !in u.home
  }

  function Cons(first: string, rest: Option<seq<string>>): Option<seq<string>> {
    if rest.None? then None else Some([first] + rest.value)
  }

  lemma FieldsCons(part: string, rest: string, n: nat)
    requires ':' !in part && n > 0
    ensures Fields(part + ":" + rest, n) == Cons(part, Fields(rest, n - 1))
  {
    var l := part + ":" + rest;
    assert IndexOf(l, ':') == |part| by {
      IndexFromIs(l, ':', 0, |part|);
    }
    assert l[..|part|] == part && l[|part| + 1..] == rest;
  }

  lemma {:induction false} FieldsOfJoin(fs: seq<string>)
    requires fs != [] && forall k :: 0 <= k < |fs| - 1 ==> ':' !in fs[k]
    ensures Fields(Join(fs, ':'), |fs| - 1) == Some(fs)
  {
    if |fs| > 1 {
      FieldsOfJoin(fs[1..]);
      FieldsCons(fs[0], Join(fs[1..], ':'), |fs| - 1);
      assert fs == [fs[0]] + fs[1..];
    } else {
      assert fs == [fs[0]];
    }
  }

  lemma {:induction false} FieldsColonFree(l: string, n: nat)
    requires Fields(l, n).Some?
    ensures forall k :: 0 <= k < n ==> ':' !in Fields(l, n).value[k]
    decreases |l|
  {
    if n > 0 {
      var i := IndexOf(l, ':');
      var rest := Fields(l[i + 1..], n - 1).value;
      FieldsColonFree(l[i + 1..], n - 1);
      assert Fields(l, n).value == [l[..i]] + rest;
    }
  }

  lemma ColonInFirst(a: string, b: string, others: seq<string>)
    requires others != []
    ensures Join([a + ":" + b] + others, ':') == a + ":" + Join([b] + others, ':')
  {
    JoinCons(a + ":" + b, others, ':');
    JoinCons(b, others, ':');
    assert a + ":" + b + ":" + Join(others, ':') == a + ":" + (b + ":" + Join(others, ':'));
  }

  lemma CutFirst(fs: seq<string>, i: nat)
    requires |fs| > 1 && i == IndexOf(fs[0], ':')
    ensures Join(fs, ':') ==
            fs[0][..i] + ":" + Join(if i < |fs[0]| then [fs[0][i + 1..]] + fs[1..] else fs[1..], ':')
  {
    if i < |fs[0]| {
      ColonInFirst(fs[0][..i], fs[0][i + 1..], fs[1..]);
      assert fs[0] == fs[0][..i] + ":" + fs[0][i + 1..];
      assert fs == [fs[0]] + fs[1..];
    } else {
      assert fs[0][..i] == fs[0];
    }
  }

  // A line of n + 1 texts can be cut n times, wherever its colons come from.
  lemma {:induction false} FieldsEnough(fs: seq<string>, n: nat)
    requires n < |fs|
    ensures Fields(Join(fs, ':'), n).Some?
    decreases n
  {
    if n > 0 {
      var others, i := fs[1..], IndexOf(fs[0], ':');
      // The text is cut at its first colon, inside the first text or behind it.
      var first := fs[0][..i];
      var left := if i < |fs[0]| then [fs[0][i + 1..]] + others else others;
      FieldsEnough(left, n - 1);
      assert Join(fs, ':') == first + ":" + Join(left, ':') by {
        CutFirst(fs, i);
      }
      FieldsCons(first, Join(left, ':'), n);
    }
  }

  // Parsing undoes printing exactly for users without colons, and the password is the shadow mark.
  lemma ParsePrinted(u: User)
    ensures ParseLine(PrintUser(u)) == Some(u.(pw := SHADOWED)) <==> ColonFree(u)
  {
    var fs := Columns(u);
    assert ':' !in fs[1] && ':' !in fs[2] && ':' !in fs[3];
    if ColonFree(u) {
      assert Fields(PrintUser(u), 6) == Some(fs) by {
        FieldsOfJoin(fs);
      }
      NumbersRead(u);
    } else if ParseLine(PrintUser(u)).Some? {
      FieldsColonFree(PrintUser(u), 6);
    }
  }

  lemma NumbersRead(u: User)
    ensures ToId(Atoi(Decimal(u.uid))) == u.uid && ToId(Atoi(Decimal(u.gid))) == u.gid
  {
    AtoiDecimal(u.uid, "");
    AtoiDecimal(u.gid, "");
    assert Decimal(u.uid) + "" == Decimal(u.uid) && Decimal(u.gid) + "" == Decimal(u.gid);
  }

  // The part of a name in front of its first colon.
  function HeadOf(user: string): string {
    user[..IndexOf(user, ':')]
  }

  lemma FirstField(l: string, n: nat)
    requires n > 0 && Fields(l, n).Some?
    ensures IndexOf(l, ':') < |l| && Fields(l, n).value[0] == l[..IndexOf(l, ':')]
  {
  }

  /**
    A printed line always parses. The name that comes back is the part in front of the first
    colon, which is the name itself exactly when it has none; the id comes back then, too.
  */
  lemma PrintedHead(u: User)
    ensures ParseLine(PrintUser(u)).Some?
    ensures ParseLine(PrintUser(u)).value.user == HeadOf(u.user)
    ensures HeadOf(u.user) == u.user <==> ':' !in u.user
    ensures ':' !in u.user ==> ParseLine(PrintUser(u)).value.uid == u.uid
  {
    var fs := Columns(u);
    FieldsEnough(fs, 6);
    FirstField(PrintUser(u), 6);
    var rest := Join(fs[1..], ':');
    assert PrintUser(u) == u.user + ":" + rest by {
      JoinCons(u.user, fs[1..], ':');
      assert fs == [u.user] + fs[1..];
    }
    ColonBefore(u.user, rest);
    if ':' !in u.user {
      assert Fields(PrintUser(u), 6).value[2] == Decimal(u.uid) by {
        assert ':' !in fs[0] && ':' !in fs[1] && ':' !in fs[2];
        CutPrefix(fs, 3, 6);
      }
      NumbersRead(u);
    }
  }

  lemma ColonBefore(user: string, rest: string)
    ensures var l := user + ":" + rest; l[..IndexOf(l, ':')] == HeadOf(user)
  {
    var l, i := user + ":" + rest, IndexOf(user, ':');
    assert forall k :: 0 <= k < |user| ==> l[k] == user[k];
    assert l[|user|] == ':';
    assert IndexOf(l, ':') == i && l[..i] == user[..i];
  }

  // The first m fields are the first m texts when these have no colons.
  lemma {:induction false} CutPrefix(fs: seq<string>, m: nat, n: nat)
    requires m <= n < |fs| && forall k :: 0 <= k < m ==> ':' !in fs[k]
    ensures Fields(Join(fs, ':'), n).Some?
    ensures forall k :: 0 <= k < m ==> Fields(Join(fs, ':'), n).value[k] == fs[k]
    decreases m
  {
    if m == 0 {
      FieldsEnough(fs, n);
    } else {
      var rest := fs[1..];
      CutPrefix(rest, m - 1, n - 1);
      var vs := Fields(Join(rest, ':'), n - 1).value;
      assert Fields(Join(fs, ':'), n) == Some([fs[0]] + vs) by {
        CutOne(fs, n);
      }
      forall k | 0 <= k < m ensures ([fs[0]] + vs)[k] == fs[k] {
        assert k > 0 ==> rest[k - 1] == fs[k];
      }
    }
  }

  lemma CutOne(fs: seq<string>, n: nat)
    requires |fs| > 1 && ':' !in fs[0] && n > 0 && Fields(Join(fs[1..], ':'), n - 1).Some?
    ensures Fields(Join(fs, ':'), n) == Some([fs[0]] + Fields(Join(fs[1..], ':'), n - 1).value)
  {
    assert fs == [fs[0]] + fs[1..];
    JoinCons(fs[0], fs[1..], ':');
    FieldsCons(fs[0], Join(fs[1..], ':'), n);
  }

  lemma {:induction false} DigitsStop(a: string, b: string, i: nat, acc: nat)
    requires i <= |a| && (b != "" ==> !IsDigit(b[0]))
    ensures DigitsFrom(a + b, i, acc) == DigitsFrom(a, i, acc)
    decreases |a| - i
  {
    if i < |a| && IsDigit(a[i]) {
      DigitsStop(a, b, i + 1, 10 * acc + DigitValue(a[i]));
    }
  }

  lemma {:induction false} SpacesStop(a: string, b: string, i: nat)
    requires i <= |a| && (b != "" ==> !IsSpace(b[0]))
    ensures SkipSpace(a + b, i) == SkipSpace(a, i)
    decreases |a| - i
  {
    if i < |a| && IsSpace(a[i]) {
      SpacesStop(a, b, i + 1);
    }
  }

  // A number is read up to the colon behind it.
  lemma AtoiStops(a: string, b: string)
    ensures Atoi(a + ":" + b) == Atoi(a)
  {
    var t := ":" + b;
    assert a + ":" + b == a + t;
    SpacesStop(a, t, 0);
    var j := SkipSpace(a, 0);
    DigitsStop(a, t, j, 0);
    if j < |a| {
      DigitsStop(a, t, j + 1, 0);
    }
  }

  function Prepend(done: seq<string>, r: Option<seq<string>>): Option<seq<string>> {
    if r.None? then None else Some(done + r.value)
  }

  // Cuts s at its first colon. `all` are the fields of the whole line, of which some are done.
  method CutColon(s: string, ghost n: nat, ghost done: seq<string>, ghost all: Option<seq<string>>)
    returns (ok: bool, first: string, rest: string)
    requires n > 0 && all == Prepend(done, Fields(s, n))
    ensures if ok then s == first + ":" + rest && all == Prepend(done + [first], Fields(rest, n - 1)) else all == None
  {
    var i := IndexOf(s, ':');
    ok := i < |s|;
    first := s[..i];
    rest := if ok then s[i + 1..] else "";
    if ok {
      FieldsThere(s, n, i);
      PrependNext(done, first, Fields(rest, n - 1));
      CutAt(s, i);
    } else {
      FieldsNowhere(s, n);
    }
  }

  lemma FieldsThere(s: string, n: nat, i: nat)
    requires n > 0 && i == IndexOf(s, ':') && i < |s|
    ensures Fields(s, n) == Cons(s[..i], Fields(s[i + 1..], n - 1))
  {
  }

  lemma FieldsNowhere(s: string, n: nat)
    requires n > 0 && IndexOf(s, ':') == |s|
    ensures Fields(s, n) == None
  {
  }

  lemma PrependNext(done: seq<string>, first: string, r: Option<seq<string>>)
    ensures Prepend(done, Cons(first, r)) == Prepend(done + [first], r)
  {
    if r.Some? {
      Associate(done, [first], r.value);
    }
  }

  // The three fields up to the user id.
  method CutHead(l: string) returns (ok: bool, user: string, pw: string, uid: string, rest: string)
    ensures Fields(l, 6) == if ok then Prepend([user, pw, uid], Fields(rest, 3)) else None
  {
    ghost var all, done: seq<string> := Fields(l, 6), [];
    assert all.Some? ==> done + all.value == all.value;
    pw, uid := "", "";
    ok, user, rest := CutColon(l, 6, done, all);
    if ok {
      done := done + [user];
      ok, pw, rest := CutColon(rest, 5, done, all);
    }
    if ok {
      done := done + [pw];
      ok, uid, rest := CutColon(rest, 4, done, all);
    }
    if ok {
      done := done + [uid];
      assert done == [user, pw, uid];
    }
  }

  // The four fields from the group id on.
  method CutTail(l: string) returns (ok: bool, group: string, name: string, home: string, app: string, ghost tail: string)
    ensures Fields(l, 3) == if ok then Some([group, name, home, app]) else None
    ensures ok ==> l == group + ":" + tail
  {
    ghost var all, done: seq<string> := Fields(l, 3), [];
    assert all.Some? ==> done + all.value == all.value;
    name, home, app := "", "", "";
    var rest: string;
    ok, group, rest := CutColon(l, 3, done, all);
    tail := rest;
    if ok {
      done := done + [group];
      ok, name, rest := CutColon(rest, 2, done, all);
    }
    if ok {
      done := done + [name];
      ok, home, app := CutColon(rest, 1, done, all);
    }
    if ok {
      done := done + [home];
      assert Fields(app, 0) == Some([app]);
      assert done + [app] == [group, name, home, app];
    }
  }

  // The user in a buffer, which has to hold a whole line.
  function ParseBuffer(buffer: string): Option<User> {
    var s := CString(buffer);
    if s != "" && s[|s| - 1] == NL then ParseLine(s[..|s| - 1]) else None
  }

  // The last field is the end of the line, with the newline if that is there.
  lemma {:induction false} LastField(l: string, n: nat)
    requires Fields(l, n).Some?
    ensures var app := Fields(l, n).value[n]; |app| <= |l| && l[|l| - |app|..] == app
    decreases |l|
  {
    if n > 0 {
      var i := IndexOf(l, ':');
      LastField(l[i + 1..], n - 1);
    }
  }

  function WithNewline(fs: seq<string>): seq<string>
    requires fs != []
  {
    fs[..|fs| - 1] + [fs[|fs| - 1] + [NL]]
  }

  lemma WithNewlineCons(first: string, rest: seq<string>)
    requires rest != []
    ensures WithNewline([first] + rest) == [first] + WithNewline(rest)
  {
    assert ([first] + rest)[..|rest|] == [first] + rest[..|rest| - 1];
  }

  ghost predicate NewlineGoesLast(l: string, n: nat) {
    Fields(l + [NL], n) == if Fields(l, n).Some? then Some(WithNewline(Fields(l, n).value)) else None
  }

  lemma NewlineStep(l: string, first: string, rest: string, n: nat)
    requires l == first + ":" + rest && ':' !in first && n > 0 && NewlineGoesLast(rest, n - 1)
    ensures NewlineGoesLast(l, n)
  {
    FieldsCons(first, rest, n);
    FieldsCons(first, rest + [NL], n);
    assert first + ":" + rest + [NL] == first + ":" + (rest + [NL]);
    if Fields(rest, n - 1).Some? {
      WithNewlineCons(first, Fields(rest, n - 1).value);
    }
  }

  lemma NewlineEnd(l: string, n: nat)
    requires n == 0 || ':' !in l
    ensures NewlineGoesLast(l, n)
  {
    if n == 0 {
      assert WithNewline([l]) == [l + [NL]];
    } else {
      IndexOfAppend(l, [NL], ':');
    }
  }

  lemma {:induction false} FieldsNewline(l: string, n: nat)
    ensures NewlineGoesLast(l, n)
    decreases |l|
  {
    var i := IndexOf(l, ':');
    if n == 0 || i == |l| {
      NewlineEnd(l, n);
    } else {
      var first, rest := l[..i], l[i + 1..];
      FieldsNewline(rest, n - 1);
      assert l == first + ":" + rest;
      NewlineStep(l, first, rest, n);
    }
  }

  lemma WholeLineFields(l: string, fs: seq<string>)
    requires NL !in l && Fields(l + [NL], 6) == Some(fs)
    ensures var nl := IndexOf(fs[6], NL); nl < |fs[6]| && Fields(l, 6) == Some(fs[6 := fs[6][..nl]])
  {
    FieldsNewline(l, 6);
    LastField(l, 6);
    var fs0 := Fields(l, 6).value;
    var app := fs0[6];
    assert fs == WithNewline(fs0) && fs[6] == app + [NL];
    assert NL !in app;
    IndexFromIs(app + [NL], NL, 0, |app|);
    assert (app + [NL])[..|app|] == app;
    assert fs[6 := app] == fs0;
  }

  // The fields of a buffer up to the newline in the last of them.
  lemma BufferFields(buffer: string, fs: seq<string>)
    requires IsChunk(buffer) && Fields(CString(buffer), 6) == Some(fs)
    ensures var app := fs[6]; var nl := IndexOf(app, NL);
            ParseBuffer(buffer) == if nl < |app| then Some(UserOf(fs[6 := app[..nl]])) else None
  {
    var s := CString(buffer);
    assert NL !in s[..|s| - 1] by {
      assert |s| > 0 ==> s[..|s| - 1] == buffer[..|buffer| - 1][..|s| - 1];
    }
    if s != "" && s[|s| - 1] == NL {
      assert s == s[..|s| - 1] + [NL];
      WholeLineFields(s[..|s| - 1], fs);
    } else {
      LastField(s, 6);
      assert NL !in fs[6];
    }
  }

  lemma NoFields(buffer: string)
    requires Fields(CString(buffer), 6).None?
    ensures ParseBuffer(buffer).None?
  {
    var s := CString(buffer);
    if s != "" && s[|s| - 1] == NL {
      assert s == s[..|s| - 1] + [NL];
      FieldsNewline(s[..|s| - 1], 6);
    }
  }

  // The parser of one line. The group id is read before its end is cut.
  method ParsePwfile(buffer: string) returns (err: int, u: User)
    requires IsChunk(buffer)
    ensures err == if ParseBuffer(buffer).Some? then 0 else 1
    ensures err == 0 ==> u == ParseBuffer(buffer).value
  {
    err, u := 1, User("", "", 0, 0, "", "", "");
    var ok, user, pw, tmp1, tmp2 := CutHead(CString(buffer));
    if !ok {
      NoFields(buffer);
      return;
    }
    var uid, gid := ToId(Atoi(tmp1)), ToId(Atoi(tmp2));
    var group, name, home, app: string;
    ghost var tail: string;
    ok, group, name, home, app, tail := CutTail(tmp2);
    if !ok {
      NoFields(buffer);
      return;
    }
    AtoiStops(group, tail);
    ghost var fs := [user, pw, tmp1, group, name, home, app];
    assert [user, pw, tmp1] + [group, name, home, app] == fs;
    BufferFields(buffer, fs);
    var nl := IndexOf(app, NL);
    if nl < |app| {
      err, u := 0, User(user, pw, uid, gid, name, home, app[..nl]);
    }
  }

  // ---------------------------------------------------------------- the file

  // 2 when the first buffer that objects has the same name, 3 when it has the same id, 0 when none does.
  function Conflict(parse: string -> Option<User>, cs: seq<string>, u: User, unique: bool): int {
    if cs == [] then 0
    else
      match parse(cs[0])
      case None => Conflict(parse, cs[1..], u, unique)
      case Some(v) =>
        if v.user == u.user then 2
        else if unique && v.uid == u.uid then 3
        else Conflict(parse, cs[1..], u, unique)
  }

  predicate SameName(parse: string -> Option<User>, c: string, u: User) {
    parse(c).Some? && parse(c).value.user == u.user
  }

  predicate SameId(parse: string -> Option<User>, c: string, u: User) {
    parse(c).Some? && parse(c).value.uid == u.uid
  }

  // The i-th buffer is the first that has the name of u or, when asked for, the id.
  ghost predicate FirstObjection(parse: string -> Option<User>, cs: seq<string>, u: User, unique: bool, i: nat) {
    && i < |cs| && (SameName(parse, cs[i], u) || (unique && SameId(parse, cs[i], u)))
    && forall k :: 0 <= k < i ==> !SameName(parse, cs[k], u) && !(unique && SameId(parse, cs[k], u))
  }

  // What the first objection is about decides the number that is returned; the name comes first.
  lemma {:induction false} ConflictMeans(parse: string -> Option<User>, cs: seq<string>, u: User, unique: bool)
    ensures Conflict(parse, cs, u, unique) == 0 <==> forall i: nat :: !FirstObjection(parse, cs, u, unique, i)
    ensures forall i: nat :: FirstObjection(parse, cs, u, unique, i) ==>
              Conflict(parse, cs, u, unique) == if SameName(parse, cs[i], u) then 2 else 3
  {
    if cs != [] {
      var rest := cs[1..];
      ConflictMeans(parse, rest, u, unique);
      if SameName(parse, cs[0], u) || (unique && SameId(parse, cs[0], u)) {
        assert FirstObjection(parse, cs, u, unique, 0);
      } else {
        forall i: nat ensures FirstObjection(parse, cs, u, unique, i + 1) <==> FirstObjection(parse, rest, u, unique, i) {
          assert forall k :: 0 <= k < |rest| ==> rest[k] == cs[k + 1];
          ObjectionShifts(parse, cs, u, unique, i);
        }
        forall i: nat | FirstObjection(parse, cs, u, unique, i)
          ensures i > 0 && FirstObjection(parse, rest, u, unique, i - 1) && rest[i - 1] == cs[i]
        {
          assert FirstObjection(parse, cs, u, unique, (i - 1) + 1);
        }
      }
    }
  }

  lemma ObjectionShifts(parse: string -> Option<User>, cs: seq<string>, u: User, unique: bool, i: nat)
    requires cs != [] && !SameName(parse, cs[0], u) && !(unique && SameId(parse, cs[0], u))
    ensures FirstObjection(parse, cs, u, unique, i + 1) <==> FirstObjection(parse, cs[1..], u, unique, i)
  {
    var rest := cs[1..];
    if FirstObjection(parse, cs, u, unique, i + 1) {
      assert rest[i] == cs[i + 1];
      assert forall k :: 0 <= k < i ==> rest[k] == cs[k + 1];
    }
    if FirstObjection(parse, rest, u, unique, i) {
      assert cs[i + 1] == rest[i];
      assert forall k :: 0 < k < i + 1 ==> cs[k] == rest[k - 1];
    }
  }

  predicate NamedIn(l: string, user: string) {
    var i := IndexOf(l, ':');
    i < |l| && l[..i] == user
  }

  // Some buffer, parseable or not, starts with the name and a colon.
  predicate Taken(cs: seq<string>, user: string) {
    cs != [] && (NamedIn(CString(cs[0]), user) || Taken(cs[1..], user))
  }

  // The text of the file after an addition.
  function InsertText(text: string, u: User, unique: bool): string {
    var cs := Chunks(text, LINE_SIZE);
    if Conflict(ParseBuffer, cs, u, unique) != 0 || Taken(cs, u.user) then text else text + (PrintUser(u) + [NL])
  }

  method CheckConflict(text: string, u: User, unique: bool) returns (err: int)
    ensures err == Conflict(ParseBuffer, Chunks(text, LINE_SIZE), u, unique)
  {
    var rest := text;
    AllChunks(text, LINE_SIZE);
    while rest != ""
      invariant forall c :: c in Chunks(rest, LINE_SIZE) ==> IsChunk(c)
      invariant Conflict(ParseBuffer, Chunks(rest, LINE_SIZE), u, unique) == Conflict(ParseBuffer, Chunks(text, LINE_SIZE), u, unique)
      decreases |rest|
    {
      ghost var cs := Chunks(rest, LINE_SIZE);
      var buffer: string;
      buffer, rest := Fgets(rest, LINE_SIZE);
      assert cs[0] == buffer && cs[1..] == Chunks(rest, LINE_SIZE);
      assert buffer in cs && forall c :: c in cs[1..] ==> c in cs;
      var bad, v := ParsePwfile(buffer);
      if bad == 0 {
        if v.user == u.user {
          return 2;
        }
        if unique && v.uid == u.uid {
          return 3;
        }
      }
    }
    err := 0;
  }

  method CheckTaken(text: string, user: string) returns (taken: bool)
    ensures taken == Taken(Chunks(text, LINE_SIZE), user)
  {
    var rest := text;
    while rest != ""
      invariant Taken(Chunks(rest, LINE_SIZE), user) == Taken(Chunks(text, LINE_SIZE), user)
      decreases |rest|
    {
      ghost var cs := Chunks(rest, LINE_SIZE);
      var buffer: string;
      buffer, rest := Fgets(rest, LINE_SIZE);
      assert cs[0] == buffer && cs[1..] == Chunks(rest, LINE_SIZE);
      var line := CString(buffer);
      var colon := IndexOf(line, ':');
      if colon < |line| && line[..colon] == user {
        return true;
      }
    }
    taken := false;
  }

  // Adds the user's line at the end unless a line objects to the name or, when asked for, to the id.
  method InsertUser(text: string, u: User, unique: bool) returns (err: int, out: string)
    ensures err == Conflict(ParseBuffer, Chunks(text, LINE_SIZE), u, unique) && out == InsertText(text, u, unique)
  {
    out := text;
    err := CheckConflict(text, u, unique);
    if err != 0 {
      return;
    }
    var taken := CheckTaken(text, u.user);
    if !taken {
      out := out + (PrintUser(u) + [NL]);
    }
  }

  function IsUser(parse: string -> Option<User>, name: string): string -> bool {
    c => parse(c).Some? && parse(c).value.user == name
  }

  function IsOther(parse: string -> Option<User>, name: string): string -> bool {
    c => parse(c).Some? && parse(c).value.user != name
  }

  // Buffers that do not parse go together with the user's. Without one of the user nothing changes.
  function RemoveText(text: string, name: string): string {
    var cs := Chunks(text, LINE_SIZE);
    if Filter(IsUser(ParseBuffer, name), cs) == [] then text else PrintAll(Filter(IsOther(ParseBuffer, name), cs))
  }

  method RemoveUser(text: string, name: string) returns (ret: int, out: string)
    ensures ret == if Filter(IsUser(ParseBuffer, name), Chunks(text, LINE_SIZE)) == [] then 2 else 0
    ensures out == RemoveText(text, name)
  {
    out, ret := "", 2;
    var rest := text;
    ghost var all := PrintAll(Filter(IsOther(ParseBuffer, name), Chunks(text, LINE_SIZE)));
    AllChunks(text, LINE_SIZE);
    while rest != ""
      invariant forall c :: c in Chunks(rest, LINE_SIZE) ==> IsChunk(c)
      invariant out + PrintAll(Filter(IsOther(ParseBuffer, name), Chunks(rest, LINE_SIZE))) == all
      invariant ret == 0 || ret == 2
      invariant ret == 0 || Filter(IsUser(ParseBuffer, name), Chunks(rest, LINE_SIZE)) != [] <==>
                Filter(IsUser(ParseBuffer, name), Chunks(text, LINE_SIZE)) != []
      decreases |rest|
    {
      ghost var cs := Chunks(rest, LINE_SIZE);
      var buffer: string;
      buffer, rest := Fgets(rest, LINE_SIZE);
      assert cs[0] == buffer && cs[1..] == Chunks(rest, LINE_SIZE);
      assert buffer in cs && forall c :: c in cs[1..] ==> c in cs;
      var bad, v := ParsePwfile(buffer);
      if bad == 0 && v.user != name {
        ghost var more := Filter(IsOther(ParseBuffer, name), cs[1..]);
        assert ([buffer] + more)[1..] == more;
        Associate(out, CString(buffer), PrintAll(more));
        out := out + CString(buffer);
      } else if bad == 0 {
        ret := 0;
      }
    }
    if ret != 0 {
      out := text;
    }
  }

  // ---------------------------------------------------------------- the same, line by line

  // The lines of a file after an addition, and after a removal.
  function Inserted(ls: seq<string>, u: User, unique: bool): seq<string> {
    if Conflict(ParseLine, ls, u, unique) != 0 || Taken(ls, u.user) then ls else ls + [PrintUser(u)]
  }

  function Removed(ls: seq<string>, name: string): seq<string> {
    if Filter(IsUser(ParseLine, name), ls) == [] then ls else Filter(IsOther(ParseLine, name), ls)
  }

  lemma LineInBuffer(l: string)
    requires TidyLine(l, LINE_SIZE)
    ensures ParseBuffer(l + [NL]) == ParseLine(l)
  {
    CStringOfLine(l);
    assert (l + [NL])[..|l|] == l;
  }

  lemma {:induction false} BufferConflict(ls: seq<string>, u: User, unique: bool)
    requires Tidy(ls, LINE_SIZE)
    ensures Conflict(ParseBuffer, WithNewlines(ls), u, unique) == Conflict(ParseLine, ls, u, unique)
  {
    if ls != [] {
      assert TidyLine(ls[0], LINE_SIZE);
      LineInBuffer(ls[0]);
      assert WithNewlines(ls)[1..] == WithNewlines(ls[1..]);
      BufferConflict(ls[1..], u, unique);
    }
  }

  lemma {:induction false} BufferTaken(ls: seq<string>, user: string)
    requires Tidy(ls, LINE_SIZE)
    ensures Taken(WithNewlines(ls), user) == Taken(ls, user)
  {
    if ls != [] {
      assert TidyLine(ls[0], LINE_SIZE);
      NamedBeforeNewline(ls[0], user);
      assert WithNewlines(ls)[1..] == WithNewlines(ls[1..]);
      BufferTaken(ls[1..], user);
    }
  }

  lemma NamedBeforeNewline(l: string, user: string)
    requires TidyLine(l, LINE_SIZE)
    ensures NamedIn(CString(l + [NL]), user) <==> NamedIn(CString(l), user)
  {
    CStringOfLine(l);
    CStringWhole(l);
    var i := IndexOf(l, ':');
    IndexOfAppend(l, [NL], ':');
    if i < |l| {
      assert l[i] in l;
      assert (l + [NL])[..i] == l[..i];
    }
  }

  // On a file of newline-ended lines that fit the buffer the editor works line by line.
  lemma InsertTextLines(ls: seq<string>, u: User, unique: bool)
    requires Tidy(ls, LINE_SIZE)
    ensures InsertText(Text(ls), u, unique) == Text(Inserted(ls, u, unique))
  {
    assert Chunks(Text(ls), LINE_SIZE) == WithNewlines(ls) by {
      ChunksOfText(ls, LINE_SIZE);
    }
    BufferConflict(ls, u, unique);
    BufferTaken(ls, u.user);
    TextAppend(ls, [PrintUser(u)]);
    TextOne(PrintUser(u));
  }

  lemma RemoveTextLines(ls: seq<string>, name: string)
    requires Tidy(ls, LINE_SIZE)
    ensures RemoveText(Text(ls), name) == Text(Removed(ls, name))
  {
    assert Chunks(Text(ls), LINE_SIZE) == WithNewlines(ls) by {
      ChunksOfText(ls, LINE_SIZE);
    }
    forall l | l in ls
      ensures IsUser(ParseBuffer, name)(l + [NL]) == IsUser(ParseLine, name)(l)
      ensures IsOther(ParseBuffer, name)(l + [NL]) == IsOther(ParseLine, name)(l)
    {
      LineInBuffer(l);
    }
    FilterLines(IsUser(ParseBuffer, name), IsUser(ParseLine, name), ls);
    FilterLines(IsOther(ParseBuffer, name), IsOther(ParseLine, name), ls);
    var others := Filter(IsOther(ParseLine, name), ls);
    FilterTidy(IsOther(ParseLine, name), ls, LINE_SIZE);
    PrintLines(others, LINE_SIZE);
  }

  // ---------------------------------------------------------------- a last line that is not ended

  lemma {:induction false} TakenAppend(cs: seq<string>, c: string, user: string)
    ensures Taken(cs + [c], user) <==> Taken(cs, user) || NamedIn(CString(c), user)
  {
    if cs == [] {
      assert cs + [c] == [c];
    } else {
      assert (cs + [c])[1..] == cs[1..] + [c];
      TakenAppend(cs[1..], c, user);
    }
  }

  lemma PrintedName(u: User)
    ensures exists rest :: PrintUser(u) == u.user + ":" + rest
  {
    var fs := Columns(u);
    JoinCons(u.user, fs[1..], ':');
    assert fs == [u.user] + fs[1..];
    assert PrintUser(u) == u.user + ":" + Join(fs[1..], ':');
  }

  // A line glued to another has the name of the other, or a longer one.
  lemma GluedName(last: string, user: string, rest: string)
    requires last != "" && !NamedIn(last, user)
    ensures !NamedIn(last + (user + ":" + rest), user)
  {
    var more := user + ":" + rest;
    var l := last + more;
    IndexOfAppend(last, more, ':');
    if ':' in last {
      assert l[..IndexOf(last, ':')] == last[..IndexOf(last, ':')];
    } else {
      var i := |last| + IndexOf(more, ':');
      ColonBefore(user, rest);
      assert l[..i] == last + HeadOf(user);
      assert ':' !in last + HeadOf(user);
      assert ':' !in user ==> HeadOf(user) == user;
    }
  }

  lemma {:induction false} NotTakenNoUser(ls: seq<string>, user: string)
    requires Tidy(ls, LINE_SIZE) && !Taken(ls, user)
    ensures Filter(IsUser(ParseLine, user), ls) == []
  {
    if ls != [] {
      assert TidyLine(ls[0], LINE_SIZE);
      CStringWhole(ls[0]);
      if ParseLine(ls[0]).Some? {
        FirstField(ls[0], 6);
      }
      NotTakenNoUser(ls[1..], user);
    }
  }

  /**
    In a file whose last line is not ended the new user's line is glued to that one: the name is
    still free afterwards, and there is no user of that name to remove.
  */
  lemma GluedUserIsLost(ls: seq<string>, last: string, u: User, unique: bool)
    requires Tidy(ls, LINE_SIZE) && TidyLine(last, LINE_SIZE) && last != "" && TidyLine(last + PrintUser(u), LINE_SIZE)
    requires InsertText(Text(ls) + last, u, unique) != Text(ls) + last
    ensures var out := InsertText(Text(ls) + last, u, unique);
            && out == Text(ls + [last + PrintUser(u)])
            && !Taken(Chunks(out, LINE_SIZE), u.user)
            && RemoveText(out, u.user) == out
  {
    var glued := last + PrintUser(u);
    assert !Taken(ls, u.user) && !NamedIn(last, u.user) by {
      ChunksOfOpenText(ls, last, LINE_SIZE);
      TakenAppend(WithNewlines(ls), last, u.user);
      BufferTaken(ls, u.user);
      CStringWhole(last);
    }
    assert !Taken(ls + [glued], u.user) by {
      PrintedName(u);
      var rest :| PrintUser(u) == u.user + ":" + rest;
      GluedName(last, u.user, rest);
      CStringWhole(glued);
      TakenAppend(ls, glued, u.user);
    }
    GlueText(ls, last, PrintUser(u));
    ChunksOfText(ls + [glued], LINE_SIZE);
    BufferTaken(ls + [glued], u.user);
    NotTakenNoUser(ls + [glued], u.user);
    RemoveTextLines(ls + [glued], u.user);
  }

  // ---------------------------------------------------------------- runs

  ghost predicate DistinctBy<T(!new), K(!new)>(key: T -> K, s: seq<T>) {
    forall i, j :: 0 <= i < j < |s| ==> key(s[i]) != key(s[j])
  }

  lemma {:induction false} FilterDistinct<T(!new), K(!new)>(key: T -> K, p: T -> bool, s: seq<T>)
    requires DistinctBy(key, s)
    ensures DistinctBy(key, Filter(p, s))
  {
    if s != [] {
      var more := Filter(p, s[1..]);
      FilterDistinct(key, p, s[1..]);
      forall x | x in more ensures key(x) != key(s[0]) {
        FilterMember(p, s[1..], x);
        var j :| 0 <= j < |s[1..]| && s[1..][j] == x;
        assert s[j + 1] == x;
      }
      assert forall i :: 0 <= i < |more| ==> more[i] in more;
    }
  }

  lemma SnocDistinct<T(!new), K(!new)>(key: T -> K, s: seq<T>, y: T)
    requires forall x :: x in s ==> key(x) != key(y)
    ensures DistinctBy(key, s) ==> DistinctBy(key, s + [y])
  {
  }

  function NameOf(): string -> string {
    l => if ParseLine(l).Some? then ParseLine(l).value.user else ""
  }

  function IdOf(): string -> int {
    l => if ParseLine(l).Some? then ParseLine(l).value.uid else -1
  }

  ghost predicate AllParse(ls: seq<string>) {
    forall l :: l in ls ==> ParseLine(l).Some?
  }

  // Nothing objects exactly when no parsed line has the name or, when asked for, the id.
  lemma {:induction false} NoConflict(ls: seq<string>, u: User, unique: bool)
    ensures Conflict(ParseLine, ls, u, unique) == 0 <==>
            forall l :: l in ls && ParseLine(l).Some? ==>
              ParseLine(l).value.user != u.user && (unique ==> ParseLine(l).value.uid != u.uid)
  {
    if ls != [] {
      NoConflict(ls[1..], u, unique);
      assert forall l :: l in ls <==> l == ls[0] || l in ls[1..];
    }
  }

  lemma FirstFieldIsName(l: string, user: string)
    requires ParseLine(l).Some? && NamedIn(CString(l), user)
    ensures ParseLine(l).value.user == user
  {
    var s := CString(l);
    var i := IndexOf(s, ':');
    FirstField(l, 6);
    assert s == l[..|s|] && IndexOf(l, ':') == i && l[..i] == s[..i];
  }

  // In a file that parses, the second look for the name finds nothing new.
  lemma {:induction false} NotTaken(ls: seq<string>, user: string)
    requires AllParse(ls) && forall l :: l in ls ==> ParseLine(l).value.user != user
    ensures !Taken(ls, user)
  {
    if ls != [] {
      assert ls[0] in ls;
      if NamedIn(CString(ls[0]), user) {
        FirstFieldIsName(ls[0], user);
      }
      NotTaken(ls[1..], user);
    }
  }

  lemma InsertAppends(ls: seq<string>, u: User, unique: bool)
    requires AllParse(ls)
    ensures Inserted(ls, u, unique) == if Conflict(ParseLine, ls, u, unique) == 0 then ls + [PrintUser(u)] else ls
  {
    if Conflict(ParseLine, ls, u, unique) == 0 {
      NoConflict(ls, u, unique);
      NotTaken(ls, u.user);
    }
  }

  // The addition is refused, or no line has the name that will be read back.
  ghost predicate Clear(ls: seq<string>, u: User, unique: bool) {
    Conflict(ParseLine, ls, u, unique) != 0 || forall l :: l in ls ==> NameOf()(l) != HeadOf(u.user)
  }

  lemma InsertParses(ls: seq<string>, u: User, unique: bool)
    requires AllParse(ls)
    ensures AllParse(Inserted(ls, u, unique))
    ensures Tidy(ls, LINE_SIZE) && TidyLine(PrintUser(u), LINE_SIZE) ==> Tidy(Inserted(ls, u, unique), LINE_SIZE)
  {
    InsertAppends(ls, u, unique);
    PrintedHead(u);
  }

  lemma InsertNames(ls: seq<string>, u: User, unique: bool)
    requires AllParse(ls) && DistinctBy(NameOf(), ls)
    ensures DistinctBy(NameOf(), Inserted(ls, u, unique)) <==> Clear(ls, u, unique)
  {
    InsertAppends(ls, u, unique);
    if Conflict(ParseLine, ls, u, unique) == 0 {
      assert NameOf()(PrintUser(u)) == HeadOf(u.user) by {
        PrintedHead(u);
      }
      SnocDistinctIff(NameOf(), ls, PrintUser(u));
    }
  }

  lemma ColonFreeIsClear(ls: seq<string>, u: User, unique: bool)
    requires AllParse(ls) && ':' !in u.user
    ensures Clear(ls, u, unique)
  {
    NoConflict(ls, u, unique);
    assert HeadOf(u.user) == u.user by {
      PrintedHead(u);
    }
  }

  lemma InsertIds(ls: seq<string>, u: User)
    requires AllParse(ls) && ':' !in u.user && DistinctBy(IdOf(), ls)
    ensures DistinctBy(IdOf(), Inserted(ls, u, true))
  {
    InsertAppends(ls, u, true);
    if Conflict(ParseLine, ls, u, true) == 0 {
      NoConflict(ls, u, true);
      assert IdOf()(PrintUser(u)) == u.uid by {
        PrintedHead(u);
      }
      SnocDistinct(IdOf(), ls, PrintUser(u));
    }
  }

  /**
    An addition keeps the file parseable, and keeps the names pairwise different exactly when it
    is clear of the name that will be read back. For a name without a colon it always is, and
    then ids stay pairwise different, too, when the addition asks for that.
  */
  lemma InsertKeeps(ls: seq<string>, u: User, unique: bool)
    requires AllParse(ls)
    ensures AllParse(Inserted(ls, u, unique))
    ensures DistinctBy(NameOf(), ls) ==> (DistinctBy(NameOf(), Inserted(ls, u, unique)) <==> Clear(ls, u, unique))
    ensures ':' !in u.user ==> Clear(ls, u, unique)
    ensures ':' !in u.user && unique && DistinctBy(IdOf(), ls) ==> DistinctBy(IdOf(), Inserted(ls, u, unique))
    ensures Tidy(ls, LINE_SIZE) && TidyLine(PrintUser(u), LINE_SIZE) ==> Tidy(Inserted(ls, u, unique), LINE_SIZE)
  {
    InsertParses(ls, u, unique);
    if DistinctBy(NameOf(), ls) {
      InsertNames(ls, u, unique);
    }
    if ':' !in u.user {
      ColonFreeIsClear(ls, u, unique);
      if unique && DistinctBy(IdOf(), ls) {
        InsertIds(ls, u);
      }
    }
  }

  lemma SnocDistinctIff<T(!new), K(!new)>(key: T -> K, s: seq<T>, y: T)
    requires DistinctBy(key, s)
    ensures DistinctBy(key, s + [y]) <==> forall x :: x in s ==> key(x) != key(y)
  {
    var t := s + [y];
    if x :| x in s && key(x) == key(y) {
      var i :| 0 <= i < |s| && s[i] == x;
      assert t[i] == x && t[|s|] == y;
    } else {
      SnocDistinct(key, s, y);
    }
  }

  // Without a line of the user nothing changes; otherwise exactly the lines stay that parse as another user's.
  lemma RemoveLeaves(ls: seq<string>, name: string, l: string)
    ensures (forall k :: k in ls && ParseLine(k).Some? ==> ParseLine(k).value.user != name) ==> Removed(ls, name) == ls
    ensures (exists k :: k in ls && ParseLine(k).Some? && ParseLine(k).value.user == name) ==>
              (l in Removed(ls, name) <==> l in ls && ParseLine(l).Some? && ParseLine(l).value.user != name)
  {
    var mine := IsUser(ParseLine, name);
    FilterMember(IsOther(ParseLine, name), ls, l);
    if k :| k in ls && ParseLine(k).Some? && ParseLine(k).value.user == name {
      FilterMember(mine, ls, k);
    } else {
      FilterExcludes(mine, ls);
    }
  }

  lemma RemoveKeeps(ls: seq<string>, name: string)
    requires AllParse(ls)
    ensures AllParse(Removed(ls, name))
    ensures DistinctBy(NameOf(), ls) ==> DistinctBy(NameOf(), Removed(ls, name))
    ensures DistinctBy(IdOf(), ls) ==> DistinctBy(IdOf(), Removed(ls, name))
    ensures Tidy(ls, LINE_SIZE) ==> Tidy(Removed(ls, name), LINE_SIZE)
  {
    var p := IsOther(ParseLine, name);
    forall l | l in Filter(p, ls) ensures ParseLine(l).Some? {
      FilterMember(p, ls, l);
    }
    if DistinctBy(NameOf(), ls) {
      FilterDistinct(NameOf(), p, ls);
    }
    if DistinctBy(IdOf(), ls) {
      FilterDistinct(IdOf(), p, ls);
    }
    if Tidy(ls, LINE_SIZE) {
      FilterTidy(p, ls, LINE_SIZE);
    }
  }

  /**
    When nothing objects to an addition, removing the user again gives back the file if and only
    if nothing was added, since an unparseable line has the name, or the name has no colon and
    every line parses.
  */
  lemma RemoveUndoesInsert(ls: seq<string>, u: User, unique: bool)
    requires Conflict(ParseLine, ls, u, unique) == 0
    ensures Removed(Inserted(ls, u, unique), u.user) == ls <==>
            Taken(ls, u.user) || (':' !in u.user && AllParse(ls))
  {
    var line, mine, others := PrintUser(u), IsUser(ParseLine, u.user), IsOther(ParseLine, u.user);
    NoConflict(ls, u, unique);
    FilterExcludes(mine, ls);
    if !Taken(ls, u.user) {
      PrintedHead(u);
      FilterAppend(mine, ls, [line]);
      FilterAppend(others, ls, [line]);
      assert [line][1..] == [];
      FilterIsAll(others, ls);
    }
  }

  datatype Op = Add(u: User, unique: bool) | Del(name: string)

  function Step(ls: seq<string>, op: Op): seq<string> {
    match op
    case Add(u, unique) => Inserted(ls, u, unique)
    case Del(name) => Removed(ls, name)
  }

  function Run(ls: seq<string>, ops: seq<Op>): seq<string>
    decreases |ops|
  {
    if ops == [] then ls else Run(Step(ls, ops[0]), ops[1..])
  }

  // Names are pairwise different after every operation of a run.
  ghost predicate AlwaysDistinct(ls: seq<string>, ops: seq<Op>)
    decreases |ops|
  {
    DistinctBy(NameOf(), ls) && (ops != [] ==> AlwaysDistinct(Step(ls, ops[0]), ops[1..]))
  }

  // Every addition of a run is clear when its turn comes.
  ghost predicate AlwaysClear(ls: seq<string>, ops: seq<Op>)
    decreases |ops|
  {
    ops != [] ==> (ops[0].Add? ==> Clear(ls, ops[0].u, ops[0].unique)) && AlwaysClear(Step(ls, ops[0]), ops[1..])
  }

  lemma StepKeeps(ls: seq<string>, op: Op)
    requires AllParse(ls) && DistinctBy(NameOf(), ls)
    ensures AllParse(Step(ls, op))
    ensures DistinctBy(NameOf(), Step(ls, op)) <==> (op.Add? ==> Clear(ls, op.u, op.unique))
    ensures op.Add? && ':' !in op.u.user ==> Clear(ls, op.u, op.unique)
    ensures (op.Add? ==> ':' !in op.u.user && op.unique) && DistinctBy(IdOf(), ls) ==> DistinctBy(IdOf(), Step(ls, op))
    ensures Tidy(ls, LINE_SIZE) && (op.Add? ==> TidyLine(PrintUser(op.u), LINE_SIZE)) ==> Tidy(Step(ls, op), LINE_SIZE)
  {
    match op {
      case Add(u, unique) => InsertKeeps(ls, u, unique);
      case Del(name) => RemoveKeeps(ls, name);
    }
  }

  // Over any run names stay pairwise different if and only if every addition is clear.
  lemma {:induction false} RunStaysDistinct(ls: seq<string>, ops: seq<Op>)
    requires AllParse(ls) && DistinctBy(NameOf(), ls)
    ensures AlwaysDistinct(ls, ops) <==> AlwaysClear(ls, ops)
    decreases |ops|
  {
    if ops != [] {
      StepKeeps(ls, ops[0]);
      if DistinctBy(NameOf(), Step(ls, ops[0])) {
        RunStaysDistinct(Step(ls, ops[0]), ops[1..]);
      }
    }
  }

  // With names that have no colon every addition is clear, and ids stay different when every addition asks for it.
  lemma {:induction false} RunKeepsDistinct(ls: seq<string>, ops: seq<Op>)
    requires AllParse(ls) && DistinctBy(NameOf(), ls)
    requires forall i :: 0 <= i < |ops| ==> ops[i].Add? ==> ':' !in ops[i].u.user
    ensures AllParse(Run(ls, ops)) && DistinctBy(NameOf(), Run(ls, ops)) && AlwaysClear(ls, ops)
    ensures Tidy(ls, LINE_SIZE) && (forall i :: 0 <= i < |ops| ==> ops[i].Add? ==> TidyLine(PrintUser(ops[i].u), LINE_SIZE)) ==>
              Tidy(Run(ls, ops), LINE_SIZE)
    ensures DistinctBy(IdOf(), ls) && (forall i :: 0 <= i < |ops| ==> ops[i].Add? ==> ops[i].unique) ==>
              DistinctBy(IdOf(), Run(ls, ops))
    decreases |ops|
  {
    if ops != [] {
      StepKeeps(ls, ops[0]);
      RunKeepsDistinct(Step(ls, ops[0]), ops[1..]);
    }
  }

  // A name with a colon can be added beside a user whose name is what is in front of the colon.
  lemma ColonClash(first: User, second: User)
    requires ':' in second.user && first.user == HeadOf(second.user) && first.uid != second.uid
    ensures !DistinctBy(NameOf(), Inserted([PrintUser(first)], second, true))
  {
    var ls := [PrintUser(first)];
    assert ':' !in first.user && first.user != second.user;
    PrintedHead(first);
    NoConflict(ls, second, true);
    assert ls[0] in ls && AllParse(ls);
    InsertNames(ls, second, true);
  }
}
