/**
  C text: `strchr`, `strcmp` and cutting at a separator, over NUL-free strings.
  A C `char` is a Dafny `char`, so every result holds for all 256 byte values.
*/
module CText {

  const NUL: char := '\0'

  datatype Option<+T> = None | Some(value: T)

  lemma Associate<T>(a: seq<T>, b: seq<T>, c: seq<T>)
    ensures a + b + c == a + (b + c)
  {
  }

  // The members of s that satisfy p, in order.
  function Filter<T>(p: T -> bool, s: seq<T>): seq<T> {
    if s == [] then [] else if p(s[0]) then [s[0]] + Filter(p, s[1..]) else Filter(p, s[1..])
  }

  lemma {:induction false} FilterMember<T>(p: T -> bool, s: seq<T>, x: T)
    ensures x in Filter(p, s) <==> x in s && p(x)
  {
    if s != [] {
      FilterMember(p, s[1..], x);
    }
  }

  lemma {:induction false} FilterAppend<T>(p: T -> bool, a: seq<T>, b: seq<T>)
    ensures Filter(p, a + b) == Filter(p, a) + Filter(p, b)
  {
    if a == [] {
      assert a + b == b;
    } else {
      assert (a + b)[1..] == a[1..] + b;
      FilterAppend(p, a[1..], b);
    }
  }

  lemma FilterCons<T>(p: T -> bool, x: T, s: seq<T>)
    ensures Filter(p, [x] + s) == if p(x) then [x] + Filter(p, s) else Filter(p, s)
  {
    assert ([x] + s)[1..] == s;
  }

  lemma {:induction false} FilterExcludes<T(!new)>(p: T -> bool, s: seq<T>)
    requires forall x :: x in s ==> !p(x)
    ensures Filter(p, s) == []
  {
    if s != [] {
      FilterExcludes(p, s[1..]);
    }
  }

  // Filtering drops nothing exactly when everything satisfies p.
  lemma {:induction false} FilterIsAll<T(!new)>(p: T -> bool, s: seq<T>)
    ensures |Filter(p, s)| <= |s|
    ensures Filter(p, s) == s <==> forall x :: x in s ==> p(x)
  {
    if s != [] {
      FilterIsAll(p, s[1..]);
      var more := Filter(p, s[1..]);
      assert s == [s[0]] + s[1..];
      assert p(s[0]) ==> Filter(p, s)[1..] == more;
      assert s[0] in s;
    }
  }

  // Filtering for the opposite of p leaves nothing for p, and everything for itself.
  lemma {:induction false} FilterTwice<T>(p: T -> bool, q: T -> bool, s: seq<T>)
    requires forall x :: q(x) <==> !p(x)
    ensures Filter(p, Filter(q, s)) == [] && Filter(q, Filter(q, s)) == Filter(q, s)
  {
    if s != [] {
      FilterTwice(p, q, s[1..]);
      FilterCons(p, s[0], Filter(q, s[1..]));
      FilterCons(q, s[0], Filter(q, s[1..]));
    }
  }

  // When nothing satisfies p, filtering for its opposite drops nothing.
  lemma {:induction false} FilterNone<T>(p: T -> bool, q: T -> bool, s: seq<T>)
    requires forall x :: q(x) <==> !p(x)
    ensures Filter(p, s) == [] ==> Filter(q, s) == s
  {
    if s != [] {
      FilterNone(p, q, s[1..]);
    }
  }

  // The offset at which `strchr(s + from, c)` points, or |s| when it returns NULL.
  function IndexFrom(s: string, c: char, from: nat): (i: nat)
    requires from <= |s|
    ensures from <= i <= |s|
    decreases |s| - from
  {
    if from == |s| || s[from] == c then from else IndexFrom(s, c, from + 1)
  }

  lemma {:induction false} IndexFromFirst(s: string, c: char, from: nat)
    requires from <= |s|
    ensures var i := IndexFrom(s, c, from); (i < |s| ==> s[i] == c) && forall k :: from <= k < i ==> s[k] != c
    decreases |s| - from
  {
    if from < |s| && s[from] != c {
      IndexFromFirst(s, c, from + 1);
    }
  }

  lemma {:induction false} IndexFromIs(s: string, c: char, from: nat, i: nat)
    requires from <= i <= |s| && (i < |s| ==> s[i] == c) && forall k :: from <= k < i ==> s[k] != c
    ensures IndexFrom(s, c, from) == i
    decreases i - from
  {
    if from < i {
      IndexFromIs(s, c, from + 1, i);
    }
  }

  function IndexOf(s: string, c: char): (i: nat)
    ensures i <= |s|
    ensures forall k :: 0 <= k < i ==> s[k] != c
    ensures i < |s| ==> s[i] == c
  {
    IndexFromFirst(s, c, 0);
    IndexFrom(s, c, 0)
  }

  // A character is found where it was when something is put behind the text.
  lemma IndexOfAppend(s: string, t: string, c: char)
    ensures c in s ==> IndexOf(s + t, c) == IndexOf(s, c)
    ensures c !in s ==> IndexOf(s + t, c) == |s| + IndexOf(t, c)
  {
    IndexFromIs(s + t, c, 0, if c in s then IndexOf(s, c) else |s| + IndexOf(t, c));
  }

  // The pieces of `s` between separators: one more than there are separators.
  function Split(s: string, c: char): (parts: seq<string>)
    ensures |parts| >= 1
    decreases |s|
  {
    var i := IndexOf(s, c);
    if i == |s| then [s] else [s[..i]] + Split(s[i + 1..], c)
  }

  lemma SplitThere(s: string, c: char, i: nat)
    requires i == IndexOf(s, c) && i < |s|
    ensures Split(s, c) == [s[..i]] + Split(s[i + 1..], c)
  {
  }

  lemma SplitNowhere(s: string, c: char)
    requires IndexOf(s, c) == |s|
    ensures Split(s, c) == [s]
  {
  }

  function Join(parts: seq<string>, c: char): string
  {
    if |parts| == 0 then ""
    else if |parts| == 1 then parts[0]
    else parts[0] + [c] + Join(parts[1..], c)
  }

  ghost predicate Free(parts: seq<string>, c: char) {
    forall k :: 0 <= k < |parts| ==> c !in parts[k]
  }

  lemma {:induction false} SplitFree(s: string, c: char)
    ensures Free(Split(s, c), c)
    decreases |s|
  {
    var i := IndexOf(s, c);
    if i < |s| {
      SplitFree(s[i + 1..], c);
    }
  }

  lemma JoinCons(part: string, rest: seq<string>, c: char)
    requires rest != []
    ensures Join([part] + rest, c) == part + [c] + Join(rest, c)
  {
    assert ([part] + rest)[1..] == rest;
  }

  lemma {:induction false} JoinSnoc(parts: seq<string>, last: string, c: char)
    requires parts != []
    ensures Join(parts + [last], c) == Join(parts, c) + [c] + last
  {
    if |parts| > 1 {
      JoinSnoc(parts[1..], last, c);
      JoinCons(parts[0], parts[1..] + [last], c);
      assert parts + [last] == [parts[0]] + (parts[1..] + [last]);
    }
  }

  lemma {:induction false} JoinSplit(s: string, c: char)
    ensures Join(Split(s, c), c) == s
    decreases |s|
  {
    var i := IndexOf(s, c);
    if i < |s| {
      var rest := s[i + 1..];
      assert Join(Split(rest, c), c) == rest by {
        JoinSplit(rest, c);
      }
      JoinCons(s[..i], Split(rest, c), c);
      CutAt(s, i);
    }
  }

  lemma CutAt<T>(s: seq<T>, i: nat)
    requires i < |s|
    ensures s == s[..i] + [s[i]] + s[i + 1..]
  {
  }

  lemma SplitCons(part: string, tail: string, c: char)
    requires c !in part
    ensures Split(part + [c] + tail, c) == [part] + Split(tail, c)
  {
    var s := part + [c] + tail;
    assert s[|part|] == c;
    assert forall k :: 0 <= k < |part| ==> s[k] == part[k];
    assert IndexOf(s, c) == |part|;
    assert s[..|part|] == part && s[|part| + 1..] == tail;
  }

  lemma {:induction false} SplitJoin(parts: seq<string>, c: char)
    requires |parts| >= 1 && Free(parts, c)
    ensures Split(Join(parts, c), c) == parts
  {
    if |parts| > 1 {
      SplitJoin(parts[1..], c);
      SplitCons(parts[0], Join(parts[1..], c), c);
      assert parts == [parts[0]] + parts[1..];
    } else {
      assert parts == [parts[0]];
    }
  }

  // strcmp(a, b) < 0
  predicate StrLess(a: string, b: string) {
    |b| > 0 && (|a| == 0 || a[0] < b[0] || (a[0] == b[0] && StrLess(a[1..], b[1..])))
  }

  // a comes before b at position i: it ends there, or its byte is the smaller one.
  ghost predicate LessAt(a: string, b: string, i: nat) {
    i <= |a| && i < |b| && a[..i] == b[..i] && (i == |a| || a[i] < b[i])
  }

  // That is, byte by byte up to the first difference, and a proper prefix comes first.
  lemma {:induction false} StrLessMeans(a: string, b: string)
    ensures StrLess(a, b) <==> exists i: nat :: LessAt(a, b, i)
  {
    if |a| == 0 || |b| == 0 || a[0] != b[0] {
      assert StrLess(a, b) ==> LessAt(a, b, 0);
      assert forall i: nat :: LessAt(a, b, i) && i > 0 ==> a[..i][0] == b[..i][0];
    } else {
      StrLessMeans(a[1..], b[1..]);
      if i: nat :| LessAt(a[1..], b[1..], i) {
        assert a[..i + 1] == [a[0]] + a[1..][..i] && b[..i + 1] == [b[0]] + b[1..][..i];
        assert LessAt(a, b, i + 1);
      }
      if i: nat :| LessAt(a, b, i) {
        assert i > 0 && a[1..][..i - 1] == a[..i][1..] && b[1..][..i - 1] == b[..i][1..];
        assert LessAt(a[1..], b[1..], i - 1);
      }
    }
  }

  function StrCmp(a: string, b: string): (r: int)
    ensures r < 0 <==> StrLess(a, b)
    ensures r == 0 <==> a == b
    ensures r > 0 <==> StrLess(b, a)
  {
    StrTrichotomy(a, b);
    if a == b then 0 else if StrLess(a, b) then -1 else 1
  }

  lemma {:induction false} StrTrichotomy(a: string, b: string)
    ensures StrLess(a, b) || a == b || StrLess(b, a)
    ensures !(StrLess(a, b) && StrLess(b, a))
    ensures !StrLess(a, a)
  {
    if |a| > 0 && |b| > 0 && a[0] == b[0] {
      StrTrichotomy(a[1..], b[1..]);
      assert a[1..] == b[1..] ==> a == b;
    }
    if |a| > 0 {
      StrTrichotomy(a[1..], a[1..]);
    }
  }

  lemma {:induction false} StrTransitive(a: string, b: string, c: string)
    requires StrLess(a, b) && StrLess(b, c)
    ensures StrLess(a, c)
  {
    if |a| > 0 && a[0] == b[0] && b[0] == c[0] {
      StrTransitive(a[1..], b[1..], c[1..]);
    }
  }
}
