/**
  The order in which the tree is written: a directory before its contents, siblings by `strcmp`.
  For a path map this is one particular sequence of paths, whatever the tree it is read from.
*/
module Preorder {
  import opened CText
  import opened Overlay

  predicate PathLess(a: Path, b: Path) {
    |b| > 0 && (|a| == 0 || StrLess(a[0], b[0]) || (a[0] == b[0] && PathLess(a[1..], b[1..])))
  }

  lemma {:induction false} PathTrichotomy(a: Path, b: Path)
    ensures PathLess(a, b) || a == b || PathLess(b, a)
    ensures !(PathLess(a, b) && PathLess(b, a))
    ensures !PathLess(a, a)
    decreases |a|
  {
    if |a| > 0 {
      StrTrichotomy(a[0], a[0]);
      PathTrichotomy(a[1..], a[1..]);
      if |b| > 0 {
        StrTrichotomy(a[0], b[0]);
        if a[0] == b[0] {
          PathTrichotomy(a[1..], b[1..]);
          assert a == [a[0]] + a[1..] && b == [b[0]] + b[1..];
        }
      }
    }
  }

  // Paths that part at some depth are ordered by the components there.
  lemma {:induction false} PartedPaths(base: Path, a: Path, b: Path)
    requires base < a && base < b && StrLess(a[|base|], b[|base|])
    ensures PathLess(a, b)
    decreases |base|
  {
    if base != [] {
      assert a[0] == base[0] == b[0];
      PartedPaths(base[1..], a[1..], b[1..]);
    }
  }

  lemma {:induction false} PrefixFirst(a: Path, b: Path)
    requires a < b
    ensures PathLess(a, b)
  {
    if a != [] {
      PrefixFirst(a[1..], b[1..]);
    }
  }

  ghost predicate Ascending(ps: seq<Path>) {
    forall i, j :: 0 <= i < j < |ps| ==> PathLess(ps[i], ps[j])
  }

  lemma AscendingFirst(ps: seq<Path>, q: Path)
    requires Ascending(ps) && q in ps
    ensures q == ps[0] || PathLess(ps[0], q)
  {
  }

  // An ascending sequence is determined by what is in it.
  lemma {:induction false} AscendingUnique(a: seq<Path>, b: seq<Path>)
    requires Ascending(a) && Ascending(b) && forall q :: q in a <==> q in b
    ensures a == b
  {
    assert |a| > 0 ==> a[0] in b;
    assert |b| > 0 ==> b[0] in a;
    if a != [] {
      assert a[0] in a;
      assert b[0] in b;
      AscendingFirst(a, b[0]);
      AscendingFirst(b, a[0]);
      PathTrichotomy(a[0], b[0]);
      assert a == [a[0]] + a[1..] && b == [b[0]] + b[1..];
      forall q ensures q in a[1..] <==> q in b[1..] {
        PathTrichotomy(q, q);
        assert q in a[1..] ==> PathLess(a[0], q);
        assert q in b[1..] ==> PathLess(b[0], q);
        assert q in a <==> q == a[0] || q in a[1..];
        assert q in b <==> q == b[0] || q in b[1..];
      }
      AscendingUnique(a[1..], b[1..]);
    }
  }

  // q is written: everything above it is a directory.
  ghost predicate Visible(m: Tree, q: Path) {
    q in m && q != [] && forall n {:trigger q[..n]} :: 0 < n < |q| ==> q[..n] in m && m[q[..n]].node.Dir?
  }

  // The paths written for the whole tree.
  ghost predicate IsListing(m: Tree, ps: seq<Path>) {
    Ascending(ps) && forall q :: q in ps <==> Visible(m, q)
  }

  ghost predicate Below(base: Path, names: seq<string>, q: Path) {
    base < q && q[|base|] in names
  }

  // The paths written for the entries of `base` that are called one of `names`.
  ghost predicate Lists(m: Tree, base: Path, names: seq<string>, ps: seq<Path>) {
    Ascending(ps) && forall q :: q in ps <==> Visible(m, q) && Below(base, names, q)
  }

  ghost predicate AllChildren(m: Tree, w: Path, names: seq<string>) {
    forall d :: w + [d] in m ==> d in names
  }

  // The paths written for all the entries of w.
  ghost predicate ListsBelow(m: Tree, w: Path, sub: seq<Path>) {
    exists names :: AllChildren(m, w, names) && Lists(m, w, names, sub)
  }

  // What follows an entry in the list: nothing, or its own contents when it is a directory.
  ghost predicate ListsContents(m: Tree, w: Path, sub: seq<Path>)
    requires w in m
  {
    if m[w].node.Dir? then ListsBelow(m, w, sub) else sub == []
  }

  lemma VisiblePrefix(m: Tree, w: Path, q: Path)
    requires Visible(m, q) && w < q && w != []
    ensures w in m && m[w].node.Dir? && q[..|w| + 1] in m
  {
    assert q[..|w|] == w;
    assert q[..|q|] == q;
  }

  // Everything written strictly below w is in the contents of w.
  lemma ContentsComplete(m: Tree, w: Path, sub: seq<Path>, q: Path)
    requires w in m && w != [] && ListsContents(m, w, sub)
    ensures q in sub <==> Visible(m, q) && w < q
  {
    if m[w].node.Dir? {
      var names :| AllChildren(m, w, names) && Lists(m, w, names, sub);
      if Visible(m, q) && w < q {
        VisiblePrefix(m, w, q);
        assert q[..|w| + 1] == w + [q[|w|]];
      }
    } else if Visible(m, q) && w < q {
      VisiblePrefix(m, w, q);
      assert false;
    }
  }

  lemma AscendingAppend(a: seq<Path>, b: seq<Path>)
    requires Ascending(a) && Ascending(b)
    requires forall p, q :: p in a && q in b ==> PathLess(p, q)
    ensures Ascending(a + b)
  {
  }

  // One more entry and its contents extend the listing of a directory.
  lemma ListsStep(m: Tree, base: Path, names: seq<string>, c: string, ps: seq<Path>, sub: seq<Path>)
    requires Lists(m, base, names, ps) && Visible(m, base + [c]) && ListsContents(m, base + [c], sub)
    requires Ascending(sub) && forall d :: d in names ==> StrLess(d, c)
    ensures Lists(m, base, names + [c], ps + ([base + [c]] + sub))
  {
    var w := base + [c];
    forall q ensures q in sub <==> Visible(m, q) && w < q {
      ContentsComplete(m, w, sub, q);
    }
    forall q | q in sub ensures PathLess(w, q) {
      PrefixFirst(w, q);
    }
    AscendingAppend([w], sub);
    forall p, q | p in ps && q in [w] + sub ensures PathLess(p, q) {
      assert base < q && q[|base|] == c;
      PartedPaths(base, p, q);
    }
    AscendingAppend(ps, [w] + sub);
    forall q ensures Below(base, names + [c], q) <==> Below(base, names, q) || q == w || w < q {
      if base < q && q[|base|] == c {
        assert q[..|w|] == w;
      }
    }
  }

  lemma ListsNext(m: Tree, base: Path, names: seq<string>, i: nat, ps: seq<Path>, sub: seq<Path>)
    requires i < |names| && forall j, k :: 0 <= j < k < |names| ==> StrLess(names[j], names[k])
    requires Lists(m, base, names[..i], ps) && Ascending(sub)
    requires Visible(m, base + [names[i]]) && ListsContents(m, base + [names[i]], sub)
    ensures Lists(m, base, names[..i + 1], ps + ([base + [names[i]]] + sub))
  {
    ListsStep(m, base, names[..i], names[i], ps, sub);
    assert names[..i] + [names[i]] == names[..i + 1];
  }

  lemma ListsAll(m: Tree, ps: seq<Path>)
    requires ListsBelow(m, [], ps)
    ensures IsListing(m, ps)
  {
    var names :| AllChildren(m, [], names) && Lists(m, [], names, ps);
    forall q | Visible(m, q) ensures Below([], names, q) {
      assert q[..1] == [] + [q[0]];
      assert q[..|q|] == q;
    }
  }

  // An entry of a directory that is written is written too.
  lemma VisibleChild(m: Tree, base: Path, c: string)
    requires base + [c] in m
    requires base == [] || (Visible(m, base) && m[base].node.Dir?)
    ensures Visible(m, base + [c])
  {
    var q := base + [c];
    forall n | 0 < n < |q| ensures q[..n] in m && m[q[..n]].node.Dir? {
      assert q[..n] == base[..n];
      assert base[..|base|] == base;
    }
  }

  // A path of a closed tree is shorter than the number of paths in the tree.
  lemma DepthBound(m: Tree, p: Path)
    requires PrefixClosed(m) && p in m
    ensures |p| < |m|
  {
    var ps := Prefixes(p);
    forall q | q in ps ensures q in m.Keys {
      PrefixesPresent(m, p, |q|);
      assert p[..|q|] == q;
    }
    SubsetSize(ps, m.Keys);
  }

  ghost function Prefixes(p: Path): (ps: set<Path>)
    ensures |ps| == |p| + 1
    ensures forall q :: q in ps ==> q <= p
  {
    if p == [] then {p} else {p} + Prefixes(Parent(p))
  }

  lemma SubsetSize<T>(a: set<T>, b: set<T>)
    requires a <= b
    ensures |a| <= |b|
  {
    if a != {} {
      var x :| x in a;
      SubsetSize(a - {x}, b - {x});
    }
  }
}
