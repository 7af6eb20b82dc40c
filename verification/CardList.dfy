/**
  The list of cards: linked from a sentinel in ascending order of card number, filled first
  from the devices present and then from the configuration files.
*/
module CardList {

  datatype Card = Card(id: int, present: bool)

  ghost predicate Ascending(cs: seq<Card>) {
    forall i, j :: 0 <= i < j < |cs| ==> cs[i].id < cs[j].id
  }

  // The first place whose card does not come before id.
  function Position(cs: seq<Card>, id: int): (p: nat)
    ensures p <= |cs|
  {
    if cs == [] || cs[0].id >= id then 0 else 1 + Position(cs[1..], id)
  }

  lemma {:induction false} PositionIs(cs: seq<Card>, id: int, p: nat)
    requires p <= |cs| && (p < |cs| ==> cs[p].id >= id) && forall k :: 0 <= k < p ==> cs[k].id < id
    ensures Position(cs, id) == p
  {
    if p > 0 {
      PositionIs(cs[1..], id, p - 1);
    }
  }

  lemma {:induction false} PositionFirst(cs: seq<Card>, id: int)
    ensures var p := Position(cs, id);
            (p < |cs| ==> cs[p].id >= id) && forall k :: 0 <= k < p ==> cs[k].id < id
  {
    if cs != [] && cs[0].id < id {
      PositionFirst(cs[1..], id);
    }
  }

  function PutAt(cs: seq<Card>, p: nat, c: Card): seq<Card>
    requires p <= |cs|
  {
    cs[..p] + [c] + cs[p..]
  }

  // One configuration file more: a card that is not in the list yet is added as not present.
  function Merge(cs: seq<Card>, id: int): seq<Card> {
    var p := Position(cs, id);
    if p < |cs| && cs[p].id == id then cs else PutAt(cs, p, Card(id, false))
  }

  function MergeAll(cs: seq<Card>, ids: seq<int>): seq<Card>
    decreases |ids|
  {
    if ids == [] then cs else MergeAll(Merge(cs, ids[0]), ids[1..])
  }

  ghost predicate HasId(cs: seq<Card>, id: int) {
    exists i :: 0 <= i < |cs| && cs[i].id == id
  }

  lemma PutAtMembers(cs: seq<Card>, p: nat, c: Card, x: Card)
    requires p <= |cs|
    ensures x in PutAt(cs, p, c) <==> x in cs || x == c
  {
    assert cs == cs[..p] + cs[p..];
  }

  lemma {:induction false} PutAtAscending(cs: seq<Card>, id: int, present: bool)
    requires Ascending(cs) && !HasId(cs, id)
    ensures Ascending(PutAt(cs, Position(cs, id), Card(id, present)))
  {
    PositionFirst(cs, id);
    var p := Position(cs, id);
    assert p < |cs| ==> cs[p].id != id;
    PutBetween(cs, p, Card(id, present));
  }

  lemma PutBetween(cs: seq<Card>, p: nat, c: Card)
    requires Ascending(cs) && p <= |cs|
    requires (forall k :: 0 <= k < p ==> cs[k].id < c.id) && (p < |cs| ==> c.id < cs[p].id)
    ensures Ascending(PutAt(cs, p, c))
  {
    var r := PutAt(cs, p, c);
    assert forall k :: 0 <= k < p ==> r[k] == cs[k];
    assert forall k :: p < k < |r| ==> r[k] == cs[k - 1];
  }

  // The card at the position has the number, or no card has it.
  lemma PositionFinds(cs: seq<Card>, id: int)
    requires Ascending(cs)
    ensures HasId(cs, id) <==> Position(cs, id) < |cs| && cs[Position(cs, id)].id == id
  {
    PositionFirst(cs, id);
  }

  // Merging keeps the order and every card, and adds exactly the card that was missing.
  lemma MergeMeaning(cs: seq<Card>, id: int)
    requires Ascending(cs)
    ensures Ascending(Merge(cs, id)) && HasId(Merge(cs, id), id)
    ensures forall x :: x in Merge(cs, id) <==> x in cs || (!HasId(cs, id) && x == Card(id, false))
    ensures |Merge(cs, id)| == |cs| + if HasId(cs, id) then 0 else 1
  {
    PositionFinds(cs, id);
    if !HasId(cs, id) {
      var p, c := Position(cs, id), Card(id, false);
      PutAtAscending(cs, id, false);
      forall x ensures x in PutAt(cs, p, c) <==> x in cs || x == c {
        PutAtMembers(cs, p, c, x);
      }
      assert PutAt(cs, p, c)[p] == c;
    }
  }

  lemma HasIdMember(cs: seq<Card>, id: int)
    ensures HasId(cs, id) <==> exists x :: x in cs && x.id == id
  {
    if HasId(cs, id) {
      var i :| 0 <= i < |cs| && cs[i].id == id;
      assert cs[i] in cs;
    }
  }

  lemma MergeHasId(cs: seq<Card>, id: int, k: int)
    requires Ascending(cs)
    ensures HasId(Merge(cs, id), k) <==> HasId(cs, k) || k == id
  {
    MergeMeaning(cs, id);
    HasIdMember(cs, k);
    HasIdMember(Merge(cs, id), k);
  }

  /**
    After merging any files in any order the list is ascending, holds the union of the card
    numbers, and the cards that were in it are unchanged.
  */
  lemma {:induction false} MergeAllMeaning(cs: seq<Card>, ids: seq<int>)
    requires Ascending(cs)
    ensures Ascending(MergeAll(cs, ids))
    ensures forall x :: x in MergeAll(cs, ids) <==> x in cs || (!x.present && x.id in ids && !HasId(cs, x.id))
    decreases |ids|
  {
    if ids != [] {
      var id := ids[0];
      var next := Merge(cs, id);
      MergeMeaning(cs, id);
      MergeAllMeaning(next, ids[1..]);
      forall x ensures x in MergeAll(cs, ids) <==> x in cs || (!x.present && x.id in ids && !HasId(cs, x.id)) {
        MergeHasId(cs, id, x.id);
        HasIdMember(cs, x.id);
      }
    }
  }

  lemma {:induction false} AscendingUnique(a: seq<Card>, b: seq<Card>)
    requires Ascending(a) && Ascending(b) && forall x :: x in a <==> x in b
    ensures a == b
  {
    assert |a| > 0 ==> a[0] in b;
    assert |b| > 0 ==> b[0] in a;
    if a != [] {
      assert a[0] in a && b[0] in b;
      assert a == [a[0]] + a[1..] && b == [b[0]] + b[1..];
      assert a[0] == b[0];
      forall x ensures x in a[1..] <==> x in b[1..] {
        assert x in a <==> x == a[0] || x in a[1..];
        assert x in b <==> x == b[0] || x in b[1..];
      }
      AscendingUnique(a[1..], b[1..]);
    }
  }

  // The order of the files, and files met twice, make no difference.
  lemma MergeOrderIndependent(cs: seq<Card>, xs: seq<int>, ys: seq<int>)
    requires Ascending(cs) && forall k :: k in xs <==> k in ys
    ensures MergeAll(cs, xs) == MergeAll(cs, ys)
  {
    MergeAllMeaning(cs, xs);
    MergeAllMeaning(cs, ys);
    AscendingUnique(MergeAll(cs, xs), MergeAll(cs, ys));
  }

  // ---------------------------------------------------------------- the list in memory

  class MicInfo {
    var id: int
    var present: bool
    var next: MicInfo?

    constructor (id: int, present: bool, next: MicInfo?)
      ensures this.id == id && this.present == present && this.next == next
    {
      this.id, this.present, this.next := id, present, next;
    }
  }

  // The nodes linked from the first one, with the cards they stand for.
  ghost predicate Chain(nodes: seq<MicInfo>, cs: seq<Card>)
    reads nodes
  {
    && |nodes| == |cs| > 0
    && (forall i, j :: 0 <= i < j < |nodes| ==> nodes[i] != nodes[j])
    && (forall i {:trigger nodes[i].next} :: 0 <= i < |nodes| ==> nodes[i].next == Successor(nodes, i))
    && (forall i {:trigger nodes[i].id} :: 0 <= i < |nodes| ==> nodes[i].id == cs[i].id && nodes[i].present == cs[i].present)
  }

  function Successor(nodes: seq<MicInfo>, i: nat): MicInfo?
    requires i < |nodes|
  {
    if i + 1 < |nodes| then nodes[i + 1] else null
  }

  ghost function NodeSet(nodes: seq<MicInfo>): set<MicInfo> {
    set n | n in nodes
  }

  // Links a new node in behind the k-th one.
  method InsertAfter(mic: MicInfo, id: int, present: bool, ghost nodes: seq<MicInfo>, ghost cs: seq<Card>, ghost k: nat)
    returns (tmp: MicInfo, ghost nodes': seq<MicInfo>)
    requires Chain(nodes, cs) && k < |nodes| && nodes[k] == mic
    modifies mic`next
    ensures fresh(tmp) && nodes' == nodes[..k + 1] + [tmp] + nodes[k + 1..]
    ensures Chain(nodes', PutAt(cs, k + 1, Card(id, present)))
  {
    tmp := new MicInfo(id, present, mic.next);
    mic.next := tmp;
    nodes' := nodes[..k + 1] + [tmp] + nodes[k + 1..];
    ghost var cs' := PutAt(cs, k + 1, Card(id, present));
    forall i | 0 <= i < |nodes'|
      ensures nodes'[i].next == Successor(nodes', i) && nodes'[i].id == cs'[i].id && nodes'[i].present == cs'[i].present
    {
      if i <= k {
        assert nodes'[i] == nodes[i] && cs'[i] == cs[i];
      } else if i > k + 1 {
        assert nodes'[i] == nodes[i - 1] && cs'[i] == cs[i - 1];
      }
    }
  }

  // The sentinel's card in front of the list.
  function WithSentinel(cs: seq<Card>): seq<Card> {
    [Card(0, false)] + cs
  }

  lemma SentinelPut(cs: seq<Card>, p: nat, c: Card)
    requires p <= |cs|
    ensures PutAt(WithSentinel(cs), p + 1, c) == WithSentinel(PutAt(cs, p, c))
  {
  }

  // One configuration file: walk to the place of the card and add it unless it is there.
  method AddNotPresent(miclist: MicInfo, id: int, ghost nodes: seq<MicInfo>, ghost cs: seq<Card>)
    returns (added: bool, ghost nodes': seq<MicInfo>)
    requires Chain(nodes, WithSentinel(cs)) && nodes[0] == miclist && Ascending(cs)
    modifies NodeSet(nodes)
    ensures Chain(nodes', WithSentinel(Merge(cs, id))) && nodes'[0] == miclist
    ensures added <==> !HasId(cs, id)
    ensures fresh(NodeSet(nodes') - NodeSet(nodes))
  {
    PositionFinds(cs, id);
    var mic := miclist;
    ghost var k := 0;
    while mic.next != null && mic.next.id < id
      invariant 0 <= k <= |cs| && nodes[k] == mic && Chain(nodes, WithSentinel(cs))
      invariant forall i :: 0 <= i < k ==> cs[i].id < id
      decreases |cs| - k
    {
      assert mic.next == nodes[k + 1] && WithSentinel(cs)[k + 1] == cs[k];
      mic := mic.next;
      k := k + 1;
    }
    assert mic.next == Successor(nodes, k);
    assert k < |cs| ==> mic.next.id == cs[k].id by {
      assert k < |cs| ==> nodes[k + 1].id == WithSentinel(cs)[k + 1].id;
    }
    PositionIs(cs, id, k);
    if mic.next != null && mic.next.id == id {
      added, nodes' := false, nodes;
    } else {
      var tmp: MicInfo;
      tmp, nodes' := InsertAfter(mic, id, false, nodes, WithSentinel(cs), k);
      SentinelPut(cs, k, Card(id, false));
      added := true;
    }
  }

  // All configuration files, in whatever order the directory lists them.
  method AddMiclistNotPresent(miclist: MicInfo, ids: seq<int>, cnt: int, ghost nodes: seq<MicInfo>, ghost cs: seq<Card>)
    returns (cnt': int, ghost nodes': seq<MicInfo>)
    requires Chain(nodes, WithSentinel(cs)) && nodes[0] == miclist && Ascending(cs)
    modifies NodeSet(nodes)
    ensures Chain(nodes', WithSentinel(MergeAll(cs, ids))) && nodes'[0] == miclist
    ensures cnt' - cnt == |MergeAll(cs, ids)| - |cs|
  {
    cnt', nodes' := cnt, nodes;
    ghost var now := cs;
    var i := 0;
    while i < |ids|
      invariant 0 <= i <= |ids| && Chain(nodes', WithSentinel(now)) && nodes'[0] == miclist && Ascending(now)
      invariant MergeAll(now, ids[i..]) == MergeAll(cs, ids) && cnt' - cnt == |now| - |cs|
      invariant fresh(NodeSet(nodes') - NodeSet(nodes))
    {
      var added: bool;
      added, nodes' := AddNotPresent(miclist, ids[i], nodes', now);
      if added {
        cnt' := cnt' + 1;
      }
      MergeMeaning(now, ids[i]);
      assert ids[i..][1..] == ids[i + 1..];
      now := Merge(now, ids[i]);
      i := i + 1;
    }
  }

  // ---------------------------------------------------------------- the cards that are present

  function Probe(cs: seq<Card>, id: int): seq<Card> {
    PutAt(cs, Position(cs, id), Card(id, true))
  }

  function ProbeAll(ids: seq<int>): seq<Card> {
    if ids == [] then [] else Probe(ProbeAll(ids[..|ids| - 1]), ids[|ids| - 1])
  }

  ghost predicate Distinct(ids: seq<int>) {
    forall i, j :: 0 <= i < j < |ids| ==> ids[i] != ids[j]
  }

  // The list from the sentinel on holds the cards found, in ascending order.
  lemma {:induction false} ProbeAllMeaning(ids: seq<int>)
    requires Distinct(ids)
    ensures Ascending(ProbeAll(ids)) && |ProbeAll(ids)| == |ids|
    ensures forall x :: x in ProbeAll(ids) <==> x.present && x.id in ids
  {
    if ids != [] {
      var init, id := ids[..|ids| - 1], ids[|ids| - 1];
      var cs := ProbeAll(init);
      ProbeAllMeaning(init);
      assert id !in init && ids == init + [id];
      HasIdMember(cs, id);
      ProbeMeaning(cs, id);
    }
  }

  lemma ProbeMeaning(cs: seq<Card>, id: int)
    requires Ascending(cs) && !HasId(cs, id)
    ensures Ascending(Probe(cs, id)) && |Probe(cs, id)| == |cs| + 1
    ensures forall x :: x in Probe(cs, id) <==> x in cs || x == Card(id, true)
  {
    PutAtAscending(cs, id, true);
    forall x ensures x in Probe(cs, id) <==> x in cs || x == Card(id, true) {
      PutAtMembers(cs, Position(cs, id), Card(id, true), x);
    }
  }

  // What a caller sees who is handed the node of the last card found.
  function Returned(ids: seq<int>): seq<Card>
    requires ids != []
  {
    var cs := ProbeAll(ids[..|ids| - 1]);
    ProbeAll(ids)[Position(cs, ids[|ids| - 1])..]
  }

  // The list handed out is complete exactly when the card found last has the smallest number.
  lemma {:induction false} ReturnedIsComplete(ids: seq<int>)
    requires Distinct(ids) && ids != []
    ensures Returned(ids) == ProbeAll(ids) <==> forall k :: k in ids ==> ids[|ids| - 1] <= k
  {
    var init, id := ids[..|ids| - 1], ids[|ids| - 1];
    var cs := ProbeAll(init);
    var p := Position(cs, id);
    assert ids == init + [id];
    assert Returned(ids) == ProbeAll(ids) <==> p == 0 by {
      SuffixIsAll(PutAt(cs, p, Card(id, true)), p);
    }
    assert p == 0 <==> forall k :: k in init + [id] ==> id <= k by {
      ProbeAllMeaning(init);
      SmallestIsFirst(cs, init, id);
    }
  }

  lemma SuffixIsAll(cs: seq<Card>, p: nat)
    requires p <= |cs|
    ensures cs[p..] == cs <==> p == 0
  {
  }

  lemma {:induction false} SmallestIsFirst(cs: seq<Card>, init: seq<int>, id: int)
    requires forall x :: x in cs <==> x.present && x.id in init
    requires Ascending(cs) && id !in init
    ensures Position(cs, id) == 0 <==> forall k :: k in init + [id] ==> id <= k
  {
    PositionFirst(cs, id);
    if Position(cs, id) == 0 {
      forall k | k in init ensures id <= k {
        assert Card(k, true) in cs;
      }
    } else {
      assert cs[0] in cs;
      assert cs[0].id in init + [id];
    }
  }

  // ---------------------------------------------------------------- the list with its sentinel

  // The place for a card in the list that holds the sentinel, too, wherever that is.
  function Spot(cs: seq<Card>, id: int): (p: nat)
    requires cs != []
    ensures p <= |cs|
  {
    if cs[0].id > id then 0 else if cs[0].id == id then 1 else Position(cs, id)
  }

  function ProbeList(ids: seq<int>): (cs: seq<Card>)
    ensures cs != []
  {
    if ids == [] then [Card(0, false)]
    else
      var cs, id := ProbeList(ids[..|ids| - 1]), ids[|ids| - 1];
      PutAt(cs, Spot(cs, id), Card(id, true))
  }

  // Where the card found last is.
  function LastSpot(ids: seq<int>): nat
    requires ids != []
  {
    Spot(ProbeList(ids[..|ids| - 1]), ids[|ids| - 1])
  }

  ghost predicate Sorted(cs: seq<Card>) {
    forall i, j :: 0 <= i < j < |cs| ==> cs[i].id <= cs[j].id
  }

  lemma PutSorted(cs: seq<Card>, p: nat, c: Card)
    requires Sorted(cs) && p <= |cs|
    requires (p > 0 ==> cs[p - 1].id <= c.id) && (p < |cs| ==> c.id <= cs[p].id)
    ensures Sorted(PutAt(cs, p, c))
  {
    var r := PutAt(cs, p, c);
    assert forall k :: 0 <= k < p ==> r[k] == cs[k];
    assert forall k :: p < k < |r| ==> r[k] == cs[k - 1];
  }

  lemma SpotSorted(cs: seq<Card>, id: int, present: bool)
    requires cs != [] && Sorted(cs)
    ensures Sorted(PutAt(cs, Spot(cs, id), Card(id, present)))
  {
    PositionFirst(cs, id);
    PutSorted(cs, Spot(cs, id), Card(id, present));
  }

  // Whatever numbers are found, negative or twice, the list is sorted and holds them and the sentinel.
  lemma {:induction false} ProbeListMeaning(ids: seq<int>)
    ensures Sorted(ProbeList(ids)) && |ProbeList(ids)| == |ids| + 1
    ensures forall x :: x in ProbeList(ids) <==> x == Card(0, false) || (x.present && x.id in ids)
  {
    if ids != [] {
      var init, id := ids[..|ids| - 1], ids[|ids| - 1];
      var cs := ProbeList(init);
      ProbeListMeaning(init);
      SpotSorted(cs, id, true);
      assert ids == init + [id];
      forall x ensures x in ProbeList(ids) <==> x in cs || x == Card(id, true) {
        PutAtMembers(cs, Spot(cs, id), Card(id, true), x);
      }
    }
  }

  ghost predicate NonNegative(ids: seq<int>) {
    forall i :: 0 <= i < |ids| ==> ids[i] >= 0
  }

  // Without negative numbers the sentinel stays in front.
  lemma {:induction false} SentinelInFront(ids: seq<int>)
    requires NonNegative(ids)
    ensures ProbeList(ids) == WithSentinel(ProbeAll(ids)) && forall x :: x in ProbeAll(ids) ==> x.id >= 0
    ensures ids != [] ==> LastSpot(ids) == Position(ProbeAll(ids[..|ids| - 1]), ids[|ids| - 1]) + 1
  {
    if ids != [] {
      var init, id := ids[..|ids| - 1], ids[|ids| - 1];
      var cs := ProbeAll(init);
      SentinelInFront(init);
      assert WithSentinel(cs)[1..] == cs;
      assert cs != [] ==> cs[0] in cs;
      SentinelPut(cs, Position(cs, id), Card(id, true));
      forall x | x in ProbeAll(ids) ensures x.id >= 0 {
        PutAtMembers(cs, Position(cs, id), Card(id, true), x);
      }
    }
  }

  // Walks from the first node to the place of the card and links a node for it in.
  method AddPresent(firstmic: MicInfo, id: int, ghost nodes: seq<MicInfo>, ghost cs: seq<Card>)
    returns (first: MicInfo, mic: MicInfo, ghost nodes': seq<MicInfo>)
    requires Chain(nodes, cs) && nodes[0] == firstmic
    modifies NodeSet(nodes)
    ensures Chain(nodes', PutAt(cs, Spot(cs, id), Card(id, true))) && nodes'[0] == first && nodes'[Spot(cs, id)] == mic
    ensures fresh(NodeSet(nodes') - NodeSet(nodes))
  {
    first, mic := firstmic, firstmic;
    ghost var k := 0;
    while mic.id < id && mic.next != null && mic.next.id < id
      invariant 0 <= k < |cs| && nodes[k] == mic && Chain(nodes, cs)
      invariant forall i :: 0 <= i < k ==> cs[i].id < id
      invariant k > 0 ==> mic.id < id
      decreases |cs| - k
    {
      assert mic.next == nodes[k + 1];
      mic := mic.next;
      k := k + 1;
    }
    assert mic.id == cs[k].id && mic.next == Successor(nodes, k);
    if mic.id > id {
      mic, nodes' := InsertFirst(mic, id, true, nodes, cs);
      first := mic;
    } else {
      assert k + 1 < |cs| ==> nodes[k + 1].id == cs[k + 1].id;
      if cs[0].id < id {
        PositionIs(cs, id, k + 1);
      }
      assert Spot(cs, id) == k + 1;
      mic, nodes' := InsertAfter(mic, id, true, nodes, cs, k);
    }
  }

  // Links a new node in before the first one.
  method InsertFirst(mic: MicInfo, id: int, present: bool, ghost nodes: seq<MicInfo>, ghost cs: seq<Card>)
    returns (tmp: MicInfo, ghost nodes': seq<MicInfo>)
    requires Chain(nodes, cs) && nodes[0] == mic
    ensures fresh(tmp) && nodes' == [tmp] + nodes && Chain(nodes', PutAt(cs, 0, Card(id, present)))
  {
    tmp := new MicInfo(id, present, mic);
    nodes' := [tmp] + nodes;
    ghost var cs' := [Card(id, present)] + cs;
    assert PutAt(cs, 0, Card(id, present)) == cs';
    forall i | 0 <= i < |nodes'|
      ensures nodes'[i].next == Successor(nodes', i) && nodes'[i].id == cs'[i].id && nodes'[i].present == cs'[i].present
    {
      if i > 0 {
        assert nodes'[i] == nodes[i - 1] && cs'[i] == cs[i - 1];
        assert nodes[i - 1].next == Successor(nodes, i - 1);
      }
    }
  }

  /**
    Finds the cards that are present. The list from the first node on is complete; what is
    returned is the node of the card found last.
  */
  method GetMiclistPresent(ids: seq<int>) returns (first: MicInfo, mic: MicInfo, cnt: int, ghost nodes: seq<MicInfo>)
    ensures fresh(NodeSet(nodes)) && Chain(nodes, ProbeList(ids)) && nodes[0] == first && cnt == |ids|
    ensures LastSpotOf(nodes, mic, ids)
  {
    first := new MicInfo(0, false, null);
    mic, cnt, nodes := first, 0, [first];
    var i := 0;
    while i < |ids|
      invariant 0 <= i <= |ids| && cnt == i && fresh(NodeSet(nodes))
      invariant Chain(nodes, ProbeList(ids[..i])) && nodes[0] == first && LastSpotOf(nodes, mic, ids[..i])
    {
      ghost var now := ProbeList(ids[..i]);
      first, mic, nodes := AddPresent(first, ids[i], nodes, now);
      assert ids[..i + 1][..i] == ids[..i];
      cnt := cnt + 1;
      i := i + 1;
    }
    assert ids[..i] == ids;
  }

  ghost predicate LastSpotOf(nodes: seq<MicInfo>, mic: MicInfo, ids: seq<int>) {
    ids != [] ==> LastSpot(ids) < |nodes| && nodes[LastSpot(ids)] == mic
  }

  // ---------------------------------------------------------------- all cards

  lemma SuffixMembers(all: seq<Card>, p: nat)
    requires Ascending(all) && p < |all|
    ensures Ascending(all[p..])
    ensures forall x :: x in all[p..] <==> x in all && x.id >= all[p].id
  {
    forall x ensures x in all[p..] <==> x in all && x.id >= all[p].id {
      if x in all && x.id >= all[p].id {
        var k :| 0 <= k < |all| && all[k] == x;
        assert k >= p;
        assert all[p..][k - p] == x;
      }
    }
  }

  // The list handed out holds the cards from the one found last on.
  lemma ReturnedMembers(ids: seq<int>)
    requires Distinct(ids) && ids != []
    ensures Ascending(Returned(ids))
    ensures forall x :: x in Returned(ids) <==> x.present && x.id in ids && x.id >= ids[|ids| - 1]
  {
    var all, p := ProbeAll(ids), Position(ProbeAll(ids[..|ids| - 1]), ids[|ids| - 1]);
    ProbeAllMeaning(ids);
    assert p < |all| && all[p].id == ids[|ids| - 1];
    SuffixMembers(all, p);
    assert Returned(ids) == all[p..];
  }

  // Every card present is in the list as present, and every other one that has a file as not present.
  ghost predicate Promised(ids: seq<int>, files: seq<int>, x: Card) {
    if x.present then x.id in ids else x.id in files && x.id !in ids
  }

  // Which cards mpss_get_miclist hands out.
  function AllCards(ids: seq<int>, files: seq<int>): seq<Card>
    requires ids != []
  {
    MergeAll(Returned(ids), files)
  }

  /**
    The list of all cards is ascending. A card that is present but has a smaller number than the
    one found last is lost, or comes back as not present when it has a file.
  */
  lemma AllCardsMeaning(ids: seq<int>, files: seq<int>)
    requires Distinct(ids) && ids != []
    ensures Ascending(AllCards(ids, files))
    ensures forall x :: x in AllCards(ids, files) <==>
              var kept := x.id in ids && x.id >= ids[|ids| - 1];
              if x.present then kept else x.id in files && !kept
  {
    var rs, id := Returned(ids), ids[|ids| - 1];
    ReturnedMembers(ids);
    MergeAllMeaning(rs, files);
    forall x: Card ensures HasId(rs, x.id) <==> x.id in ids && x.id >= id {
      HasIdMember(rs, x.id);
      assert Card(x.id, true) in rs <==> x.id in ids && x.id >= id;
    }
  }

  // The list is the one promised if and only if the card found last has the smallest number, and so is its count.
  lemma AllCardsPromised(ids: seq<int>, files: seq<int>)
    requires Distinct(ids) && ids != []
    ensures (forall x :: x in AllCards(ids, files) <==> Promised(ids, files, x)) <==>
            forall k :: k in ids ==> ids[|ids| - 1] <= k
    ensures |ids| == |Returned(ids)| <==> forall k :: k in ids ==> ids[|ids| - 1] <= k
  {
    if k :| k in ids && ids[|ids| - 1] > k {
      AllCardsMeaning(ids, files);
      assert Promised(ids, files, Card(k, true)) && Card(k, true) !in AllCards(ids, files);
    } else {
      forall x ensures x in AllCards(ids, files) <==> Promised(ids, files, x) {
        AllCardsMeaning(ids, files);
      }
    }
    ReturnedCount(ids);
  }

  // As many cards are handed out as were found if and only if the last one found has the smallest number.
  lemma ReturnedCount(ids: seq<int>)
    requires Distinct(ids) && ids != []
    ensures |ids| == |Returned(ids)| <==> forall k :: k in ids ==> ids[|ids| - 1] <= k
  {
    assert Returned(ids) == ProbeAll(ids) <==> forall k :: k in ids ==> ids[|ids| - 1] <= k by {
      ReturnedIsComplete(ids);
    }
    assert |ProbeAll(ids)| == |ids| by {
      ProbeAllMeaning(ids);
    }
    var p := Position(ProbeAll(ids[..|ids| - 1]), ids[|ids| - 1]);
    assert Returned(ids) == ProbeAll(ids)[p..];
    assert |Returned(ids)| == |ProbeAll(ids)| - p;
  }

  // The part of a chain from its k-th node on, behind a new sentinel.
  lemma ChainFrom(nodes: seq<MicInfo>, cs: seq<Card>, k: nat, sentinel: MicInfo)
    requires Chain(nodes, cs) && k < |nodes| && sentinel !in nodes
    requires sentinel.next == nodes[k] && sentinel.id == 0 && !sentinel.present
    ensures Chain([sentinel] + nodes[k..], WithSentinel(cs[k..]))
  {
    var ns, ds := [sentinel] + nodes[k..], WithSentinel(cs[k..]);
    forall i | 0 <= i < |ns|
      ensures ns[i].next == Successor(ns, i) && ns[i].id == ds[i].id && ns[i].present == ds[i].present
    {
      if i > 0 {
        assert ns[i] == nodes[k + i - 1] && ds[i] == cs[k + i - 1];
        assert nodes[k + i - 1].next == Successor(nodes, k + i - 1);
      }
    }
  }

  lemma DropSentinel(cs: seq<Card>, k: nat)
    requires 0 < k <= |cs| + 1
    ensures WithSentinel(cs)[k..] == cs[k - 1..]
  {
  }

  // Puts a new sentinel before the node that is handed out for the cards present.
  method StartList(ids: seq<int>) returns (miclist: MicInfo, cnt: int, ghost nodes: seq<MicInfo>)
    requires Distinct(ids) && NonNegative(ids) && ids != []
    ensures Chain(nodes, WithSentinel(Returned(ids))) && nodes[0] == miclist && cnt == |ids| && fresh(NodeSet(nodes))
  {
    var first, mic: MicInfo;
    ghost var ns: seq<MicInfo>;
    first, mic, cnt, ns := GetMiclistPresent(ids);
    SentinelInFront(ids);
    ghost var k := LastSpot(ids);
    miclist := new MicInfo(0, false, mic);
    ChainFrom(ns, ProbeList(ids), k, miclist);
    assert ProbeList(ids)[k..] == Returned(ids) by {
      DropSentinel(ProbeAll(ids), k);
    }
    nodes := [miclist] + ns[k..];
    assert forall n :: n in nodes ==> n == miclist || n in NodeSet(ns);
  }

  // The cards in the device directory, if there is one.
  datatype Found = NoDirectory | Cards(ids: seq<int>)

  /**
    mpss_get_miclist. Without a device directory the list is made from the files alone. Otherwise
    it starts at the card found last, and the count takes in the cards in front of that.
  */
  method GetMiclist(present: Found, files: seq<int>) returns (miclist: MicInfo, cnt: int, ghost nodes: seq<MicInfo>)
    requires present.Cards? ==> Distinct(present.ids) && NonNegative(present.ids) && present.ids != []
    ensures nodes != [] && nodes[0] == miclist
    ensures present.NoDirectory? ==>
              var all := MergeAll([], files); Chain(nodes, WithSentinel(all)) && cnt == |all|
    ensures present.Cards? ==>
              var ids, all := present.ids, AllCards(present.ids, files);
              Chain(nodes, WithSentinel(all)) && cnt == |all| + |ids| - |Returned(ids)|
  {
    if present.NoDirectory? {
      miclist := new MicInfo(0, false, null);
      cnt, nodes := AddMiclistNotPresent(miclist, files, 0, [miclist], []);
    } else {
      miclist, cnt, nodes := StartList(present.ids);
      ReturnedMembers(present.ids);
      cnt, nodes := AddMiclistNotPresent(miclist, files, cnt, nodes, Returned(present.ids));
    }
  }
}
