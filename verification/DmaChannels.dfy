/**
  The table of DMA channels and the registers behind it: requesting, freeing and enabling a
  channel, and setting up its descriptor ring. Operations follow each other; they do not overlap.
*/
module DmaChannels {
  import opened CText
  import opened DmaRegisters

  // The table of channels, with the ring registers that belong to each.
  datatype Table = Table(inUse: seq<bool>, owner: seq<Owner>, ring: seq<RingRegisters>, ringSize: seq<bv32>)

  predicate WellFormed(t: Table) {
    |t.inUse| == |t.owner| == |t.ring| == |t.ringSize| == CHANNELS
  }

  type Channels = t: Table | WellFormed(t)
    witness Table(seq(CHANNELS, i => false), seq(CHANNELS, i => MicOwned), seq(CHANNELS, i => RingRegisters(0, 0)), seq(CHANNELS, i => 0))

  datatype Device = Device(table: Channels, dcr: Control)

  // The first channel from i on that is available, or the number of channels.
  function FirstFree(inUse: seq<bool>, i: nat): (r: nat)
    requires i <= |inUse|
    ensures i <= r <= |inUse|
    ensures r < |inUse| ==> !inUse[r]
    ensures forall k :: i <= k < r ==> inUse[k]
    decreases |inUse| - i
  {
    if i == |inUse| || !inUse[i] then i else FirstFree(inUse, i + 1)
  }

  // The most that a ring may hold, and what its size has to be a multiple of.
  predicate RingSizeOk(size: bv32) {
    size <= 0x1ffc0 && size & 0x3f == 0
  }

  datatype Op =
    | Request(owner: Owner)
    | Free(chan: Channel)
    | Enable(chan: Channel, on: bool)
    | SetRing(chan: Channel, addr: bv64, size: bv32)

  // ---------------------------------------------------------------- the table

  function Granted(t: Channels, op: Op): Option<Channel> {
    if op.Request? && FirstFree(t.inUse, 0) < CHANNELS then Some(FirstFree(t.inUse, 0)) else None
  }

  function TableStep(b: Build, t: Channels, op: Op): Channels {
    match op
    case Request(o) =>
      if Granted(t, op).None? then t
      else t.(inUse := t.inUse[Granted(t, op).value := true], owner := t.owner[Granted(t, op).value := o])
    case Free(n) => t.(inUse := t.inUse[n := false])
    case Enable(_, _) => t
    case SetRing(n, addr, size) =>
      t.(ring := t.ring[n := RingValue(b, t.owner[n], addr, size)], ringSize := t.ringSize[n := size])
  }

  function TableRun(b: Build, t: Channels, ops: seq<Op>): Channels
    decreases |ops|
  {
    if ops == [] then t else TableStep(b, TableRun(b, t, ops[..|ops| - 1]), ops[|ops| - 1])
  }

  // What the i-th operation of a run hands out.
  function GrantedAt(b: Build, t: Channels, ops: seq<Op>, i: nat): Option<Channel>
    requires i < |ops|
  {
    Granted(TableRun(b, t, ops[..i]), ops[i])
  }

  lemma RunSnoc(b: Build, t: Channels, ops: seq<Op>, i: nat)
    requires i < |ops|
    ensures TableRun(b, t, ops[..i + 1]) == TableStep(b, TableRun(b, t, ops[..i]), ops[i])
  {
    assert ops[..i + 1][..i] == ops[..i];
  }

  // Nobody frees channel c from operation i on, up to operation n.
  ghost predicate NotFreed(ops: seq<Op>, i: nat, n: nat, c: Channel) {
    forall k :: i <= k < n <= |ops| ==> ops[k] != Free(c)
  }

  // Operation i handed out c, and c was not freed after that before operation n.
  ghost predicate HeldSince(b: Build, t: Channels, ops: seq<Op>, i: nat, n: nat, c: Channel) {
    i < n <= |ops| && GrantedAt(b, t, ops, i) == Some(c) && NotFreed(ops, i + 1, n, c)
  }

  // Channel c is held when operation n comes: from the start on, or since it was handed out.
  ghost predicate Held(b: Build, t: Channels, ops: seq<Op>, n: nat, c: Channel) {
    (t.inUse[c] && NotFreed(ops, 0, n, c)) || exists i: nat :: HeldSince(b, t, ops, i, n, c)
  }

  lemma HeldNext(b: Build, t: Channels, ops: seq<Op>, n: nat, c: Channel)
    requires n < |ops|
    ensures Held(b, t, ops, n + 1, c) <==>
            GrantedAt(b, t, ops, n) == Some(c) || (Held(b, t, ops, n, c) && ops[n] != Free(c))
  {
    if GrantedAt(b, t, ops, n) == Some(c) {
      assert HeldSince(b, t, ops, n, n + 1, c);
    } else {
      var next := n + 1;
      if i: nat :| HeldSince(b, t, ops, i, next, c) {
        assert ops[n] != Free(c) && HeldSince(b, t, ops, i, n, c);
      }
      if i: nat :| HeldSince(b, t, ops, i, n, c) && ops[n] != Free(c) {
        assert HeldSince(b, t, ops, i, n + 1, c);
      }
      if t.inUse[c] && NotFreed(ops, 0, n + 1, c) {
        assert ops[n] != Free(c) && NotFreed(ops, 0, n, c);
      }
    }
  }

  // One step of the table on one channel.
  lemma StepInUse(b: Build, t: Channels, op: Op, c: Channel)
    ensures TableStep(b, t, op).inUse[c] <==> Granted(t, op) == Some(c) || (t.inUse[c] && op != Free(c))
  {
  }

  // Over any run the channels marked as in use are exactly those that are held.
  lemma {:induction false} InUseIsHeld(b: Build, t: Channels, ops: seq<Op>, n: nat, c: Channel)
    requires n <= |ops|
    ensures TableRun(b, t, ops[..n]).inUse[c] <==> Held(b, t, ops, n, c)
    decreases n
  {
    if n == 0 {
      assert forall i: nat :: !HeldSince(b, t, ops, i, n, c);
    } else {
      InUseIsHeld(b, t, ops, n - 1, c);
      RunSnoc(b, t, ops, n - 1);
      StepInUse(b, TableRun(b, t, ops[..n - 1]), ops[n - 1], c);
      HeldNext(b, t, ops, n - 1, c);
    }
  }

  /**
    Over any run a request is refused exactly when all channels are held, and is otherwise given
    the lowest one that is not. Nothing else is given a channel.
  */
  lemma RequestsAreMet(b: Build, t: Channels, ops: seq<Op>, n: nat)
    requires n < |ops|
    ensures GrantedAt(b, t, ops, n).None? <==> ops[n].Request? ==> forall c: Channel :: Held(b, t, ops, n, c)
    ensures GrantedAt(b, t, ops, n).Some? ==>
              var c := GrantedAt(b, t, ops, n).value;
              !Held(b, t, ops, n, c) && forall k: Channel :: k < c ==> Held(b, t, ops, n, k)
  {
    var u := TableRun(b, t, ops[..n]);
    forall c: Channel ensures u.inUse[c] <==> Held(b, t, ops, n, c) {
      InUseIsHeld(b, t, ops, n, c);
    }
    var free := FirstFree(u.inUse, 0);
    if free < CHANNELS {
      assert !Held(b, t, ops, n, free);
    }
  }

  // Over any run, a channel is handed out a second time only after it was freed.
  lemma NotGrantedTwice(b: Build, t: Channels, ops: seq<Op>, i: nat, j: nat, c: Channel)
    requires i < j < |ops| && GrantedAt(b, t, ops, i) == Some(c) && GrantedAt(b, t, ops, j) == Some(c)
    ensures exists k :: i < k < j && ops[k] == Free(c)
  {
    if forall k :: i < k < j ==> ops[k] != Free(c) {
      assert HeldSince(b, t, ops, i, j, c);
      RequestsAreMet(b, t, ops, j);
    }
  }

  // Over any run the owner of a channel is the one it was last handed out to.
  lemma {:induction false} OwnerIsLast(b: Build, t: Channels, ops: seq<Op>, i: nat, c: Channel)
    requires i < |ops| && GrantedAt(b, t, ops, i) == Some(c)
    requires forall k :: i < k < |ops| ==> GrantedAt(b, t, ops, k) != Some(c)
    ensures ops[i].Request? && TableRun(b, t, ops).owner[c] == ops[i].owner
    decreases |ops|
  {
    var n := |ops| - 1;
    var init := ops[..n];
    assert ops[..n + 1] == ops;
    RunSnoc(b, t, ops, n);
    if i < n {
      forall k | 0 <= k < n ensures GrantedAt(b, t, init, k) == GrantedAt(b, t, ops, k) {
        assert init[..k] == ops[..k];
      }
      OwnerIsLast(b, t, init, i, c);
      assert GrantedAt(b, t, ops, n) != Some(c);
    }
  }

  // The base address that the registers of channel n give back.
  function RingOf(b: Build, t: Channels, n: Channel): bv64 {
    RingBase(b, t.ring[n])
  }

  lemma {:induction false} RingKept(b: Build, t: Channels, ops: seq<Op>, n: Channel)
    requires forall k :: 0 <= k < |ops| ==> !(ops[k].SetRing? && ops[k].chan == n)
    ensures TableRun(b, t, ops).ring[n] == t.ring[n]
    decreases |ops|
  {
    if ops != [] {
      RingKept(b, t, ops[..|ops| - 1], n);
    }
  }

  /**
    A ring that was set up is read back, over any run that sets no other ring on the channel,
    if and only if its address is below the limit for the channel's owner at that time.
  */
  lemma RingSurvives(b: Build, t: Channels, n: Channel, addr: bv64, size: bv32, ops: seq<Op>)
    requires forall k :: 0 <= k < |ops| ==> !(ops[k].SetRing? && ops[k].chan == n)
    ensures RingOf(b, TableRun(b, TableStep(b, t, SetRing(n, addr, size)), ops), n) == addr <==>
            BelowLimit(b, t.owner[n], addr)
  {
    var u := TableStep(b, t, SetRing(n, addr, size));
    RingOfKept(b, u, ops, n);
    RingOfSet(b, t, n, addr, size);
  }

  lemma RingOfKept(b: Build, t: Channels, ops: seq<Op>, n: Channel)
    requires forall k :: 0 <= k < |ops| ==> !(ops[k].SetRing? && ops[k].chan == n)
    ensures RingOf(b, TableRun(b, t, ops), n) == RingOf(b, t, n)
  {
    RingKept(b, t, ops, n);
  }

  lemma RingOfSet(b: Build, t: Channels, n: Channel, addr: bv64, size: bv32)
    ensures RingOf(b, TableStep(b, t, SetRing(n, addr, size)), n) == addr <==> BelowLimit(b, t.owner[n], addr)
  {
    var o, u := t.owner[n], TableStep(b, t, SetRing(n, addr, size));
    assert u.ring[n] == RingValue(b, o, addr, size);
    RingReadBack(b, o, addr, size);
  }

  // ---------------------------------------------------------------- the control register

  lemma EnableReadsBack(dcr: Control, n: Channel, on: bool)
    ensures Enabled(WithEnable(dcr, n, on), n) == on && OwnerOf(WithEnable(dcr, n, on), n) == OwnerOf(dcr, n)
  {
    EnableIsLocal(dcr, Number(n), on);
  }

  lemma EnableElsewhere(dcr: Control, n: Channel, on: bool)
    ensures SameElsewhere(WithEnable(dcr, n, on), dcr, n)
  {
    EnableIsLocal(dcr, Number(n), on);
  }

  lemma OwnerReadsBack(dcr: Control, b: Build, n: Channel, o: Owner)
    ensures OwnerOf(WithOwner(dcr, b, n, o), n) == OwnerValue(b, n, o)
    ensures Enabled(WithOwner(dcr, b, n, o), n) == Enabled(dcr, n)
  {
    OwnerIsLocal(dcr, Number(n), OwnerValue(b, n, o));
  }

  lemma OwnerElsewhere(dcr: Control, b: Build, n: Channel, o: Owner)
    ensures SameElsewhere(WithOwner(dcr, b, n, o), dcr, n)
  {
    OwnerIsLocal(dcr, Number(n), OwnerValue(b, n, o));
  }

  lemma OthersAgree(x: Control, y: Control, n: Channel, c: Channel)
    requires SameElsewhere(x, y, n) && c != n
    ensures Enabled(x, c) == Enabled(y, c) && OwnerOf(x, c) == OwnerOf(y, c)
  {
    NumberInjective(n, c);
    ElsewhereAgrees(x, y, Number(n), Number(c));
  }

  // The control register after a request was granted, and after a channel was switched or its ring set up.
  function AfterGrant(b: Build, dcr: Control, n: Channel, o: Owner): Control {
    if b.CardBuild? then WithOwner(dcr, b, n, o) else dcr
  }

  function AfterSetUp(dcr: Control, n: Channel): Control {
    WithEnable(WithEnable(dcr, n, false), n, true)
  }

  lemma GrantBits(b: Build, dcr: Control, n: Channel, o: Owner, c: Channel)
    ensures Enabled(AfterGrant(b, dcr, n, o), c) == Enabled(dcr, c)
    ensures OwnerOf(AfterGrant(b, dcr, n, o), c) == if b.CardBuild? && c == n then OwnerValue(b, n, o) else OwnerOf(dcr, c)
  {
    if b.CardBuild? {
      if c == n {
        OwnerReadsBack(dcr, b, n, o);
      } else {
        OwnerElsewhere(dcr, b, n, o);
        OthersAgree(WithOwner(dcr, b, n, o), dcr, n, c);
      }
    }
  }

  lemma SwitchBits(dcr: Control, n: Channel, on: bool, c: Channel)
    ensures Enabled(WithEnable(dcr, n, on), c) == if c == n then on else Enabled(dcr, c)
    ensures OwnerOf(WithEnable(dcr, n, on), c) == OwnerOf(dcr, c)
  {
    if c == n {
      EnableReadsBack(dcr, n, on);
    } else {
      EnableElsewhere(dcr, n, on);
      OthersAgree(WithEnable(dcr, n, on), dcr, n, c);
    }
  }

  lemma SetUpBits(dcr: Control, n: Channel, c: Channel)
    ensures Enabled(AfterSetUp(dcr, n), c) == (c == n || Enabled(dcr, c))
    ensures OwnerOf(AfterSetUp(dcr, n), c) == OwnerOf(dcr, c)
  {
    SwitchBits(dcr, n, false, c);
    SwitchBits(WithEnable(dcr, n, false), n, true, c);
  }

  // The control register after an operation that was granted this channel, if it asked for one.
  function ControlStep(b: Build, dcr: Control, granted: Option<Channel>, op: Op): Control {
    match op
    case Request(o) => if granted.Some? then AfterGrant(b, dcr, granted.value, o) else dcr
    case Free(n) => WithEnable(dcr, n, false)
    case Enable(n, on) => WithEnable(dcr, n, on)
    case SetRing(n, _, _) => AfterSetUp(dcr, n)
  }

  // The channel whose control bits an operation may change.
  function Concerns(granted: Option<Channel>, op: Op): Option<Channel> {
    if op.Request? then granted else Some(op.chan)
  }

  // The upper half of the register is left alone by every operation.
  lemma UpperKept(b: Build, dcr: Control, granted: Option<Channel>, op: Op)
    ensures Upper(ControlStep(b, dcr, granted, op)) == Upper(dcr)
  {
    if op.Request? {
      if granted.Some? && b.CardBuild? {
        GrantUpper(b, dcr, granted.value, op.owner);
      }
    } else if op.SetRing? {
      SwitchUpper(dcr, op.chan, false);
      SwitchUpper(WithEnable(dcr, op.chan, false), op.chan, true);
    } else {
      SwitchUpper(dcr, op.chan, op.Enable? && op.on);
    }
  }

  lemma GrantUpper(b: Build, dcr: Control, n: Channel, o: Owner)
    ensures Upper(WithOwner(dcr, b, n, o)) == Upper(dcr)
  {
    OwnerElsewhere(dcr, b, n, o);
    UpperAgrees(WithOwner(dcr, b, n, o), dcr, Number(n));
  }

  lemma SwitchUpper(dcr: Control, n: Channel, on: bool)
    ensures Upper(WithEnable(dcr, n, on)) == Upper(dcr)
  {
    EnableElsewhere(dcr, n, on);
    UpperAgrees(WithEnable(dcr, n, on), dcr, Number(n));
  }

  // Whether channel c is enabled after an operation, when it was before or not.
  function Switched(op: Op, c: Channel, was: bool): bool {
    match op
    case Request(_) => was
    case Free(n) => was && n != c
    case Enable(n, on) => if n == c then on else was
    case SetRing(n, _, _) => was || n == c
  }

  // What the owner bit of channel c is after an operation.
  function OwnerAfter(b: Build, dcr: Control, granted: Option<Channel>, op: Op, c: Channel): bv32 {
    if b.CardBuild? && op.Request? && granted == Some(c) then OwnerValue(b, c, op.owner) else OwnerOf(dcr, c)
  }

  lemma StepControl(b: Build, dcr: Control, granted: Option<Channel>, op: Op, c: Channel)
    ensures Enabled(ControlStep(b, dcr, granted, op), c) == Switched(op, c, Enabled(dcr, c))
    ensures OwnerOf(ControlStep(b, dcr, granted, op), c) == OwnerAfter(b, dcr, granted, op, c)
  {
    if op.Request? {
      if granted.Some? {
        GrantBits(b, dcr, granted.value, op.owner, c);
      }
    } else if op.SetRing? {
      SetUpBits(dcr, op.chan, c);
    } else {
      SwitchBits(dcr, op.chan, op.Enable? && op.on, c);
    }
  }

  /**
    An operation changes only the two control bits of its own channel, and a refused request
    none: the bits of all other channels and the upper half stay, and they are all there is.
  */
  lemma ControlIsLocal(b: Build, dcr: Control, granted: Option<Channel>, op: Op, c: Channel)
    requires Concerns(granted, op) != Some(c)
    ensures Enabled(ControlStep(b, dcr, granted, op), c) == Enabled(dcr, c)
    ensures OwnerOf(ControlStep(b, dcr, granted, op), c) == OwnerOf(dcr, c)
    ensures Upper(ControlStep(b, dcr, granted, op)) == Upper(dcr)
    ensures Concerns(granted, op).None? ==> ControlStep(b, dcr, granted, op) == dcr
  {
    StepControl(b, dcr, granted, op, c);
    UpperKept(b, dcr, granted, op);
  }

  // ---------------------------------------------------------------- runs

  function Step(b: Build, d: Device, op: Op): Device {
    Device(TableStep(b, d.table, op), ControlStep(b, d.dcr, Granted(d.table, op), op))
  }

  function Run(b: Build, d: Device, ops: seq<Op>): Device
    decreases |ops|
  {
    if ops == [] then d else Step(b, Run(b, d, ops[..|ops| - 1]), ops[|ops| - 1])
  }

  lemma {:induction false} RunTable(b: Build, d: Device, ops: seq<Op>)
    ensures Run(b, d, ops).table == TableRun(b, d.table, ops)
    decreases |ops|
  {
    if ops != [] {
      RunTable(b, d, ops[..|ops| - 1]);
    }
  }

  // Whether channel c is enabled after a run: the last operation that switches it decides.
  function EnabledAfter(ops: seq<Op>, c: Channel, was: bool): bool
    decreases |ops|
  {
    if ops == [] then was else Switched(ops[|ops| - 1], c, EnabledAfter(ops[..|ops| - 1], c, was))
  }

  // The owner bit of every channel in use tells its owner.
  ghost predicate OwnersMatch(b: Build, d: Device) {
    forall c: Channel {:trigger d.table.inUse[c]} ::
      d.table.inUse[c] ==> (OwnerOf(d.dcr, c) == 1 <==> d.table.owner[c].HostOwned? || (b.CardBuild? && b.aes && c == 7))
  }

  /**
    Over any run the enable bit of each channel is what the last operation on that channel made
    it, on the card the owner bits of the channels in use stay right, and the upper half of the
    register is never touched.
  */
  lemma {:induction false} ControlOverRun(b: Build, d: Device, ops: seq<Op>, c: Channel)
    ensures Enabled(Run(b, d, ops).dcr, c) == EnabledAfter(ops, c, Enabled(d.dcr, c))
    ensures Upper(Run(b, d, ops).dcr) == Upper(d.dcr)
    ensures b.CardBuild? && OwnersMatch(b, d) ==> OwnersMatch(b, Run(b, d, ops))
    decreases |ops|
  {
    if ops != [] {
      var init, op := ops[..|ops| - 1], ops[|ops| - 1];
      ControlOverRun(b, d, init, c);
      var e := Run(b, d, init);
      StepControl(b, e.dcr, Granted(e.table, op), op, c);
      UpperKept(b, e.dcr, Granted(e.table, op), op);
      if b.CardBuild? && OwnersMatch(b, e) {
        OwnersStayRight(b, e, op);
      }
    }
  }

  lemma OwnersStayRight(b: Build, d: Device, op: Op)
    requires b.CardBuild? && OwnersMatch(b, d)
    ensures OwnersMatch(b, Step(b, d, op))
  {
    var e := Step(b, d, op);
    forall c: Channel | e.table.inUse[c]
      ensures OwnerOf(e.dcr, c) == 1 <==> e.table.owner[c].HostOwned? || (b.CardBuild? && b.aes && c == 7)
    {
      StepControl(b, d.dcr, Granted(d.table, op), op, c);
    }
  }

  // Over any run the bits of a channel that no operation concerns stay as they were.
  lemma {:induction false} UnconcernedKept(b: Build, d: Device, ops: seq<Op>, c: Channel)
    requires forall i :: 0 <= i < |ops| ==> Concerns(GrantedAt(b, d.table, ops, i), ops[i]) != Some(c)
    ensures Enabled(Run(b, d, ops).dcr, c) == Enabled(d.dcr, c) && OwnerOf(Run(b, d, ops).dcr, c) == OwnerOf(d.dcr, c)
    decreases |ops|
  {
    if ops != [] {
      var init, k := ops[..|ops| - 1], |ops| - 1;
      forall i | 0 <= i < |init| ensures GrantedAt(b, d.table, init, i) == GrantedAt(b, d.table, ops, i) {
        assert init[..i] == ops[..i];
      }
      UnconcernedKept(b, d, init, c);
      RunTable(b, d, init);
      var e := Run(b, d, init);
      assert Concerns(GrantedAt(b, d.table, ops, k), ops[k]) != Some(c);
      StepControl(b, e.dcr, Granted(e.table, ops[k]), ops[k], c);
    }
  }

  // ---------------------------------------------------------------- the driver

  // A write to a ring address register, with the control register at that moment.
  datatype RingWrite = RingWrite(chan: Channel, dcr: Control)

  class DmaDevice {
    const build: Build
    var inUse: seq<bool>
    var owner: seq<Owner>
    var dcr: Control
    var ring: seq<RingRegisters>
    var ringSize: seq<bv32>
    ghost var log: seq<RingWrite>

    // Ring addresses were only ever written while the channel was disabled.
    ghost predicate Valid()
      reads this
    {
      WellFormed(Table(inUse, owner, ring, ringSize)) && forall i :: 0 <= i < |log| ==> !Enabled(log[i].dcr, log[i].chan)
    }

    function View(): Device
      requires WellFormed(Table(inUse, owner, ring, ringSize))
      reads this
    {
      Device(Table(inUse, owner, ring, ringSize), dcr)
    }

    // All channels are available; the registers hold whatever the hardware has in them.
    constructor (build: Build, dcr: Control, ring: seq<RingRegisters>)
      requires |ring| == CHANNELS
      ensures Valid() && this.build == build && log == [] && forall n :: 0 <= n < CHANNELS ==> !inUse[n]
      ensures this.dcr == dcr && this.ring == ring
    {
      this.build, this.dcr, this.ring, log := build, dcr, ring, [];
      inUse, owner, ringSize := seq(CHANNELS, i => false), seq(CHANNELS, i => MicOwned), seq(CHANNELS, i => 0);
    }

    method RequestChan(o: Owner) returns (chan: Option<Channel>)
      requires Valid()
      modifies this
      ensures Valid() && log == old(log)
      ensures View() == Step(build, old(View()), Request(o)) && chan == Granted(old(View()).table, Request(o))
      ensures chan.None? <==> forall i :: 0 <= i < CHANNELS ==> old(inUse)[i]
      ensures chan.Some? ==>
                && !old(inUse)[chan.value] && (forall i :: 0 <= i < chan.value ==> old(inUse)[i])
                && inUse == old(inUse)[chan.value := true] && owner == old(owner)[chan.value := o]
    {
      chan := None;
      var i := 0;
      while i < CHANNELS
        invariant 0 <= i <= CHANNELS && Valid() && View() == old(View()) && chan.None? && log == old(log)
        invariant FirstFree(inUse, i) == FirstFree(inUse, 0)
      {
        if !inUse[i] {
          inUse, owner := inUse[i := true], owner[i := o];
          if build.CardBuild? {
            dcr := WithOwner(dcr, build, i, o);
          }
          chan := Some(i);
          return;
        }
        i := i + 1;
      }
    }

    method EnableChan(n: Channel, on: bool)
      requires Valid()
      modifies this`dcr
      ensures Valid() && View() == Step(build, old(View()), Enable(n, on)) && Enabled(dcr, n) == on
    {
      EnableReadsBack(dcr, n, on);
      dcr := WithEnable(dcr, n, on);
    }

    method FreeChan(n: Channel)
      requires Valid()
      modifies this
      ensures Valid() && log == old(log) && View() == Step(build, old(View()), Free(n))
      ensures inUse == old(inUse)[n := false] && !Enabled(dcr, n)
    {
      inUse := inUse[n := false];
      EnableChan(n, false);
    }

    method WriteRing(n: Channel, r: RingRegisters)
      requires Valid() && !Enabled(dcr, n)
      modifies this`ring, this`log
      ensures Valid() && ring == old(ring)[n := r] && log == old(log) + [RingWrite(n, dcr)]
    {
      ring := ring[n := r];
      log := log + [RingWrite(n, dcr)];
    }

    method SetDescRing(n: Channel, addr: bv64, size: bv32)
      requires Valid() && RingSizeOk(size)
      modifies this
      ensures Valid() && View() == Step(build, old(View()), SetRing(n, addr, size)) && Enabled(dcr, n)
      ensures inUse == old(inUse) && owner == old(owner) && ringSize == old(ringSize)[n := size]
      ensures var w := RingWrite(n, WithEnable(old(dcr), n, false)); log == old(log) + [w, w]
    {
      EnableChan(n, false);
      WriteRing(n, RingRegisters(DrarLo(addr), ring[n].hi));
      WriteRing(n, RingRegisters(ring[n].lo, DrarHi(build, owner[n], addr, size)));
      assert log == old(log) + [RingWrite(n, dcr), RingWrite(n, dcr)];
      ringSize := ringSize[n := size];
      EnableChan(n, true);
    }

    method GetDescRingPhys(n: Channel) returns (addr: bv64)
      requires Valid()
      ensures addr == RingOf(build, View().table, n)
    {
      addr := RingPhys(build, ring[n].lo, ring[n].hi);
    }
  }
}
