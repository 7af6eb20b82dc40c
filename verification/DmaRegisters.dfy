/**
  Bit fields of the DMA engine's registers: the control register DCR, with two bits per
  channel, and the descriptor ring attributes DRAR, with base address, size, page and system bit.
*/
module DmaRegisters {

  datatype Owner = MicOwned | HostOwned

  // The driver is built for the card, with or without an AES channel, or for the host.
  datatype Build = CardBuild(aes: bool) | HostBuild

  const CHANNELS: nat := 8

  type Channel = n: nat | n < CHANNELS

  const AES_CHANNEL: Channel := 7

  // ---------------------------------------------------------------- DCR

  type Control = bv32

  // The channel's number as the shifts below take it.
  function Number(n: Channel): (b: bv5)
    ensures b < 8
  {
    match n
    case 0 => 0
    case 1 => 1
    case 2 => 2
    case 3 => 3
    case 4 => 4
    case 5 => 5
    case 6 => 6
    case _ => 7
  }

  lemma NumberInjective(n: Channel, m: Channel)
    ensures Number(n) == Number(m) <==> n == m
  {
  }

  function OwnerInto(dcr: Control, b: bv5, owner: bv32): Control {
    (dcr & !((1 as bv32) << (b * 2))) | (owner << (b * 2))
  }

  function EnableInto(dcr: Control, b: bv5, enable: bool): Control {
    if enable then dcr | ((2 as bv32) << (b << 1)) else dcr & !((2 as bv32) << (b << 1))
  }

  // The two bits of a channel.
  function Pair(b: bv5): bv32 {
    (3 as bv32) << (b * 2)
  }

  function OwnerBit(dcr: Control, b: bv5): bv32 {
    (dcr >> (b * 2)) & 1
  }

  function EnableBit(dcr: Control, b: bv5): bv32 {
    (dcr >> (b * 2 + 1)) & 1
  }

  // Setting a channel's owner changes no bit of another channel,
  lemma OwnerElsewhere(dcr: Control, b: bv5, owner: bv32)
    requires b < 8 && owner < 2
    ensures OwnerInto(dcr, b, owner) & !Pair(b) == dcr & !Pair(b)
  {
  }

  // reads back,
  lemma OwnerBitSet(dcr: Control, b: bv5, owner: bv32)
    requires b < 8 && owner < 2
    ensures OwnerBit(OwnerInto(dcr, b, owner), b) == owner
  {
  }

  // and keeps the enable bit.
  lemma OwnerKeepsEnable(dcr: Control, b: bv5, owner: bv32)
    requires b < 8 && owner < 2
    ensures EnableBit(OwnerInto(dcr, b, owner), b) == EnableBit(dcr, b)
  {
  }

  lemma OwnerIsLocal(dcr: Control, b: bv5, owner: bv32)
    requires b < 8 && owner < 2
    ensures OwnerInto(dcr, b, owner) & !Pair(b) == dcr & !Pair(b)
    ensures OwnerBit(OwnerInto(dcr, b, owner), b) == owner
    ensures EnableBit(OwnerInto(dcr, b, owner), b) == EnableBit(dcr, b)
  {
    OwnerElsewhere(dcr, b, owner);
    OwnerBitSet(dcr, b, owner);
    OwnerKeepsEnable(dcr, b, owner);
  }

  // Enabling or disabling a channel changes no bit of another channel,
  lemma EnableElsewhere(dcr: Control, b: bv5, enable: bool)
    requires b < 8
    ensures EnableInto(dcr, b, enable) & !Pair(b) == dcr & !Pair(b)
  {
    if enable {
      SwitchedOnElsewhere(dcr, b);
    } else {
      SwitchedOffElsewhere(dcr, b);
    }
  }

  lemma SwitchedOnElsewhere(dcr: Control, b: bv5)
    requires b < 8
    ensures EnableInto(dcr, b, true) & !Pair(b) == dcr & !Pair(b)
  {
  }

  lemma SwitchedOffElsewhere(dcr: Control, b: bv5)
    requires b < 8
    ensures EnableInto(dcr, b, false) & !Pair(b) == dcr & !Pair(b)
  {
  }

  // reads back,
  lemma EnableBitSet(dcr: Control, b: bv5, enable: bool)
    requires b < 8
    ensures EnableBit(EnableInto(dcr, b, enable), b) == if enable then 1 else 0
  {
  }

  // and keeps the owner.
  lemma EnableKeepsOwner(dcr: Control, b: bv5, enable: bool)
    requires b < 8
    ensures OwnerBit(EnableInto(dcr, b, enable), b) == OwnerBit(dcr, b)
  {
  }

  lemma EnableIsLocal(dcr: Control, b: bv5, enable: bool)
    requires b < 8
    ensures EnableInto(dcr, b, enable) & !Pair(b) == dcr & !Pair(b)
    ensures EnableBit(EnableInto(dcr, b, enable), b) == if enable then 1 else 0
    ensures OwnerBit(EnableInto(dcr, b, enable), b) == OwnerBit(dcr, b)
  {
    EnableElsewhere(dcr, b, enable);
    EnableBitSet(dcr, b, enable);
    EnableKeepsOwner(dcr, b, enable);
  }

  // Registers that agree outside one channel's bits agree on every other channel's.
  lemma ElsewhereAgrees(x: Control, y: Control, b: bv5, c: bv5)
    requires b < 8 && c < 8 && b != c && x & !Pair(b) == y & !Pair(b)
    ensures OwnerBit(x, c) == OwnerBit(y, c) && EnableBit(x, c) == EnableBit(y, c)
  {
  }

  // The half of the register that belongs to no channel.
  function Upper(x: Control): bv32 {
    x >> 16
  }

  lemma UpperAgrees(x: Control, y: Control, b: bv5)
    requires b < 8 && x & !Pair(b) == y & !Pair(b)
    ensures Upper(x) == Upper(y)
  {
  }

  // What is stored as owner: for the AES channel it is that its data is little-endian.
  function OwnerValue(b: Build, n: Channel, o: Owner): (v: bv32)
    ensures v < 2
  {
    if b.CardBuild? && b.aes && n == AES_CHANNEL then 1 else if o.HostOwned? then 1 else 0
  }

  function WithOwner(dcr: Control, b: Build, n: Channel, o: Owner): Control {
    OwnerInto(dcr, Number(n), OwnerValue(b, n, o))
  }

  function WithEnable(dcr: Control, n: Channel, enable: bool): Control {
    EnableInto(dcr, Number(n), enable)
  }

  predicate Enabled(dcr: Control, n: Channel) {
    EnableBit(dcr, Number(n)) == 1
  }

  function OwnerOf(dcr: Control, n: Channel): bv32 {
    OwnerBit(dcr, Number(n))
  }

  // The bits of the eight channels and the upper half are all there is.
  lemma AllBits(x: Control, y: Control)
    requires Upper(x) == Upper(y)
    requires forall c: Channel {:trigger Number(c)} :: Enabled(x, c) == Enabled(y, c) && OwnerOf(x, c) == OwnerOf(y, c)
    ensures x == y
  {
    assert Number(0) == 0 && Number(1) == 1 && Number(2) == 2 && Number(3) == 3;
    assert Number(4) == 4 && Number(5) == 5 && Number(6) == 6 && Number(7) == 7;
    AllPairs(x, y);
  }

  lemma AllPairs(x: Control, y: Control)
    requires Upper(x) == Upper(y)
    requires OwnerBit(x, 0) == OwnerBit(y, 0) && OwnerBit(x, 1) == OwnerBit(y, 1) && OwnerBit(x, 2) == OwnerBit(y, 2)
    requires OwnerBit(x, 3) == OwnerBit(y, 3) && OwnerBit(x, 4) == OwnerBit(y, 4) && OwnerBit(x, 5) == OwnerBit(y, 5)
    requires OwnerBit(x, 6) == OwnerBit(y, 6) && OwnerBit(x, 7) == OwnerBit(y, 7)
    requires EnableBit(x, 0) == EnableBit(y, 0) && EnableBit(x, 1) == EnableBit(y, 1) && EnableBit(x, 2) == EnableBit(y, 2)
    requires EnableBit(x, 3) == EnableBit(y, 3) && EnableBit(x, 4) == EnableBit(y, 4) && EnableBit(x, 5) == EnableBit(y, 5)
    requires EnableBit(x, 6) == EnableBit(y, 6) && EnableBit(x, 7) == EnableBit(y, 7)
    ensures x == y
  {
  }

  // Two control registers agree outside the two bits of channel n.
  predicate SameElsewhere(x: Control, y: Control, n: Channel) {
    x & !Pair(Number(n)) == y & !Pair(Number(n))
  }

  // ---------------------------------------------------------------- DRAR

  const SYS_MASK: bv32 := 0x400_0000

  function BaseBits(b: Build, hi: bv32): bv32 {
    if b.CardBuild? then hi & 0xf else hi & 0x3
  }

  function SizeBits(size: bv32): bv32 {
    (size & 0x1ffff) << 4
  }

  function Low32(x: bv64): bv32 {
    (x & 0xffff_ffff) as bv32
  }

  function PageBits(addr: bv64): bv32 {
    Low32((addr >> 34) & 0x1f) << 21
  }

  function DrarLo(addr: bv64): bv32 {
    Low32(addr)
  }

  function DrarHi(b: Build, o: Owner, addr: bv64, size: bv32): bv32 {
    SizeBits(size) | (if o.HostOwned? then SYS_MASK | PageBits(addr) else 0) | BaseBits(b, Low32(addr >> 32))
  }

  // The ring's base address as it is computed back from the two registers.
  function RingPhys(b: Build, lo: bv32, hi: bv32): bv64 {
    (lo as bv64) | (((BaseBits(b, hi) | (((hi >> 21) & 0x1f) << 2)) as bv64) << 32)
  }

  // Addresses from here on do not survive: host-owned rings have a page number, others do not.
  function AddressLimit(b: Build, o: Owner): bv64 {
    if o.HostOwned? then 0x80_0000_0000 else if b.CardBuild? then 0x10_0000_0000 else 0x4_0000_0000
  }

  // The pair of registers that describe the ring of one channel.
  datatype RingRegisters = RingRegisters(lo: bv32, hi: bv32)

  function RingValue(b: Build, o: Owner, addr: bv64, size: bv32): RingRegisters {
    RingRegisters(DrarLo(addr), DrarHi(b, o, addr, size))
  }

  function RingBase(b: Build, r: RingRegisters): bv64 {
    RingPhys(b, r.lo, r.hi)
  }

  predicate BelowLimit(b: Build, o: Owner, addr: bv64) {
    addr < AddressLimit(b, o)
  }

  lemma HostReadsHostRing(addr: bv64, size: bv32)
    ensures RingBase(HostBuild, RingValue(HostBuild, HostOwned, addr, size)) == addr <==> BelowLimit(HostBuild, HostOwned, addr)
  {
  }

  lemma HostReadsMicRing(addr: bv64, size: bv32)
    ensures RingBase(HostBuild, RingValue(HostBuild, MicOwned, addr, size)) == addr <==> BelowLimit(HostBuild, MicOwned, addr)
  {
  }

  lemma CardReadsHostRing(aes: bool, addr: bv64, size: bv32)
    ensures RingBase(CardBuild(aes), RingValue(CardBuild(aes), HostOwned, addr, size)) == addr <==>
            BelowLimit(CardBuild(aes), HostOwned, addr)
  {
  }

  lemma CardReadsMicRing(aes: bool, addr: bv64, size: bv32)
    ensures RingBase(CardBuild(aes), RingValue(CardBuild(aes), MicOwned, addr, size)) == addr <==>
            BelowLimit(CardBuild(aes), MicOwned, addr)
  {
  }

  // The base address read back is the one that was set exactly when it is below the limit.
  lemma RingReadBack(b: Build, o: Owner, addr: bv64, size: bv32)
    ensures RingBase(b, RingValue(b, o, addr, size)) == addr <==> BelowLimit(b, o, addr)
  {
    match (b, o) {
      case (HostBuild, HostOwned) => HostReadsHostRing(addr, size);
      case (HostBuild, MicOwned) => HostReadsMicRing(addr, size);
      case (CardBuild(aes), HostOwned) => CardReadsHostRing(aes, addr, size);
      case (CardBuild(aes), MicOwned) => CardReadsMicRing(aes, addr, size);
    }
  }

  // The four fields of the high register do not overlap: each is read back as it was written.
  lemma RingFields(b: Build, o: Owner, addr: bv64, size: bv32)
    ensures var hi := DrarHi(b, o, addr, size);
            && (hi >> 4) & 0x1ffff == size & 0x1ffff
            && BaseBits(b, hi) == BaseBits(b, Low32(addr >> 32))
            && (hi & SYS_MASK != 0 <==> o.HostOwned?)
            && (hi >> 21) & 0x1f == (if o.HostOwned? then Low32((addr >> 34) & 0x1f) else 0)
            && hi >> 27 == 0
  {
  }
}
