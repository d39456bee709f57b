/** The MAC layer: a machine fed one demodulated bit at a time that finds frames and fills the packet buffer. */
module Mac {
  import opened Bytes
  import opened Protocol

  datatype MacState = MacIdle | MacSync | MacPacket

  datatype Framer = Framer(
    mstate: MacState, bitpos: nat, curbyte: byte, idleZeros: nat,
    sync: seq<byte>, syncCount: nat,
    pktLen: nat, pktRead: nat, pkt: Packet, pktReady: bool)

  const HEADER_SIZE := 2
  const VER_1: byte := 0x01
  const VER_2: byte := 0x02
  const SYNC_0: byte := 0xAA
  const SYNC_1: byte := 0x55
  const SYNC_2: byte := 0x42

  /** What every step keeps: no counter and no buffer index ever leaves its range. */
  predicate Valid(f: Framer) {
    && |f.sync| == 4
    && match f.mstate
       case MacIdle => f.idleZeros <= 255
       case MacSync => 1 <= f.bitpos <= 8 && f.syncCount <= 2 && (f.syncCount == 0 ==> f.bitpos <= 6)
       case MacPacket =>
         && 1 <= f.bitpos <= 8
         && (f.pktLen == 0 || f.pktLen == CTRL_LEN || f.pktLen == DATA_LEN)
         && (if f.pktLen == 0 then f.pktRead <= 3 && (f.pktRead == 3 ==> f.bitpos == 8) else 3 <= f.pktRead < f.pktLen)
  }

  /** Bits arrive least significant first. */
  function Shift(cur: byte, bit: bool): byte {
    (cur >> 1) | (if bit then 0x80 else 0x00)
  }

  /** The length a received header stands for; 0 when the packet is not for us. */
  function HeaderVerdict(p: Packet): nat {
    if Version(p) != VER_1 && Version(p) != VER_2 then 0
    else if Type(p) == TYPE_CTRL then CTRL_LEN
    else if Type(p) == TYPE_DATA then DATA_LEN
    else 0
  }

  function MakeIdle(f: Framer): Framer {
    f.(mstate := MacIdle, idleZeros := 0)
  }

  function StepIdle(f: Framer, bit: bool): (g: Framer)
    requires Valid(f) && f.mstate.MacIdle?
    ensures Valid(g)
    ensures g.pkt == f.pkt && g.pktReady == f.pktReady
  {
    if f.idleZeros > 32 then
      if bit then f.(mstate := MacSync, bitpos := 6, curbyte := 0x80, syncCount := 0)
      else if f.idleZeros < 255 then f.(idleZeros := f.idleZeros + 1) else f
    else f.(idleZeros := if bit then 0 else f.idleZeros + 1)
  }

  function SyncByte(g: Framer): Framer
    requires |g.sync| == 4 && g.syncCount < 3
  {
    var h := g.(sync := g.sync[g.syncCount := g.curbyte], syncCount := g.syncCount + 1, bitpos := 8, curbyte := 0);
    if h.syncCount < 3 then h
    else if h.sync[0] == SYNC_0 && h.sync[1] == SYNC_1 && h.sync[2] == SYNC_2
    then h.(mstate := MacPacket, pktLen := 0, pktRead := 0)
    else MakeIdle(h)
  }

  function StepSync(f: Framer, bit: bool): (g: Framer)
    requires Valid(f) && f.mstate.MacSync?
    ensures Valid(g)
    ensures g.pkt == f.pkt && g.pktReady == f.pktReady
  {
    hide Shift;
    var g := f.(curbyte := Shift(f.curbyte, bit), bitpos := f.bitpos - 1);
    if g.bitpos != 0 then g
    else if g.curbyte == 0 then g.(mstate := MacIdle, idleZeros := 8)
    else SyncByte(g)
  }

  function LoadBit(f: Framer, bit: bool): Framer
    requires 1 <= f.bitpos && f.pktRead < PACKET_SIZE
  {
    var cur := Shift(f.curbyte, bit);
    if f.bitpos == 1
    then f.(pkt := f.pkt[f.pktRead := cur], pktRead := f.pktRead + 1, bitpos := 8, curbyte := 0)
    else f.(bitpos := f.bitpos - 1, curbyte := cur)
  }

  function StepPacket(f: Framer, bit: bool): (g: Framer)
    requires Valid(f) && f.mstate.MacPacket?
    ensures Valid(g)
  {
    hide Shift;
    var undecided := f.pktLen == 0 && f.pktRead > HEADER_SIZE;
    var len := if undecided then HeaderVerdict(f.pkt) else f.pktLen;
    if undecided && len == 0 then MakeIdle(f)
    else
      var g := LoadBit(f.(pktLen := len), bit);
      if len != 0 && g.pktRead >= len then MakeIdle(g.(pktReady := true)) else g
  }

  function MacStep(f: Framer, bit: bool): (g: Framer)
    requires Valid(f)
    ensures Valid(g)
    ensures !f.mstate.MacPacket? ==> g.pkt == f.pkt && g.pktReady == f.pktReady
  {
    hide Valid, StepIdle, StepSync, StepPacket;
    match f.mstate
    case MacIdle => StepIdle(f, bit)
    case MacSync => StepSync(f, bit)
    case MacPacket => StepPacket(f, bit)
  }

  function MacRun(f: Framer, bits: seq<bool>): (g: Framer)
    requires Valid(f)
    ensures Valid(g)
    decreases |bits|
  {
    if bits == [] then f else MacRun(MacStep(f, bits[0]), bits[1..])
  }

  /** The debug assertion "packet buffer full" fires on this bit. */
  predicate Overrun(f: Framer, bit: bool)
    requires Valid(f)
  {
    f.mstate.MacSync? && MacStep(f, bit).mstate.MacPacket? && f.pktReady
  }

  // ---- the framer object ----

  class MacFramer {
    var mstate: MacState
    var bitpos: nat
    var curbyte: byte
    var idleZeros: nat
    const macSync: array<byte>
    var syncCount: nat
    var pktLen: nat
    var pktRead: nat
    const pkt: array<byte>
    var pktReady: bool

    ghost predicate WellFormed()
      reads this
    {
      macSync.Length == 4 && pkt.Length == PACKET_SIZE && macSync != pkt
    }

    ghost function State(): Framer
      requires WellFormed()
      reads this, macSync, pkt
    {
      Framer(mstate, bitpos, curbyte, idleZeros, macSync[..], syncCount, pktLen, pktRead, pkt[..], pktReady)
    }

    constructor ()
      ensures WellFormed() && fresh(macSync) && fresh(pkt)
      ensures Valid(State()) && State().mstate == MacIdle && !State().pktReady
    {
      mstate, bitpos, curbyte, idleZeros := MacIdle, 9, 0, 0;
      syncCount, pktLen, pktRead, pktReady := 0, 0, 0, false;
      macSync := new byte[4](_ => 0);
      pkt := new byte[PACKET_SIZE](_ => 0);
    }

    method PutBit(bit: bool)
      requires WellFormed() && Valid(State())
      modifies this, macSync, pkt
      ensures WellFormed() && State() == MacStep(old(State()), bit)
    {
      match mstate {
        case MacIdle =>
          if idleZeros > 32 {
            if bit {
              mstate, bitpos, curbyte, syncCount := MacSync, 6, 0x80, 0;
            } else if idleZeros < 255 {
              idleZeros := idleZeros + 1;
            }
          } else {
            idleZeros := if bit then 0 else idleZeros + 1;
          }
        case MacSync =>
          PutSyncBit(bit);
        case MacPacket =>
          PutPacketBit(bit);
      }
    }

    method PutSyncBit(bit: bool)
      requires WellFormed() && Valid(State()) && mstate == MacSync
      modifies this, macSync
      ensures WellFormed() && State() == StepSync(old(State()), bit)
    {
      hide Shift;
      curbyte := Shift(curbyte, bit);
      bitpos := bitpos - 1;
      if bitpos != 0 {
        return;
      }
      if curbyte == 0 {
        mstate, idleZeros := MacIdle, 8;
        return;
      }
      AddSyncByte();
    }

    method AddSyncByte()
      requires WellFormed() && syncCount < 3
      modifies this`syncCount, this`mstate, this`pktLen, this`pktRead, this`idleZeros
      modifies this`bitpos, this`curbyte, macSync
      ensures WellFormed() && State() == SyncByte(old(State()))
    {
      macSync[syncCount] := curbyte;
      syncCount := syncCount + 1;
      if syncCount >= 3 {
        if macSync[0] == SYNC_0 && macSync[1] == SYNC_1 && macSync[2] == SYNC_2 {
          mstate, pktLen, pktRead := MacPacket, 0, 0;
        } else {
          mstate, idleZeros := MacIdle, 0;
        }
      }
      bitpos, curbyte := 8, 0;
    }

    method AddPacketBit(bit: bool)
      requires WellFormed() && 1 <= bitpos && pktRead < PACKET_SIZE
      modifies this`curbyte, this`bitpos, this`pktRead, pkt
      ensures WellFormed() && State() == LoadBit(old(State()), bit)
    {
      hide Shift;
      curbyte := Shift(curbyte, bit);
      bitpos := bitpos - 1;
      if bitpos == 0 {
        pkt[pktRead] := curbyte;
        pktRead := pktRead + 1;
        bitpos, curbyte := 8, 0;
      }
    }

    method PutPacketBit(bit: bool)
      requires WellFormed() && Valid(State()) && mstate == MacPacket
      modifies this, pkt
      ensures WellFormed() && State() == StepPacket(old(State()), bit)
    {
      hide LoadBit;
      if pktLen == 0 && pktRead > HEADER_SIZE {
        if pkt[0] != VER_1 && pkt[0] != VER_2 {
          mstate, idleZeros := MacIdle, 0;
          return;
        }
        if pkt[1] == TYPE_CTRL {
          pktLen := CTRL_LEN;
        } else if pkt[1] == TYPE_DATA {
          pktLen := DATA_LEN;
        } else {
          mstate, idleZeros := MacIdle, 0;
          return;
        }
      }
      AddPacketBit(bit);
      if pktLen != 0 && pktRead >= pktLen {
        pktReady := true;
        mstate, idleZeros := MacIdle, 0;
      }
    }
  }

  // ---- resynchronisation ----

  /** Bits left, at most, until the machine is back in its idle state. */
  function Distance(f: Framer): nat
    requires Valid(f)
  {
    match f.mstate
    case MacIdle => 0
    case MacSync => f.bitpos + 8 * (2 - f.syncCount) + 8 * DATA_LEN
    case MacPacket => 8 * (DATA_LEN - 1 - f.pktRead) + f.bitpos
  }

  lemma SyncDistanceDrops(f: Framer, bit: bool)
    requires Valid(f) && f.mstate == MacSync
    ensures var g := StepSync(f, bit); g.mstate == MacIdle || Distance(g) < Distance(f)
  {
    hide Shift;
  }

  lemma PacketDistanceDrops(f: Framer, bit: bool)
    requires Valid(f) && f.mstate == MacPacket
    ensures var g := StepPacket(f, bit); g.mstate == MacIdle || Distance(g) < Distance(f)
  {
    hide Shift, HeaderVerdict;
  }

  lemma DistanceDrops(f: Framer, bit: bool)
    requires Valid(f) && f.mstate != MacIdle
    ensures var g := MacStep(f, bit); g.mstate == MacIdle || Distance(g) < Distance(f)
  {
    hide StepSync, StepPacket, StepIdle, Distance, Valid;
    if f.mstate == MacSync {
      SyncDistanceDrops(f, bit);
    } else {
      PacketDistanceDrops(f, bit);
    }
  }

  const RESYNC_BITS := 22 + 264 * 8

  /** No bit stream, however wrong, keeps the framer away from its idle state for longer than the bound. */
  lemma {:induction false} Resynchronises(f: Framer, bits: seq<bool>) returns (k: nat)
    requires Valid(f) && |bits| >= Distance(f)
    ensures Distance(f) <= RESYNC_BITS
    ensures k <= Distance(f) && MacRun(f, bits[..k]).mstate == MacIdle
    decreases |bits|
  {
    hide MacStep;
    if f.mstate == MacIdle {
      k := 0;
    } else {
      var g := MacStep(f, bits[0]);
      DistanceDrops(f, bits[0]);
      var j := Resynchronises(g, bits[1..]);
      k := j + 1;
      assert bits[..k][1..] == bits[1..][..j];
    }
  }

  lemma {:induction false} MacRunConcat(f: Framer, a: seq<bool>, b: seq<bool>)
    requires Valid(f)
    ensures MacRun(f, a + b) == MacRun(MacRun(f, a), b)
    decreases |a|
  {
    hide MacStep, Valid;
    if a == [] {
      assert a + b == b;
    } else {
      assert (a + b)[0] == a[0] && (a + b)[1..] == a[1..] + b;
      MacRunConcat(MacStep(f, a[0]), a[1..], b);
    }
  }
}
