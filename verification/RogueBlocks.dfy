/**
 Block numbers are not range-checked.  A valid data packet whose map entry lies beyond the header page, but still
 in flash, has its mark written into the program region.  Such packets, and no others, break the agreement of
 map and region and the rule that a byte is programmed once per erase.
 */
module RogueBlocks {
  import opened Bytes
  import opened Flash
  import opened Protocol
  import opened Cuts
  import opened Safety
  import opened Wear
  import opened Convergence
  import opened Sender
  import Murmur3

  /** Every valid data packet of the run names a safe block, or is `p` itself. */
  ghost predicate TameExcept(es: seq<Event>, p: Packet) {
    forall i :: 0 <= i < |es| && !es[i].Reset? && GoodData(es[i].p) ==> SafeBlock(es[i].p) || es[i].p == p
  }

  /** Between any two programmings of one byte there is an erase of it. */
  ghost predicate OncePerErase(log: seq<Command>) {
    forall x, y, i: nat :: 0 <= x < y < |log| && ProgramsByte(log[x], i) && ProgramsByte(log[y], i) ==>
      exists z :: x < z < y && ErasesByte(log[z], i)
  }

  // ---- a device under update that still waits for some block ----

  ghost predicate WaitsFor(d: Device, e: nat) {
    && d.astate == Updating && d.power == Running && Magic(d.mem) == STORAGE_MAGIC
    && e < BlockCount(Length(d.mem)) <= BLOCKS && Pending(d.mem, e)
  }

  /** A valid packet for any other unmarked entry is stored, and the update goes on. */
  lemma OtherBlockStored(d: Device, p: Packet, e: nat) returns (w: nat)
    requires WaitsFor(d, e) && GoodData(p) && e != Block(p)
    requires MapAt(Block(p)) + 4 <= FLASH_SIZE && Pending(d.mem, Block(p))
    ensures var r := Step(d, Deliver(p));
      && r.mem == ApplyAll(d.mem, DataCommands(d.mem, p)) && r.log == d.log + DataCommands(d.mem, p)
      && DataPart(d.mem, r.mem, p, w) && WaitsFor(r, e) && Length(r.mem) == Length(d.mem)
  {
    hide Word, ApplyAll, LE16, GoodData, DataPart, DataCommands, DataStatus, AppIsValid, Unsigned, BlockCount, EraseAll;
    var m, data := d.mem, DataCommands(d.mem, p);
    var r := ApplyAll(m, data);
    MarkedAfterData(m, p);
    w :| DataPart(m, r, p, w);
    DataFacts(m, r, p, w);
    SameHeader(m, r);
    PendingAfterData(m, r, p, w);
    assert Pending(r, e);
    assert data + [] == data;
  }

  /** The block of the program region into which the mark of a rogue packet falls. */
  function RogueSector(p: Packet): (b: nat)
    requires !SafeBlock(p)
    ensures b < BLOCKS
  {
    (MapAt(Block(p)) - PROGRAM) / BLOCK_SIZE
  }

  /** An aligned word of the program region lies within one block. */
  lemma WordInBlock(k: nat)
    requires 4 * k + 4 <= FLASH_SIZE - PROGRAM
    ensures var b := 4 * k / BLOCK_SIZE;
      b < BLOCKS && BLOCK_SIZE * b <= 4 * k && 4 * k + 4 <= BLOCK_SIZE * b + BLOCK_SIZE
  {
    var b := k / 64;
    assert 64 * b <= k < 64 * b + 64;
    assert 4 * k == 256 * b + 4 * (k - 64 * b);
  }

  /** The mark of a rogue packet falls, whole, into the block `RogueSector(p)` of the program region. */
  lemma RogueMark(p: Packet)
    requires !SafeBlock(p)
    ensures var b := RogueSector(p);
      b < BLOCKS && b != Block(p) && BlockAt(b) <= MapAt(Block(p)) && MapAt(Block(p)) + 4 <= BlockAt(b) + BLOCK_SIZE
  {
    hide Block;
    WordInBlock(Block(p) - MAP_ENTRIES);
    assert MapAt(Block(p)) - PROGRAM == 4 * (Block(p) - MAP_ENTRIES);
  }

  // ---- two runs ----

  const ZeroGuid: seq<byte> := [0, 0, 0, 0, 0, 0, 0, 0, 0, 0, 0, 0, 0, 0, 0, 0]

  const FullLength: bv32 := 0x2700

  function ErasedImage(n: nat): (img: seq<byte>)
    ensures |img| == BLOCK_SIZE * n && forall i :: 0 <= i < |img| ==> img[i] == BLANK_BYTE
  {
    seq(BLOCK_SIZE * n, _ => BLANK_BYTE)
  }

  /** Announces a program of all `BLOCKS` blocks. */
  function FullAnnouncement(): Packet {
    hide Unsigned, ErasedImage;
    FullLengthReads();
    CtrlPacket(ErasedImage(BLOCKS), FullLength, ZeroGuid)
  }

  lemma FullIsSendable()
    ensures Sendable(ErasedImage(BLOCKS), FullLength, ZeroGuid)
    ensures Unsigned(FullLength) == BLOCK_SIZE * BLOCKS
  {
    hide ErasedImage;
    FullLengthReads();
    hide Unsigned;
    assert ZeroGuid[0] != BLANK_BYTE;
  }

  lemma FullLengthReads()
    ensures Unsigned(FullLength) == BLOCK_SIZE * BLOCKS
  {
  }

  function Announce(): Event { Deliver(FullAnnouncement()) }

  /** After the announcement every block is awaited and nothing is written. */
  lemma Announced0(d0: Device)
    requires FactoryFresh(d0)
    ensures var d := Run(d0, [Announce()]);
      && Blank(d.mem, MAP_AT, FLASH_SIZE) && Length(d.mem) == BLOCK_SIZE * BLOCKS
      && forall e :: 0 <= e < BLOCKS ==> WaitsFor(d, e)
  {
    hide CtrlPacket, Word, Unsigned, Step, FactoryFresh;
    FullIsSendable();
    FirstAnnouncement(d0, ErasedImage(BLOCKS), FullLength, ZeroGuid);
    var d := Run(d0, [Announce()]);
    assert d == Step(d0, Announce()) by { assert Run(d0, [Announce()][..0]) == d0; }
    forall e | 0 <= e < BLOCKS ensures WaitsFor(d, e) {
      WordBlank(d.mem, MapAt(e));
    }
  }

  lemma RunSnoc(d0: Device, es: seq<Event>, e: Event)
    ensures Run(d0, es + [e]) == Step(Run(d0, es), e)
  {
    hide Step;
    assert (es + [e])[..|es + [e]| - 1] == es;
  }

  function MarkRogue(p: Packet): seq<Event> {
    [Announce()] + [Deliver(p)]
  }

  /** Its mark is a written byte in a block whose own entry is still blank. */
  lemma CouplingLost(d0: Device, p: Packet)
    requires FactoryFresh(d0) && GoodData(p) && !SafeBlock(p)
    ensures !Coupled(Run(d0, MarkRogue(p)).mem)
  {
    hide Run, Word, LE16, GoodData, WaitsFor, Announce, Step, FactoryFresh, ApplyAll, DataCommands;
    var d := Run(d0, [Announce()]);
    Announced0(d0);
    RogueMark(p);
    RunSnoc(d0, [Announce()], Deliver(p));
    WordBlank(d.mem, MapAt(Block(p)));
    var b := RogueSector(p);
    var w := OtherBlockStored(d, p, b);
    var r := Run(d0, MarkRogue(p)).mem;
    assert r[MapAt(Block(p))] == 0;
    assert Magic(r) == STORAGE_MAGIC && Pending(r, b) by {
      assert WaitsFor(Step(d, Deliver(p)), b);
      UnfoldWaits(Step(d, Deliver(p)), b);
    }
  }

  lemma UnfoldWaits(d: Device, e: nat)
    requires WaitsFor(d, e)
    ensures Magic(d.mem) == STORAGE_MAGIC && e < BLOCKS && Pending(d.mem, e)
  {
  }

  /** A packet that stores all-0xFF bytes in the block where the mark of `p` will fall. */
  function Decoy(p: Packet): Packet
    requires !SafeBlock(p)
  {
    DataPacket(ErasedImage(BLOCKS), RogueSector(p))
  }

  function ProgramTwice(p: Packet): seq<Event>
    requires !SafeBlock(p)
  {
    [Announce()] + [Deliver(Decoy(p))] + [Deliver(p)]
  }

  lemma DecoyFacts(p: Packet)
    requires !SafeBlock(p)
    ensures var q := Decoy(p);
      && GoodData(q) && Block(q) == RogueSector(p)
      && forall j :: 0 <= j < BLOCK_SIZE ==> Payload(q)[j] == BLANK_BYTE
  {
    hide GoodData, LE16, SafeBlock, DataPacket;
    DataPacketReads(ErasedImage(BLOCKS), RogueSector(p));
  }

  /** The commands for a block that is neither marked nor written. */
  lemma BlockCommands(m: Memory, p: Packet)
    requires Block(p) < BLOCKS && Unwritten(m, Block(p))
    ensures DataCommands(m, p)
      == WordRun(ZERO_WORD, MapAt(Block(p)), 1) + WordRun(Payload(p), BlockAt(Block(p)), 64)
    ensures DataPart(m, ApplyAll(m, DataCommands(m, p)), p, 64)
  {
    hide ApplyAll, LE16, Word, WordRun, DataPart;
    MarkRun(m, p);
    WholeData(m, p);
    var m1 := ApplyAll(m, ProgramCommands(m, ZERO_WORD, 0, MapAt(Block(p))));
    assert Blank(m1, BlockAt(Block(p)), BlockAt(Block(p)) + BLOCK_SIZE) by {
      UnfoldPart(m, m1, p);
    }
    assert ProgramStatus(m1, Payload(p), 4, BlockAt(Block(p))) == OK;
  }

  lemma UnfoldPart(m: Memory, m1: Memory, p: Packet)
    requires DataPart(m, m1, p, 0) && MapAt(Block(p)) + 4 <= PROGRAM
    ensures SameOn(m, m1, PROGRAM, FLASH_SIZE)
  {
  }

  /** A byte programmed in `b`, never erased there, and programmed again by the first command of `c`. */
  lemma Twice(a: seq<Command>, b: seq<Command>, c: seq<Command>, j: nat, i: nat)
    requires j < |b| && c != [] && ProgramsByte(b[j], i) && ProgramsByte(c[0], i)
    requires forall z :: 0 <= z < |b| ==> !ErasesByte(b[z], i)
    ensures !OncePerErase(a + b + c)
  {
    var log, x, y := a + b + c, |a| + j, |a| + |b|;
    assert log[x] == b[j] && log[y] == c[0];
    forall z | x < z < y ensures !ErasesByte(log[z], i) {
      assert log[z] == b[z - |a|];
    }
  }

  /** The decoy programs the word where the mark of `p` will fall. */
  lemma DecoyProgramsIt(m: Memory, p: Packet)
    requires !SafeBlock(p) && Blank(m, MAP_AT, FLASH_SIZE)
    ensures Pending(m, RogueSector(p))
    ensures var b, at := DataCommands(m, Decoy(p)), MapAt(Block(p));
      && (forall z :: 0 <= z < |b| ==> !ErasesByte(b[z], at))
      && (exists j :: 0 <= j < |b| && ProgramsByte(b[j], at))
      && Blank(ApplyAll(m, b), at, at + 4)
  {
    hide ApplyAll, LE16, Word, GoodData, Decoy, RogueSector, SafeBlock;
    var q, e, at := Decoy(p), RogueSector(p), MapAt(Block(p));
    RogueMark(p);
    DecoyFacts(p);
    WordBlank(m, MapAt(e));
    BlockCommands(m, q);
    var pay := WordRun(Payload(q), BlockAt(e), 64);
    var b := DataCommands(m, q);
    var j := (at - BlockAt(e)) / 4;
    assert b[1 + j] == pay[j];
    assert ProgramsByte(pay[j], at);
    var r := ApplyAll(m, b);
    forall i | at <= i < at + 4 ensures r[i] == BLANK_BYTE {
      assert r[i] == Payload(q)[i - BlockAt(e)];
    }
  }

  lemma ProgrammedTwice(d0: Device, p: Packet)
    requires FactoryFresh(d0) && GoodData(p) && !SafeBlock(p)
    ensures !OncePerErase(Run(d0, ProgramTwice(p)).log)
  {
    hide Run, Word, LE16, GoodData, Announce, Step, FactoryFresh, ApplyAll, DataCommands, DataPart, OncePerErase;
    hide ErasesByte, ProgramsByte, Decoy, RogueSector, WaitsFor;
    var q, e, at := Decoy(p), RogueSector(p), MapAt(Block(p));
    var d := Run(d0, [Announce()]);
    Announced0(d0);
    RogueMark(p);
    DecoyFacts(p);
    DecoyProgramsIt(d.mem, p);
    var other := if e == 0 then 1 else 0;
    var _ := OtherBlockStored(d, q, other);
    RunSnoc(d0, [Announce()], Deliver(q));
    var d1 := Step(d, Deliver(q));
    WordBlank(d1.mem, at);
    var _ := OtherBlockStored(d1, p, other);
    RunSnoc(d0, [Announce()] + [Deliver(q)], Deliver(p));
    MarkFirst(d1.mem, p);
    var b := DataCommands(d.mem, q);
    var j :| 0 <= j < |b| && ProgramsByte(b[j], at);
    Twice(d.log, b, DataCommands(d1.mem, p), j, at);
  }

  lemma MarkFirst(m: Memory, p: Packet)
    requires MapAt(Block(p)) + 4 <= FLASH_SIZE && Pending(m, Block(p))
    ensures DataCommands(m, p) != [] && ProgramsByte(DataCommands(m, p)[0], MapAt(Block(p)))
  {
    hide ApplyAll, LE16, Word, ProgramCommands;
    MarkRun(m, p);
    assert DataCommands(m, p)[0] == WordRun(ZERO_WORD, MapAt(Block(p)), 1)[0];
  }

  // ---- the exact conditions ----

  lemma AnnouncementIsNotData()
    ensures !GoodData(FullAnnouncement())
  {
    hide CtrlPacket, Unsigned, Murmur3.Hash, Word;
    FullIsSendable();
    CtrlPacketReads(ErasedImage(BLOCKS), FullLength, ZeroGuid);
  }

  lemma DecoyIsSafe(p: Packet)
    requires !SafeBlock(p)
    ensures SafeBlock(Decoy(p))
  {
    hide LE16, Decoy, GoodData;
    DecoyFacts(p);
  }

  lemma RogueRunsAllowed(p: Packet)
    requires !SafeBlock(p)
    ensures TameExcept(MarkRogue(p), p) && TameExcept(ProgramTwice(p), p)
  {
    hide GoodData, SafeBlock, Decoy, FullAnnouncement;
    AnnouncementIsNotData();
    DecoyIsSafe(p);
  }

  lemma TameWhenSafe(es: seq<Event>, p: Packet)
    requires TameExcept(es, p) && SafeBlock(p)
    ensures Tame(es)
  {
    hide GoodData, SafeBlock;
  }

  ghost predicate AlwaysCoupled(p: Packet) {
    forall d0: Device, es: seq<Event> :: FactoryFresh(d0) && TameExcept(es, p) ==> Coupled(Run(d0, es).mem)
  }

  ghost predicate AlwaysOncePerErase(p: Packet) {
    forall d0: Device, es: seq<Event> :: FactoryFresh(d0) && TameExcept(es, p) ==> OncePerErase(Run(d0, es).log)
  }

  /**
   Map and region stay in step in every run that adds the valid data packet `p` to safe ones, exactly when `p`
   is safe itself.
   */
  lemma CouplingKeptExactly(p: Packet)
    requires GoodData(p)
    ensures AlwaysCoupled(p) <==> SafeBlock(p)
  {
    hide Run, Coupled, FactoryFresh, Tame, TameExcept, SafeBlock, GoodData;
    if SafeBlock(p) {
      forall d0: Device, es: seq<Event> | FactoryFresh(d0) && TameExcept(es, p) ensures Coupled(Run(d0, es).mem) {
        TameWhenSafe(es, p);
        RunKeepsInv(d0, es);
      }
    } else {
      var d0 := NewDevice();
      CouplingLost(d0, p);
      RogueRunsAllowed(p);
    }
  }

  /**
   Each byte is programmed at most once per erase in every run that adds the valid data packet `p` to safe
   ones, exactly when `p` is safe itself.
   */
  lemma OncePerEraseExactly(p: Packet)
    requires GoodData(p)
    ensures AlwaysOncePerErase(p) <==> SafeBlock(p)
  {
    hide Run, FactoryFresh, Tame, TameExcept, SafeBlock, GoodData, ErasesByte, ProgramsByte, OncePerErase;
    if SafeBlock(p) {
      forall d0: Device, es: seq<Event> | FactoryFresh(d0) && TameExcept(es, p) ensures OncePerErase(Run(d0, es).log) {
        TameWhenSafe(es, p);
        TameRunOnce(d0, es);
      }
    } else {
      var d0 := NewDevice();
      ProgrammedTwice(d0, p);
      RogueRunsAllowed(p);
    }
  }

  lemma TameRunOnce(d0: Device, es: seq<Event>)
    requires FactoryFresh(d0) && Tame(es)
    ensures OncePerErase(Run(d0, es).log)
  {
    hide Run, FactoryFresh, Tame, ErasesByte, ProgramsByte;
    var log := Run(d0, es).log;
    forall x, y, i: nat | 0 <= x < y < |log| && ProgramsByte(log[x], i) && ProgramsByte(log[y], i)
      ensures exists z :: x < z < y && ErasesByte(log[z], i)
    {
      ProgrammedOncePerErase(d0, es, x, y, i);
    }
  }

  function NewDevice(): (d: Device)
    ensures FactoryFresh(d)
  {
    Device(seq(FLASH_SIZE, i => BLANK_BYTE), Idle, Running, [])
  }
}
