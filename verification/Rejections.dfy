/**
 What the updater turns away and what stops it: corrupt and foreign packets, a lost header, loads past the end of
 flash, and failure.
 */
module Rejections {
  import opened Bytes
  import opened Flash
  import opened Protocol
  import opened Cuts
  import opened Convergence
  import opened Sender
  import Murmur3
  import Safety

  /** Nothing happens. */
  function Ignored(astate: AppState): Outcome {
    Outcome([], astate, Running, OK)
  }

  // ---- packets that are not what they claim to be ----

  /** A valid control packet with any one aligned word corrupted, its hash included, is no longer accepted. */
  lemma ControlCorruptionIsRejected(p: Packet, q: Packet, j: nat)
    requires GoodCtrl(p) && Murmur3.AgreeOutsideWord(p[..32], q[..32], j) && p[..32] != q[..32]
    ensures !GoodCtrl(q)
  {
    hide LE, Murmur3.Hash;
    var a, b := p[..32], q[..32];
    assert p[..28] == a[..28] && p[28..32] == a[28..] && q[..28] == b[..28] && q[28..32] == b[28..];
    assert a == a[..28] + a[28..] && b == b[..28] + b[28..];
    if j == 7 {
      assert a[..28] == b[..28] by {
        forall i | 0 <= i < 28 ensures a[i] == b[i] { assert i / 4 != 7; }
      }
      if Word(p, 28) == Word(q, 28) {
        LEInjective(p[28..32], q[28..32]);
      }
    } else {
      assert a[28..] == b[28..] by {
        forall i | 28 <= i < 32 ensures a[i] == b[i] { assert i / 4 == 7; }
      }
      assert Murmur3.AgreeOutsideWord(a[..28], b[..28], j);
      Murmur3.OneWordCorruptionIsCaught(a[..28], b[..28], j, SEED_BLOCK);
    }
  }

  /** An idle updater ignores a sent control packet in which one aligned word has been corrupted. */
  lemma CorruptControlIgnored(m: Memory, img: seq<byte>, length: bv32, guid: seq<byte>, q: Packet, j: nat)
    requires 1 <= Unsigned(length) <= |img| && |guid| == 16
    requires var c := CtrlPacket(img, length, guid);
      Murmur3.AgreeOutsideWord(c[..32], q[..32], j) && q[..32] != c[..32]
    ensures Process(m, Idle, q) == Ignored(Idle)
  {
    hide CtrlPacket, GoodCtrl, Unsigned, Murmur3.Hash, Word;
    CtrlPacketReads(img, length, guid);
    ControlCorruptionIsRejected(CtrlPacket(img, length, guid), q, j);
  }

  /** An updater that has its header ignores a sent data packet in which one aligned word has been corrupted. */
  lemma CorruptDataIgnored(m: Memory, img: seq<byte>, b: nat, q: Packet, j: nat)
    requires BLOCK_SIZE * b + BLOCK_SIZE <= |img| <= BLOCK_SIZE * BLOCKS && Magic(m) == STORAGE_MAGIC
    requires Murmur3.AgreeOutsideWord(DataPacket(img, b), q, j) && q != DataPacket(img, b)
    ensures Process(m, Updating, q) == Ignored(Updating)
  {
    hide DataPacket, GoodData, Magic, DataCommands, Finish;
    DataPacketReads(img, b);
    OneWordCorruptionIsRejected(DataPacket(img, b), q, j);
  }

  /** Idle means waiting for control packets, updating means waiting for data packets. */
  lemma OtherTypesIgnored(m: Memory, p: Packet)
    ensures Type(p) != TYPE_CTRL ==> Process(m, Idle, p) == Ignored(Idle)
    ensures Type(p) != TYPE_DATA && Magic(m) == STORAGE_MAGIC ==> Process(m, Updating, p) == Ignored(Updating)
  {
    hide ApplyAll, EraseAll, ProgramCommands, DataCommands, Finish, Murmur3.Hash, Word;
  }

  // ---- starting over and stopping ----

  /** A header without its magic is no basis for an update: storage is erased and the updater starts over. */
  lemma LostHeaderStartsOver(d: Device, p: Packet)
    requires d.astate == Updating && d.power == Running && Magic(d.mem) != STORAGE_MAGIC
    ensures var r := Step(d, Deliver(p)); StorageErased(r.mem) && r.astate == Idle && r.power == Running
  {
    hide ApplyAll, EraseAll, Word;
    EraseAllEffect(d.mem);
  }

  /** The loads of the completion check after `p` stay in flash. */
  ghost predicate ChecksInFlash(m: Memory, p: Packet)
    requires MapAt(Block(p)) + 4 <= FLASH_SIZE
  {
    var n := BlockCount(Length(m));
    && MapAt(n) <= FLASH_SIZE
    && (AllDone(ApplyAll(m, DataCommands(m, p)), n) ==> PROGRAM + Length(m) <= FLASH_SIZE)
  }

  /**
   The machine stops exactly on any packet after a failure, and on a valid data packet under a valid header whose
   map entry, or whose completion check, takes it past the end of flash.
   */
  lemma HaltsExactly(m: Memory, astate: AppState, p: Packet)
    ensures Process(m, astate, p).power == Halted <==>
      || astate == Fail
      || (astate == Updating && Magic(m) == STORAGE_MAGIC && GoodData(p)
          && (MapAt(Block(p)) + 4 > FLASH_SIZE || !ChecksInFlash(m, p)))
  {
    hide ApplyAll, EraseAll, ProgramCommands, ProgramStatus, DataCommands, DataStatus, AllDone, Murmur3.Hash, LE16;
    hide GoodCtrl, GoodData, AppIsValid, Unsigned, BlockCount, Word;
    if MapAt(Block(p)) + 4 <= FLASH_SIZE {
      HeaderThroughData(m, p);
      Safety.SameHeader(m, ApplyAll(m, DataCommands(m, p)));
    }
  }

  /** Nothing but a reset gets the updater out of failure, and nothing that arrives changes the flash. */
  lemma {:induction false} FailureIsFinal(d: Device, ps: seq<Packet>)
    requires d.astate == Fail && d.power == Running && ps != []
    ensures var r := Deliveries(d, ps); r.power == Halted && r.astate == Fail && r.mem == d.mem
    decreases |ps|
  {
    hide ApplyAll;
    var before := ps[..|ps| - 1];
    CutNone(d.mem, [], 0);
    if before == [] {
      assert Deliveries(d, before) == d;
    } else {
      FailureIsFinal(d, before);
      CutNone(Deliveries(d, before).mem, [], 0);
    }
  }

  // ---- what the reported status and the length mean ----

  /** A marked block is left alone, and that is no error. */
  lemma MarkedIsNoError(m: Memory, p: Packet)
    requires MapAt(Block(p)) + 4 <= FLASH_SIZE && !Pending(m, Block(p))
    ensures DataStatus(m, p) == OK && ApplyAll(m, DataCommands(m, p)) == m
  {
    hide LE16, Word;
  }

  /** An error is reported only for a valid data packet whose payload could not be stored. */
  lemma ErrorMeansNotStored(m: Memory, astate: AppState, p: Packet)
    requires astate == Updating ==> Incomplete(m)
    ensures Process(m, astate, p).status != OK ==>
      astate == Updating && GoodData(p) && MapAt(Block(p)) + 4 <= FLASH_SIZE && DataStatus(m, p) != OK
  {
    hide ApplyAll, EraseAll, ProgramCommands, DataCommands, DataStatus, AllDone, Murmur3.Hash, LE16;
    hide GoodCtrl, GoodData, AppIsValid, Unsigned, BlockCount, Word;
    EraseAllRun();
    if astate == Updating && MapAt(Block(p)) + 4 <= FLASH_SIZE {
      HeaderThroughDataIncomplete(m, p);
      var r := ApplyAll(m, DataCommands(m, p));
      WordBlank(r, COMPLETE_AT);
      assert ProgramStatus(r, ZERO_WORD, 0, COMPLETE_AT) == OK;
    }
  }

  lemma HeaderThroughDataIncomplete(m: Memory, p: Packet)
    requires MapAt(Block(p)) + 4 <= FLASH_SIZE && Incomplete(m)
    ensures Incomplete(ApplyAll(m, DataCommands(m, p)))
  {
    hide ApplyAll, DataCommands, LE16, Word;
    HeaderThroughData(m, p);
    WordSame(m, ApplyAll(m, DataCommands(m, p)), COMPLETE_AT);
  }

  /** The status for an unmarked block tells whether its payload has been stored. */
  lemma StatusTellsStored(m: Memory, p: Packet)
    requires MapAt(Block(p)) + 4 <= FLASH_SIZE && Pending(m, Block(p))
    ensures var r := ApplyAll(m, DataCommands(m, p));
      DataPart(m, r, p, if DataStatus(m, p) == OK then 64 else 0)
  {
    hide ApplyAll, LE16, Word, DataPart, WordRun;
    MarkEffect(m, p);
    var mark := ProgramCommands(m, ZERO_WORD, 0, MapAt(Block(p)));
    var m1 := ApplyAll(m, mark);
    var pay := ProgramCommands(m1, Payload(p), 4, BlockAt(Block(p)));
    ApplyAllConcat(m, mark, pay);
    if DataStatus(m, p) == OK {
      CutWords(m1, Payload(p), 4, BlockAt(Block(p)), |pay|);
      CutPayload(m, m1, p, 64);
      assert pay[..64] == pay;
    } else {
      assert pay == [];
      CutNone(m1, pay, 0);
      assert pay[..0] == pay;
    }
  }

  /** The number of blocks is the length rounded up; only a length of zero wraps around. */
  lemma BlocksCoverLength(length: nat, n: nat)
    requires 1 <= length < 0x1_0000_0000
    ensures n == BlockCount(length) <==> length <= BLOCK_SIZE * n < length + BLOCK_SIZE
    ensures BlockCount(0) == 0x100_0000
  {
  }
}
