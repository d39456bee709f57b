/**
 Where a transmission ends: the flash left by any clean transmission is a function of the flash it
 started on and of the image, not of the order, repetition or corruption of the packets.
 */
module Convergence {
  import opened Bytes
  import opened Flash
  import opened Protocol
  import opened Cuts
  import opened Safety
  import opened Wear
  import Murmur3

  // ---- what senders transmit ----

  function CtrlBlocks(c: Packet): nat {
    BlockCount(Unsigned(Word(c, 4)))
  }

  /** `c` announces the program `img` (padded to whole blocks). */
  ghost predicate Announced(c: Packet, img: seq<byte>) {
    var length := Unsigned(Word(c, 4));
    && GoodCtrl(c)
    && !(forall i :: 0 <= i < 16 ==> CtrlGuid(c)[i] == BLANK_BYTE)
    && 1 <= length <= |img| == BLOCK_SIZE * CtrlBlocks(c)
    && CtrlBlocks(c) <= BLOCKS
    && Murmur3.Hash(img[..length], SEED_TOTAL) == Word(c, 8)
  }

  ghost predicate Genuine(p: Packet, img: seq<byte>) {
    && GoodData(p)
    && BLOCK_SIZE * Block(p) + BLOCK_SIZE <= |img|
    && Payload(p) == img[BLOCK_SIZE * Block(p)..BLOCK_SIZE * Block(p) + BLOCK_SIZE]
  }

  /** Blocks delivered by the genuine packets of `ps`. */
  ghost function Received(ps: seq<Packet>, img: seq<byte>): set<nat> {
    if ps == [] then {}
    else Received(ps[..|ps| - 1], img) + (if Genuine(ps[|ps| - 1], img) then {Block(ps[|ps| - 1])} else {})
  }

  /** Any mixture of genuine packets, repeats and packets whose check fails, with no block missing at the end. */
  ghost predicate CleanStream(ps: seq<Packet>, img: seq<byte>) {
    && (forall i :: 0 <= i < |ps| ==> Genuine(ps[i], img) || !GoodData(ps[i]))
    && forall b: nat :: BLOCK_SIZE * b + BLOCK_SIZE <= |img| ==> b in Received(ps, img)
  }

  function Deliveries(d: Device, ps: seq<Packet>): Device {
    if ps == [] then d else Step(Deliveries(d, ps[..|ps| - 1]), Deliver(ps[|ps| - 1]))
  }

  // ---- the flash after a set of blocks has been received ----

  /** Block `b` is neither marked nor written. */
  predicate Unwritten(m: Memory, b: nat)
    requires b < BLOCKS
  {
    Pending(m, b) && Blank(m, BlockAt(b), BlockAt(b) + BLOCK_SIZE)
  }

  function FillByte(m: Memory, img: seq<byte>, s: set<nat>, i: nat): byte
    requires i < FLASH_SIZE && |img| <= BLOCK_SIZE * BLOCKS
  {
    if MAP_AT <= i < MapAt(BLOCKS) && (i - MAP_AT) / 4 in s && Pending(m, (i - MAP_AT) / 4) then 0
    else if
      PROGRAM <= i < PROGRAM + |img| && (i - PROGRAM) / BLOCK_SIZE in s && Unwritten(m, (i - PROGRAM) / BLOCK_SIZE)
    then img[i - PROGRAM]
    else m[i]
  }

  function Fill(m: Memory, img: seq<byte>, s: set<nat>): Memory
    requires |img| <= BLOCK_SIZE * BLOCKS
  {
    seq(FLASH_SIZE, i requires 0 <= i < FLASH_SIZE => FillByte(m, img, s, i))
  }

  function Upto(n: nat): (s: set<nat>)
    ensures forall b: nat :: b in s <==> b < n
  {
    if n == 0 then {} else Upto(n - 1) + {n - 1}
  }

  /** Every block below `n` was already marked in `m` or is in `s`. */
  ghost predicate Covers(m: Memory, n: nat, s: set<nat>)
    requires n <= BLOCKS
  {
    forall b :: 0 <= b < n && Pending(m, b) ==> b in s
  }

  lemma FillAt(m: Memory, img: seq<byte>, s: set<nat>, b: nat)
    requires |img| <= BLOCK_SIZE * BLOCKS && b < BLOCKS
    ensures var r := Fill(m, img, s);
      && (forall i :: MapAt(b) <= i < MapAt(b) + 4 ==> r[i] == if b in s && Pending(m, b) then 0 else m[i])
      && (BLOCK_SIZE * b + BLOCK_SIZE <= |img| ==> forall i :: BlockAt(b) <= i < BlockAt(b) + BLOCK_SIZE ==>
            r[i] == if b in s && Unwritten(m, b) then img[i - PROGRAM] else m[i])
  {
    hide Word;
    var r := Fill(m, img, s);
    forall i | MapAt(b) <= i < MapAt(b) + 4 ensures r[i] == if b in s && Pending(m, b) then 0 else m[i] {
      assert (i - MAP_AT) / 4 == b;
    }
    if BLOCK_SIZE * b + BLOCK_SIZE <= |img| {
      forall i | BlockAt(b) <= i < BlockAt(b) + BLOCK_SIZE
        ensures r[i] == if b in s && Unwritten(m, b) then img[i - PROGRAM] else m[i]
      {
        assert (i - PROGRAM) / BLOCK_SIZE == b;
      }
    }
  }

  lemma FillPending(m: Memory, img: seq<byte>, s: set<nat>, b: nat)
    requires |img| <= BLOCK_SIZE * BLOCKS && b < BLOCKS
    ensures Pending(Fill(m, img, s), b) <==> Pending(m, b) && b !in s
  {
    hide Word, Fill, Unwritten;
    var r := Fill(m, img, s);
    FillAt(m, img, s, b);
    if b in s && Pending(m, b) {
      WordBlank(r, MapAt(b));
      assert r[MapAt(b)] == 0;
    } else {
      WordSame(m, r, MapAt(b));
    }
  }

  lemma FillHeader(m: Memory, img: seq<byte>, s: set<nat>)
    requires |img| <= BLOCK_SIZE * BLOCKS
    ensures SameOn(m, Fill(m, img, s), 0, MAP_AT)
    ensures Magic(Fill(m, img, s)) == Magic(m) && Length(Fill(m, img, s)) == Length(m)
    ensures FullHash(Fill(m, img, s)) == FullHash(m) && Incomplete(Fill(m, img, s)) == Incomplete(m)
  {
    hide Word, Unsigned;
    assert SameOn(m, Fill(m, img, s), 0, MAP_AT);
    SameHeader(m, Fill(m, img, s));
    WordSame(m, Fill(m, img, s), COMPLETE_AT);
  }

  /** Blocks that were already marked, or below the image, make no difference. */
  lemma FillSame(m: Memory, img: seq<byte>, s: set<nat>, t: set<nat>)
    requires |img| <= BLOCK_SIZE * BLOCKS
    requires forall b: nat :: b < BLOCKS && Pending(m, b) ==> (b in s <==> b in t)
    ensures Fill(m, img, s) == Fill(m, img, t)
  {
    hide Word;
  }

  lemma WholeData(m: Memory, p: Packet)
    requires BlockAt(Block(p)) + BLOCK_SIZE <= FLASH_SIZE && MapAt(Block(p)) + 4 <= PROGRAM && Pending(m, Block(p))
    requires Blank(m, BlockAt(Block(p)), BlockAt(Block(p)) + BLOCK_SIZE)
    ensures DataPart(m, ApplyAll(m, DataCommands(m, p)), p, 64)
  {
    hide LE, LE16, ApplyAll, ProgramCommands, WordRun;
    var b := Block(p);
    MarkRun(m, p);
    var mark := ProgramCommands(m, ZERO_WORD, 0, MapAt(b));
    var m1 := ApplyAll(m, mark);
    var pay := ProgramCommands(m1, Payload(p), 4, BlockAt(b));
    assert Blank(m1, BlockAt(b), BlockAt(b) + BLOCK_SIZE);
    assert ProgramStatus(m1, Payload(p), 4, BlockAt(b)) == OK;
    CutWords(m1, Payload(p), 4, BlockAt(b), 0);
    CutPayload(m, m1, p, 64);
    assert pay[..64] == pay;
    ApplyAllConcat(m, mark, pay);
  }

  /** A block that is not marked but not blank either is marked and left as it is. */
  lemma MarkOnly(m: Memory, p: Packet)
    requires MapAt(Block(p)) + 4 <= PROGRAM && BlockAt(Block(p)) + BLOCK_SIZE <= FLASH_SIZE && Pending(m, Block(p))
    requires !Blank(m, BlockAt(Block(p)), BlockAt(Block(p)) + BLOCK_SIZE)
    ensures DataPart(m, ApplyAll(m, DataCommands(m, p)), p, 0)
  {
    hide LE, LE16, ApplyAll;
    var b := Block(p);
    MarkRun(m, p);
    var mark := ProgramCommands(m, ZERO_WORD, 0, MapAt(b));
    var m1 := ApplyAll(m, mark);
    assert !Blank(m1, BlockAt(b), BlockAt(b) + BLOCK_SIZE) by {
      assert SameOn(m, m1, PROGRAM, FLASH_SIZE);
    }
    assert ProgramCommands(m1, Payload(p), 4, BlockAt(b)) == [];
    assert mark + [] == mark;
  }

  /** One more genuine packet adds its block to the filled set, whatever came before. */
  lemma FillStep(m: Memory, img: seq<byte>, s: set<nat>, p: Packet)
    requires |img| <= BLOCK_SIZE * BLOCKS && Genuine(p, img)
    ensures ApplyAll(Fill(m, img, s), DataCommands(Fill(m, img, s), p)) == Fill(m, img, s + {Block(p)})
  {
    hide Word, Fill, ApplyAll, LE16, GoodData, DataPart, Payload, ProgramCommands;
    var b := Block(p);
    var r := Fill(m, img, s);
    FillPending(m, img, s, b);
    if Pending(r, b) {
      FillAt(m, img, s, b);
      assert Blank(r, BlockAt(b), BlockAt(b) + BLOCK_SIZE) <==> Unwritten(m, b);
      if Unwritten(m, b) {
        WholeData(r, p);
      } else {
        MarkOnly(r, p);
      }
      FillData(m, img, s, p, ApplyAll(r, DataCommands(r, p)));
    } else {
      CutNone(r, [], 0);
      FillSame(m, img, s, s + {b});
    }
  }

  lemma FillData(m: Memory, img: seq<byte>, s: set<nat>, p: Packet, r': Memory)
    requires |img| <= BLOCK_SIZE * BLOCKS && Genuine(p, img)
    requires Pending(m, Block(p)) && Block(p) !in s
    requires DataPart(Fill(m, img, s), r', p, if Unwritten(m, Block(p)) then 64 else 0)
    ensures r' == Fill(m, img, s + {Block(p)})
  {
    hide Word, LE16, GoodData;
    var b := Block(p);
    var r, f := Fill(m, img, s), Fill(m, img, s + {b});
    forall i | 0 <= i < FLASH_SIZE ensures r'[i] == f[i] {
      if MapAt(b) <= i < MapAt(b) + 4 {
        assert (i - MAP_AT) / 4 == b;
      } else if BlockAt(b) <= i < BlockAt(b) + BLOCK_SIZE {
        assert (i - PROGRAM) / BLOCK_SIZE == b;
        assert Payload(p)[i - BlockAt(b)] == img[i - PROGRAM];
      } else {
        assert r'[i] == r[i];
        assert MAP_AT <= i < MapAt(BLOCKS) ==> (i - MAP_AT) / 4 != b;
        assert PROGRAM <= i ==> (i - PROGRAM) / BLOCK_SIZE != b;
      }
    }
  }

  lemma FillDone(m: Memory, img: seq<byte>, s: set<nat>, n: nat)
    requires n <= BLOCKS && |img| == BLOCK_SIZE * n && s <= Upto(n)
    ensures AllDone(Fill(m, img, s), n) <==> Covers(m, n, s)
    ensures Covers(m, n, s) ==> Fill(m, img, s) == Fill(m, img, Upto(n))
  {
    hide Word, Fill, Pending;
    var r := Fill(m, img, s);
    forall b | 0 <= b < n ensures Pending(r, b) <==> Pending(m, b) && b !in s {
      FillPending(m, img, s, b);
    }
    if Covers(m, n, s) {
      FillSame(m, img, s, Upto(n));
    }
  }

  // ---- the end of a transmission ----

  function SealedCopy(m: Memory): Memory {
    seq(FLASH_SIZE, i requires 0 <= i < FLASH_SIZE => if COMPLETE_AT <= i < COMPLETE_AT + 4 then 0 else m[i])
  }

  /** The flash at the end of a clean transmission of `img` that began on `m`. */
  function FinalMemory(m: Memory, img: seq<byte>, n: nat): Memory
    requires |img| <= BLOCK_SIZE * BLOCKS
  {
    var full := Fill(m, img, Upto(n));
    if Sealed(full) then SealedCopy(full) else ApplyAll(full, EraseAll())
  }

  ghost predicate Concluded(m: Memory, img: seq<byte>, n: nat, d: Device)
    requires |img| <= BLOCK_SIZE * BLOCKS
  {
    && d.mem == FinalMemory(m, img, n)
    && if Sealed(Fill(m, img, Upto(n))) && AppIsValid(d.mem) then d.power == Booted
       else d.astate == Fail && d.power != Booted
  }

  ghost predicate UnderWay(m: Memory, img: seq<byte>, n: nat, s: set<nat>, d: Device)
    requires n <= BLOCKS && |img| == BLOCK_SIZE * n
  {
    && s <= Upto(n) && (s == {} || !Covers(m, n, s))
    && d.mem == Fill(m, img, s) && d.astate == Updating && d.power == Running
  }

  lemma SealIsCopy(m: Memory)
    requires Incomplete(m)
    ensures ApplyAll(m, ProgramCommands(m, ZERO_WORD, 0, COMPLETE_AT)) == SealedCopy(m)
  {
    hide ApplyAll, Apply, Word, WordRun;
    WordBlank(m, COMPLETE_AT);
    assert ProgramStatus(m, ZERO_WORD, 0, COMPLETE_AT) == OK;
    var seal := ProgramCommands(m, ZERO_WORD, 0, COMPLETE_AT);
    CutWords(m, ZERO_WORD, 0, COMPLETE_AT, 0);
    assert seal[..1] == seal;
    SealRun(m, 1);
  }

  /** The completion check on a filled memory concludes exactly when every block is accounted for. */
  lemma FinishFilled(m: Memory, img: seq<byte>, n: nat, s: set<nat>, status: Status)
    requires n <= BLOCKS && |img| == BLOCK_SIZE * n && s <= Upto(n)
    requires Incomplete(m) && BlockCount(Length(m)) == n && Length(m) <= |img|
    ensures var r, fin := Fill(m, img, s), Finish(Fill(m, img, s), status);
      && (!Covers(m, n, s) ==> fin == Outcome([], Updating, Running, status))
      && (Covers(m, n, s) ==>
            forall log :: Concluded(m, img, n, Device(ApplyAll(r, fin.cmds), fin.astate, fin.power, log)))
  {
    hide Word, Fill, AllDone, Covers, Sealed, ApplyAll, EraseAll, ProgramCommands, ProgramStatus, AppIsValid;
    hide Unsigned, BlockCount;
    var r := Fill(m, img, s);
    FillHeader(m, img, s);
    FillDone(m, img, s, n);
    SealIsCopy(r);
    assert Sealed(r) <==> Murmur3.Hash(Region(r), SEED_TOTAL) == FullHash(r) by { SealedMeans(r); }
  }

  lemma SealedMeans(m: Memory)
    requires PROGRAM + Length(m) <= FLASH_SIZE
    ensures Sealed(m) <==> Murmur3.Hash(Region(m), SEED_TOTAL) == FullHash(m)
  {
  }

  lemma GenuineStep(m: Memory, img: seq<byte>, n: nat, s: set<nat>, d: Device, p: Packet)
    requires n <= BLOCKS && |img| == BLOCK_SIZE * n && UnderWay(m, img, n, s, d) && Genuine(p, img)
    requires Incomplete(m) && BlockCount(Length(m)) == n && Length(m) <= |img|
    requires Magic(m) == STORAGE_MAGIC
    ensures var r, t := Step(d, Deliver(p)), s + {Block(p)};
      if Covers(m, n, t) then Concluded(m, img, n, r) else UnderWay(m, img, n, t, r)
  {
    hide Word, Fill, Covers, ApplyAll, DataCommands, DataStatus, GoodData, LE16, Payload, Finish, Concluded, Incomplete;
    hide Unsigned, BlockCount;
    var t := s + {Block(p)};
    var data, status := DataCommands(d.mem, p), DataStatus(d.mem, p);
    FillHeader(m, img, s);
    FillStep(m, img, s, p);
    FinishFilled(m, img, n, t, status);
    var fin := Finish(Fill(m, img, t), status);
    ApplyAllConcat(d.mem, data, fin.cmds);
    assert Process(d.mem, d.astate, p) == fin.(cmds := data + fin.cmds);
    CutNone(Fill(m, img, t), [], 0);
    var r := Step(d, Deliver(p));
    assert r == Device(ApplyAll(Fill(m, img, t), fin.cmds), fin.astate, fin.power, r.log);
    if !Covers(m, n, t) {
      assert fin == Outcome([], Updating, Running, status);
      assert UnderWay(m, img, n, t, r);
    }
  }

  lemma NoiseStep(m: Memory, img: seq<byte>, n: nat, s: set<nat>, d: Device, p: Packet)
    requires n <= BLOCKS && |img| == BLOCK_SIZE * n && UnderWay(m, img, n, s, d) && !GoodData(p)
    requires Magic(m) == STORAGE_MAGIC
    ensures UnderWay(m, img, n, s, Step(d, Deliver(p)))
  {
    hide Word, Fill, Covers, ApplyAll, GoodData;
    FillHeader(m, img, s);
    CutNone(d.mem, [], 0);
  }

  lemma ConcludedStays(m: Memory, img: seq<byte>, n: nat, d: Device, p: Packet)
    requires |img| <= BLOCK_SIZE * BLOCKS && Concluded(m, img, n, d)
    ensures Concluded(m, img, n, Step(d, Deliver(p)))
  {
    hide Word, Fill, ApplyAll, FinalMemory, Sealed, AppIsValid;
    CutNone(d.mem, [], 0);
  }

  /** After any part of a stream: still filling with exactly the blocks received, or concluded. */
  lemma {:induction false} StreamPrefix(m: Memory, img: seq<byte>, n: nat, d: Device, ps: seq<Packet>)
    requires n <= BLOCKS && |img| == BLOCK_SIZE * n && UnderWay(m, img, n, {}, d)
    requires Incomplete(m) && BlockCount(Length(m)) == n && Length(m) <= |img|
    requires Magic(m) == STORAGE_MAGIC
    requires forall i :: 0 <= i < |ps| ==> Genuine(ps[i], img) || !GoodData(ps[i])
    ensures UnderWay(m, img, n, Received(ps, img), Deliveries(d, ps)) || Concluded(m, img, n, Deliveries(d, ps))
  {
    hide UnderWay, Concluded, Genuine, GoodData, Incomplete, BlockCount, Length, Magic, Step, LE16;
    if ps != [] {
      var ps0, p := ps[..|ps| - 1], ps[|ps| - 1];
      StreamPrefix(m, img, n, d, ps0);
      var d0, s := Deliveries(d, ps0), Received(ps0, img);
      if Concluded(m, img, n, d0) {
        ConcludedStays(m, img, n, d0, p);
      } else if Genuine(p, img) {
        GenuineStep(m, img, n, s, d0, p);
      } else {
        NoiseStep(m, img, n, s, d0, p);
        assert s + {} == s;
      }
    }
  }

  /**
   On any flash under update, whatever was written to it before, a clean stream ends with the flash that
   `FinalMemory` gives and with the verdict it implies.
   */
  lemma CleanStreamConcludes(m: Memory, img: seq<byte>, n: nat, d: Device, ps: seq<Packet>)
    requires 1 <= n <= BLOCKS && |img| == BLOCK_SIZE * n
    requires d.mem == m && d.astate == Updating && d.power == Running
    requires Incomplete(m) && BlockCount(Length(m)) == n && Length(m) <= |img|
    requires Magic(m) == STORAGE_MAGIC
    requires CleanStream(ps, img)
    ensures Concluded(m, img, n, Deliveries(d, ps))
  {
    hide Genuine, GoodData, Incomplete, BlockCount, Length, Magic, Word, FinalMemory, Deliveries, Received, LE16;
    assert Fill(m, img, {}) == m;
    hide Fill;
    StreamPrefix(m, img, n, d, ps);
    var s := Received(ps, img);
    assert 0 in s;
    assert Covers(m, n, s);
  }

  /**
   Order independence: two clean streams of the same image, in any order and with any repeats, started on
   the same flash, leave the same flash and the same verdict.
   */
  lemma OrderDoesNotMatter(m: Memory, img: seq<byte>, n: nat, d: Device, ps: seq<Packet>, qs: seq<Packet>)
    requires 1 <= n <= BLOCKS && |img| == BLOCK_SIZE * n
    requires d.mem == m && d.astate == Updating && d.power == Running
    requires Incomplete(m) && BlockCount(Length(m)) == n && Length(m) <= |img|
    requires Magic(m) == STORAGE_MAGIC
    requires CleanStream(ps, img) && CleanStream(qs, img)
    ensures Deliveries(d, ps).mem == Deliveries(d, qs).mem
    ensures Deliveries(d, ps).power == Booted <==> Deliveries(d, qs).power == Booted
  {
    hide CleanStream, Incomplete, Length, Magic, BlockCount, Deliveries, AppIsValid, Sealed, Fill, FinalMemory;
    CleanStreamConcludes(m, img, n, d, ps);
    CleanStreamConcludes(m, img, n, d, qs);
  }

  // ---- whole transmissions ----

  /** The image read back from the program region. */
  function Stored(m: Memory, size: nat): seq<byte>
    requires PROGRAM + size <= FLASH_SIZE
  {
    m[PROGRAM..PROGRAM + size]
  }

  /** The header in flash announces the same program as `c`. */
  ghost predicate SameProgram(m: Memory, c: Packet) {
    Word(m, LENGTH_AT) == Word(c, 4) && FullHash(m) == Word(c, 8)
  }

  lemma FreshHeader(m: Memory, r: Memory, c: Packet)
    requires HeaderPart(m, r, c, 8) && !(forall i :: 0 <= i < 16 ==> CtrlGuid(c)[i] == BLANK_BYTE)
    ensures Magic(r) == STORAGE_MAGIC && SameProgram(r, c) && Guid(r) == CtrlGuid(c)
    ensures Incomplete(r) && Blank(r, MAP_AT, FLASH_SIZE)
  {
    hide Word, HeaderImage, Unsigned;
    HeaderFacts(m, r, c, 8);
    assert !Blank(r, GUID_AT, GUID_AT + 16) by { GuidStored(m, r, c); }
    HeaderWords(r, c, 8);
    LengthStored(m, r, c);
    GuidStored(m, r, c);
  }

  lemma LengthStored(m: Memory, r: Memory, c: Packet)
    requires HeaderPart(m, r, c, 8)
    ensures Word(r, LENGTH_AT) == Word(c, 4)
  {
    hide LE, Split32;
    var s := HeaderImage(c);
    assert s[12..16] == CtrlLength(c);
    assert r[LENGTH_AT..LENGTH_AT + 4] == s[12..16];
  }

  lemma GuidStored(m: Memory, r: Memory, c: Packet)
    requires HeaderPart(m, r, c, 8)
    ensures Guid(r) == CtrlGuid(c)
    ensures !(forall i :: 0 <= i < 16 ==> CtrlGuid(c)[i] == BLANK_BYTE) ==> !Blank(r, GUID_AT, GUID_AT + 16)
  {
    hide Split32;
    var s := HeaderImage(c);
    assert s[16..32] == CtrlGuid(c);
    assert Guid(r) == s[16..32];
    if Blank(r, GUID_AT, GUID_AT + 16) {
      forall i | 0 <= i < 16 ensures CtrlGuid(c)[i] == BLANK_BYTE { assert Guid(r)[i] == r[GUID_AT + i]; }
    }
  }

  lemma PrependDelivery(d: Device, c: Packet, ps: seq<Packet>)
    ensures Deliveries(d, [c] + ps) == Deliveries(Step(d, Deliver(c)), ps)
    decreases |ps|
  {
    hide Step;
    if ps == [] {
      assert [c] + ps == [c];
      assert Deliveries(d, [c][..0]) == d;
    } else {
      assert ([c] + ps)[..|[c] + ps| - 1] == [c] + ps[..|ps| - 1];
      PrependDelivery(d, c, ps[..|ps| - 1]);
    }
  }

  /** With every block still blank, the filled region is the image. */
  lemma FilledFromBlank(m: Memory, img: seq<byte>, n: nat, length: nat)
    requires n <= BLOCKS && |img| == BLOCK_SIZE * n && Blank(m, MAP_AT, FLASH_SIZE) && length <= |img|
    ensures Stored(Fill(m, img, Upto(n)), |img|) == img
    ensures Fill(m, img, Upto(n))[PROGRAM..PROGRAM + length] == img[..length]
  {
    hide Word;
    var f := Fill(m, img, Upto(n));
    forall i | 0 <= i < |img| ensures f[PROGRAM + i] == img[i] {
      WordBlank(m, MapAt(i / BLOCK_SIZE));
    }
  }

  /**
   From any flash that does not already hold this program's guid, erased storage included: a clean
   transmission stores exactly the sent image, sets `complete`, and boots when the image carries a
   valid application header.
   */
  lemma NewProgramIsStoredExactly(d: Device, c: Packet, img: seq<byte>, ps: seq<Packet>)
    requires d.astate == Idle && d.power == Running
    requires Announced(c, img) && CleanStream(ps, img) && Guid(d.mem) != CtrlGuid(c)
    ensures var r := Deliveries(d, [c] + ps);
      && Stored(r.mem, |img|) == img && Sealed(r.mem) && !Incomplete(r.mem) && SameProgram(r.mem, c)
      && Guid(r.mem) == CtrlGuid(c)
      && if AppIsValid(r.mem) then r.power == Booted else r.astate == Fail && r.power != Booted
  {
    var d1 := Step(d, Deliver(c));
    var n := CtrlBlocks(c);
    AfterNewCtrl(d, c);
    assert HeaderPart(d.mem, d1.mem, c, 8) && d1.astate == Updating && d1.power == Running;
    hide Deliveries, Step, Word, CleanStream, GoodCtrl, GoodData, Unsigned, BlockCount, AppIsValid;
    PrependDelivery(d, c, ps);
    FreshHeader(d.mem, d1.mem, c);
    CleanStreamConcludes(d1.mem, img, n, d1, ps);
    ExactOutcome(d1.mem, c, img, n);
    GuidKept(d1.mem, img, n);
  }

  lemma GuidKept(m: Memory, img: seq<byte>, n: nat)
    requires |img| <= BLOCK_SIZE * BLOCKS && Sealed(Fill(m, img, Upto(n)))
    ensures Guid(FinalMemory(m, img, n)) == Guid(m)
  {
    hide Word, Sealed, Fill, FinalMemory;
    SameThroughFill(m, img, n);
  }

  lemma AfterNewCtrl(d: Device, c: Packet)
    requires d.astate == Idle && d.power == Running && GoodCtrl(c) && Guid(d.mem) != CtrlGuid(c)
    ensures var r := Step(d, Deliver(c)); HeaderPart(d.mem, r.mem, c, 8) && r.astate == Updating && r.power == Running
  {
    hide ApplyAll, EraseAll, ProgramCommands, GoodCtrl, HeaderImage;
    IdleEndsIncomplete(d.mem, c);
  }

  lemma ExactOutcome(m: Memory, c: Packet, img: seq<byte>, n: nat)
    requires Announced(c, img) && n == CtrlBlocks(c)
    requires SameProgram(m, c) && Incomplete(m) && Blank(m, MAP_AT, FLASH_SIZE)
    ensures var r := FinalMemory(m, img, n);
      && Stored(r, |img|) == img && Sealed(r) && !Incomplete(r) && SameProgram(r, c) && Sealed(Fill(m, img, Upto(n)))
  {
    hide Word, Fill, Unsigned, Murmur3.Hash, GoodCtrl, BlockCount;
    var f := Fill(m, img, Upto(n));
    FillHeader(m, img, Upto(n));
    FilledFromBlank(m, img, n, Length(m));
    assert Region(f) == img[..Length(m)];
    assert Sealed(f);
    SealedCopyFacts(f, |img|);
    WordSame(m, FinalMemory(m, img, n), LENGTH_AT) by { SameThroughFill(m, img, n); }
  }

  lemma SameThroughFill(m: Memory, img: seq<byte>, n: nat)
    requires |img| <= BLOCK_SIZE * BLOCKS && Sealed(Fill(m, img, Upto(n)))
    ensures SameOn(m, FinalMemory(m, img, n), 0, COMPLETE_AT)
  {
    hide Word, Sealed, Fill;
    FillHeader(m, img, Upto(n));
  }

  lemma SealedCopyFacts(m: Memory, size: nat)
    requires Sealed(m) && PROGRAM + size <= FLASH_SIZE && Incomplete(m)
    ensures var r := SealedCopy(m);
      Stored(r, size) == Stored(m, size) && Sealed(r) && !Incomplete(r) && FullHash(r) == FullHash(m)
  {
    hide Word, Murmur3.Hash, Unsigned;
    var r := SealedCopy(m);
    WordBlank(m, COMPLETE_AT);
    WordBlank(r, COMPLETE_AT);
    assert r[COMPLETE_AT] == 0;
    assert SealedPart(m, r);
    SealedFacts(m, r);
    WordSame(m, r, HASH_AT);
    assert Stored(r, size) == Stored(m, size);
  }

  /** Every way a transmission may end. */
  ghost predicate Settled(d: Device) {
    || (d.power == Booted && !Incomplete(d.mem) && Sealed(d.mem) && AppIsValid(d.mem))
    || (d.astate == Fail && d.power != Booted && !Incomplete(d.mem) && Sealed(d.mem) && !AppIsValid(d.mem))
    || (d.astate == Fail && d.power != Booted && StorageErased(d.mem))
  }

  // ---- any stored header with the announced guid ----

  /** The completion check settles a filled flash exactly when all map entries it looks at are marked. */
  lemma FinishSettles(m: Memory, status: Status, log: seq<Command>)
    requires Incomplete(m) && BlockCount(Length(m)) <= BLOCKS
    ensures var n, fin := BlockCount(Length(m)), Finish(m, status);
      if AllDone(m, n) then Settled(Device(ApplyAll(m, fin.cmds), fin.astate, fin.power, log))
      else fin == Outcome([], Updating, Running, status)
  {
    hide Word, AllDone, ApplyAll, EraseAll, ProgramCommands, ProgramStatus, AppIsValid, Murmur3.Hash;
    if AllDone(m, BlockCount(Length(m))) {
      FitsStorage(Length(m));
      SealIsCopy(m);
      if Sealed(m) {
        SealedCopyFacts(m, 0);
      } else {
        EraseAllEffect(m);
      }
    }
  }

  lemma FitsStorage(length: nat)
    requires length < 0x1_0000_0000
    ensures BlockCount(length) <= BLOCKS ==> PROGRAM + length <= FLASH_SIZE
    ensures BlockCount(length) > BLOCKS && MapAt(BlockCount(length)) <= FLASH_SIZE ==> PROGRAM + length > FLASH_SIZE
  {
  }

  /** Blocks `s` have been stored on top of `m`, and a map entry below `n` is still blank (or nothing has come yet). */
  ghost predicate Waiting(m: Memory, img: seq<byte>, n: nat, s: set<nat>, d: Device)
    requires n <= BLOCKS && |img| <= BLOCK_SIZE * BLOCKS
  {
    d.mem == Fill(m, img, s) && d.astate == Updating && d.power == Running && (s == {} || !Covers(m, n, s))
  }

  lemma FillAllDone(m: Memory, img: seq<byte>, s: set<nat>, n: nat)
    requires n <= BLOCKS && |img| <= BLOCK_SIZE * BLOCKS
    ensures AllDone(Fill(m, img, s), n) <==> Covers(m, n, s)
  {
    hide Fill, Pending;
    forall b | 0 <= b < n ensures Pending(Fill(m, img, s), b) <==> Pending(m, b) && b !in s {
      FillPending(m, img, s, b);
    }
  }

  lemma WaitingStep(m: Memory, img: seq<byte>, s: set<nat>, d: Device, p: Packet)
    requires |img| <= BLOCK_SIZE * BLOCKS && BlockCount(Length(m)) <= BLOCKS && Genuine(p, img)
    requires Waiting(m, img, BlockCount(Length(m)), s, d) && Incomplete(m) && Magic(m) == STORAGE_MAGIC
    ensures var n, r, t := BlockCount(Length(m)), Step(d, Deliver(p)), s + {Block(p)};
      if Covers(m, n, t) then Settled(r) else Waiting(m, img, n, t, r)
  {
    hide Word, Fill, Covers, ApplyAll, DataCommands, DataStatus, GoodData, LE16, Payload, Finish, Settled, Incomplete;
    hide Unsigned, BlockCount, AllDone;
    var t := s + {Block(p)};
    var data, status := DataCommands(d.mem, p), DataStatus(d.mem, p);
    var r := Step(d, Deliver(p));
    FillHeader(m, img, s);
    FillHeader(m, img, t);
    FillStep(m, img, s, p);
    FillAllDone(m, img, t, BlockCount(Length(m)));
    FinishSettles(Fill(m, img, t), status, r.log);
    var fin := Finish(Fill(m, img, t), status);
    ApplyAllConcat(d.mem, data, fin.cmds);
    assert Process(d.mem, d.astate, p) == fin.(cmds := data + fin.cmds);
    CutNone(Fill(m, img, t), [], 0);
    assert r == Device(ApplyAll(Fill(m, img, t), fin.cmds), fin.astate, fin.power, r.log);
  }

  lemma WaitingNoise(m: Memory, img: seq<byte>, n: nat, s: set<nat>, d: Device, p: Packet)
    requires n <= BLOCKS && |img| <= BLOCK_SIZE * BLOCKS && Waiting(m, img, n, s, d)
    requires !GoodData(p) && Magic(m) == STORAGE_MAGIC
    ensures Waiting(m, img, n, s, Step(d, Deliver(p)))
  {
    hide Word, Fill, Covers, ApplyAll, GoodData;
    FillHeader(m, img, s);
    CutNone(d.mem, [], 0);
  }

  lemma SettledStays(d: Device, p: Packet)
    requires Settled(d)
    ensures Settled(Step(d, Deliver(p)))
  {
    hide Word, ApplyAll, Sealed, AppIsValid, Incomplete, StorageErased;
    CutNone(d.mem, [], 0);
  }

  /** After any part of a stream: settled once something came and all entries looked at are marked, never before. */
  lemma {:induction false} SettledWhenCovered(m: Memory, img: seq<byte>, d: Device, ps: seq<Packet>)
    requires |img| <= BLOCK_SIZE * BLOCKS && BlockCount(Length(m)) <= BLOCKS
    requires d.mem == m && d.astate == Updating && d.power == Running && Incomplete(m) && Magic(m) == STORAGE_MAGIC
    requires forall i :: 0 <= i < |ps| ==> Genuine(ps[i], img) || !GoodData(ps[i])
    ensures var n, s := BlockCount(Length(m)), Received(ps, img);
      if s != {} && Covers(m, n, s) then Settled(Deliveries(d, ps)) else Waiting(m, img, n, s, Deliveries(d, ps))
  {
    if ps == [] {
      hide Word;
      assert Fill(m, img, {}) == m;
    } else {
      hide Waiting, Settled, Genuine, GoodData, Incomplete, BlockCount, Length, Magic, Step, LE16, Pending;
      var ps0, p := ps[..|ps| - 1], ps[|ps| - 1];
      var n := BlockCount(Length(m));
      SettledWhenCovered(m, img, d, ps0);
      var d0, s := Deliveries(d, ps0), Received(ps0, img);
      if s != {} && Covers(m, n, s) {
        SettledStays(d0, p);
      } else if Genuine(p, img) {
        WaitingStep(m, img, s, d0, p);
      } else {
        WaitingNoise(m, img, n, s, d0, p);
        assert s + {} == s;
      }
    }
  }

  /** The stored length overruns the flash: no packet gets the update past its completion check. */
  ghost predicate Overrun(d: Device) {
    && d.astate == Updating && d.power != Booted && Magic(d.mem) == STORAGE_MAGIC
    && BlockCount(Length(d.mem)) > BLOCKS
  }

  lemma OverrunStep(d: Device, p: Packet)
    requires Overrun(d)
    ensures Overrun(Step(d, Deliver(p)))
  {
    hide Word, ApplyAll, DataCommands, DataStatus, GoodData, LE16, AllDone, AppIsValid, EraseAll, Unsigned, BlockCount;
    var m := d.mem;
    CutNone(m, [], 0);
    FitsStorage(Length(m));
    if d.power == Running && GoodData(p) && MapAt(Block(p)) + 4 <= FLASH_SIZE {
      var data := DataCommands(m, p);
      var r := ApplyAll(m, data);
      assert data + [] == data;
      assert SameOn(m, r, 0, MAP_AT) by { HeaderThroughData(m, p); }
      SameHeader(m, r);
    }
  }

  lemma HeaderThroughData(m: Memory, p: Packet)
    requires MapAt(Block(p)) + 4 <= FLASH_SIZE
    ensures SameOn(m, ApplyAll(m, DataCommands(m, p)), 0, MAP_AT)
  {
    hide Word, ApplyAll, LE16, DataPart, DataCommands;
    if Pending(m, Block(p)) {
      MarkedAfterData(m, p);
      var w :| DataPart(m, ApplyAll(m, DataCommands(m, p)), p, w);
      DataFacts(m, ApplyAll(m, DataCommands(m, p)), p, w);
    } else {
      AlreadyMarked(m, p);
    }
  }

  lemma {:induction false} OverrunForEver(d: Device, ps: seq<Packet>)
    requires Overrun(d)
    ensures Overrun(Deliveries(d, ps))
  {
    hide Overrun, Step;
    if ps != [] {
      OverrunForEver(d, ps[..|ps| - 1]);
      OverrunStep(Deliveries(d, ps[..|ps| - 1]), ps[|ps| - 1]);
    }
  }

  lemma AlreadyComplete(d: Device, ps: seq<Packet>)
    requires d.astate == Updated && d.power == Running && ps != [] && !Incomplete(d.mem) && Sealed(d.mem)
    ensures Settled(Deliveries(d, ps))
    decreases |ps|
  {
    hide Word, Incomplete, Sealed, AppIsValid, ApplyAll;
    var ps0, p := ps[..|ps| - 1], ps[|ps| - 1];
    CutNone(d.mem, [], 0);
    if ps0 == [] {
      assert Deliveries(d, ps0) == d;
    } else {
      AlreadyComplete(d, ps0);
      CutNone(Deliveries(d, ps0).mem, [], 0);
    }
  }

  /** Every blank map entry that the header stored in `m` asks for lies below `k`. */
  ghost predicate Answers(m: Memory, k: nat) {
    var n := BlockCount(Length(m));
    n <= BLOCKS && forall b :: 0 <= b < n && Pending(m, b) ==> b < k
  }

  /**
   Convergence, exactly: whatever happened before, a reset and one clean transmission end with the application
   booted from a region that matches its hash, with a matching program whose application header is invalid, or
   in the failed state with storage erased.  The one exception is an unfinished program stored under the same
   guid whose header asks for a block that the transmission does not carry: the updater then waits for ever.
   */
  lemma EveryTransmissionSettles(d0: Device, es: seq<Event>, c: Packet, img: seq<byte>, ps: seq<Packet>)
    requires FactoryFresh(d0) && Announced(c, img) && CleanStream(ps, img)
    ensures var m := Run(d0, es).mem;
      Settled(Deliveries(Step(Run(d0, es), Reset), [c] + ps))
      <==> (Guid(m) == CtrlGuid(c) && Incomplete(m) ==> Answers(m, CtrlBlocks(c)))
  {
    var d, m := Step(Run(d0, es), Reset), Run(d0, es).mem;
    CutNone(m, [], 0);
    assert d.mem == m && d.astate == Idle && d.power == Running;
    RunKeepsInv(d0, es);
    CommittedHeader(d0, es);
    assert CompleteMeansSealed(m);
    hide Run, Step, Deliveries, Word, GoodCtrl, GoodData, Sealed, Murmur3.Hash, CleanStream, Unsigned, BlockCount;
    hide Answers, Settled, Incomplete;
    NonemptyStream(c, img, ps);
    PrependDelivery(d, c, ps);
    if Guid(m) != CtrlGuid(c) {
      NewProgramSettles(d, c, img, ps);
    } else {
      GuidNotBlank(m, c);
      AfterKnownCtrl(d, c);
      if Incomplete(m) {
        KnownProgramSettles(m, c, img, Step(d, Deliver(c)), ps);
      } else {
        AlreadyComplete(Step(d, Deliver(c)), ps);
      }
    }
  }

  lemma KnownProgramSettles(m: Memory, c: Packet, img: seq<byte>, d: Device, ps: seq<Packet>)
    requires Announced(c, img) && CleanStream(ps, img)
    requires d.mem == m && d.astate == Updating && d.power == Running && Incomplete(m) && Magic(m) == STORAGE_MAGIC
    ensures Settled(Deliveries(d, ps)) <==> Answers(m, CtrlBlocks(c))
  {
    hide Deliveries, Word, GoodCtrl, GoodData, Murmur3.Hash, BlockCount, Length, Magic, Incomplete, LE16, Received;
    hide Pending, Sealed, StorageErased, AppIsValid;
    var n, k, s := BlockCount(Length(m)), CtrlBlocks(c), Received(ps, img);
    if n > BLOCKS {
      OverrunForEver(d, ps);
    } else {
      SettledWhenCovered(m, img, d, ps);
      ReceivedBelow(ps, img, k);
      assert forall b: nat :: b in s <==> b < k;
      assert 0 in s;
      assert Covers(m, n, s) <==> Answers(m, k);
    }
  }

  lemma {:induction false} ReceivedBelow(ps: seq<Packet>, img: seq<byte>, k: nat)
    requires |img| == BLOCK_SIZE * k
    ensures forall b: nat :: b in Received(ps, img) ==> b < k
  {
    hide GoodData, LE16;
    if ps != [] {
      ReceivedBelow(ps[..|ps| - 1], img, k);
    }
  }

  lemma NonemptyStream(c: Packet, img: seq<byte>, ps: seq<Packet>)
    requires Announced(c, img) && CleanStream(ps, img)
    ensures ps != []
  {
    hide Word, GoodCtrl, GoodData, Murmur3.Hash, Unsigned, BlockCount, LE16;
    assert 0 in Received(ps, img);
  }

  lemma CommittedHeader(d0: Device, es: seq<Event>)
    requires FactoryFresh(d0)
    ensures !Blank(Run(d0, es).mem, GUID_AT, GUID_AT + 16) ==> Magic(Run(d0, es).mem) == STORAGE_MAGIC
  {
    hide Run, Word, GoodCtrl;
    if !Blank(Run(d0, es).mem, GUID_AT, GUID_AT + 16) {
      var i, k := GuidIsCommitRecord(d0, es);
    }
  }

  lemma GuidNotBlank(m: Memory, c: Packet)
    requires Guid(m) == CtrlGuid(c) && !(forall i :: 0 <= i < 16 ==> CtrlGuid(c)[i] == BLANK_BYTE)
    ensures !Blank(m, GUID_AT, GUID_AT + 16)
  {
    if Blank(m, GUID_AT, GUID_AT + 16) {
      forall i | 0 <= i < 16 ensures CtrlGuid(c)[i] == BLANK_BYTE { assert Guid(m)[i] == m[GUID_AT + i]; }
    }
  }

  lemma AfterKnownCtrl(d: Device, c: Packet)
    requires d.astate == Idle && d.power == Running && GoodCtrl(c) && Guid(d.mem) == CtrlGuid(c)
    ensures var r := Step(d, Deliver(c));
      r.mem == d.mem && r.power == Running && r.astate == if Incomplete(d.mem) then Updating else Updated
  {
    hide ApplyAll, GoodCtrl, Incomplete;
    CutNone(d.mem, [], 0);
  }

  lemma NewProgramSettles(d: Device, c: Packet, img: seq<byte>, ps: seq<Packet>)
    requires d.astate == Idle && d.power == Running
    requires Announced(c, img) && CleanStream(ps, img) && Guid(d.mem) != CtrlGuid(c)
    ensures Settled(Deliveries(d, [c] + ps))
  {
    hide Word, GoodCtrl, GoodData, Sealed, Deliveries, Unsigned, BlockCount, AppIsValid, CleanStream;
    NewProgramIsStoredExactly(d, c, img, ps);
  }

  // ---- progress and corruption ----

  /** Map entries below `n` still waiting for their block. */
  function Outstanding(m: Memory, n: nat): set<nat>
    requires n <= BLOCKS
  {
    set b | b in Upto(n) && Pending(m, b)
  }

  /** While the update goes on, a valid packet for block `b` settles exactly entry `b`; nothing is ever reopened. */
  lemma ProgressMeasure(m: Memory, p: Packet, n: nat)
    requires n <= BLOCKS && Incomplete(m) && OnUpdating(m, p).astate == Updating
    ensures Outstanding(AfterPacket(m, p), n)
      == Outstanding(m, n) - (if GoodData(p) then {Block(p)} else {})
  {
    hide Word, ApplyAll, GoodData, LE16, DataCommands, DataStatus, Incomplete;
    if !GoodData(p) || MapAt(Block(p)) + 4 > FLASH_SIZE {
      CutNone(m, [], 0);
    } else {
      var data := DataCommands(m, p);
      var r := ApplyAll(m, data);
      assert OnUpdating(m, p).cmds == data by {
        hide AllDone, AppIsValid, EraseAll;
        assert data + [] == data;
      }
      if Pending(m, Block(p)) {
        MarkedAfterData(m, p);
        var w :| DataPart(m, r, p, w);
        PendingAfterData(m, r, p, w);
      } else {
        AlreadyMarked(m, p);
      }
    }
  }

  lemma AlreadyMarked(m: Memory, p: Packet)
    requires MapAt(Block(p)) + 4 <= FLASH_SIZE && !Pending(m, Block(p))
    ensures ApplyAll(m, DataCommands(m, p)) == m
  {
    hide Word, LE16;
  }

  /** A valid data packet with any one aligned word corrupted, its hash included, is no longer accepted. */
  lemma OneWordCorruptionIsRejected(p: Packet, q: Packet, j: nat)
    requires GoodData(p) && Murmur3.AgreeOutsideWord(p, q, j) && p != q
    ensures !GoodData(q)
  {
    hide LE, Murmur3.Hash;
    assert p[..260] == q[..260] && p[260..264] == q[260..264] ==> p == q by {
      assert p == p[..260] + p[260..264] && q == q[..260] + q[260..264];
    }
    if j == 65 {
      assert p[..260] == q[..260] by {
        forall i | 0 <= i < 260 ensures p[i] == q[i] { assert i / 4 != 65; }
      }
      if Word(p, 260) == Word(q, 260) {
        LEInjective(p[260..264], q[260..264]);
      }
    } else {
      assert p[260..264] == q[260..264] by {
        forall i | 260 <= i < 264 ensures p[i] == q[i] { assert i / 4 == 65; }
      }
      assert Murmur3.AgreeOutsideWord(p[..260], q[..260], j);
      Murmur3.OneWordCorruptionIsCaught(p[..260], q[..260], j, SEED_BLOCK);
    }
  }
}
