/**
 How the flash is treated over whole runs: every command ever issued stays inside storage and never programs
 over a cleared bit, and, over runs that name safe blocks only, no byte is programmed twice between two
 erases of its sector.
 */
module Wear {
  import opened Bytes
  import opened Flash
  import opened Protocol
  import opened Cuts
  import opened Safety

  ghost predicate ErasesByte(c: Command, i: nat) {
    c.EraseSector? && c.sector * SECTOR_SIZE <= i < (c.sector + 1) * SECTOR_SIZE
  }

  ghost predicate ProgramsByte(c: Command, i: nat) {
    c.ProgramWord? && c.addr <= i < c.addr + |c.data|
  }

  /** Byte `i` has been programmed since its sector was last erased. */
  ghost predicate Dirty(log: seq<Command>, i: nat) {
    log != [] &&
    var before, c := log[..|log| - 1], log[|log| - 1];
    ProgramsByte(c, i) || (!ErasesByte(c, i) && Dirty(before, i))
  }

  ghost predicate Clean(log: seq<Command>, lo: nat, hi: nat) {
    forall i :: lo <= i < hi ==> !Dirty(log, i)
  }

  /** Every command of `log`, issued in turn from `m0`, is legal and clears no bit twice. */
  ghost predicate AllGentle(m0: Memory, log: seq<Command>) {
    log == [] ||
    var before, c := log[..|log| - 1], log[|log| - 1];
    AllGentle(m0, before) && Legal(c) && Gentle(ApplyAll(m0, before), c)
  }

  /** No program command of `log` hits a byte programmed since its sector was last erased. */
  ghost predicate AllOnce(log: seq<Command>) {
    log == [] ||
    var before, c := log[..|log| - 1], log[|log| - 1];
    AllOnce(before) && (c.ProgramWord? ==> Clean(before, c.addr, c.addr + |c.data|))
  }

  /** What the marks say about wear. */
  ghost predicate MarksTellWear(m: Memory, log: seq<Command>) {
    && (Magic(m) == STORAGE_MAGIC ==>
          forall b :: 0 <= b < BLOCKS && Pending(m, b) ==> Clean(log, BlockAt(b), BlockAt(b) + BLOCK_SIZE))
    && forall i :: COMPLETE_AT <= i < PROGRAM && Dirty(log, i) ==> m[i] != BLANK_BYTE
  }

  ghost predicate Good(m0: Memory, log: seq<Command>, tame: bool) {
    AllGentle(m0, log) && (tame ==> AllOnce(log) && MarksTellWear(ApplyAll(m0, log), log))
  }

  // ---- appending runs of commands ----

  lemma Snoc(m0: Memory, log: seq<Command>, c: Command)
    ensures AllGentle(m0, log + [c]) <==> AllGentle(m0, log) && Legal(c) && Gentle(ApplyAll(m0, log), c)
    ensures AllOnce(log + [c]) <==> AllOnce(log) && (c.ProgramWord? ==> Clean(log, c.addr, c.addr + |c.data|))
    ensures forall i: nat :: Dirty(log + [c], i) <==> ProgramsByte(c, i) || (!ErasesByte(c, i) && Dirty(log, i))
  {
    hide ApplyAll, Legal, Gentle, Clean;
    assert (log + [c])[..|log + [c]| - 1] == log && (log + [c])[|log + [c]| - 1] == c;
  }

  lemma LogErase(log: seq<Command>, k: nat)
    ensures log + EraseRun(SECTOR_MIN, k + 1) == log + EraseRun(SECTOR_MIN, k) + [EraseSector(SECTOR_MIN + k)]
  {
    assert EraseRun(SECTOR_MIN, k + 1) == EraseRun(SECTOR_MIN, k) + [EraseSector(SECTOR_MIN + k)];
  }

  lemma LogWord(log: seq<Command>, src: seq<byte>, dest: nat, k: nat)
    requires 4 * k + 4 <= |src|
    ensures log + WordRun(src, dest, k + 1)
      == log + WordRun(src, dest, k) + [ProgramWord(dest + 4 * k, src[4 * k..4 * k + 4])]
  {
    assert WordRun(src, dest, k + 1) == WordRun(src, dest, k) + [ProgramWord(dest + 4 * k, src[4 * k..4 * k + 4])];
  }

  /** `log` grew to `log'` by erasing the bytes [lo, hi). */
  ghost predicate Wiped(m0: Memory, log: seq<Command>, log': seq<Command>, lo: nat, hi: nat) {
    && AllGentle(m0, log')
    && (forall i: nat :: Dirty(log', i) <==> Dirty(log, i) && !(lo <= i < hi))
    && (AllOnce(log) ==> AllOnce(log'))
  }

  lemma {:induction false} AppendErase(m0: Memory, log: seq<Command>, k: nat)
    requires AllGentle(m0, log) && k <= SECTOR_COUNT
    ensures Wiped(m0, log, log + EraseRun(SECTOR_MIN, k), STORAGE_START, STORAGE_START + SECTOR_SIZE * k)
  {
    hide AllGentle, Wiped, EraseRun;
    if k == 0 {
      AppendNoErase(m0, log);
    } else {
      AppendErase(m0, log, k - 1);
      AppendNextErase(m0, log, k - 1);
    }
  }

  lemma AppendNoErase(m0: Memory, log: seq<Command>)
    requires AllGentle(m0, log)
    ensures Wiped(m0, log, log + EraseRun(SECTOR_MIN, 0), STORAGE_START, STORAGE_START)
  {
    hide Dirty, AllGentle, AllOnce;
    assert log + EraseRun(SECTOR_MIN, 0) == log;
  }

  lemma AppendNextErase(m0: Memory, log: seq<Command>, k: nat)
    requires k < SECTOR_COUNT
    requires Wiped(m0, log, log + EraseRun(SECTOR_MIN, k), STORAGE_START, STORAGE_START + SECTOR_SIZE * k)
    ensures Wiped(m0, log, log + EraseRun(SECTOR_MIN, k + 1), STORAGE_START, STORAGE_START + SECTOR_SIZE * (k + 1))
  {
    hide Apply, ApplyAll, Dirty, AllGentle, AllOnce, EraseRun;
    LogErase(log, k);
    Snoc(m0, log + EraseRun(SECTOR_MIN, k), EraseSector(SECTOR_MIN + k));
  }

  /** Exactly the bytes in [lo, hi) have become dirty. */
  ghost predicate DirtyGrew(log: seq<Command>, log': seq<Command>, lo: nat, hi: nat) {
    forall i: nat :: Dirty(log', i) <==> Dirty(log, i) || lo <= i < hi
  }

  lemma DirtyGrewOn(a: seq<Command>, b: seq<Command>, c: seq<Command>, lo: nat, mid: nat, hi: nat)
    requires lo <= mid <= hi && DirtyGrew(a, b, lo, mid) && DirtyGrew(b, c, mid, hi)
    ensures DirtyGrew(a, c, lo, hi)
  {
    hide Dirty;
  }

  lemma AppendWord(m0: Memory, log: seq<Command>, a: nat, d: seq<byte>)
    requires AllGentle(m0, log) && Legal(ProgramWord(a, d)) && Blank(ApplyAll(m0, log), a, a + 4)
    ensures AllGentle(m0, log + [ProgramWord(a, d)])
    ensures AllOnce(log) && Clean(log, a, a + 4) ==> AllOnce(log + [ProgramWord(a, d)])
    ensures DirtyGrew(log, log + [ProgramWord(a, d)], a, a + 4)
  {
    hide ApplyAll, Dirty, AllGentle, AllOnce, Clean;
    Snoc(m0, log, ProgramWord(a, d));
  }

  lemma WordAligned(dest: nat, k: nat)
    requires dest % 4 == 0
    ensures (dest + 4 * k) % 4 == 0
  {
  }

  /** `src` can be programmed at `dest`. */
  ghost predicate Room(m0: Memory, log: seq<Command>, src: seq<byte>, dest: nat) {
    && STORAGE_START <= dest && dest + |src| <= FLASH_SIZE && dest % 4 == 0
    && Blank(ApplyAll(m0, log), dest, dest + |src|)
  }

  /** `log` grew to `log'` by programming the bytes [lo, hi). */
  ghost predicate Appended(m0: Memory, log: seq<Command>, log': seq<Command>, lo: nat, hi: nat) {
    && AllGentle(m0, log')
    && DirtyGrew(log, log', lo, hi)
    && (AllOnce(log) && Clean(log, lo, hi) ==> AllOnce(log'))
  }

  lemma {:induction false} AppendWords(m0: Memory, log: seq<Command>, src: seq<byte>, dest: nat, k: nat)
    requires AllGentle(m0, log) && 4 * k <= |src| && Room(m0, log, src, dest)
    ensures Appended(m0, log, log + WordRun(src, dest, k), dest, dest + 4 * k)
  {
    hide *;
    if k == 0 {
      AppendNoWord(m0, log, src, dest);
    } else {
      AppendWords(m0, log, src, dest, k - 1);
      AppendNextWord(m0, log, src, dest, k - 1);
    }
  }

  lemma AppendNoWord(m0: Memory, log: seq<Command>, src: seq<byte>, dest: nat)
    requires AllGentle(m0, log)
    ensures Appended(m0, log, log + WordRun(src, dest, 0), dest, dest)
  {
    hide Dirty, AllGentle, AllOnce;
    assert log + WordRun(src, dest, 0) == log;
  }

  lemma AppendNextWord(m0: Memory, log: seq<Command>, src: seq<byte>, dest: nat, k: nat)
    requires 4 * k + 4 <= |src| && Room(m0, log, src, dest)
    requires Appended(m0, log, log + WordRun(src, dest, k), dest, dest + 4 * k)
    ensures Appended(m0, log, log + WordRun(src, dest, k + 1), dest, dest + 4 * k + 4)
  {
    hide Apply, ApplyAll, Dirty, DirtyGrew, AllGentle, AllOnce, WordRun, Clean;
    LogWord(log, src, dest, k);
    var before, after := log + WordRun(src, dest, k), log + WordRun(src, dest, k + 1);
    var a, d := dest + 4 * k, src[4 * k..4 * k + 4];
    WordAligned(dest, k);
    StillBlank(m0, log, src, dest, k);
    AppendWord(m0, before, a, d);
    DirtyGrewOn(log, before, after, dest, a, a + 4);
    if AllOnce(log) && Clean(log, dest, a + 4) {
      StillClean(log, before, dest, a);
    }
  }

  lemma StillClean(log: seq<Command>, log': seq<Command>, dest: nat, a: nat)
    requires dest <= a && Clean(log, dest, a + 4) && DirtyGrew(log, log', dest, a)
    ensures Clean(log', a, a + 4) && Clean(log, dest, a)
  {
    hide Dirty;
  }

  lemma StillBlank(m0: Memory, log: seq<Command>, src: seq<byte>, dest: nat, k: nat)
    requires 4 * k + 4 <= |src| && dest + |src| <= FLASH_SIZE && Blank(ApplyAll(m0, log), dest, dest + |src|)
    ensures Blank(ApplyAll(m0, log + WordRun(src, dest, k)), dest + 4 * k, dest + 4 * k + 4)
  {
    hide Apply, ApplyAll, WordRun;
    ApplyAllConcat(m0, log, WordRun(src, dest, k));
    WordRunEffect(ApplyAll(m0, log), src, dest, k);
  }

  // ---- each phase of processing keeps the flash in good shape ----

  lemma GoodErase(m0: Memory, log: seq<Command>, tame: bool, k: nat)
    requires Good(m0, log, tame) && k <= |EraseAll()|
    ensures Good(m0, log + EraseAll()[..k], tame)
    ensures k == SECTOR_COUNT ==> Clean(log + EraseAll()[..k], STORAGE_START, FLASH_SIZE)
  {
    EraseAllRun();
    assert EraseAll()[..k] == EraseRun(SECTOR_MIN, k);
    hide Apply, ApplyAll, EraseRun, AllGentle, AllOnce, Dirty, Word, Incomplete;
    var m := ApplyAll(m0, log);
    ApplyAllConcat(m0, log, EraseRun(SECTOR_MIN, k));
    CutErase(m, k);
    AppendErase(m0, log, k);
    if k > 0 {
      ErasedFacts(m, ApplyAll(m, EraseAll()[..k]), k);
    } else {
      assert log + EraseRun(SECTOR_MIN, k) == log;
    }
  }

  lemma GoodHeader(m0: Memory, log: seq<Command>, tame: bool, p: Packet, k: nat)
    requires Good(m0, log, tame) && StorageErased(ApplyAll(m0, log))
    requires tame ==> Clean(log, STORAGE_START, FLASH_SIZE)
    requires k <= |ProgramCommands(ApplyAll(m0, log), HeaderImage(p), 0, HEADER)|
    ensures Good(m0, log + ProgramCommands(ApplyAll(m0, log), HeaderImage(p), 0, HEADER)[..k], tame)
  {
    hide Apply, ApplyAll, WordRun, AllGentle, AllOnce, Dirty, Word, ProgramCommands, HeaderImage;
    var m := ApplyAll(m0, log);
    HeaderRun(m, p, k);
    AppendWords(m0, log, HeaderImage(p), HEADER, k);
  }

  lemma HeaderRun(m: Memory, p: Packet, k: nat)
    requires StorageErased(m) && k <= |ProgramCommands(m, HeaderImage(p), 0, HEADER)|
    ensures k <= 8 && ProgramCommands(m, HeaderImage(p), 0, HEADER)[..k] == WordRun(HeaderImage(p), HEADER, k)
  {
    assert ProgramStatus(m, HeaderImage(p), 0, HEADER) == OK;
    hide HeaderImage;
  }

  lemma SealRun(m: Memory, k: nat)
    requires 0 < k <= |ProgramCommands(m, ZERO_WORD, 0, COMPLETE_AT)|
    ensures k == 1 && ProgramCommands(m, ZERO_WORD, 0, COMPLETE_AT)[..1] == WordRun(ZERO_WORD, COMPLETE_AT, 1)
    ensures SealedPart(m, ApplyAll(m, WordRun(ZERO_WORD, COMPLETE_AT, 1)))
  {
    var seal := ProgramCommands(m, ZERO_WORD, 0, COMPLETE_AT);
    assert ProgramStatus(m, ZERO_WORD, 0, COMPLETE_AT) == OK;
    hide Apply, ApplyAll, LE;
    assert seal[..1] == WordRun(ZERO_WORD, COMPLETE_AT, 1);
    CutWords(m, ZERO_WORD, 0, COMPLETE_AT, 1);
  }

  lemma GoodSeal(m0: Memory, log: seq<Command>, tame: bool, k: nat)
    requires Good(m0, log, tame)
    requires k <= |ProgramCommands(ApplyAll(m0, log), ZERO_WORD, 0, COMPLETE_AT)|
    ensures Good(m0, log + ProgramCommands(ApplyAll(m0, log), ZERO_WORD, 0, COMPLETE_AT)[..k], tame)
  {
    hide Apply, ApplyAll, WordRun, AllGentle, AllOnce, Dirty, Word, ProgramCommands, LE;
    var m := ApplyAll(m0, log);
    if k == 0 {
      assert log + ProgramCommands(m, ZERO_WORD, 0, COMPLETE_AT)[..k] == log;
    } else {
      SealRun(m, k);
      ApplyAllConcat(m0, log, WordRun(ZERO_WORD, COMPLETE_AT, 1));
      AppendWords(m0, log, ZERO_WORD, COMPLETE_AT, 1);
      SamePending(m, ApplyAll(m, WordRun(ZERO_WORD, COMPLETE_AT, 1)));
    }
  }

  lemma SamePending(m: Memory, r: Memory)
    requires forall i :: 0 <= i < FLASH_SIZE && !(COMPLETE_AT <= i < COMPLETE_AT + 4) ==> r[i] == m[i]
    ensures Magic(r) == Magic(m) && forall b :: 0 <= b < BLOCKS ==> Pending(r, b) == Pending(m, b)
  {
    hide Word;
    WordSame(m, r, MAGIC_AT);
    forall b | 0 <= b < BLOCKS ensures Pending(r, b) == Pending(m, b) {
      WordSame(m, r, MapAt(b));
    }
  }

  lemma GoodMark(m0: Memory, log: seq<Command>, tame: bool, p: Packet)
    requires MapAt(Block(p)) + 4 <= FLASH_SIZE && (tame ==> Block(p) < MAP_ENTRIES)
    requires Good(m0, log, tame) && Pending(ApplyAll(m0, log), Block(p))
    ensures var mark := ProgramCommands(ApplyAll(m0, log), ZERO_WORD, 0, MapAt(Block(p)));
      && mark == WordRun(ZERO_WORD, MapAt(Block(p)), 1) && Good(m0, log + mark, tame)
      && DataPart(ApplyAll(m0, log), ApplyAll(m0, log + mark), p, 0)
      && forall i: nat :: Dirty(log + mark, i) ==> Dirty(log, i) || MapAt(Block(p)) <= i < MapAt(Block(p)) + 4
  {
    hide Apply, ApplyAll, WordRun, AllGentle, AllOnce, Dirty, Word, ProgramCommands, ProgramStatus, LE, LE16;
    var m := ApplyAll(m0, log);
    var at := MapAt(Block(p));
    var mark := ProgramCommands(m, ZERO_WORD, 0, at);
    MarkRun(m, p);
    ApplyAllConcat(m0, log, mark);
    AppendWords(m0, log, ZERO_WORD, at, 1);
    var r := ApplyAll(m0, log + mark);
    if tame {
      assert Clean(log, at, at + 4) by {
        forall i | at <= i < at + 4 ensures !Dirty(log, i) { assert m[i] == BLANK_BYTE; }
      }
      PendingAfterData(m, r, p, 0);
    }
  }

  lemma MarkRun(m: Memory, p: Packet)
    requires MapAt(Block(p)) + 4 <= FLASH_SIZE && Pending(m, Block(p))
    ensures var mark := ProgramCommands(m, ZERO_WORD, 0, MapAt(Block(p)));
      mark == WordRun(ZERO_WORD, MapAt(Block(p)), 1) && DataPart(m, ApplyAll(m, mark), p, 0)
    ensures MapAt(Block(p)) % 4 == 0
  {
    hide Apply, ApplyAll, Word, LE16;
    MarkEffect(m, p);
    assert WordRun(ZERO_WORD, MapAt(Block(p)), 1) == ProgramCommands(m, ZERO_WORD, 0, MapAt(Block(p)));
  }

  lemma PendingAfterData(m: Memory, r: Memory, p: Packet, w: nat)
    requires DataPart(m, r, p, w)
    ensures Magic(r) == Magic(m)
    ensures forall b :: 0 <= b < BLOCKS ==> Pending(r, b) == (Pending(m, b) && b != Block(p))
  {
    hide Word, LE16;
    WordSame(m, r, MAGIC_AT);
    forall b | 0 <= b < BLOCKS ensures Pending(r, b) == (Pending(m, b) && b != Block(p)) {
      WordBlank(r, MapAt(b));
      if b == Block(p) {
        assert r[MapAt(b)] == 0;
      } else {
        WordSame(m, r, MapAt(b));
      }
    }
  }

  lemma PayloadRun(m: Memory, p: Packet, k: nat)
    requires 0 < k <= |ProgramCommands(m, Payload(p), 4, BlockAt(Block(p)))|
    ensures k <= 64 && BlockAt(Block(p)) + BLOCK_SIZE <= FLASH_SIZE
    ensures Blank(m, BlockAt(Block(p)), BlockAt(Block(p)) + BLOCK_SIZE)
    ensures BlockAt(Block(p)) % 4 == 0
    ensures ProgramCommands(m, Payload(p), 4, BlockAt(Block(p)))[..k] == WordRun(Payload(p), BlockAt(Block(p)), k)
  {
    hide Apply, ApplyAll, LE16, Payload;
    assert |Payload(p)| == BLOCK_SIZE by { PayloadSize(p); }
    assert ProgramStatus(m, Payload(p), 4, BlockAt(Block(p))) == OK;
  }

  lemma PayloadSize(p: Packet)
    ensures |Payload(p)| == BLOCK_SIZE
  {
  }

  lemma GoodPayload(m0: Memory, log: seq<Command>, log1: seq<Command>, tame: bool, p: Packet, k: nat)
    requires Good(m0, log1, tame) && DataPart(ApplyAll(m0, log), ApplyAll(m0, log1), p, 0)
    requires tame ==> Block(p) < MAP_ENTRIES
    requires tame && Block(p) < BLOCKS ==> Clean(log1, BlockAt(Block(p)), BlockAt(Block(p)) + BLOCK_SIZE)
    requires k <= |ProgramCommands(ApplyAll(m0, log1), Payload(p), 4, BlockAt(Block(p)))|
    ensures Good(m0, log1 + ProgramCommands(ApplyAll(m0, log1), Payload(p), 4, BlockAt(Block(p)))[..k], tame)
  {
    var m, m1 := ApplyAll(m0, log), ApplyAll(m0, log1);
    var b := Block(p);
    var pay := ProgramCommands(m1, Payload(p), 4, BlockAt(b));
    if k == 0 {
      assert log1 + pay[..k] == log1;
    } else {
      PayloadRun(m1, p, k);
      hide ProgramStatus, Apply, ApplyAll, WordRun, AllGentle, AllOnce, Dirty, Word, ProgramCommands, LE, LE16, Payload;
      ApplyAllConcat(m0, log1, pay[..k]);
      CutPayload(m, m1, p, k);
      PayloadSize(p);
      AppendWords(m0, log1, Payload(p), BlockAt(b), k);
      if tame {
        PendingAfterData(m, m1, p, 0);
        PendingAfterData(m, ApplyAll(m0, log1 + pay[..k]), p, k);
      }
    }
  }

  /** Appending a prefix of two phases, phase by phase. */
  lemma PrefixOfTwo(log: seq<Command>, a: seq<Command>, b: seq<Command>, k: nat)
    requires k <= |a + b|
    ensures k <= |a| ==> log + (a + b)[..k] == log + a[..k]
    ensures k > |a| ==> log + (a + b)[..k] == log + a + b[..k - |a|]
    ensures a[..|a|] == a
  {
    if k > |a| {
      assert (a + b)[..k] == a + b[..k - |a|];
    } else {
      assert (a + b)[..k] == a[..k];
    }
  }

  lemma GoodIdle(m0: Memory, log: seq<Command>, tame: bool, p: Packet, k: nat)
    requires Good(m0, log, tame) && k <= |OnIdle(ApplyAll(m0, log), p).cmds|
    ensures Good(m0, log + OnIdle(ApplyAll(m0, log), p).cmds[..k], tame)
  {
    hide Good, ApplyAll, EraseAll, ProgramCommands, GoodCtrl, Incomplete, HeaderImage;
    var m := ApplyAll(m0, log);
    if GoodCtrl(p) && Guid(m) != CtrlGuid(p) {
      var erased := ApplyAll(m, EraseAll());
      var header := ProgramCommands(erased, HeaderImage(p), 0, HEADER);
      PrefixOfTwo(log, EraseAll(), header, k);
      assert |EraseAll()| == SECTOR_COUNT by { EraseAllRun(); }
      if k <= |EraseAll()| {
        GoodErase(m0, log, tame, k);
      } else {
        GoodErase(m0, log, tame, |EraseAll()|);
        ApplyAllConcat(m0, log, EraseAll());
        EraseAllEffect(m);
        GoodHeader(m0, log + EraseAll(), tame, p, k - |EraseAll()|);
      }
    } else {
      assert log + OnIdle(m, p).cmds[..k] == log;
    }
  }

  lemma GoodDataStage(m0: Memory, log: seq<Command>, tame: bool, p: Packet, k: nat)
    requires Good(m0, log, tame) && Magic(ApplyAll(m0, log)) == STORAGE_MAGIC
    requires MapAt(Block(p)) + 4 <= FLASH_SIZE && (tame ==> Block(p) < MAP_ENTRIES)
    requires k <= |DataCommands(ApplyAll(m0, log), p)|
    ensures Good(m0, log + DataCommands(ApplyAll(m0, log), p)[..k], tame)
  {
    var m := ApplyAll(m0, log);
    var b := Block(p);
    assert tame && Pending(m, b) && b < BLOCKS ==> Clean(log, BlockAt(b), BlockAt(b) + BLOCK_SIZE);
    hide Good, ApplyAll, ProgramCommands, Word, LE16, DataPart, Payload, Dirty;
    if !Pending(m, b) || k == 0 {
      assert log + DataCommands(m, p)[..k] == log;
    } else {
      var mark := ProgramCommands(m, ZERO_WORD, 0, MapAt(b));
      GoodMark(m0, log, tame, p);
      ApplyAllConcat(m0, log, mark);
      var m1 := ApplyAll(m, mark);
      var pay := ProgramCommands(m1, Payload(p), 4, BlockAt(b));
      PrefixOfTwo(log, mark, pay, k);
      if k > 1 {
        GoodPayload(m0, log, log + mark, tame, p, k - 1);
      } else {
        assert mark[..k] == mark;
      }
    }
  }

  lemma GoodFinish(m0: Memory, log: seq<Command>, tame: bool, status: Status, k: nat)
    requires Good(m0, log, tame) && k <= |Finish(ApplyAll(m0, log), status).cmds|
    ensures Good(m0, log + Finish(ApplyAll(m0, log), status).cmds[..k], tame)
  {
    hide Good, ApplyAll, EraseAll, ProgramCommands, ProgramStatus, Word, AllDone, AppIsValid, Unsigned, BlockCount;
    var m := ApplyAll(m0, log);
    var cmds := Finish(m, status).cmds;
    if cmds == [] {
      assert log + cmds[..k] == log;
    } else if cmds == EraseAll() {
      GoodErase(m0, log, tame, k);
    } else {
      GoodSeal(m0, log, tame, k);
    }
  }

  lemma GoodUpdating(m0: Memory, log: seq<Command>, tame: bool, p: Packet, k: nat)
    requires Good(m0, log, tame) && k <= |OnUpdating(ApplyAll(m0, log), p).cmds|
    requires tame && GoodData(p) ==> SafeBlock(p)
    ensures Good(m0, log + OnUpdating(ApplyAll(m0, log), p).cmds[..k], tame)
  {
    hide Good, ApplyAll, EraseAll, Word, LE16, DataCommands, DataStatus, Finish, GoodData;
    var m := ApplyAll(m0, log);
    if Magic(m) != STORAGE_MAGIC {
      GoodErase(m0, log, tame, k);
    } else if !GoodData(p) || MapAt(Block(p)) + 4 > FLASH_SIZE {
      assert log + OnUpdating(m, p).cmds[..k] == log;
    } else {
      var data := DataCommands(m, p);
      var fin := Finish(ApplyAll(m, data), DataStatus(m, p)).cmds;
      PrefixOfTwo(log, data, fin, k);
      GoodDataStage(m0, log, tame, p, if k <= |data| then k else |data|);
      if k > |data| {
        ApplyAllConcat(m0, log, data);
        GoodFinish(m0, log + data, tame, DataStatus(m, p), k - |data|);
      }
    }
  }

  // ---- whole runs ----

  lemma GoodProcess(m0: Memory, d: Device, tame: bool, p: Packet, k: nat)
    requires d.mem == ApplyAll(m0, d.log) && Good(m0, d.log, tame)
    requires tame && GoodData(p) ==> SafeBlock(p)
    requires k <= |Process(d.mem, d.astate, p).cmds|
    ensures Good(m0, d.log + Process(d.mem, d.astate, p).cmds[..k], tame)
  {
    hide Good, ApplyAll, OnIdle, OnUpdating, GoodData, LE16, AppIsValid;
    match d.astate {
      case Idle => GoodIdle(m0, d.log, tame, p, k);
      case Updating => GoodUpdating(m0, d.log, tame, p, k);
      case _ => assert d.log + Process(d.mem, d.astate, p).cmds[..k] == d.log;
    }
  }

  lemma GoodStep(m0: Memory, d: Device, tame: bool, e: Event)
    requires d.mem == ApplyAll(m0, d.log) && Good(m0, d.log, tame)
    requires tame && !e.Reset? && GoodData(e.p) ==> SafeBlock(e.p)
    ensures var r := Step(d, e); r.mem == ApplyAll(m0, r.log) && Good(m0, r.log, tame)
  {
    hide Good, ApplyAll, Process, GoodData, LE16;
    ApplyAllConcat(m0, d.log, Issued(d, e));
    assert d.log + [] == d.log;
    if d.power == Running && !e.Reset? {
      var cmds := Process(d.mem, d.astate, e.p).cmds;
      var k := if e.PowerCut? && e.k < |cmds| then e.k else |cmds|;
      assert cmds[..|cmds|] == cmds;
      GoodProcess(m0, d, tame, e.p, k);
    }
  }

  lemma FreshGood(d0: Device, tame: bool)
    requires FactoryFresh(d0)
    ensures d0.mem == ApplyAll(d0.mem, d0.log) && Good(d0.mem, d0.log, tame)
  {
    WordBlank(d0.mem, MAGIC_AT);
    hide Word;
  }

  lemma {:induction false} GoodRun(d0: Device, es: seq<Event>)
    requires FactoryFresh(d0)
    ensures var d := Run(d0, es); d.mem == ApplyAll(d0.mem, d.log) && Good(d0.mem, d.log, Tame(es))
  {
    hide Good, Step, ApplyAll, GoodData, LE16, Tame, FactoryFresh;
    if es == [] {
      FreshGood(d0, Tame(es));
    } else {
      var es0, e := es[..|es| - 1], es[|es| - 1];
      GoodRun(d0, es0);
      assert es0 + [e] == es;
      TamePrefix(es0, e);
      var tame := Tame(es);
      assert Good(d0.mem, Run(d0, es0).log, tame) by { GoodWeakens(d0.mem, Run(d0, es0).log, Tame(es0), tame); }
      GoodStep(d0.mem, Run(d0, es0), tame, e);
    }
  }

  lemma GoodWeakens(m0: Memory, log: seq<Command>, tame: bool, tame': bool)
    requires Good(m0, log, tame) && (tame' ==> tame)
    ensures Good(m0, log, tame')
  {
  }

  lemma {:induction false} GentleAt(m0: Memory, log: seq<Command>, n: nat)
    requires AllGentle(m0, log) && n < |log|
    ensures Legal(log[n]) && Gentle(ApplyAll(m0, log[..n]), log[n])
    decreases |log|
  {
    hide ApplyAll, Gentle, Legal;
    var before := log[..|log| - 1];
    if n < |log| - 1 {
      GentleAt(m0, before, n);
      assert before[..n] == log[..n] && before[n] == log[n];
    }
  }

  /** Whatever is received and whenever power fails, no command leaves storage or programs over a cleared bit. */
  lemma EveryCommandGentle(d0: Device, es: seq<Event>, n: nat)
    requires FactoryFresh(d0) && n < |Run(d0, es).log|
    ensures var log := Run(d0, es).log; Legal(log[n]) && Gentle(ApplyAll(d0.mem, log[..n]), log[n])
  {
    hide Run, Legal, Gentle, ApplyAll;
    GoodRun(d0, es);
    GentleAt(d0.mem, Run(d0, es).log, n);
  }

  lemma {:induction false} StaysDirty(log: seq<Command>, i: nat, x: nat)
    requires x < |log| && ProgramsByte(log[x], i)
    requires forall z :: x < z < |log| ==> !ErasesByte(log[z], i)
    ensures Dirty(log, i)
    decreases |log|
  {
    if x < |log| - 1 {
      var before := log[..|log| - 1];
      assert forall z :: x < z < |before| ==> before[z] == log[z];
      StaysDirty(before, i, x);
      assert !ErasesByte(log[|log| - 1], i);
    }
  }

  lemma {:induction false} OnceAt(log: seq<Command>, y: nat)
    requires AllOnce(log) && y < |log| && log[y].ProgramWord?
    ensures Clean(log[..y], log[y].addr, log[y].addr + |log[y].data|)
    decreases |log|
  {
    hide Clean;
    var before := log[..|log| - 1];
    if y < |log| - 1 {
      OnceAt(before, y);
      assert before[..y] == log[..y] && before[y] == log[y];
    }
  }

  /** Between any two programmings of one byte there is an erase of its sector, across duplicates and power cuts. */
  lemma ProgrammedOncePerErase(d0: Device, es: seq<Event>, x: nat, y: nat, i: nat)
    requires FactoryFresh(d0) && Tame(es) && x < y < |Run(d0, es).log|
    requires ProgramsByte(Run(d0, es).log[x], i) && ProgramsByte(Run(d0, es).log[y], i)
    ensures exists z :: x < z < y && ErasesByte(Run(d0, es).log[z], i)
  {
    var log := Run(d0, es).log;
    hide Run, ApplyAll, Dirty, AllGentle, AllOnce, MarksTellWear, Tame;
    GoodRun(d0, es);
    OnceAt(log, y);
    assert !Dirty(log[..y], i);
    if forall z :: x < z < y ==> !ErasesByte(log[z], i) {
      assert forall z :: 0 <= z < y ==> log[..y][z] == log[z];
      StaysDirty(log[..y], i, x);
    }
  }
}
