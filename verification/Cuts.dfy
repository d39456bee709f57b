/**
 What flash can look like when power fails while one packet is processed: every prefix of the
 commands issued for the packet is described byte by byte.
 */
module Cuts {
  import opened Bytes
  import opened Flash
  import opened Protocol

  /** The first `j` sectors of storage have been erased. */
  ghost predicate ErasedPart(m: Memory, r: Memory, j: nat) {
    && j <= SECTOR_COUNT
    && forall i :: 0 <= i < FLASH_SIZE ==>
      r[i] == if STORAGE_START <= i < STORAGE_START + SECTOR_SIZE * j then BLANK_BYTE else m[i]
  }

  /** Storage has been erased and the first `k` words of `p`'s header written. */
  ghost predicate HeaderPart(m: Memory, r: Memory, p: Packet, k: nat) {
    && k <= 8
    && forall i :: 0 <= i < FLASH_SIZE ==>
      r[i] == if i < STORAGE_START then m[i]
              else if i < HEADER + 4 * k then HeaderImage(p)[i - HEADER]
              else BLANK_BYTE
  }

  /** `p`'s block has been marked and the first `w` words of its payload written. */
  ghost predicate DataPart(m: Memory, r: Memory, p: Packet, w: nat) {
    var b := Block(p);
    && MapAt(b) + 4 <= FLASH_SIZE && Blank(m, MapAt(b), MapAt(b) + 4)
    && w <= 64
    && (w > 0 ==> BlockAt(b) + BLOCK_SIZE <= FLASH_SIZE && Blank(m, BlockAt(b), BlockAt(b) + BLOCK_SIZE))
    && forall i :: 0 <= i < FLASH_SIZE ==>
      r[i] == if MapAt(b) <= i < MapAt(b) + 4 then 0
              else if BlockAt(b) <= i < BlockAt(b) + 4 * w then Payload(p)[i - BlockAt(b)]
              else m[i]
  }

  /** The `complete` word has been cleared. */
  ghost predicate SealedPart(m: Memory, r: Memory) {
    && Blank(m, COMPLETE_AT, COMPLETE_AT + 4)
    && forall i :: 0 <= i < FLASH_SIZE ==>
      r[i] == if COMPLETE_AT <= i < COMPLETE_AT + 4 then 0 else m[i]
  }

  // ---- erasing ----

  lemma EraseAllRun()
    ensures EraseAll() == EraseRun(SECTOR_MIN, SECTOR_COUNT)
    ensures EraseAllStatus() == OK
  {
  }

  lemma CutErase(m: Memory, k: nat)
    requires k <= |EraseAll()|
    ensures ErasedPart(m, ApplyAll(m, EraseAll()[..k]), k)
  {
    EraseAllRun();
    assert EraseAll()[..k] == EraseRun(SECTOR_MIN, k);
    hide Apply, ApplyAll, EraseRun;
    EraseRunEffect(m, SECTOR_MIN, k);
  }

  lemma EraseAllEffect(m: Memory)
    ensures ErasedPart(m, ApplyAll(m, EraseAll()), SECTOR_COUNT)
    ensures StorageErased(ApplyAll(m, EraseAll()))
  {
    EraseAllRun();
    assert EraseAll()[..SECTOR_COUNT] == EraseAll();
    hide Apply, ApplyAll, EraseRun;
    CutErase(m, SECTOR_COUNT);
  }

  // ---- programming a run of words ----

  lemma CutWords(m: Memory, src: seq<byte>, srcAddr: nat, dest: nat, k: nat)
    requires |src| > 0 && ProgramStatus(m, src, srcAddr, dest) == OK
    requires k <= |ProgramCommands(m, src, srcAddr, dest)|
    ensures 4 * k <= |src| && dest + |src| <= FLASH_SIZE && Blank(m, dest, dest + |src|)
    ensures |ProgramCommands(m, src, srcAddr, dest)| == |src| / 4
    ensures var r := ApplyAll(m, ProgramCommands(m, src, srcAddr, dest)[..k]);
      forall i :: 0 <= i < FLASH_SIZE ==> r[i] == if dest <= i < dest + 4 * k then src[i - dest] else m[i]
  {
    assert ProgramCommands(m, src, srcAddr, dest)[..k] == WordRun(src, dest, k);
    hide Apply, ApplyAll, WordRun, ProgramCommands;
    WordRunEffect(m, src, dest, k);
  }

  /** A successful programming stores the source exactly and touches nothing else; a refused one changes nothing. */
  lemma ProgramStoresOrRefuses(m: Memory, src: seq<byte>, srcAddr: nat, dest: nat)
    ensures var r := ApplyAll(m, ProgramCommands(m, src, srcAddr, dest));
      if ProgramStatus(m, src, srcAddr, dest) == OK && |src| > 0 then
        && dest + |src| <= FLASH_SIZE && r[dest..dest + |src|] == src
        && SameOn(m, r, 0, dest) && SameOn(m, r, dest + |src|, FLASH_SIZE)
      else r == m
  {
    if ProgramStatus(m, src, srcAddr, dest) == OK && |src| > 0 {
      var cmds := ProgramCommands(m, src, srcAddr, dest);
      assert cmds[..|cmds|] == cmds;
      hide Apply, ApplyAll, WordRun;
      CutWords(m, src, srcAddr, dest, |cmds|);
    } else {
      assert WordRun(src, dest, 0) == [];
    }
  }

  // ---- the control packet ----

  lemma CutIdle(m: Memory, p: Packet, k: nat)
    requires k <= |OnIdle(m, p).cmds|
    ensures var r := ApplyAll(m, OnIdle(m, p).cmds[..k]);
      || r == m
      || (GoodCtrl(p) && Guid(m) != CtrlGuid(p)
          && ((exists j :: 1 <= j && ErasedPart(m, r, j)) || (exists j :: HeaderPart(m, r, p, j))))
  {
    hide Apply, ApplyAll, EraseAll, ProgramCommands, GoodCtrl, Word;
    var r := ApplyAll(m, OnIdle(m, p).cmds[..k]);
    if !GoodCtrl(p) || Guid(m) == CtrlGuid(p) {
      CutNone(m, OnIdle(m, p).cmds, k);
    } else if k == 0 {
      CutNone(m, OnIdle(m, p).cmds, k);
    } else {
      var erased := ApplyAll(m, EraseAll());
      var header := ProgramCommands(erased, HeaderImage(p), 0, HEADER);
      CutConcat(m, EraseAll(), header, k);
      if k <= |EraseAll()| {
        CutErase(m, k);
      } else {
        CutHeader(m, p, k - |EraseAll()|);
      }
    }
  }

  lemma CutNone(m: Memory, cmds: seq<Command>, k: nat)
    requires k <= |cmds| && (k == 0 || cmds == [])
    ensures ApplyAll(m, cmds[..k]) == m
  {
    assert cmds[..k] == [];
  }

  lemma CutHeader(m: Memory, p: Packet, k: nat)
    requires k <= |ProgramCommands(ApplyAll(m, EraseAll()), HeaderImage(p), 0, HEADER)|
    ensures var erased := ApplyAll(m, EraseAll());
      HeaderPart(m, ApplyAll(erased, ProgramCommands(erased, HeaderImage(p), 0, HEADER)[..k]), p, k)
    ensures |ProgramCommands(ApplyAll(m, EraseAll()), HeaderImage(p), 0, HEADER)| == 8
  {
    hide Apply, ApplyAll, EraseAll, ProgramCommands, HeaderImage;
    EraseAllEffect(m);
    var erased := ApplyAll(m, EraseAll());
    assert ProgramStatus(erased, HeaderImage(p), 0, HEADER) == OK;
    CutWords(erased, HeaderImage(p), 0, HEADER, k);
  }

  // ---- a data packet ----

  /** The mark is one word, and it succeeds. */
  lemma MarkEffect(m: Memory, p: Packet)
    requires MapAt(Block(p)) + 4 <= FLASH_SIZE && Pending(m, Block(p))
    ensures var mark := ProgramCommands(m, ZERO_WORD, 0, MapAt(Block(p)));
      |mark| == 1 && DataPart(m, ApplyAll(m, mark), p, 0)
    ensures MapAt(Block(p)) % 4 == 0 && ProgramStatus(m, ZERO_WORD, 0, MapAt(Block(p))) == OK
  {
    hide Apply, ApplyAll, Word, LE16, Payload, WordRun, Block;
    var at := MapAt(Block(p));
    var mark := ProgramCommands(m, ZERO_WORD, 0, at);
    WordBlank(m, at);
    assert ProgramStatus(m, ZERO_WORD, 0, at) == OK;
    CutWords(m, ZERO_WORD, 0, at, |mark|);
    assert mark[..|mark|] == mark;
    var m1 := ApplyAll(m, mark);
    assert forall j :: 0 <= j < 4 ==> ZERO_WORD[j] == 0;
    forall i | 0 <= i < FLASH_SIZE ensures m1[i] == if at <= i < at + 4 then 0 else m[i] {
      assert at <= i < at + 4 ==> m1[i] == ZERO_WORD[i - at];
    }
  }

  lemma CutData(m: Memory, p: Packet, k: nat)
    requires MapAt(Block(p)) + 4 <= FLASH_SIZE && k <= |DataCommands(m, p)|
    ensures var r := ApplyAll(m, DataCommands(m, p)[..k]);
      r == m || exists w :: DataPart(m, r, p, w)
  {
    hide Apply, ApplyAll, ProgramCommands, Word, Payload, LE16;
    var b := Block(p);
    if k == 0 || !Pending(m, b) {
      CutNone(m, DataCommands(m, p), k);
    } else {
      MarkEffect(m, p);
      var mark := ProgramCommands(m, ZERO_WORD, 0, MapAt(b));
      var m1 := ApplyAll(m, mark);
      var data := ProgramCommands(m1, Payload(p), 4, BlockAt(b));
      CutConcat(m, mark, data, k);
      if k <= 1 {
        assert mark[..k] == mark;
      } else {
        CutPayload(m, m1, p, k - 1);
      }
    }
  }

  lemma CutPayload(m: Memory, m1: Memory, p: Packet, k: nat)
    requires DataPart(m, m1, p, 0)
    requires 0 < k <= |ProgramCommands(m1, Payload(p), 4, BlockAt(Block(p)))|
    ensures DataPart(m, ApplyAll(m1, ProgramCommands(m1, Payload(p), 4, BlockAt(Block(p)))[..k]), p, k)
  {
    hide Apply, ApplyAll, WordRun, LE16, Word;
    var b := Block(p);
    assert ProgramStatus(m1, Payload(p), 4, BlockAt(b)) == OK;
    CutWords(m1, Payload(p), 4, BlockAt(b), k);
    hide ProgramCommands;
    assert Blank(m, BlockAt(b), BlockAt(b) + BLOCK_SIZE) by {
      forall i | BlockAt(b) <= i < BlockAt(b) + BLOCK_SIZE ensures m[i] == BLANK_BYTE {
        assert m1[i] == BLANK_BYTE;
      }
    }
  }

  // ---- the completion check ----

  lemma CutSeal(m: Memory, k: nat)
    requires Incomplete(m) && 0 < k <= |ProgramCommands(m, ZERO_WORD, 0, COMPLETE_AT)|
    ensures SealedPart(m, ApplyAll(m, ProgramCommands(m, ZERO_WORD, 0, COMPLETE_AT)[..k]))
  {
    hide Apply, ApplyAll, Word, WordRun, ProgramCommands;
    WordBlank(m, COMPLETE_AT);
    assert ProgramStatus(m, ZERO_WORD, 0, COMPLETE_AT) == OK;
    CutWords(m, ZERO_WORD, 0, COMPLETE_AT, k);
  }

  lemma CutFinish(m: Memory, status: Status, k: nat)
    requires Incomplete(m) && k <= |Finish(m, status).cmds|
    ensures var r := ApplyAll(m, Finish(m, status).cmds[..k]);
      r == m || (Sealed(m) && SealedPart(m, r)) || (!Sealed(m) && exists j :: 1 <= j && ErasedPart(m, r, j))
  {
    hide Apply, ApplyAll, EraseAll, ProgramCommands, ProgramStatus, Word, AllDone, AppIsValid, BlockCount, Unsigned;
    var cmds := Finish(m, status).cmds;
    if k == 0 || cmds == [] {
      CutNone(m, cmds, k);
    } else if Sealed(m) {
      CutSeal(m, k);
    } else {
      CutErase(m, k);
    }
  }

  /** A cut while a packet is processed in the updating state: a data part, then at most one finishing part. */
  lemma CutUpdating(m: Memory, p: Packet, k: nat) returns (mid: Memory)
    requires Incomplete(m) && k <= |OnUpdating(m, p).cmds|
    ensures mid == m || (Magic(m) == STORAGE_MAGIC && GoodData(p) && exists w :: DataPart(m, mid, p, w))
    ensures var r := ApplyAll(m, OnUpdating(m, p).cmds[..k]);
      r == mid || (Sealed(mid) && SealedPart(mid, r)) || (exists j :: 1 <= j && ErasedPart(mid, r, j))
  {
    hide Apply, ApplyAll, EraseAll, ProgramCommands, Word, Finish, DataCommands, GoodData, Sealed, LE16;
    mid := m;
    if Magic(m) != STORAGE_MAGIC {
      if k == 0 {
        CutNone(m, OnUpdating(m, p).cmds, k);
      } else {
        CutErase(m, k);
      }
    } else if !GoodData(p) || MapAt(Block(p)) + 4 > FLASH_SIZE {
      CutNone(m, OnUpdating(m, p).cmds, k);
    } else {
      var data := DataCommands(m, p);
      var m2 := ApplyAll(m, data);
      var fin := Finish(m2, DataStatus(m, p));
      CutConcat(m, data, fin.cmds, k);
      assert data[..|data|] == data;
      CutData(m, p, if k <= |data| then k else |data|);
      if k <= |data| {
        mid := ApplyAll(m, data[..k]);
      } else {
        mid := m2;
        StillIncomplete(m, mid, p);
        CutFinish(mid, DataStatus(m, p), k - |data|);
      }
    }
  }

  lemma StillIncomplete(m: Memory, r: Memory, p: Packet)
    requires Incomplete(m) && (r == m || exists w :: DataPart(m, r, p, w))
    ensures Incomplete(r)
  {
    hide LE16;
    if r != m {
      WordSame(m, r, COMPLETE_AT);
    }
  }
}
