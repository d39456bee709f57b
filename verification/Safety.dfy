/**
 What holds of the flash after every run of arbitrary packets, resets and power cuts between any
 two flash commands, starting from erased storage.
 */
module Safety {
  import opened Bytes
  import opened Flash
  import opened Protocol
  import opened Cuts
  import Murmur3

  /** A set `complete` word vouches for the stored program. */
  ghost predicate CompleteMeansSealed(m: Memory) {
    !Incomplete(m) ==> Sealed(m)
  }

  /** The header holds the first `k` words of `p`'s header and is blank from there on. */
  ghost predicate HeaderFrom(m: Memory, p: Packet, k: nat) {
    && k <= 8
    && forall i :: HEADER <= i < HEADER + 32 ==>
      m[i] == if i < HEADER + 4 * k then HeaderImage(p)[i - HEADER] else BLANK_BYTE
  }

  ghost predicate Announces(e: Event, p: Packet) {
    !e.Reset? && e.p == p && GoodCtrl(p)
  }

  /** The header is blank or a (possibly cut short) copy of one valid control packet of the run. */
  ghost predicate HeaderAccounted(m: Memory, es: seq<Event>) {
    || Blank(m, HEADER, HEADER + 32)
    || exists i, k :: 0 <= i < |es| && !es[i].Reset? && Announces(es[i], es[i].p) && HeaderFrom(m, es[i].p, k)
  }

  /** A block whose map entry is still blank has not been written. */
  ghost predicate Coupled(m: Memory) {
    Magic(m) == STORAGE_MAGIC ==>
      forall b :: 0 <= b < BLOCKS && Pending(m, b) ==> Blank(m, BlockAt(b), BlockAt(b) + BLOCK_SIZE)
  }

  /** The block's map entry lies in the header page, or so far out that loading it faults. */
  ghost predicate SafeBlock(p: Packet) {
    Block(p) < MAP_ENTRIES || MapAt(Block(p)) + 4 > FLASH_SIZE
  }

  /** Every valid data packet of the run names a safe block. */
  ghost predicate Tame(es: seq<Event>) {
    forall i :: 0 <= i < |es| && !es[i].Reset? && GoodData(es[i].p) ==> SafeBlock(es[i].p)
  }

  /** The program in flash is complete, matches its hash, and carries a valid application header. */
  ghost predicate Bootable(m: Memory) {
    !Incomplete(m) && Sealed(m) && AppIsValid(m)
  }

  ghost predicate Inv(m0: Memory, d: Device, es: seq<Event>) {
    && SameOn(m0, d.mem, 0, STORAGE_START)
    && CompleteMeansSealed(d.mem)
    && (d.astate == Updating ==> Incomplete(d.mem))
    && (d.astate == Updated ==> !Incomplete(d.mem))
    && (d.power == Booted ==> Bootable(d.mem))
    && HeaderAccounted(d.mem, es)
    && (Tame(es) ==> Coupled(d.mem))
  }

  // ---- each kind of partial change keeps the invariant ----

  lemma ErasedFacts(m: Memory, r: Memory, j: nat)
    requires ErasedPart(m, r, j) && 1 <= j
    ensures Blank(r, HEADER, HEADER + 36) && SameOn(m, r, 0, STORAGE_START)
    ensures Incomplete(r) && Magic(r) != STORAGE_MAGIC
  {
    assert Blank(r, HEADER, HEADER + 36);
    WordBlank(r, COMPLETE_AT);
    WordBlank(r, MAGIC_AT);
  }

  lemma HeaderFacts(m: Memory, r: Memory, p: Packet, k: nat)
    requires HeaderPart(m, r, p, k)
    ensures Incomplete(r) && HeaderFrom(r, p, k) && Coupled(r) && SameOn(m, r, 0, STORAGE_START)
  {
    hide HeaderImage, Word;
    WordBlank(r, COMPLETE_AT);
  }

  lemma SameHeader(m: Memory, r: Memory)
    requires SameOn(m, r, HEADER, HEADER + 32)
    ensures Magic(r) == Magic(m) && FullHash(r) == FullHash(m) && Length(r) == Length(m) && Guid(r) == Guid(m)
    ensures forall p, k :: HeaderFrom(m, p, k) ==> HeaderFrom(r, p, k)
    ensures Blank(m, HEADER, HEADER + 32) ==> Blank(r, HEADER, HEADER + 32)
  {
    hide HeaderImage, Word, Unsigned;
    WordSame(m, r, MAGIC_AT);
    WordSame(m, r, HASH_AT);
    WordSame(m, r, LENGTH_AT);
  }

  lemma DataFacts(m: Memory, r: Memory, p: Packet, w: nat)
    requires DataPart(m, r, p, w)
    ensures SameOn(m, r, 0, MAP_AT)
    ensures Incomplete(m) ==> Incomplete(r)
    ensures Coupled(m) && Block(p) < MAP_ENTRIES ==> Coupled(r)
  {
    hide LE16, Payload;
    assert SameOn(m, r, 0, MAP_AT);
    WordSame(m, r, COMPLETE_AT);
    if Coupled(m) && Block(p) < MAP_ENTRIES {
      DataCoupled(m, r, p, w);
    }
  }

  lemma DataCoupled(m: Memory, r: Memory, p: Packet, w: nat)
    requires DataPart(m, r, p, w) && Coupled(m) && Block(p) < MAP_ENTRIES
    ensures Coupled(r)
  {
    hide LE16, LE, Payload;
    WordSame(m, r, MAGIC_AT);
    if Magic(r) == STORAGE_MAGIC {
      forall b | 0 <= b < BLOCKS && Pending(r, b) ensures Blank(r, BlockAt(b), BlockAt(b) + BLOCK_SIZE) {
        WordBlank(r, MapAt(b));
        assert r[MapAt(b)] == BLANK_BYTE;
        assert b != Block(p);
        WordSame(m, r, MapAt(b));
        assert Pending(m, b);
      }
    }
  }

  lemma SealedFacts(m: Memory, r: Memory)
    requires SealedPart(m, r) && Sealed(m)
    ensures Sealed(r) && SameOn(m, r, 0, COMPLETE_AT)
    ensures Coupled(m) ==> Coupled(r)
  {
    hide Word, Murmur3.Hash, Unsigned, Magic, FullHash, Length, HeaderFrom;
    assert SameOn(m, r, 0, COMPLETE_AT);
    SameHeader(m, r);
    assert Region(m) == Region(r);
    SealedCoupled(m, r);
  }

  lemma SealedCoupled(m: Memory, r: Memory)
    requires SealedPart(m, r)
    ensures Coupled(m) ==> Coupled(r)
  {
    hide Word;
    WordSame(m, r, MAGIC_AT);
    forall b | 0 <= b < BLOCKS ensures Pending(m, b) == Pending(r, b) {
      WordSame(m, r, MapAt(b));
    }
  }

  lemma AccountedGrows(m: Memory, es: seq<Event>, e: Event)
    requires HeaderAccounted(m, es)
    ensures HeaderAccounted(m, es + [e])
  {
    hide HeaderFrom, GoodCtrl;
    if !Blank(m, HEADER, HEADER + 32) {
      var i, k :| 0 <= i < |es| && !es[i].Reset? && Announces(es[i], es[i].p) && HeaderFrom(m, es[i].p, k);
      assert (es + [e])[i] == es[i];
    }
  }

  lemma TamePrefix(es: seq<Event>, e: Event)
    ensures Tame(es + [e]) ==> Tame(es)
    ensures Tame(es + [e]) && !e.Reset? && GoodData(e.p) ==> SafeBlock(e.p)
  {
    hide GoodData, SafeBlock;
    if Tame(es + [e]) {
      forall i | 0 <= i < |es| && !es[i].Reset? && GoodData(es[i].p) ensures SafeBlock(es[i].p) {
        assert (es + [e])[i] == es[i];
      }
      assert (es + [e])[|es|] == e;
    }
  }

  /** The flash part of the invariant. */
  ghost predicate Held(m0: Memory, m: Memory, es: seq<Event>) {
    && SameOn(m0, m, 0, STORAGE_START)
    && CompleteMeansSealed(m)
    && HeaderAccounted(m, es)
    && (Tame(es) ==> Coupled(m))
  }

  lemma HeldAfterErase(m0: Memory, m: Memory, r: Memory, j: nat, es: seq<Event>)
    requires SameOn(m0, m, 0, STORAGE_START) && ErasedPart(m, r, j) && 1 <= j
    ensures Held(m0, r, es)
  {
    hide Word, Sealed;
    ErasedFacts(m, r, j);
  }

  lemma HeldAfterCutIdle(m0: Memory, m: Memory, es: seq<Event>, e: Event, k: nat)
    requires Held(m0, m, es) && !e.Reset? && k <= |OnIdle(m, e.p).cmds|
    ensures Held(m0, ApplyAll(m, OnIdle(m, e.p).cmds[..k]), es + [e])
  {
    hide ApplyAll, OnIdle, Sealed, Incomplete, HeaderFrom, GoodCtrl, Tame, Coupled, ErasedPart, HeaderPart;
    var r := ApplyAll(m, OnIdle(m, e.p).cmds[..k]);
    CutIdle(m, e.p, k);
    AccountedGrows(m, es, e);
    TamePrefix(es, e);
    if r != m {
      if j :| 1 <= j && ErasedPart(m, r, j) {
        HeldAfterErase(m0, m, r, j, es + [e]);
      } else {
        var j :| HeaderPart(m, r, e.p, j);
        HeaderFacts(m, r, e.p, j);
        assert (es + [e])[|es|] == e && Announces(e, e.p);
        assert HeaderAccounted(r, es + [e]);
      }
    }
  }

  lemma HeldAfterData(m0: Memory, m: Memory, r: Memory, w: nat, es: seq<Event>, p: Packet)
    requires Held(m0, m, es) && Incomplete(m) && DataPart(m, r, p, w) && (Tame(es) ==> SafeBlock(p))
    ensures Held(m0, r, es) && Incomplete(r)
  {
    hide Sealed, Word, HeaderFrom, Announces, Tame, Coupled, DataPart, LE16;
    DataInRange(m, r, p, w);
    DataFacts(m, r, p, w);
    SameHeader(m, r);
    HeaderCarried(m, r, es);
  }

  lemma HeaderCarried(m: Memory, r: Memory, es: seq<Event>)
    requires HeaderAccounted(m, es) && SameOn(m, r, HEADER, HEADER + 32)
    ensures HeaderAccounted(r, es)
  {
    hide HeaderFrom, Announces;
    SameHeader(m, r);
    if !Blank(m, HEADER, HEADER + 32) {
      var i, k :| 0 <= i < |es| && !es[i].Reset? && Announces(es[i], es[i].p) && HeaderFrom(m, es[i].p, k);
      assert HeaderFrom(r, es[i].p, k);
    }
  }

  lemma HeldAfterSeal(m0: Memory, m: Memory, r: Memory, es: seq<Event>)
    requires Held(m0, m, es) && Sealed(m) && SealedPart(m, r)
    ensures Held(m0, r, es)
  {
    hide Sealed, Word, HeaderFrom, Announces, Tame, Coupled, SealedPart;
    SealedFacts(m, r);
    HeaderCarried(m, r, es);
  }

  lemma HeldAfterCutUpdating(m0: Memory, m: Memory, es: seq<Event>, e: Event, k: nat)
    requires Held(m0, m, es) && Incomplete(m) && !e.Reset? && k <= |OnUpdating(m, e.p).cmds|
    ensures Held(m0, ApplyAll(m, OnUpdating(m, e.p).cmds[..k]), es + [e])
  {
    hide ApplyAll, OnUpdating, Sealed, Incomplete, HeaderFrom, GoodData, Tame, Coupled;
    hide ErasedPart, SealedPart, DataPart, LE16, SafeBlock;
    var r := ApplyAll(m, OnUpdating(m, e.p).cmds[..k]);
    var mid := CutUpdating(m, e.p, k);
    AccountedGrows(m, es, e);
    TamePrefix(es, e);
    assert Held(m0, m, es + [e]);
    if mid != m {
      var w :| DataPart(m, mid, e.p, w);
      HeldAfterData(m0, m, mid, w, es + [e], e.p);
    }
    if r != mid {
      if j :| 1 <= j && ErasedPart(mid, r, j) {
        HeldAfterErase(m0, mid, r, j, es + [e]);
      } else {
        HeldAfterSeal(m0, mid, r, es + [e]);
      }
    }
  }

  lemma UpdatingStaysIncomplete(m: Memory, astate: AppState, p: Packet)
    requires (astate == Updating ==> Incomplete(m)) && Process(m, astate, p).astate == Updating
    ensures Incomplete(ApplyAll(m, Process(m, astate, p).cmds))
  {
    hide ApplyAll, Incomplete, EraseAll, GoodCtrl, OnUpdating;
    CutNone(m, [], 0);
    match astate {
      case Idle =>
        if GoodCtrl(p) && Guid(m) != CtrlGuid(p) {
          IdleEndsIncomplete(m, p);
        }
      case Updating => DataEndsIncomplete(m, p);
      case _ =>
    }
  }

  lemma DataEndsIncomplete(m: Memory, p: Packet)
    requires Incomplete(m) && OnUpdating(m, p).astate == Updating
    ensures Incomplete(ApplyAll(m, OnUpdating(m, p).cmds))
  {
    hide ApplyAll, Incomplete, EraseAll, ProgramCommands, DataCommands, GoodData, LE16;
    CutNone(m, [], 0);
    if GoodData(p) && MapAt(Block(p)) + 4 <= FLASH_SIZE {
      var data := DataCommands(m, p);
      assert OnUpdating(m, p).cmds == data && data[..|data|] == data by {
        hide Word, AllDone, AppIsValid;
      }
      CutData(m, p, |data|);
      StillIncomplete(m, ApplyAll(m, data), p);
    }
  }

  lemma IdleEndsIncomplete(m: Memory, p: Packet)
    requires GoodCtrl(p) && Guid(m) != CtrlGuid(p)
    ensures Incomplete(ApplyAll(m, OnIdle(m, p).cmds))
    ensures HeaderPart(m, ApplyAll(m, OnIdle(m, p).cmds), p, 8)
  {
    hide ApplyAll, Word, EraseAll, ProgramCommands, GoodCtrl, HeaderImage;
    CutHeader(m, p, 0);
    CutHeader(m, p, 8);
    var erased := ApplyAll(m, EraseAll());
    var header := ProgramCommands(erased, HeaderImage(p), 0, HEADER);
    assert header[..8] == header;
    ApplyAllConcat(m, EraseAll(), header);
    HeaderFacts(m, ApplyAll(m, OnIdle(m, p).cmds), p, 8);
  }

  lemma HeldAfterCut(m0: Memory, d: Device, es: seq<Event>, e: Event, k: nat)
    requires Inv(m0, d, es) && !e.Reset? && k <= |Process(d.mem, d.astate, e.p).cmds|
    ensures Held(m0, ApplyAll(d.mem, Process(d.mem, d.astate, e.p).cmds[..k]), es + [e])
  {
    hide ApplyAll, OnIdle, OnUpdating, Sealed, Incomplete, HeaderAccounted, Tame, Coupled, AppIsValid;
    match d.astate {
      case Idle => HeldAfterCutIdle(m0, d.mem, es, e, k);
      case Updating => HeldAfterCutUpdating(m0, d.mem, es, e, k);
      case _ =>
        CutNone(d.mem, Process(d.mem, d.astate, e.p).cmds, k);
        AccountedGrows(d.mem, es, e);
        TamePrefix(es, e);
    }
  }

  /** The updated state is entered, and the application booted, only on a complete program. */
  lemma CompleteWhenClaimed(m: Memory, astate: AppState, p: Packet)
    requires CompleteMeansSealed(m) && (astate == Updating ==> Incomplete(m)) && (astate == Updated ==> !Incomplete(m))
    ensures var out := Process(m, astate, p);
      var r := ApplyAll(m, out.cmds);
      && (out.power == Booted ==> Bootable(r))
      && (out.astate == Updated ==> !Incomplete(r))
  {
    hide ApplyAll, Incomplete, Sealed, AppIsValid, EraseAll, GoodCtrl, OnUpdating;
    CutNone(m, [], 0);
    if astate == Updating {
      CompleteAfterData(m, p);
    }
  }

  lemma CompleteAfterData(m: Memory, p: Packet)
    requires Incomplete(m)
    ensures var out := OnUpdating(m, p);
      var r := ApplyAll(m, out.cmds);
      && (out.power == Booted ==> Bootable(r))
      && (out.astate == Updated ==> !Incomplete(r))
  {
    hide ApplyAll, Incomplete, Sealed, AppIsValid, EraseAll, GoodData, DataCommands, DataStatus, Finish, LE16;
    if GoodData(p) && MapAt(Block(p)) + 4 <= FLASH_SIZE {
      var data := DataCommands(m, p);
      var mid := ApplyAll(m, data);
      assert data[..|data|] == data;
      CutData(m, p, |data|);
      StillIncomplete(m, mid, p);
      CompleteAfterFinish(mid, DataStatus(m, p));
      ApplyAllConcat(m, data, Finish(mid, DataStatus(m, p)).cmds);
    }
  }

  lemma CompleteAfterFinish(m: Memory, status: Status)
    requires Incomplete(m)
    ensures var out := Finish(m, status);
      var r := ApplyAll(m, out.cmds);
      && (out.power == Booted ==> Bootable(r))
      && (out.astate == Updated ==> out.power == Booted)
  {
    hide ApplyAll, Word, AppIsValid, EraseAll, ProgramCommands, ProgramStatus, AllDone, Murmur3.Hash, BlockCount;
    var out := Finish(m, status);
    if out.power == Booted {
      var seal := ProgramCommands(m, ZERO_WORD, 0, COMPLETE_AT);
      SealIssued(m);
      assert Sealed(m);
      SealedFacts(m, ApplyAll(m, seal));
    }
  }

  lemma SealIssued(m: Memory)
    requires Incomplete(m)
    ensures var r := ApplyAll(m, ProgramCommands(m, ZERO_WORD, 0, COMPLETE_AT));
      SealedPart(m, r) && !Incomplete(r)
  {
    hide ApplyAll, Word, WordRun;
    WordBlank(m, COMPLETE_AT);
    assert ProgramStatus(m, ZERO_WORD, 0, COMPLETE_AT) == OK;
    var seal := ProgramCommands(m, ZERO_WORD, 0, COMPLETE_AT);
    CutWords(m, ZERO_WORD, 0, COMPLETE_AT, 0);
    assert seal[..1] == seal;
    CutSeal(m, 1);
    var r := ApplyAll(m, seal);
    assert r[COMPLETE_AT] == 0;
    WordBlank(r, COMPLETE_AT);
  }

  lemma StepKeepsInv(m0: Memory, d: Device, es: seq<Event>, e: Event)
    requires Inv(m0, d, es)
    ensures Inv(m0, Step(d, e), es + [e])
  {
    hide ApplyAll, Process, Sealed, Incomplete, HeaderAccounted, Tame, Coupled, Bootable;
    AccountedGrows(d.mem, es, e);
    TamePrefix(es, e);
    CutNone(d.mem, [], 0);
    if d.power == Running && !e.Reset? {
      var cmds := Process(d.mem, d.astate, e.p).cmds;
      var k := if e.PowerCut? && e.k < |cmds| then e.k else |cmds|;
      assert cmds[..|cmds|] == cmds;
      HeldAfterCut(m0, d, es, e, k);
      CompleteWhenClaimed(d.mem, d.astate, e.p);
      if e.Deliver? && Process(d.mem, d.astate, e.p).astate == Updating {
        UpdatingStaysIncomplete(d.mem, d.astate, e.p);
      }
    }
  }

  lemma FreshInv(d0: Device)
    requires FactoryFresh(d0)
    ensures Inv(d0.mem, d0, [])
  {
    WordBlank(d0.mem, COMPLETE_AT);
    WordBlank(d0.mem, MAGIC_AT);
  }

  lemma {:induction false} RunKeepsInv(d0: Device, es: seq<Event>)
    requires FactoryFresh(d0)
    ensures Inv(d0.mem, Run(d0, es), es)
  {
    hide Inv, Step;
    if es == [] {
      FreshInv(d0);
    } else {
      var es0 := es[..|es| - 1];
      RunKeepsInv(d0, es0);
      StepKeepsInv(d0.mem, Run(d0, es0), es0, es[|es| - 1]);
      assert es0 + [es[|es| - 1]] == es;
    }
  }

  // ---- the results ----

  /** Crash-safe completion: a set `complete` word always vouches for the whole stored program. */
  lemma CompleteImpliesHash(d0: Device, es: seq<Event>)
    requires FactoryFresh(d0)
    ensures CompleteMeansSealed(Run(d0, es).mem)
  {
    hide Run;
    RunKeepsInv(d0, es);
  }

  /** The updater boots nothing but a complete program that matches its hash and has a valid application header. */
  lemma BootedImpliesComplete(d0: Device, es: seq<Event>)
    requires FactoryFresh(d0) && Run(d0, es).power == Booted
    ensures Bootable(Run(d0, es).mem)
  {
    hide Run, Bootable;
    RunKeepsInv(d0, es);
  }

  /** Nothing below the storage area is ever changed. */
  lemma BootloaderUntouched(d0: Device, es: seq<Event>)
    requires FactoryFresh(d0)
    ensures SameOn(d0.mem, Run(d0, es).mem, 0, STORAGE_START)
  {
    hide Run;
    RunKeepsInv(d0, es);
  }

  /** A stored guid that is not blank proves the rest of the header came, whole, from one valid control packet. */
  lemma GuidIsCommitRecord(d0: Device, es: seq<Event>) returns (i: nat, k: nat)
    requires FactoryFresh(d0) && !Blank(Run(d0, es).mem, GUID_AT, GUID_AT + 16)
    ensures i < |es| && !es[i].Reset? && GoodCtrl(es[i].p) && 5 <= k <= 8
    ensures var m := Run(d0, es).mem;
      && Word(m, HEADER) == STORAGE_VERSION && Magic(m) == STORAGE_MAGIC
      && FullHash(m) == Word(es[i].p, 8)
      && Length(m) == Unsigned(Word(es[i].p, 4))
      && Guid(m)[..4 * k - 16] == CtrlGuid(es[i].p)[..4 * k - 16]
      && Blank(m, HEADER + 4 * k, HEADER + 32)
  {
    var m := Run(d0, es).mem;
    hide Run, HeaderImage, GoodCtrl;
    RunKeepsInv(d0, es);
    i, k :| 0 <= i < |es| && !es[i].Reset? && Announces(es[i], es[i].p) && HeaderFrom(m, es[i].p, k);
    HeaderWords(m, es[i].p, k);
  }

  lemma HeaderWords(m: Memory, p: Packet, k: nat)
    requires HeaderFrom(m, p, k) && !Blank(m, GUID_AT, GUID_AT + 16)
    ensures 5 <= k <= 8
    ensures Word(m, HEADER) == STORAGE_VERSION
    ensures Magic(m) == STORAGE_MAGIC && FullHash(m) == Word(p, 8) && Length(m) == Unsigned(Word(p, 4))
    ensures Guid(m)[..4 * k - 16] == CtrlGuid(p)[..4 * k - 16]
    ensures Blank(m, HEADER + 4 * k, HEADER + 32)
  {
    hide LE, Split32, Unsigned;
    assert k >= 5;
    var s := HeaderImage(p);
    assert s[0..4] == Split32(STORAGE_VERSION) && s[4..8] == Split32(STORAGE_MAGIC);
    assert m[HEADER..HEADER + 4] == s[0..4];
    WordOfSplit(STORAGE_VERSION);
    assert s[8..12] == CtrlFullHash(p) && s[12..16] == CtrlLength(p) && s[16..32] == CtrlGuid(p);
    assert m[MAGIC_AT..MAGIC_AT + 4] == s[4..8];
    WordOfSplit(STORAGE_MAGIC);
    assert m[HASH_AT..HASH_AT + 4] == s[8..12];
    assert m[LENGTH_AT..LENGTH_AT + 4] == s[12..16];
    forall j | 0 <= j < 4 * k - 16 ensures Guid(m)[j] == CtrlGuid(p)[j] {
      assert s[16..32][j] == s[16 + j];
    }
  }

  /** Map and program region agree: with a valid magic, a blank map entry means an unwritten block. */
  lemma BlankEntryMeansBlankBlock(d0: Device, es: seq<Event>, b: nat)
    requires FactoryFresh(d0) && Tame(es) && b < BLOCKS
    requires Magic(Run(d0, es).mem) == STORAGE_MAGIC && Pending(Run(d0, es).mem, b)
    ensures Blank(Run(d0, es).mem, BlockAt(b), BlockAt(b) + BLOCK_SIZE)
  {
    hide Run, Word, Tame;
    RunKeepsInv(d0, es);
  }

  /** The flash after one packet has been processed in the updating state. */
  function AfterPacket(m: Memory, p: Packet): Memory {
    ApplyAll(m, OnUpdating(m, p).cmds)
  }

  lemma DataInRange(m: Memory, r: Memory, p: Packet, w: nat)
    requires DataPart(m, r, p, w)
    ensures MapAt(Block(p)) + 4 <= FLASH_SIZE
  {
  }

  lemma MarkedAfterData(m: Memory, p: Packet)
    requires MapAt(Block(p)) + 4 <= FLASH_SIZE && Pending(m, Block(p))
    ensures exists w :: DataPart(m, ApplyAll(m, DataCommands(m, p)), p, w)
  {
    hide LE, LE16, ApplyAll, ProgramCommands;
    var data := DataCommands(m, p);
    var b := Block(p);
    MarkEffect(m, p);
    var mark := ProgramCommands(m, ZERO_WORD, 0, MapAt(b));
    var m1 := ApplyAll(m, mark);
    var pay := ProgramCommands(m1, Payload(p), 4, BlockAt(b));
    CutConcat(m, mark, pay, |mark| + |pay|);
    assert data[..|data|] == data && pay[..|pay|] == pay;
    if |pay| > 0 {
      CutPayload(m, m1, p, |pay|);
    } else {
      CutNone(m1, pay, 0);
    }
  }
}
