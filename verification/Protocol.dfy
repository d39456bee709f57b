/**
 The update protocol as a function: what one received packet makes the updater do to the flash
 and to its own state, and what runs of packets, power cuts and resets lead to.
 */
module Protocol {
  import opened Bytes
  import opened Flash
  import Murmur3

  // ---- packets, as the raw bytes of the receive buffer ----

  const PACKET_SIZE := 264
  const CTRL_LEN := 32
  const DATA_LEN := 264
  const TYPE_CTRL: byte := 0x01
  const TYPE_DATA: byte := 0x02
  const SEED_BLOCK: bv32 := 0xdeadbeef
  const SEED_TOTAL: bv32 := 0x32d0babe

  type Packet = p: seq<byte> | |p| == PACKET_SIZE witness seq(PACKET_SIZE, _ => 0)

  function Version(p: Packet): byte { p[0] }
  function Type(p: Packet): byte { p[1] }

  function Block(p: Packet): (b: nat)
    ensures b < 0x1_0000
  {
    LE16(p[2], p[3]) as nat
  }

  function Payload(p: Packet): seq<byte> { p[4..260] }
  function CtrlLength(p: Packet): seq<byte> { p[4..8] }
  function CtrlFullHash(p: Packet): seq<byte> { p[8..12] }
  function CtrlGuid(p: Packet): seq<byte> { p[12..28] }

  predicate GoodCtrl(p: Packet) {
    Type(p) == TYPE_CTRL && Murmur3.Hash(p[..28], SEED_BLOCK) == Word(p, 28)
  }

  predicate GoodData(p: Packet) {
    Type(p) == TYPE_DATA && Murmur3.Hash(p[..260], SEED_BLOCK) == Word(p, 260)
  }

  // ---- the storage area: header, block map, program region ----

  const SECTOR_MIN := STORAGE_START / SECTOR_SIZE
  const SECTOR_COUNT := (FLASH_SIZE - 1) / SECTOR_SIZE - SECTOR_MIN + 1
  const BLOCK_SIZE := 256
  const HEADER := STORAGE_START
  const MAGIC_AT := HEADER + 4
  const HASH_AT := HEADER + 8
  const LENGTH_AT := HEADER + 12
  const GUID_AT := HEADER + 16
  const COMPLETE_AT := HEADER + 32
  const MAP_AT := HEADER + 36
  const PROGRAM := HEADER + 256
  const STORAGE_VERSION: bv32 := 0
  const STORAGE_MAGIC: bv32 := 0x62696843
  const APP_MAGIC: bv32 := 0xd3fbf67a
  const APP_VERSION: bv32 := 0x00000100
  const ZERO_WORD: seq<byte> := [0, 0, 0, 0]

  /** Blocks whose payload fits the flash. */
  const BLOCKS := (FLASH_SIZE - PROGRAM) / BLOCK_SIZE
  /** Map entries that lie in the header page. */
  const MAP_ENTRIES := (PROGRAM - MAP_AT) / 4

  function MapAt(b: nat): nat { MAP_AT + 4 * b }
  function BlockAt(b: nat): nat { PROGRAM + BLOCK_SIZE * b }

  function Magic(m: Memory): bv32 { Word(m, MAGIC_AT) }
  function FullHash(m: Memory): bv32 { Word(m, HASH_AT) }
  function Length(m: Memory): (n: nat) ensures n < 0x1_0000_0000 { Unsigned(Word(m, LENGTH_AT)) }
  function Guid(m: Memory): seq<byte> { m[GUID_AT..GUID_AT + 16] }

  predicate Incomplete(m: Memory) {
    Word(m, COMPLETE_AT) == BLANK_WORD
  }

  predicate AppIsValid(m: Memory) {
    Word(m, PROGRAM + 24) == APP_MAGIC && Word(m, PROGRAM + 28) == APP_VERSION
  }

  /** 32-bit unsigned arithmetic: a stored length of 0 wraps around. */
  function BlockCount(length: nat): nat {
    ((length + 0xFFFF_FFFF) % 0x1_0000_0000) / BLOCK_SIZE + 1
  }

  predicate Pending(m: Memory, b: nat)
    requires MapAt(b) + 4 <= FLASH_SIZE
  {
    Word(m, MapAt(b)) == BLANK_WORD
  }

  predicate AllDone(m: Memory, n: nat)
    requires MapAt(n) <= FLASH_SIZE
  {
    forall b :: 0 <= b < n ==> !Pending(m, b)
  }

  function Region(m: Memory): seq<byte>
    requires PROGRAM + Length(m) <= FLASH_SIZE
  {
    m[PROGRAM..PROGRAM + Length(m)]
  }

  /** The stored program matches the stored hash. */
  predicate Sealed(m: Memory) {
    PROGRAM + Length(m) <= FLASH_SIZE && Murmur3.Hash(Region(m), SEED_TOTAL) == FullHash(m)
  }

  function HeaderImage(p: Packet): (s: seq<byte>)
    ensures |s| == 32
  {
    Split32(STORAGE_VERSION) + Split32(STORAGE_MAGIC) + CtrlFullHash(p) + CtrlLength(p) + CtrlGuid(p)
  }

  // ---- one packet ----

  datatype AppState = Idle | Updating | Updated | Fail

  /** `Halted`: errorCondition's endless loop, or the fault taken by a load past the end of flash. */
  datatype Power = Running | Booted | Halted

  datatype Outcome = Outcome(cmds: seq<Command>, astate: AppState, power: Power, status: Status)

  function EraseAll(): seq<Command> {
    EraseCommands(SECTOR_MIN, SECTOR_COUNT)
  }

  function EraseAllStatus(): Status {
    EraseStatus(SECTOR_MIN, SECTOR_COUNT)
  }

  function OnIdle(m: Memory, p: Packet): Outcome {
    if !GoodCtrl(p) then Outcome([], Idle, Running, OK)
    else if Guid(m) == CtrlGuid(p) then Outcome([], if Incomplete(m) then Updating else Updated, Running, OK)
    else
      var erased := ApplyAll(m, EraseAll());
      Outcome(EraseAll() + ProgramCommands(erased, HeaderImage(p), 0, HEADER), Updating, Running, EraseAllStatus())
  }

  /** The map entry is cleared before the payload is written. */
  function DataCommands(m: Memory, p: Packet): seq<Command>
    requires MapAt(Block(p)) + 4 <= FLASH_SIZE
  {
    if !Pending(m, Block(p)) then [] else
    var mark := ProgramCommands(m, ZERO_WORD, 0, MapAt(Block(p)));
    mark + ProgramCommands(ApplyAll(m, mark), Payload(p), 4, BlockAt(Block(p)))
  }

  function DataStatus(m: Memory, p: Packet): Status
    requires MapAt(Block(p)) + 4 <= FLASH_SIZE
  {
    if !Pending(m, Block(p)) then OK else
    var mark := ProgramCommands(m, ZERO_WORD, 0, MapAt(Block(p)));
    ProgramStatus(ApplyAll(m, mark), Payload(p), 4, BlockAt(Block(p)))
  }

  /** bootToUserApp ends the thread when the application header is valid and returns otherwise. */
  function Boot(m: Memory, cmds: seq<Command>, status: Status): Outcome {
    if AppIsValid(m) then Outcome(cmds, Updated, Booted, status) else Outcome(cmds, Fail, Running, status)
  }

  /** The completion check that runs after every valid data packet. */
  function Finish(m: Memory, status: Status): Outcome {
    var n := BlockCount(Length(m));
    if MapAt(n) > FLASH_SIZE then Outcome([], Updating, Halted, status)
    else if !AllDone(m, n) then Outcome([], Updating, Running, status)
    else if PROGRAM + Length(m) > FLASH_SIZE then Outcome([], Updating, Halted, status)
    else if Murmur3.Hash(Region(m), SEED_TOTAL) == FullHash(m) then
      var seal := ProgramCommands(m, ZERO_WORD, 0, COMPLETE_AT);
      Boot(ApplyAll(m, seal), seal, ProgramStatus(m, ZERO_WORD, 0, COMPLETE_AT))
    else Outcome(EraseAll(), Fail, Running, EraseAllStatus())
  }

  function OnUpdating(m: Memory, p: Packet): Outcome {
    if Magic(m) != STORAGE_MAGIC then Outcome(EraseAll(), Idle, Running, EraseAllStatus())
    else if !GoodData(p) then Outcome([], Updating, Running, OK)
    else if MapAt(Block(p)) + 4 > FLASH_SIZE then Outcome([], Updating, Halted, OK)
    else
      var data := DataCommands(m, p);
      var fin := Finish(ApplyAll(m, data), DataStatus(m, p));
      fin.(cmds := data + fin.cmds)
  }

  function Process(m: Memory, astate: AppState, p: Packet): Outcome {
    match astate
    case Idle => OnIdle(m, p)
    case Updating => OnUpdating(m, p)
    case Updated => Boot(m, [], OK)
    case Fail => Outcome([], Fail, Halted, OK)
  }

  /** No address the updater passes to the flash routine is near the end of the 32-bit range. */
  lemma NeverFaulted(m: Memory, astate: AppState, p: Packet)
    ensures Process(m, astate, p).status != Faulted
  {
    hide ApplyAll, ProgramCommands, Word, LE16, AppIsValid, GoodCtrl, GoodData, AllDone, Murmur3.Hash;
  }

  // ---- runs ----

  datatype Device = Device(mem: Memory, astate: AppState, power: Power, log: seq<Command>)

  /** `PowerCut(p, k)`: power fails while `p` is processed, after `k` flash commands. */
  datatype Event = Deliver(p: Packet) | PowerCut(p: Packet, k: nat) | Reset

  function Issued(d: Device, e: Event): seq<Command> {
    if d.power != Running || e.Reset? then []
    else
      var cmds := Process(d.mem, d.astate, e.p).cmds;
      if e.PowerCut? && e.k < |cmds| then cmds[..e.k] else cmds
  }

  function Step(d: Device, e: Event): Device {
    var mem := ApplyAll(d.mem, Issued(d, e));
    var log := d.log + Issued(d, e);
    if !e.Deliver? then Device(mem, Idle, Running, log)
    else if d.power != Running then d
    else
      var out := Process(d.mem, d.astate, e.p);
      Device(mem, out.astate, out.power, log)
  }

  function Run(d: Device, es: seq<Event>): Device {
    if es == [] then d else Step(Run(d, es[..|es| - 1]), es[|es| - 1])
  }

  ghost predicate StorageErased(m: Memory) {
    Blank(m, STORAGE_START, FLASH_SIZE)
  }

  ghost predicate FactoryFresh(d: Device) {
    d.astate == Idle && d.power == Running && d.log == [] && StorageErased(d.mem)
  }
}
