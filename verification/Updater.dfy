/** The updater object: updaterPacketProcess and its helpers, over the flash controller. */
module Updater {
  import opened Bytes
  import opened Flash
  import opened Protocol
  import Mac
  import Murmur3

  class Updater {
    const flash: Controller
    /** Owner of the global `pktReady` flag, cleared here once the packet has been processed. */
    const mac: Mac.MacFramer
    var astate: AppState
    var power: Power

    ghost predicate Valid()
      reads this, flash
    {
      flash.Valid()
    }

    constructor (flash: Controller, mac: Mac.MacFramer)
      requires flash.Valid()
      ensures Valid() && this.flash == flash && this.mac == mac
      ensures astate == Idle && power == Running
    {
      this.flash := flash;
      this.mac := mac;
      astate := Idle;
      power := Running;
    }

    method LoadWord(a: nat) returns (w: bv32)
      requires Valid() && a + 4 <= FLASH_SIZE
      ensures w == Word(flash.Contents(), a)
    {
      LEPadded(flash.mem[a..a + 4]);
      w := LE32(flash.mem[a], flash.mem[a + 1], flash.mem[a + 2], flash.mem[a + 3]);
    }

    method BootToUserApp() returns (exited: bool)
      requires Valid()
      ensures exited <==> AppIsValid(flash.Contents())
    {
      var magic := LoadWord(PROGRAM + 24);
      var version := LoadWord(PROGRAM + 28);
      exited := magic == APP_MAGIC && version == APP_VERSION;
    }

    method InitStorageHeader(pkt: Packet)
      requires Valid()
      modifies flash.mem, flash`log
      ensures Valid()
      ensures var cmds := ProgramCommands(old(flash.Contents()), HeaderImage(pkt), 0, HEADER);
        && flash.Contents() == ApplyAll(old(flash.Contents()), cmds)
        && flash.log == old(flash.log) + cmds
    {
      var version := Split32(STORAGE_VERSION);
      var magic := Split32(STORAGE_MAGIC);
      var fullhash, length, guid := pkt[8..12], pkt[4..8], pkt[12..28];
      var proto := version + magic + fullhash + length + guid;
      // a failure is ignored: nothing can be done about it
      var _ := flash.Program(proto, 0, HEADER);
    }

    /** Compares the first `n` map entries with the blank word; stops the machine at the end of flash. */
    method CheckBlockMap(n: nat) returns (alldone: bool, faulted: bool)
      requires Valid()
      ensures faulted <==> MapAt(n) > FLASH_SIZE
      ensures !faulted ==> (alldone <==> AllDone(flash.Contents(), n))
    {
      alldone, faulted := true, false;
      var i := 0;
      while i < n
        invariant 0 <= i <= n && MapAt(i) <= FLASH_SIZE
        invariant alldone <==> AllDone(flash.Contents(), i)
      {
        if MapAt(i) + 4 > FLASH_SIZE {
          return alldone, true;
        }
        hide Word;
        ghost var m := flash.Contents();
        var entry := LoadWord(MapAt(i));
        assert AllDone(m, i + 1) <==> AllDone(m, i) && !Pending(m, i);
        if entry == BLANK_WORD {
          alldone := false;
        }
        i := i + 1;
      }
    }

    method ProgramBlock(pkt: Packet) returns (status: Status)
      requires Valid() && MapAt(Block(pkt)) + 4 <= FLASH_SIZE
      modifies flash.mem, flash`log
      ensures Valid()
      ensures status == DataStatus(old(flash.Contents()), pkt)
      ensures flash.Contents() == ApplyAll(old(flash.Contents()), DataCommands(old(flash.Contents()), pkt))
      ensures flash.log == old(flash.log) + DataCommands(old(flash.Contents()), pkt)
    {
      hide ApplyAll, Word, ProgramCommands, ProgramStatus;
      var block := Block(pkt);
      var entry := LoadWord(MapAt(block));
      ghost var m := flash.Contents();
      status := OK;
      if entry == BLANK_WORD {
        ghost var mark := ProgramCommands(m, ZERO_WORD, 0, MapAt(block));
        var dummy := ZERO_WORD;
        status := flash.Program(dummy, 0, MapAt(block));
        ghost var m1 := flash.Contents();
        ghost var data := ProgramCommands(m1, Payload(pkt), 4, BlockAt(block));
        status := flash.Program(pkt[4..260], 4, BlockAt(block));
        ApplyAllConcat(m, mark, data);
      } else {
        NoCommands(m);
      }
    }

    method VerifyRegion(length: nat) returns (sound: bool)
      requires Valid() && length == Length(flash.Contents()) && PROGRAM + length <= FLASH_SIZE
      ensures sound <==> Murmur3.Hash(Region(flash.Contents()), SEED_TOTAL) == FullHash(flash.Contents())
    {
      hide Word, Murmur3.Hash;
      var hash := Murmur3.MurmurHash3(flash.mem[PROGRAM..PROGRAM + length], SEED_TOTAL);
      assert flash.mem[PROGRAM..PROGRAM + length] == Region(flash.Contents());
      var fullhash := LoadWord(HASH_AT);
      sound := hash == fullhash;
    }

    method FinishUpdate(status0: Status) returns (status: Status)
      requires Valid() && power == Running && astate == Updating
      modifies this`astate, this`power, flash.mem, flash`log
      ensures Valid()
      ensures var out := Finish(old(flash.Contents()), status0);
        && astate == out.astate && power == out.power && status == out.status
        && flash.Contents() == ApplyAll(old(flash.Contents()), out.cmds)
        && flash.log == old(flash.log) + out.cmds
    {
      hide ApplyAll, Word, ProgramCommands, ProgramStatus, EraseCommands, AppIsValid, AllDone, Murmur3.Hash;
      status := status0;
      ghost var m := flash.Contents();
      NoCommands(m);
      var lengthWord := LoadWord(LENGTH_AT);
      var length := Unsigned(lengthWord);
      var alldone, faulted := CheckBlockMap(BlockCount(length));
      if faulted {
        power := Halted;
        return;
      }
      if !alldone {
        return;
      }
      if PROGRAM + length > FLASH_SIZE {
        power := Halted;
        return;
      }
      var sound := VerifyRegion(length);
      if sound {
        var dummy := ZERO_WORD;
        status := flash.Program(dummy, 0, COMPLETE_AT);
        astate := Updated;
        var exited := BootToUserApp();
        if exited {
          power := Booted;
          return;
        }
        astate := Fail;
      } else {
        status := flash.EraseSectors(SECTOR_MIN, SECTOR_COUNT);
        astate := Fail;
      }
    }

    /** A packet that boots the application or halts the machine never returns to its caller. */
    method PacketProcess(pkt: Packet) returns (err: Status)
      requires Valid() && power == Running
      modifies this`astate, this`power, mac`pktReady, flash.mem, flash`log
      ensures Valid()
      ensures var out := Process(old(flash.Contents()), old(astate), pkt);
        && astate == out.astate && power == out.power && err == out.status
        && flash.Contents() == ApplyAll(old(flash.Contents()), out.cmds)
        && flash.log == old(flash.log) + out.cmds
      ensures mac.pktReady == if power == Running then false else old(mac.pktReady)
    {
      ghost var m := flash.Contents();
      NoCommands(m);
      err := OK;
      match astate {
        case Idle =>
          err := ProcessIdle(pkt);
        case Updating =>
          err := ProcessUpdating(pkt);
        case Updated =>
          var exited := BootToUserApp();
          if exited {
            power := Booted;
          } else {
            astate := Fail;
          }
        case Fail =>
          power := Halted;
      }
      if power == Running {
        mac.pktReady := false;
      }
    }

    method ProcessIdle(pkt: Packet) returns (err: Status)
      requires Valid() && power == Running && astate == Idle
      modifies this`astate, flash.mem, flash`log
      ensures Valid()
      ensures var out := OnIdle(old(flash.Contents()), pkt);
        && astate == out.astate && power == out.power && err == out.status
        && flash.Contents() == ApplyAll(old(flash.Contents()), out.cmds)
        && flash.log == old(flash.log) + out.cmds
    {
      hide ApplyAll, Word, ProgramCommands, EraseCommands, HeaderImage, Murmur3.Hash;
      err := OK;
      ghost var m := flash.Contents();
      NoCommands(m);
      if pkt[1] != TYPE_CTRL {
        return;
      }
      var hash := Murmur3.MurmurHash3(pkt[..28], SEED_BLOCK);
      if hash != Word(pkt, 28) {
        return;
      }
      if flash.mem[GUID_AT..GUID_AT + 16] == pkt[12..28] {
        var complete := LoadWord(COMPLETE_AT);
        if complete == BLANK_WORD {
          astate := Updating;
        } else {
          astate := Updated;
        }
        return;
      }
      err := flash.EraseSectors(SECTOR_MIN, SECTOR_COUNT);
      ghost var erased := flash.Contents();
      InitStorageHeader(pkt);
      ApplyAllConcat(m, EraseAll(), ProgramCommands(erased, HeaderImage(pkt), 0, HEADER));
      astate := Updating;
    }

    method ProcessUpdating(pkt: Packet) returns (err: Status)
      requires Valid() && power == Running && astate == Updating
      modifies this`astate, this`power, flash.mem, flash`log
      ensures Valid()
      ensures var out := OnUpdating(old(flash.Contents()), pkt);
        && astate == out.astate && power == out.power && err == out.status
        && flash.Contents() == ApplyAll(old(flash.Contents()), out.cmds)
        && flash.log == old(flash.log) + out.cmds
    {
      hide ApplyAll, Word, EraseCommands, DataCommands, DataStatus, Finish, Murmur3.Hash;
      err := OK;
      ghost var m := flash.Contents();
      NoCommands(m);
      var magic := LoadWord(MAGIC_AT);
      if magic != STORAGE_MAGIC {
        err := flash.EraseSectors(SECTOR_MIN, SECTOR_COUNT);
        astate := Idle;
        return;
      }
      if pkt[1] != TYPE_DATA {
        return;
      }
      var hash := Murmur3.MurmurHash3(pkt[..260], SEED_BLOCK);
      if hash != Word(pkt, 260) {
        return;
      }
      if MapAt(Block(pkt)) + 4 > FLASH_SIZE {
        power := Halted;
        return;
      }
      err := ProgramBlock(pkt);
      ghost var m2 := flash.Contents();
      ghost var status := err;
      err := FinishUpdate(err);
      ApplyAllConcat(m, DataCommands(m, pkt), Finish(m2, status).cmds);
    }
  }
}
