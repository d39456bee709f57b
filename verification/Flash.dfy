/**
 The KL02 program flash and the two routines that change it.  A command sent to the flash
 controller (one sector erase or one word program) is atomic and succeeds; power can fail
 between any two commands, which is why both routines are specified by the list of commands
 they issue and not only by their final effect.
 */
module Flash {
  import opened Bytes

  const FLASH_SIZE := 32768
  const SECTOR_SIZE := 1024
  const STORAGE_START := 0x5800
  const STORAGE_SECTOR := 22
  const SECTOR_LIMIT := 32

  /** `Faulted`: the routine has loaded past the end of flash and never returns. */
  datatype Status = OK | NotBlank | NotAligned | OutOfRange | Faulted

  datatype Command = EraseSector(sector: nat) | ProgramWord(addr: nat, data: seq<byte>)

  type Memory = m: seq<byte> | |m| == FLASH_SIZE witness seq(FLASH_SIZE, _ => 0xFF)

  /** Programming can only clear bits, so the cell ends up with the bitwise and. */
  function Apply(m: Memory, c: Command): (r: Memory)
  {
    match c
    case EraseSector(s) =>
      seq(FLASH_SIZE, i requires 0 <= i < FLASH_SIZE =>
        if s * SECTOR_SIZE <= i < (s + 1) * SECTOR_SIZE then BLANK_BYTE else m[i])
    case ProgramWord(a, d) =>
      seq(FLASH_SIZE, i requires 0 <= i < FLASH_SIZE =>
        if a <= i < a + |d| then m[i] & d[i - a] else m[i])
  }

  function ApplyAll(m: Memory, cs: seq<Command>): Memory {
    if cs == [] then m else Apply(ApplyAll(m, cs[..|cs| - 1]), cs[|cs| - 1])
  }

  /** A command that stays inside the storage area, on a word boundary. */
  predicate Legal(c: Command) {
    match c
    case EraseSector(s) => STORAGE_SECTOR <= s < SECTOR_LIMIT
    case ProgramWord(a, d) => STORAGE_START <= a && a + 4 <= FLASH_SIZE && a % 4 == 0 && |d| == 4
  }

  /** A program command is gentle when no bit of its target has been cleared before. */
  ghost predicate Gentle(m: Memory, c: Command) {
    c.ProgramWord? ==> c.addr + |c.data| <= FLASH_SIZE && Blank(m, c.addr, c.addr + |c.data|)
  }

  // ---- what the two routines issue ----

  /** 32-bit unsigned addition. */
  function WrappingSum(a: nat, b: nat): nat {
    (a + b) % 0x1_0000_0000
  }

  function EraseStatus(offset: nat, count: nat): Status {
    if offset < STORAGE_SECTOR || WrappingSum(offset, count) > SECTOR_LIMIT then OutOfRange else OK
  }

  function EraseRun(offset: nat, n: nat): seq<Command> {
    seq(n, i requires 0 <= i < n => EraseSector(offset + i))
  }

  function EraseCommands(offset: nat, count: nat): seq<Command> {
    if EraseStatus(offset, count).OK? && offset < WrappingSum(offset, count)
    then EraseRun(offset, WrappingSum(offset, count) - offset) else []
  }

  function ProgramStatus(m: Memory, src: seq<byte>, srcAddr: nat, dest: nat): Status {
    if |src| == 0 then OK
    else if dest < STORAGE_START || WrappingSum(dest, |src|) > FLASH_SIZE then OutOfRange
    else if |src| % 4 != 0 || dest % 4 != 0 || srcAddr % 4 != 0 then NotAligned
    else if dest + |src| > FLASH_SIZE then Faulted
    else if !Blank(m, dest, dest + |src|) then NotBlank
    else OK
  }

  function WordRun(src: seq<byte>, dest: nat, n: nat): seq<Command>
    requires 4 * n <= |src|
  {
    seq(n, i requires 0 <= i < n => ProgramWord(dest + 4 * i, src[4 * i..4 * i + 4]))
  }

  function ProgramCommands(m: Memory, src: seq<byte>, srcAddr: nat, dest: nat): seq<Command> {
    if ProgramStatus(m, src, srcAddr, dest).OK? then WordRun(src, dest, |src| / 4) else []
  }

  lemma EraseRunStep(m: Memory, offset: nat, n: nat)
    ensures EraseRun(offset, n + 1) == EraseRun(offset, n) + [EraseSector(offset + n)]
    ensures ApplyAll(m, EraseRun(offset, n + 1)) == Apply(ApplyAll(m, EraseRun(offset, n)), EraseSector(offset + n))
  {
    var run := EraseRun(offset, n + 1);
    assert run[..|run| - 1] == EraseRun(offset, n) && run[|run| - 1] == EraseSector(offset + n);
  }

  lemma WordRunStep(m: Memory, src: seq<byte>, dest: nat, n: nat)
    requires 4 * n + 4 <= |src|
    ensures var c := ProgramWord(dest + 4 * n, src[4 * n..4 * n + 4]);
      && WordRun(src, dest, n + 1) == WordRun(src, dest, n) + [c]
      && ApplyAll(m, WordRun(src, dest, n + 1)) == Apply(ApplyAll(m, WordRun(src, dest, n)), c)
  {
    var run := WordRun(src, dest, n + 1);
    assert run[..|run| - 1] == WordRun(src, dest, n);
    assert run[|run| - 1] == ProgramWord(dest + 4 * n, src[4 * n..4 * n + 4]);
  }

  /** Programming succeeds exactly on erased, aligned cells of the storage area; each refusal has one reason. */
  lemma ProgramAcceptsExactly(m: Memory, src: seq<byte>, srcAddr: nat, dest: nat)
    requires src != [] && dest < 0x1_0000_0000 && |src| < 0x1_0000_0000
    ensures var status := ProgramStatus(m, src, srcAddr, dest);
      var within := STORAGE_START <= dest && dest + |src| <= FLASH_SIZE;
      var aligned := |src| % 4 == 0 && dest % 4 == 0 && srcAddr % 4 == 0;
      && (status == OK <==> within && aligned && Blank(m, dest, dest + |src|))
      && (status == NotBlank <==> within && aligned && !Blank(m, dest, dest + |src|))
      && (within && !aligned ==> status == NotAligned)
      && (dest < STORAGE_START || FLASH_SIZE < dest + |src| < 0x1_0000_0000 ==> status == OutOfRange)
  {
  }

  /** Erasing blanks exactly the requested sectors of the storage area; any other request changes nothing. */
  lemma ErasesExactly(m: Memory, offset: nat, count: nat)
    requires offset < 0x1_0000_0000 && count < 0x1_0000
    ensures var r := ApplyAll(m, EraseCommands(offset, count));
      forall i :: 0 <= i < FLASH_SIZE ==>
        r[i] == if STORAGE_SECTOR <= offset && offset + count <= SECTOR_LIMIT
                   && offset * SECTOR_SIZE <= i < (offset + count) * SECTOR_SIZE
                then BLANK_BYTE else m[i]
    ensures offset + count < 0x1_0000_0000 ==>
      (EraseStatus(offset, count) == OK <==> STORAGE_SECTOR <= offset && offset + count <= SECTOR_LIMIT)
  {
    hide Apply, ApplyAll, EraseRun;
    if STORAGE_SECTOR <= offset && offset + count <= SECTOR_LIMIT && count > 0 {
      assert EraseCommands(offset, count) == EraseRun(offset, count);
      EraseRunEffect(m, offset, count);
    } else {
      assert EraseCommands(offset, count) == [];
      NoCommands(m);
    }
  }

  lemma NoCommands(m: Memory)
    ensures ApplyAll(m, []) == m
  {
  }

  /** Programming never sets a bit and never leaves one set that the data has clear: only an erase sets bits. */
  lemma ProgrammingOnlyClears(m: Memory, a: nat, d: seq<byte>, i: nat)
    requires i < FLASH_SIZE
    ensures var r := Apply(m, ProgramWord(a, d));
      && r[i] & m[i] == r[i]
      && (a <= i < a + |d| ==> r[i] & d[i - a] == r[i])
      && (!(a <= i < a + |d|) ==> r[i] == m[i])
  {
    AndTwice(m[i], if a <= i < a + |d| then d[i - a] else m[i]);
  }

  lemma AndTwice(x: byte, y: byte)
    ensures (x & y) & x == x & y && (x & y) & y == x & y && x & x == x
  {
  }

  // ---- the routines ----

  class Controller {
    const mem: array<byte>
    /** Every command issued so far, oldest first. */
    ghost var log: seq<Command>

    ghost predicate Valid()
      reads this
    {
      mem.Length == FLASH_SIZE
    }

    ghost function Contents(): Memory
      requires Valid()
      reads this, mem
    {
      mem[..]
    }

    method SectorErase(s: nat)
      requires Valid() && STORAGE_SECTOR <= s < SECTOR_LIMIT
      modifies mem, `log
      ensures Contents() == Apply(old(Contents()), EraseSector(s))
      ensures log == old(log) + [EraseSector(s)]
    {
      forall i | s * SECTOR_SIZE <= i < (s + 1) * SECTOR_SIZE {
        mem[i] := BLANK_BYTE;
      }
      log := log + [EraseSector(s)];
    }

    method LongwordProgram(a: nat, d: seq<byte>)
      requires Valid() && |d| == 4 && a + 4 <= FLASH_SIZE
      modifies mem, `log
      ensures Contents() == Apply(old(Contents()), ProgramWord(a, d))
      ensures log == old(log) + [ProgramWord(a, d)]
    {
      forall i | a <= i < a + 4 {
        mem[i] := mem[i] & d[i - a];
      }
      log := log + [ProgramWord(a, d)];
    }

    method EraseSectors(offset: nat, count: nat) returns (status: Status)
      requires Valid() && offset < 0x1_0000_0000 && count < 0x1_0000
      modifies mem, `log
      ensures status == EraseStatus(offset, count)
      ensures Contents() == ApplyAll(old(Contents()), EraseCommands(offset, count))
      ensures log == old(log) + EraseCommands(offset, count)
    {
      var end := WrappingSum(offset, count);
      if offset < STORAGE_SECTOR {
        return OutOfRange;
      }
      if end > FLASH_SIZE / SECTOR_SIZE {
        return OutOfRange;
      }
      if offset < end {
        EraseFrom(offset, end);
      }
      return OK;
    }

    method EraseFrom(offset: nat, end: nat)
      requires Valid() && STORAGE_SECTOR <= offset <= end <= SECTOR_LIMIT
      modifies mem, `log
      ensures Contents() == ApplyAll(old(Contents()), EraseRun(offset, end - offset))
      ensures log == old(log) + EraseRun(offset, end - offset)
    {
      var destination := offset;
      assert EraseRun(offset, 0) == [] && log == old(log) + [];
      hide Apply, EraseRun;
      while destination < end
        invariant offset <= destination <= end
        invariant Contents() == ApplyAll(old(Contents()), EraseRun(offset, destination - offset))
        invariant log == old(log) + EraseRun(offset, destination - offset)
      {
        EraseRunStep(old(Contents()), offset, destination - offset);
        SectorErase(destination);
        destination := destination + 1;
      }
    }

    method BlankCheck(dest: nat, count: nat) returns (blank: bool)
      requires Valid() && dest + count <= FLASH_SIZE
      ensures blank <==> Blank(Contents(), dest, dest + count)
    {
      var i := 0;
      while i < count
        invariant 0 <= i <= count
        invariant forall j :: dest <= j < dest + i ==> mem[j] == BLANK_BYTE
      {
        if mem[dest + i] != BLANK_BYTE {
          return false;
        }
        i := i + 1;
      }
      return true;
    }

    method Program(src: seq<byte>, srcAddr: nat, dest: nat) returns (status: Status)
      requires Valid() && dest < 0x1_0000_0000 && |src| < 0x1_0000_0000
      modifies mem, `log
      ensures status == ProgramStatus(old(Contents()), src, srcAddr, dest)
      ensures Contents() == ApplyAll(old(Contents()), ProgramCommands(old(Contents()), src, srcAddr, dest))
      ensures log == old(log) + ProgramCommands(old(Contents()), src, srcAddr, dest)
    {
      var count := |src|;
      if count == 0 {
        return OK;
      }
      if dest < STORAGE_START || WrappingSum(dest, count) > FLASH_SIZE {
        return OutOfRange;
      }
      if count % 4 != 0 || dest % 4 != 0 || srcAddr % 4 != 0 {
        return NotAligned;
      }
      if dest + count > FLASH_SIZE {
        // the sum has wrapped around: the first load of the blank check is far outside flash
        return Faulted;
      }
      var blank := BlankCheck(dest, count);
      if !blank {
        return NotBlank;
      }
      ProgramWords(src, dest);
      return OK;
    }

    method ProgramWords(src: seq<byte>, dest: nat)
      requires Valid() && dest + |src| <= FLASH_SIZE && |src| % 4 == 0
      modifies mem, `log
      ensures Contents() == ApplyAll(old(Contents()), WordRun(src, dest, |src| / 4))
      ensures log == old(log) + WordRun(src, dest, |src| / 4)
    {
      hide Apply;
      ghost var n := 0;
      var i := 0;
      while i < |src|
        invariant i == 4 * n <= |src|
        invariant Contents() == ApplyAll(old(Contents()), WordRun(src, dest, n))
        invariant log == old(log) + WordRun(src, dest, n)
      {
        LongwordProgram(dest + i, src[i..i + 4]);
        WordRunStep(old(Contents()), src, dest, n);
        n := n + 1;
        i := i + 4;
      }
      assert n == |src| / 4;
    }
  }

  // ---- effects of command runs, including runs cut short ----

  lemma {:induction false} ApplyAllConcat(m: Memory, a: seq<Command>, b: seq<Command>)
    ensures ApplyAll(m, a + b) == ApplyAll(ApplyAll(m, a), b)
  {
    if b == [] {
      assert a + b == a;
    } else {
      var ab := a + b;
      assert ab[..|ab| - 1] == a + b[..|b| - 1];
      ApplyAllConcat(m, a, b[..|b| - 1]);
    }
  }

  /** Where a power cut leaves a sequence of two phases. */
  lemma CutConcat(m: Memory, a: seq<Command>, b: seq<Command>, k: nat)
    requires k <= |a| + |b|
    ensures k <= |a| ==> ApplyAll(m, (a + b)[..k]) == ApplyAll(m, a[..k])
    ensures k > |a| ==> ApplyAll(m, (a + b)[..k]) == ApplyAll(ApplyAll(m, a), b[..k - |a|])
  {
    if k <= |a| {
      assert (a + b)[..k] == a[..k];
    } else {
      assert (a + b)[..k] == a + b[..k - |a|];
      ApplyAllConcat(m, a, b[..k - |a|]);
    }
  }

  /** An erase run cut after `n` sectors: those sectors are blank, every other byte is untouched. */
  lemma {:induction false} EraseRunEffect(m: Memory, offset: nat, n: nat)
    ensures var r := ApplyAll(m, EraseRun(offset, n));
      forall i :: 0 <= i < FLASH_SIZE ==>
        r[i] == if offset * SECTOR_SIZE <= i < (offset + n) * SECTOR_SIZE then BLANK_BYTE else m[i]
  {
    if n > 0 {
      EraseRunEffect(m, offset, n - 1);
      EraseRunStep(m, offset, n - 1);
    }
  }

  lemma AndBlank(d: byte)
    ensures BLANK_BYTE & d == d
  {
  }

  /** Programming blank cells stores exactly the data. */
  lemma ProgramEffect(m: Memory, a: nat, d: seq<byte>)
    requires a + |d| <= FLASH_SIZE && Blank(m, a, a + |d|)
    ensures var r := Apply(m, ProgramWord(a, d));
      forall i :: 0 <= i < FLASH_SIZE ==> r[i] == if a <= i < a + |d| then d[i - a] else m[i]
  {
    var r := Apply(m, ProgramWord(a, d));
    forall i | a <= i < a + |d| ensures r[i] == d[i - a] {
      AndBlank(d[i - a]);
    }
  }

  /** The cells from `dest` on hold the first `n` words of `src`; every other cell is as in `m`. */
  ghost predicate HoldsWords(m: Memory, r: Memory, src: seq<byte>, dest: nat, n: nat) {
    && 4 * n <= |src|
    && forall i :: 0 <= i < FLASH_SIZE ==> r[i] == if dest <= i < dest + 4 * n then src[i - dest] else m[i]
  }

  lemma WordRunNext(m: Memory, src: seq<byte>, dest: nat, n: nat)
    requires 4 * n + 4 <= |src| && dest + |src| <= FLASH_SIZE && Blank(m, dest, dest + |src|)
    requires HoldsWords(m, ApplyAll(m, WordRun(src, dest, n)), src, dest, n)
    ensures HoldsWords(m, ApplyAll(m, WordRun(src, dest, n + 1)), src, dest, n + 1)
  {
    hide Apply, ApplyAll, WordRun;
    var k := 4 * n;
    var d := src[k..k + 4];
    WordRunStep(m, src, dest, n);
    var before := ApplyAll(m, WordRun(src, dest, n));
    var after := ApplyAll(m, WordRun(src, dest, n + 1));
    assert Blank(before, dest + k, dest + k + 4);
    ProgramEffect(before, dest + k, d);
    forall i | 0 <= i < FLASH_SIZE
      ensures after[i] == if dest <= i < dest + k + 4 then src[i - dest] else m[i]
    {
      if dest + k <= i < dest + k + 4 {
        assert after[i] == d[i - (dest + k)];
      } else {
        assert after[i] == before[i];
      }
    }
  }

  /** A word run over blank cells, cut after `n` words: those words hold the source, the rest is untouched. */
  lemma {:induction false} WordRunEffect(m: Memory, src: seq<byte>, dest: nat, n: nat)
    requires 4 * n <= |src| && dest + |src| <= FLASH_SIZE && Blank(m, dest, dest + |src|)
    ensures HoldsWords(m, ApplyAll(m, WordRun(src, dest, n)), src, dest, n)
  {
    if n > 0 {
      hide *;
      WordRunEffect(m, src, dest, n - 1);
      WordRunNext(m, src, dest, n - 1);
    }
  }
}
