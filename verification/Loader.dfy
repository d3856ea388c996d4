/**
 * The run-time end of the integrity chain: the entry point that reads the save file into RAM
 * (`entrypoints/entry.S`), and the `start` function that clears the BSS and runs the integrity test
 * (`loader/secondary.c`, `loader/str.c`, `loader/integrity.c`).
 */
module Loader {
  import opened Bits
  import opened Crc
  import opened Storage

  const RAM_BASE: nat := 0x8000_0000
  const RAM_SIZE: nat := 0x20_0000

  /** The header buffer of the entry point, and the linker region right above it. */
  const HEADER_BUFFER: nat := 0x801F_A000
  const REGION_START: nat := 0x801F_A100
  const REGION_LENGTH: nat := 0x3F00

  /** What the linker script defines; `crcWord` is where `integrity_correct_crc` was placed. */
  datatype Symbols = Symbols(roStart: nat, crcStart: nat, crcWord: nat, bssStart: nat, bssEnd: nat)

  predicate InRam(address: nat, len: nat) {
    RAM_BASE <= address && address + len <= RAM_BASE + RAM_SIZE
  }

  /** Where an address lies in RAM: the top three bits select a segment. */
  function RamOffset(address: nat): nat {
    address % 0x2000_0000
  }

  /** A range in one of the three segments that show RAM: user, cached kernel and uncached kernel. */
  predicate InMirror(address: nat, len: nat) {
    var segment := address / 0x2000_0000;
    (segment == 0 || segment == 4 || segment == 5) && RamOffset(address) + len <= RAM_SIZE
  }

  /** RAM with bytes written through an address. */
  function Placed(ram: seq<Byte>, address: nat, bytes: seq<Byte>): seq<Byte> {
    if bytes == [] then ram else Overwrite(ram, RamOffset(address), bytes)
  }

  predicate SymbolsInRam(sym: Symbols) {
    && sym.roStart <= sym.crcStart && InRam(sym.roStart, sym.crcStart - sym.roStart)
    && InRam(sym.crcWord, 4)
    && sym.bssStart <= sym.bssEnd && InRam(sym.bssStart, sym.bssEnd - sym.bssStart)
  }

  /** The ranges asked for in figures: all of them in the 2 MB from 0x80000000 on. */
  lemma SymbolsInFigures(sym: Symbols)
    ensures SymbolsInRam(sym) <==>
      && 0x8000_0000 <= sym.roStart <= sym.crcStart <= 0x8020_0000
      && 0x8000_0000 <= sym.crcWord <= 0x801F_FFFC
      && 0x8000_0000 <= sym.bssStart <= sym.bssEnd <= 0x8020_0000
  {}

  /**
   * How the entry point ends: painting the screen red and locking up, the jump, or a read to addresses that do not
   * show the 2 MB of RAM, after which this model says nothing.
   */
  datatype Outcome = FatalError | OutsideRam | Jump(address: nat)

  const READ_FAILED: Word := 0xFFFF_FFFF

  /**
   * The count `FileRead` returns with `remaining` bytes left in the file. That a memory card is read in whole
   * 128-byte sectors is documented (loader/bios.h:398-410); that a bad length gives -1 and the end of the file a
   * short count is assumed.
   */
  function ReadCount(remaining: nat, len: Word): Word {
    if len % 0x80 != 0 then READ_FAILED else if remaining < len then remaining else len
  }

  /** Nothing is stored, or all of it to RAM. */
  predicate Storable(address: Word, count: Word) {
    count == READ_FAILED || count == 0 || InMirror(address, count)
  }

  function HeaderAddress(file: seq<Byte>): Word
    requires |file| >= 0x100
  {
    FromLittleEndian(file[0x40..0x44])
  }

  function HeaderLength(file: seq<Byte>): Word
    requires |file| >= 0x100
  {
    FromLittleEndian(file[0x44..0x48])
  }

  function EntryOutcome(file: seq<Byte>): Outcome {
    if |file| < 0x100 then FatalError
    else
      var count := ReadCount(|file| - 0x100, HeaderLength(file));
      if !Storable(HeaderAddress(file), count) then OutsideRam
      else if count != HeaderLength(file) then FatalError
      else Jump(HeaderAddress(file))
  }

  /** What is loaded before the jump: nothing when the length in the header equals the failure value. */
  function LoadedBytes(file: seq<Byte>): seq<Byte>
    requires EntryOutcome(file).Jump?
  {
    if HeaderLength(file) == READ_FAILED then [] else file[0x100..0x100 + HeaderLength(file)]
  }

  /** RAM at the jump: the header in its buffer, and what was loaded at the address the header asks for. */
  function EnteredRam(ram: seq<Byte>, file: seq<Byte>): seq<Byte>
    requires EntryOutcome(file).Jump?
  {
    Placed(Overwrite(ram, HEADER_BUFFER - RAM_BASE, file[..0x100]), HeaderAddress(file), LoadedBytes(file))
  }

  /** RAM in figures: 2 MB from 0, from 0x80000000 and from 0xA0000000. */
  lemma MirrorsInFigures(address: nat, len: nat)
    ensures InMirror(address, len) <==>
            || address + len <= 0x20_0000
            || (0x8000_0000 <= address && address + len <= 0x8020_0000)
            || (0xA000_0000 <= address && address + len <= 0xA020_0000)
  {
    var segment, offset := address / 0x2000_0000, address % 0x2000_0000;
    assert address == segment * 0x2000_0000 + offset;
  }

  /**
   * The entry point in figures. A file needs 256 bytes of header; of those, bytes 64 to 67 are the address and 68 to
   * 71 the length, which must be a multiple of 128 and covered by the rest of the file.
   */
  lemma {:induction false} EntryCases(file: seq<Byte>)
    ensures |file| < 256 ==> EntryOutcome(file) == FatalError
    ensures |file| >= 256 ==>
      var address, length, rest := Number(file, 64), Number(file, 68), |file| - 256;
      && (length == 0xFFFF_FFFF ==> EntryOutcome(file) == Jump(address))
      && (length != 0xFFFF_FFFF && length % 128 != 0 ==> EntryOutcome(file) == FatalError)
      && (length % 128 == 0 && length <= rest && (length == 0 || InMirror(address, length)) ==>
            EntryOutcome(file) == Jump(address))
      && (length % 128 == 0 && length <= rest && length != 0 && !InMirror(address, length) ==>
            EntryOutcome(file) == OutsideRam)
      && (length % 128 == 0 && rest < length ==>
            EntryOutcome(file) == if rest == 0 || InMirror(address, rest) then FatalError else OutsideRam)
  {
    hide InMirror;
    if |file| >= 256 {
      assert HeaderAddress(file) == Number(file, 64) && HeaderLength(file) == Number(file, 68);
    }
  }

  class Console {
    const ram: array<Byte>
    var integrityOk: bool

    constructor ()
      ensures fresh(this) && fresh(ram) && ram.Length == RAM_SIZE && !integrityOk
    {
      ram := new Byte[RAM_SIZE](_ => 0);
      integrityOk := false;
    }

    ghost predicate Valid()
      reads this
    {
      ram.Length == RAM_SIZE
    }

    /** The bytes of RAM at an address. */
    function Memory(address: nat, len: nat): (bytes: seq<Byte>)
      requires Valid() && InRam(address, len)
      reads this, ram
      ensures |bytes| == len
    {
      ram[address - RAM_BASE..address - RAM_BASE + len]
    }

    /** The CRC of everything before the CRC section is the word stored there. */
    ghost predicate Passes(sym: Symbols)
      requires Valid() && SymbolsInRam(sym)
      reads this, ram
    {
      Crc32(Memory(sym.roStart, sym.crcStart - sym.roStart)) == FromLittleEndian(Memory(sym.crcWord, 4))
    }

    /** `bzero` of `loader/str.c`. */
    method Bzero(address: nat, len: nat)
      requires Valid() && InRam(address, len)
      modifies ram
      ensures ram[..] == Overwrite(old(ram[..]), address - RAM_BASE, Zeros(len))
    {
      var bytes := address - RAM_BASE;
      var left := len;
      while left != 0
        invariant 0 <= left <= len && bytes + left == address - RAM_BASE + len
        invariant forall i :: 0 <= i < ram.Length ==>
          ram[i] == if address - RAM_BASE <= i < bytes then 0 else old(ram[i])
      {
        ram[bytes] := 0;
        bytes := bytes + 1;
        left := left - 1;
      }
      OverwriteFacts(old(ram[..]), address - RAM_BASE, Zeros(len));
    }

    /** `integrity_test`: the CRC of everything before the CRC section against the word stored there. */
    method IntegrityTest(sym: Symbols)
      requires Valid() && SymbolsInRam(sym)
      modifies `integrityOk
      ensures integrityOk <==> Passes(sym)
    {
      hide FromLittleEndian, Crc32;
      var calcValue := ComputeCrc32(ram, sym.roStart - RAM_BASE, sym.crcStart - sym.roStart);
      var stored := LoadWord(sym.crcWord);
      assert Memory(sym.crcWord, 4) == ram[..][sym.crcWord - RAM_BASE..sym.crcWord - RAM_BASE + 4];
      integrityOk := calcValue == stored;
    }

    /** `start`, up to the call of `main`: the BSS is cleared before the test runs. */
    method Start(sym: Symbols)
      requires Valid() && SymbolsInRam(sym)
      modifies `integrityOk, ram
      ensures ram[..] == Overwrite(old(ram[..]), sym.bssStart - RAM_BASE, Zeros(sym.bssEnd - sym.bssStart))
      ensures integrityOk <==> Passes(sym)
    {
      Bzero(sym.bssStart, sym.bssEnd - sym.bssStart);
      IntegrityTest(sym);
    }

    /** One `FileRead` at position `pos` of the open file into RAM. */
    method FileRead(file: seq<Byte>, pos: nat, address: Word, len: Word) returns (count: Word)
      requires Valid() && pos <= |file| && Storable(address, ReadCount(|file| - pos, len))
      modifies ram
      ensures count == ReadCount(|file| - pos, len)
      ensures count == READ_FAILED ==> ram[..] == old(ram[..])
      ensures count != READ_FAILED ==> ram[..] == Placed(old(ram[..]), address, file[pos..pos + count])
    {
      count := ReadCount(|file| - pos, len);
      if count == READ_FAILED || count == 0 {
        return;
      }
      var base := RamOffset(address);
      for k := 0 to count
        invariant forall i :: 0 <= i < ram.Length ==>
          ram[i] == if base <= i < base + k then file[pos + (i - base)] else old(ram[i])
      {
        ram[base + k] := file[pos + k];
      }
      OverwriteFacts(old(ram[..]), base, file[pos..pos + count]);
    }

    /** `lw` */
    method LoadWord(address: nat) returns (w: Word)
      requires Valid() && InRam(address, 4)
      ensures w == FromLittleEndian(ram[..][address - RAM_BASE..address - RAM_BASE + 4])
    {
      var at := address - RAM_BASE;
      assert ram[..][at..at + 4] == [ram[at], ram[at + 1], ram[at + 2], ram[at + 3]];
      w := FromLittleEndian([ram[at], ram[at + 1], ram[at + 2], ram[at + 3]]);
    }

    /**
     * The `FileRead` sequence of the entry point: the first 0x100 bytes go to a buffer, the load address and the
     * length are taken from offsets 0x40 and 0x44 of it, and that many bytes go to that address.
     */
    method EntryPoint(file: seq<Byte>) returns (outcome: Outcome)
      requires Valid()
      modifies ram
      ensures outcome == EntryOutcome(file)
      ensures outcome.Jump? ==> ram[..] == EnteredRam(old(ram[..]), file)
    {
      hide Overwrite, FromLittleEndian;
      var count := FileRead(file, 0, HEADER_BUFFER, 0x100);
      if count != 0x100 {
        return FatalError;
      }
      var size := LoadWord(HEADER_BUFFER + 0x44);
      var address := LoadWord(HEADER_BUFFER + 0x40);
      ReadBack(old(ram[..]), HEADER_BUFFER - RAM_BASE, file[..0x100], 0x40, 4);
      ReadBack(old(ram[..]), HEADER_BUFFER - RAM_BASE, file[..0x100], 0x44, 4);
      assert file[0..0x100] == file[..0x100] && file[..0x100][0x40..0x44] == file[0x40..0x44];
      assert file[..0x100][0x44..0x48] == file[0x44..0x48];
      if !Storable(address, ReadCount(|file| - 0x100, size)) {
        return OutsideRam;
      }
      count := FileRead(file, 0x100, address, size);
      if count != size {
        return FatalError;
      }
      return Jump(address);
    }
  }

  // ---------- The save file as the entry point sees it ----------
}
