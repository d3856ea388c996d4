/**
 * The whole integrity chain: what the build scripts put into a save file is what the entry point loads and the
 * integrity test accepts, and what no short burst error gets past.
 */
module Integrity {
  import opened Bits
  import opened Crc
  import opened Residue
  import opened Burst
  import opened Storage
  import opened Loader
  import opened BuildChain

  // ---------- What the test accepts ----------

  /** The verdict of `integrity_test` on an image and the word stored after it. */
  predicate Accepted(image: seq<Byte>, field: seq<Byte>)
    requires |field| == 4
  {
    Crc32(image) == FromLittleEndian(field)
  }

  lemma SplitBack(s: seq<Byte>, t: seq<Byte>)
    ensures (s + t)[..|s|] == s && (s + t)[|s|..] == t
  {}

  /** An accepted image altered within 32 consecutive bits, the stored CRC included, is rejected. */
  lemma {:induction false} BurstRejected(image: seq<Byte>, field: seq<Byte>, image': seq<Byte>, field': seq<Byte>, start: nat)
    requires |image| == |image'| && |field| == |field'| == 4
    requires Accepted(image, field)
    requires DifferWithin(image + field, image' + field', start, 32) && (image, field) != (image', field')
    ensures !Accepted(image', field')
  {
    hide Crc32, FromLittleEndian, DifferWithin, FixedResidue;
    ResidueIffOwnCrc(image, field);
    ResidueIffOwnCrc(image', field');
    SplitBack(image, field);
    SplitBack(image', field');
    BurstDetected(image + field, image' + field', start);
  }

  // ---------- Where the linker puts things ----------

  /** The addresses the linker script gives to an image of `n` bytes. */
  function SymbolsFor(n: nat, bssStart: nat, bssEnd: nat): Symbols {
    Symbols(REGION_START, REGION_START + n, REGION_START + n + Gap(n), bssStart, bssEnd)
  }

  /** The sections follow each other in the region the linker script declares. */
  predicate FitsRegion(elf: Elf, bssStart: nat, bssEnd: nat) {
    && ElfOk(elf) && elf.roStart == REGION_START
    && SymbolsFor(|elf.image|, bssStart, bssEnd).crcWord + 4 <= bssStart <= bssEnd <= REGION_START + REGION_LENGTH
  }

  /** What fits, in figures: the image from 0x801FA100 on, the CRC on the next word, and the BSS up to 0x801FE000. */
  lemma FitsInFigures(elf: Elf, bssStart: nat, bssEnd: nat)
    ensures FitsRegion(elf, bssStart, bssEnd) <==>
      && |elf.crc| == 4 && elf.roStart == 0x801F_A100
      && 0x801F_A100 + (|elf.image| + 3) / 4 * 4 + 4 <= bssStart <= bssEnd <= 0x801F_E000
  {
    assert |elf.image| + Gap(|elf.image|) == (|elf.image| + 3) / 4 * 4;
  }

  lemma PaddedBinaryFits(elf: Elf, bssStart: nat, bssEnd: nat)
    requires FitsRegion(elf, bssStart, bssEnd)
    ensures |PaddedBinary(elf)| % 0x80 == 0 && |elf.image| + Gap(|elf.image|) + 4 <= |PaddedBinary(elf)| <= REGION_LENGTH
  {
    assert REGION_LENGTH == 126 * 0x80;
  }

  lemma BinaryParts(elf: Elf)
    requires ElfOk(elf)
    ensures var n, g := |elf.image|, Gap(|elf.image|);
      && |PaddedBinary(elf)| >= n + g + 4
      && PaddedBinary(elf)[0..n] == elf.image && PaddedBinary(elf)[n + g..n + g + 4] == elf.crc
  {}

  // ---------- Altered binaries ----------

  /** A loaded binary for an image of `n` bytes: the image, filler, the word after it, and padding. */
  predicate BinaryFits(binary: seq<Byte>, n: nat, bssStart: nat, bssEnd: nat) {
    && n + Gap(n) + 4 <= |binary| <= REGION_LENGTH && |binary| % 0x80 == 0
    && REGION_START + n + Gap(n) + 4 <= bssStart <= bssEnd <= REGION_START + REGION_LENGTH
  }

  /** What the test looks at: the image and the word after the filler. */
  function Covered(binary: seq<Byte>, n: nat): (c: (seq<Byte>, seq<Byte>))
    requires n + Gap(n) + 4 <= |binary|
    ensures |c.0| == n && |c.1| == 4
  {
    (binary[..n], binary[n + Gap(n)..n + Gap(n) + 4])
  }

  predicate BinaryAccepted(binary: seq<Byte>, n: nat)
    requires n + Gap(n) + 4 <= |binary|
  {
    Accepted(Covered(binary, n).0, Covered(binary, n).1)
  }

  lemma {:induction false} BitAt(s: seq<Byte>, k: nat)
    requires k < 8 * |s|
    ensures MessageBits(s)[k] == Bit(s[k / 8], k % 8)
  {
    MessageBitsIndex(s, k / 8, k % 8);
  }

  /** A bit of what the test looks at, as a bit of the binary. */
  lemma {:induction false} BitWithoutFiller(a: seq<Byte>, n: nat, j: nat)
    requires n + Gap(n) + 4 <= |a| && j < 8 * (n + 4)
    ensures MessageBits(Covered(a, n).0 + Covered(a, n).1)[j] == MessageBits(a)[if j < 8 * n then j else j + 8 * Gap(n)]
  {
    hide Bit, MessageBits, Gap;
    var k := if j < 8 * n then j else j + 8 * Gap(n);
    var u := Covered(a, n).0 + Covered(a, n).1;
    BitAt(u, j);
    BitAt(a, k);
    assert u[j / 8] == a[k / 8] && j % 8 == k % 8;
  }

  /** Taking the filler out moves later bits up and keeps a burst a burst. */
  lemma {:induction false} BurstWithoutFiller(a: seq<Byte>, b: seq<Byte>, n: nat, start: nat) returns (start': nat)
    requires n + Gap(n) + 4 <= |a| && DifferWithin(a, b, start, 32)
    ensures |a| == |b| && DifferWithin(Covered(a, n).0 + Covered(a, n).1, Covered(b, n).0 + Covered(b, n).1, start', 32)
  {
    hide Bit, MessageBits, Gap;
    var g := Gap(n);
    start' := if start <= 8 * n then start else if start < 8 * (n + g) then 8 * n else start - 8 * g;
    var u, v := Covered(a, n).0 + Covered(a, n).1, Covered(b, n).0 + Covered(b, n).1;
    forall j | 0 <= j < 8 * (n + 4) && !(start' <= j < start' + 32) ensures MessageBits(u)[j] == MessageBits(v)[j] {
      var k := if j < 8 * n then j else j + 8 * g;
      assert MessageBits(a)[k] == MessageBits(b)[k] by {
        assert !(start <= k < start + 32);
      }
      BitWithoutFiller(a, n, j);
      BitWithoutFiller(b, n, j);
    }
  }

  lemma SameLength(a: seq<Byte>, b: seq<Byte>, start: nat)
    requires DifferWithin(a, b, start, 32)
    ensures |a| == |b|
  {}

  /** A binary altered within 32 consecutive bits is rejected, unless only filler or padding was hit. */
  lemma {:induction false} BurstInBinaryRejected(a: seq<Byte>, b: seq<Byte>, n: nat, start: nat)
    requires n + Gap(n) + 4 <= |a| && DifferWithin(a, b, start, 32)
    requires BinaryAccepted(a, n)
    ensures |a| == |b| && (BinaryAccepted(b, n) <==> Covered(a, n) == Covered(b, n))
  {
    hide Accepted, DifferWithin, Gap;
    assert |a| == |b| by { SameLength(a, b, start); }
    if Covered(a, n) != Covered(b, n) {
      var start' := BurstWithoutFiller(a, b, n, start);
      BurstRejected(Covered(a, n).0, Covered(a, n).1, Covered(b, n).0, Covered(b, n).1, start');
    }
  }

  lemma {:induction false} SameByteBits(x: Byte, y: Byte)
    requires forall j :: 0 <= j < 8 ==> Bit(x, j) == Bit(y, j)
    ensures x == y
  {
    hide Bit, BitsOf, Pack;
    Pow2Values();
    forall j | 0 <= j < 8 ensures BitsOf(x, 8)[j] == BitsOf(y, 8)[j] {
      BitsOfIndex(x, 8, j);
      BitsOfIndex(y, 8, j);
    }
    assert BitsOf(x, 8) == BitsOf(y, 8);
    PackBitsOf(x, 8);
    PackBitsOf(y, 8);
  }

  /** A byte the burst does not reach is the same. */
  lemma {:induction false} SpareByte(a: seq<Byte>, b: seq<Byte>, start: nat, i: nat)
    requires DifferWithin(a, b, start, 32) && i < |a| && (8 * i + 8 <= start || start + 32 <= 8 * i)
    ensures |a| == |b| && a[i] == b[i]
  {
    hide Bit, MessageBits;
    forall j | 0 <= j < 8 ensures Bit(a[i], j) == Bit(b[i], j) {
      MessageBitsIndex(a, i, j);
      MessageBitsIndex(b, i, j);
      assert MessageBits(a)[8 * i + j] == MessageBits(b)[8 * i + j];
    }
    SameByteBits(a[i], b[i]);
  }

  lemma {:induction false} BitOfSlice(a: seq<Byte>, from: nat, len: nat, k: nat)
    requires from + len <= |a| && k < 8 * len
    ensures MessageBits(a[from..from + len])[k] == MessageBits(a)[8 * from + k]
  {
    hide Bit, MessageBits;
    BitAt(a[from..from + len], k);
    BitAt(a, 8 * from + k);
    assert (8 * from + k) / 8 == from + k / 8 && (8 * from + k) % 8 == k % 8;
  }

  /** A burst, as seen in a part of what it hit, is a burst. */
  lemma {:induction false} BurstInSlice(a: seq<Byte>, b: seq<Byte>, start: nat, from: nat, len: nat) returns (start': nat)
    requires DifferWithin(a, b, start, 32) && from + len <= |a|
    ensures |a| == |b| && DifferWithin(a[from..from + len], b[from..from + len], start', 32)
  {
    hide MessageBits;
    start' := if start < 8 * from then 0 else start - 8 * from;
    var u, v := MessageBits(a[from..from + len]), MessageBits(b[from..from + len]);
    forall k | 0 <= k < 8 * len && !(start' <= k < start' + 32) ensures u[k] == v[k] {
      BitOfSlice(a, from, len, k);
      BitOfSlice(b, from, len, k);
      assert MessageBits(a)[8 * from + k] == MessageBits(b)[8 * from + k];
    }
  }

  // ---------- From the save file to RAM ----------

  /** A raw save that asks for this binary, whole sectors that fit the region, to be loaded at its start. */
  predicate Carries(raw: seq<Byte>, binary: seq<Byte>) {
    && 0 < |binary| <= REGION_LENGTH && |binary| % 0x80 == 0
    && |raw| >= 0x100 + |binary|
    && raw[0x40..0x44] == ToLittleEndian(REGION_START)
    && raw[0x44..0x48] == ToLittleEndian(|binary|)
    && raw[0x100..0x100 + |binary|] == binary
  }

  /** The raw save carries the load address, the length and the padded binary where the entry point looks. */
  lemma {:induction false} RawSaveFields(template: seq<Byte>, title: seq<Byte>, elf: Elf)
    requires |PaddedBinary(elf)| < 0x1_0000_0000
    ensures var raw := Mcs2Raw(SaveFile(template, title, elf));
            var binary := PaddedBinary(elf);
      && |raw| >= 0x100 + |binary|
      && raw[0x40..0x44] == ToLittleEndian(elf.roStart)
      && raw[0x44..0x48] == ToLittleEndian(|binary|)
      && raw[0x100..0x100 + |binary|] == binary
  {
    hide Overwrite, PaddedBinary;
    var binary, header := PaddedBinary(elf), HeaderFields(elf);
    var titled := Overwrite(template, 132, title);
    var filled := Overwrite(titled, 384, binary);
    var save := Overwrite(filled, 192, header);
    var raw := Mcs2Raw(save);
    OverwriteFacts(titled, 384, binary);
    ReadElsewhere(filled, 192, header, 384, 384 + |binary|);
    ReadBack(filled, 192, header, 0, 4);
    ReadBack(filled, 192, header, 4, 4);
    assert raw[0x40..0x44] == save[192..196] && raw[0x44..0x48] == save[196..200];
    assert raw[0x100..0x100 + |binary|] == save[384..384 + |binary|];
  }

  /** The template shipped with the loader is exactly as long as the largest program needs. */
  lemma SaveFileKeepsLength(template: seq<Byte>, title: seq<Byte>, elf: Elf, bssStart: nat, bssEnd: nat)
    requires FitsRegion(elf, bssStart, bssEnd)
    requires |template| == 16512 && 132 + |title| <= |template|
    ensures |SaveFile(template, title, elf)| == |template|
  {
    PaddedBinaryFits(elf, bssStart, bssEnd);
  }

  /** The entry point accepts a raw save that carries a binary no larger than the region, and loads that binary. */
  lemma {:induction false} CarriedBoots(raw: seq<Byte>, binary: seq<Byte>)
    requires Carries(raw, binary)
    ensures EntryOutcome(raw) == Jump(REGION_START) && HeaderAddress(raw) == REGION_START && LoadedBytes(raw) == binary
  {
    hide FromLittleEndian, ToLittleEndian;
    LittleEndianRoundTrip(REGION_START);
    LittleEndianRoundTrip(|binary|);
  }

  /** The entry point accepts the raw save and jumps to the start of the region. */
  lemma {:induction false} RawSaveBoots(template: seq<Byte>, title: seq<Byte>, elf: Elf, bssStart: nat, bssEnd: nat)
    requires FitsRegion(elf, bssStart, bssEnd)
    ensures |PaddedBinary(elf)| <= REGION_LENGTH
    ensures Carries(Mcs2Raw(SaveFile(template, title, elf)), PaddedBinary(elf))
    ensures EntryOutcome(Mcs2Raw(SaveFile(template, title, elf))) == Jump(REGION_START)
  {
    hide SaveFile, PaddedBinary, FromLittleEndian, ToLittleEndian, Gap;
    PaddedBinaryFits(elf, bssStart, bssEnd);
    RawSaveFields(template, title, elf);
    CarriedBoots(Mcs2Raw(SaveFile(template, title, elf)), PaddedBinary(elf));
  }

  /** The template once the title is in, filled up with zeros to where the binary goes. */
  function Titled(template: seq<Byte>, title: seq<Byte>): (s: seq<Byte>)
    ensures |s| >= 384
  {
    Overwrite(Overwrite(template, 132, title), 384, [])
  }

  /** Under any other output name the header lands in another file, and the save keeps the template's own fields. */
  lemma {:induction false} OtherNameKeepsTemplateHeader(template: seq<Byte>, title: seq<Byte>, elf: Elf)
    ensures var raw := Mcs2Raw(FilledTemplate(template, title, elf));
            |raw| >= 0x100 && raw[0x40..0x48] == Titled(template, title)[192..200]
    ensures |Mcs2Raw(FilledTemplate(template, title, elf))| ==
            Max(Max(|template|, 132 + |title|), 384 + |PaddedBinary(elf)|) - 0x80
    ensures |template| >= 384 && 132 + |title| <= 192 ==> Titled(template, title)[192..200] == template[192..200]
  {
    hide PaddedBinary;
    var binary, titled := PaddedBinary(elf), Overwrite(template, 132, title);
    var filled, fields := FilledTemplate(template, title, elf), Titled(template, title);
    OverwriteFacts(titled, 384, binary);
    OverwriteFacts(titled, 384, []);
    OverwriteFacts(template, 132, title);
    hide Overwrite;
    assert Mcs2Raw(filled)[0x40..0x48] == filled[192..200];
    assert forall i :: 192 <= i < 200 ==> filled[i] == fields[i];
  }

  /**
   * Such a save boots exactly when the template itself asks for the start of the region and for a length the entry
   * point can read: whole sectors, no more than the file and RAM hold, or the value of a failed read.
   */
  lemma {:induction false} OtherNameBootsIff(template: seq<Byte>, title: seq<Byte>, elf: Elf)
    ensures var raw, fields := Mcs2Raw(FilledTemplate(template, title, elf)), Titled(template, title);
            var address, length := FromLittleEndian(fields[192..196]), FromLittleEndian(fields[196..200]);
      && |raw| >= 0x100
      && (EntryOutcome(raw) == Jump(REGION_START) <==>
          && address == REGION_START
          && (length == READ_FAILED ||
              (length % 0x80 == 0 && length <= |raw| - 0x100 && length <= RAM_BASE + RAM_SIZE - REGION_START)))
  {
    hide FilledTemplate, Titled, FromLittleEndian, Mcs2Raw;
    OtherNameKeepsTemplateHeader(template, title, elf);
    var raw, fields := Mcs2Raw(FilledTemplate(template, title, elf)), Titled(template, title);
    assert raw[0x40..0x44] == raw[0x40..0x48][..4] == fields[192..196];
    assert raw[0x44..0x48] == raw[0x40..0x48][4..] == fields[196..200];
  }

  /** With the shipped template, which holds the letters ADDRSIZE where the fields go, no other name gives a save that loads: the entry point always paints the screen red. */
  lemma {:induction false} OtherNameNeverBoots(template: seq<Byte>, title: seq<Byte>, elf: Elf)
    requires |template| == 16512 && 132 + |title| <= 192
    requires template[192..200] == [65, 68, 68, 82, 83, 73, 90, 69]
    ensures EntryOutcome(Mcs2Raw(FilledTemplate(template, title, elf))) == FatalError
  {
    hide FilledTemplate, Titled, Mcs2Raw;
    OtherNameKeepsTemplateHeader(template, title, elf);
    var raw := Mcs2Raw(FilledTemplate(template, title, elf));
    assert raw[0x44..0x48] == raw[0x40..0x48][4..] == template[192..200][4..] == [0x53, 0x49, 0x5A, 0x45];
    assert HeaderLength(raw) == 0x455A_4953;
  }

  // ---------- From RAM to the verdict ----------

  /** RAM once the header and the binary have been read and the BSS has been cleared. */
  function LoadedRam(ram: seq<Byte>, header: seq<Byte>, binary: seq<Byte>, bssStart: nat, bssEnd: nat): seq<Byte>
    requires RAM_BASE <= bssStart <= bssEnd
  {
    Overwrite(Overwrite(Overwrite(ram, HEADER_BUFFER - RAM_BASE, header), REGION_START - RAM_BASE, binary),
              bssStart - RAM_BASE, Zeros(bssEnd - bssStart))
  }

  /** Loading a binary and clearing the BSS leaves what the test looks at where it looks for it. */
  lemma {:induction false} LoadedRamHoldsBinary(ram: seq<Byte>, header: seq<Byte>, binary: seq<Byte>, n: nat,
                                                bssStart: nat, bssEnd: nat)
    requires BinaryFits(binary, n, bssStart, bssEnd) && |ram| == RAM_SIZE && |header| == 0x100
    ensures var r := LoadedRam(ram, header, binary, bssStart, bssEnd);
            var base := REGION_START - RAM_BASE;
      && |r| == RAM_SIZE
      && (r[base..base + n], r[base + n + Gap(n)..base + n + Gap(n) + 4]) == Covered(binary, n)
  {
    hide Overwrite, Gap;
    var g, base := Gap(n), REGION_START - RAM_BASE;
    var r1 := Overwrite(ram, HEADER_BUFFER - RAM_BASE, header);
    var r2 := Overwrite(r1, base, binary);
    var zeros := Zeros(bssEnd - bssStart);
    ReadBack(r1, base, binary, 0, n);
    ReadBack(r1, base, binary, n + g, 4);
    ReadElsewhere(r2, bssStart - RAM_BASE, zeros, base, base + n);
    ReadElsewhere(r2, bssStart - RAM_BASE, zeros, base + n + g, base + n + g + 4);
  }

  lemma CoveredOfPadded(elf: Elf, bssStart: nat, bssEnd: nat)
    requires FitsRegion(elf, bssStart, bssEnd)
    ensures BinaryFits(PaddedBinary(elf), |elf.image|, bssStart, bssEnd)
    ensures Covered(PaddedBinary(elf), |elf.image|) == (elf.image, elf.crc)
  {
    PaddedBinaryFits(elf, bssStart, bssEnd);
    BinaryParts(elf);
    hide PaddedBinary, Gap;
  }

  /** Nothing below the header buffer or above the region changes. */
  lemma {:induction false} LoadedRamElsewhere(ram: seq<Byte>, header: seq<Byte>, binary: seq<Byte>, n: nat,
                                              bssStart: nat, bssEnd: nat, i: nat)
    requires BinaryFits(binary, n, bssStart, bssEnd) && |ram| == RAM_SIZE && |header| == 0x100
    requires i < RAM_SIZE && !(HEADER_BUFFER <= RAM_BASE + i < REGION_START + REGION_LENGTH)
    ensures |LoadedRam(ram, header, binary, bssStart, bssEnd)| == RAM_SIZE
    ensures LoadedRam(ram, header, binary, bssStart, bssEnd)[i] == ram[i]
  {
    hide Overwrite, Gap;
    var r1 := Overwrite(ram, HEADER_BUFFER - RAM_BASE, header);
    var r2 := Overwrite(r1, REGION_START - RAM_BASE, binary);
    OverwriteFacts(ram, HEADER_BUFFER - RAM_BASE, header);
    OverwriteFacts(r1, REGION_START - RAM_BASE, binary);
    OverwriteFacts(r2, bssStart - RAM_BASE, Zeros(bssEnd - bssStart));
  }

  lemma SymbolsInside(binary: seq<Byte>, n: nat, bssStart: nat, bssEnd: nat)
    requires BinaryFits(binary, n, bssStart, bssEnd)
    ensures SymbolsInRam(SymbolsFor(n, bssStart, bssEnd)) && RAM_BASE <= bssStart <= bssEnd
  {
    hide Gap;
  }

  /** The verdict, as a matter of what RAM holds. */
  lemma PassesOnRam(console: Console, r: seq<Byte>, sym: Symbols)
    requires console.Valid() && SymbolsInRam(sym) && r == console.ram[..]
    ensures console.Passes(sym) <==>
            Accepted(r[sym.roStart - RAM_BASE..sym.crcStart - RAM_BASE], r[sym.crcWord - RAM_BASE..sym.crcWord - RAM_BASE + 4])
  {
    hide Crc32, FromLittleEndian;
    assert console.Memory(sym.roStart, sym.crcStart - sym.roStart) == r[sym.roStart - RAM_BASE..sym.crcStart - RAM_BASE];
    assert console.Memory(sym.crcWord, 4) == r[sym.crcWord - RAM_BASE..sym.crcWord - RAM_BASE + 4];
  }

  lemma LoadedInSteps(ram: seq<Byte>, raw: seq<Byte>, binary: seq<Byte>, sym: Symbols)
    requires Carries(raw, binary) && SymbolsInRam(sym)
    ensures |raw| >= 0x100 && EntryOutcome(raw) == Jump(REGION_START)
    ensures Overwrite(EnteredRam(ram, raw), sym.bssStart - RAM_BASE, Zeros(sym.bssEnd - sym.bssStart)) ==
            LoadedRam(ram, raw[..0x100], binary, sym.bssStart, sym.bssEnd)
  {
    hide Overwrite, EntryOutcome, LoadedBytes, HeaderAddress, FromLittleEndian, ToLittleEndian;
    CarriedBoots(raw, binary);
  }

  /** The entry point loads a binary and jumps to it, and `start` gives its verdict on what RAM then holds. */
  method EnterAndStart(console: Console, raw: seq<Byte>, ghost binary: seq<Byte>, sym: Symbols)
    returns (outcome: Outcome)
    requires Carries(raw, binary) && console.Valid() && SymbolsInRam(sym)
    modifies console`integrityOk, console.ram
    ensures |raw| >= 0x100 && outcome == Jump(REGION_START)
    ensures console.ram[..] == LoadedRam(old(console.ram[..]), raw[..0x100], binary, sym.bssStart, sym.bssEnd)
    ensures console.integrityOk <==> console.Passes(sym)
  {
    hide *;
    LoadedInSteps(console.ram[..], raw, binary, sym);
    outcome := console.EntryPoint(raw);
    console.Start(sym);
  }

  /** The run-time half, for any binary, intact or not: it is loaded and jumped to, and the test judges what it covers. */
  method LoadBinary(console: Console, raw: seq<Byte>, ghost binary: seq<Byte>, n: nat, bssStart: nat, bssEnd: nat)
    returns (outcome: Outcome)
    requires BinaryFits(binary, n, bssStart, bssEnd) && Carries(raw, binary) && console.Valid()
    modifies console`integrityOk, console.ram
    ensures outcome == Jump(REGION_START) && (console.integrityOk <==> BinaryAccepted(binary, n))
    ensures console.ram[..] == LoadedRam(old(console.ram[..]), raw[..0x100], binary, bssStart, bssEnd)
  {
    hide Overwrite, Gap, Carries, LoadedRam, Accepted, SymbolsInRam;
    var sym := SymbolsFor(n, bssStart, bssEnd);
    SymbolsInside(binary, n, bssStart, bssEnd);
    ghost var ram0 := console.ram[..];
    outcome := EnterAndStart(console, raw, binary, sym);
    LoadedRamHoldsBinary(ram0, raw[..0x100], binary, n, bssStart, bssEnd);
    PassesOnRam(console, console.ram[..], sym);
  }

  /** A raw save the scripts made loads, and passes the test exactly when the program carries its own CRC. */
  method LoadAndTest(console: Console, raw: seq<Byte>, elf: Elf, ghost template: seq<Byte>, ghost title: seq<Byte>,
                     bssStart: nat, bssEnd: nat)
    returns (outcome: Outcome)
    requires FitsRegion(elf, bssStart, bssEnd) && |PaddedBinary(elf)| < 0x1_0000_0000
    requires raw == Mcs2Raw(SaveFile(template, title, elf)) && console.Valid()
    modifies console`integrityOk, console.ram
    ensures outcome == Jump(REGION_START) && (console.integrityOk <==> Accepted(elf.image, elf.crc))
    ensures |raw| >= 0x100
    ensures console.ram[..] == LoadedRam(old(console.ram[..]), raw[..0x100], PaddedBinary(elf), bssStart, bssEnd)
  {
    RawSaveBoots(template, title, elf, bssStart, bssEnd);
    CoveredOfPadded(elf, bssStart, bssEnd);
    hide SaveFile, PaddedBinary, Gap, Crc32, Mcs2Raw, FromLittleEndian, BinaryFits, Covered;
    outcome := LoadBinary(console, raw, PaddedBinary(elf), |elf.image|, bssStart, bssEnd);
  }

  /**
   * The rejecting half: a save like one that is accepted, but for a burst of at most 32 bits in what is loaded, still
   * loads and is still jumped to; the test then fails exactly when the burst reached the image or the stored CRC.
   */
  method LoadAltered(console: Console, raw: seq<Byte>, ghost altered: seq<Byte>, ghost start: nat, elf: Elf,
                     bssStart: nat, bssEnd: nat)
    returns (outcome: Outcome)
    requires FitsRegion(elf, bssStart, bssEnd) && Accepted(elf.image, elf.crc)
    requires Carries(raw, altered) && DifferWithin(PaddedBinary(elf), altered, start, 32)
    requires console.Valid()
    modifies console`integrityOk, console.ram
    ensures outcome == Jump(REGION_START)
    ensures |elf.image| + Gap(|elf.image|) + 4 <= |altered|
    ensures console.integrityOk <==> Covered(altered, |elf.image|) == (elf.image, elf.crc)
  {
    CoveredOfPadded(elf, bssStart, bssEnd);
    SameLength(PaddedBinary(elf), altered, start);
    BurstInBinaryRejected(PaddedBinary(elf), altered, |elf.image|, start);
    hide PaddedBinary, Gap, Crc32, FromLittleEndian, Covered, DifferWithin;
    outcome := LoadBinary(console, raw, altered, |elf.image|, bssStart, bssEnd);
  }

  // ---------- Any save ----------

  /** The region after the load: the bytes the entry point read over what it held. */
  function RegionAfter(ram: seq<Byte>, raw: seq<Byte>): (r: seq<Byte>)
    requires |ram| == RAM_SIZE && EntryOutcome(raw) == Jump(REGION_START)
    ensures |r| >= REGION_LENGTH
  {
    Overwrite(ram[REGION_START - RAM_BASE..REGION_START - RAM_BASE + REGION_LENGTH], 0, LoadedBytes(raw))
  }

  predicate Placement(n: nat, bssStart: nat, bssEnd: nat) {
    REGION_START + n + Gap(n) + 4 <= bssStart <= bssEnd <= REGION_START + REGION_LENGTH
  }

  lemma {:induction false} JumpStores(raw: seq<Byte>)
    requires EntryOutcome(raw) == Jump(REGION_START)
    ensures |raw| >= 0x100 && HeaderAddress(raw) == REGION_START && RamOffset(REGION_START) == REGION_START - RAM_BASE
    ensures RamOffset(REGION_START) + |LoadedBytes(raw)| <= RAM_SIZE
  {
    hide FromLittleEndian;
  }

  /** Where the test looks, RAM holds the region after the load. */
  lemma {:induction false} TestedInRam(ram: seq<Byte>, raw: seq<Byte>, n: nat, bssStart: nat, bssEnd: nat)
    requires |ram| == RAM_SIZE && EntryOutcome(raw) == Jump(REGION_START) && Placement(n, bssStart, bssEnd)
    ensures var r := Overwrite(EnteredRam(ram, raw), bssStart - RAM_BASE, Zeros(bssEnd - bssStart));
            var base := REGION_START - RAM_BASE;
      && |r| == RAM_SIZE
      && (r[base..base + n], r[base + n + Gap(n)..base + n + Gap(n) + 4]) == Covered(RegionAfter(ram, raw), n)
  {
    hide Overwrite, EntryOutcome, LoadedBytes, HeaderAddress, Gap, RamOffset;
    JumpStores(raw);
    var base, loaded := REGION_START - RAM_BASE, LoadedBytes(raw);
    var r1 := Overwrite(ram, HEADER_BUFFER - RAM_BASE, raw[..0x100]);
    var r2 := Placed(r1, REGION_START, loaded);
    var zeros := Zeros(bssEnd - bssStart);
    var region := ram[base..base + REGION_LENGTH];
    OverwriteFacts(ram, HEADER_BUFFER - RAM_BASE, raw[..0x100]);
    OverwriteFacts(r1, base, loaded);
    OverwriteFacts(r2, bssStart - RAM_BASE, zeros);
    OverwriteFacts(region, 0, loaded);
    var r, after := Overwrite(r2, bssStart - RAM_BASE, zeros), RegionAfter(ram, raw);
    forall i | 0 <= i < n + Gap(n) + 4 ensures r[base + i] == after[i] {
      assert r[base + i] == r2[base + i];
    }
    assert r[base..base + n] == after[..n];
    assert r[base + n + Gap(n)..base + n + Gap(n) + 4] == after[n + Gap(n)..n + Gap(n) + 4];
  }

  /** When the load reaches past the CRC word, the test looks at nothing but what was loaded. */
  lemma {:induction false} CoveredByLoad(ram: seq<Byte>, raw: seq<Byte>, n: nat)
    requires |ram| == RAM_SIZE && EntryOutcome(raw) == Jump(REGION_START)
    requires n + Gap(n) + 4 <= |LoadedBytes(raw)| && n + Gap(n) + 4 <= REGION_LENGTH
    ensures Covered(RegionAfter(ram, raw), n) == Covered(LoadedBytes(raw), n)
  {
    hide Overwrite, EntryOutcome, LoadedBytes, Gap;
    var loaded := LoadedBytes(raw);
    OverwriteFacts(ram[REGION_START - RAM_BASE..REGION_START - RAM_BASE + REGION_LENGTH], 0, loaded);
    var after := RegionAfter(ram, raw);
    assert after[..n] == loaded[..n];
    assert after[n + Gap(n)..n + Gap(n) + 4] == loaded[n + Gap(n)..n + Gap(n) + 4];
  }

  lemma PlacementInside(n: nat, bssStart: nat, bssEnd: nat)
    requires Placement(n, bssStart, bssEnd)
    ensures SymbolsInRam(SymbolsFor(n, bssStart, bssEnd))
    ensures n + Gap(n) + 4 <= REGION_LENGTH
  {
    hide Gap;
  }

  /** The entry point, then `start` if that is where it jumps: any raw save, and a program of `n` bytes. */
  method LoadSave(console: Console, raw: seq<Byte>, n: nat, bssStart: nat, bssEnd: nat) returns (outcome: Outcome)
    requires Placement(n, bssStart, bssEnd) && n + Gap(n) + 4 <= REGION_LENGTH && console.Valid()
    modifies console`integrityOk, console.ram
    ensures outcome == EntryOutcome(raw)
    ensures outcome != Jump(REGION_START) ==> console.integrityOk == old(console.integrityOk)
    ensures outcome == Jump(REGION_START) ==>
              (console.integrityOk <==> BinaryAccepted(RegionAfter(old(console.ram[..]), raw), n))
  {
    hide Placement, Gap, SymbolsInRam, EntryOutcome, EnteredRam, Overwrite, RegionAfter, Accepted, LoadedBytes, Zeros;
    PlacementInside(n, bssStart, bssEnd);
    ghost var ram0 := console.ram[..];
    outcome := console.EntryPoint(raw);
    if outcome == Jump(REGION_START) {
      var sym := SymbolsFor(n, bssStart, bssEnd);
      console.Start(sym);
      TestedInRam(ram0, raw, n, bssStart, bssEnd);
      PassesOnRam(console, console.ram[..], sym);
    }
  }

  /** Under any output name the binary itself lies behind the header. */
  lemma {:induction false} OtherNameHoldsBinary(template: seq<Byte>, title: seq<Byte>, elf: Elf)
    ensures var raw, binary := Mcs2Raw(FilledTemplate(template, title, elf)), PaddedBinary(elf);
            |raw| >= 0x100 + |binary| && raw[0x100..0x100 + |binary|] == binary
  {
    hide Overwrite, PaddedBinary;
    var binary, titled := PaddedBinary(elf), Overwrite(template, 132, title);
    OverwriteFacts(titled, 384, binary);
    var filled := FilledTemplate(template, title, elf);
    assert Mcs2Raw(filled)[0x100..0x100 + |binary|] == filled[384..384 + |binary|];
  }

  /** What is loaded covers the program like the binary does, once it is long enough. */
  lemma {:induction false} CoveredUnderOtherName(template: seq<Byte>, title: seq<Byte>, elf: Elf, bssStart: nat, bssEnd: nat)
    requires FitsRegion(elf, bssStart, bssEnd)
    requires EntryOutcome(Mcs2Raw(FilledTemplate(template, title, elf))).Jump?
    requires |elf.image| + Gap(|elf.image|) + 4 <= |LoadedBytes(Mcs2Raw(FilledTemplate(template, title, elf)))|
    ensures Covered(LoadedBytes(Mcs2Raw(FilledTemplate(template, title, elf))), |elf.image|) == (elf.image, elf.crc)
  {
    hide Overwrite, PaddedBinary, FilledTemplate, Gap, Mcs2Raw, FromLittleEndian, HeaderAddress, HeaderLength;
    OtherNameHoldsBinary(template, title, elf);
    CoveredOfPadded(elf, bssStart, bssEnd);
    var raw, binary := Mcs2Raw(FilledTemplate(template, title, elf)), PaddedBinary(elf);
    var loaded, n := LoadedBytes(raw), |elf.image|;
    assert forall i :: 0 <= i < n + Gap(n) + 4 ==> loaded[i] == raw[0x100 + i] == raw[0x100..0x100 + |binary|][i] == binary[i];
    assert loaded[..n] == binary[..n];
    assert loaded[n + Gap(n)..n + Gap(n) + 4] == binary[n + Gap(n)..n + Gap(n) + 4];
  }

  lemma FitsPlacement(elf: Elf, bssStart: nat, bssEnd: nat)
    requires FitsRegion(elf, bssStart, bssEnd)
    ensures Placement(|elf.image|, bssStart, bssEnd) && |elf.image| + Gap(|elf.image|) + 4 <= REGION_LENGTH
  {
    hide Gap;
  }

  /**
   * A save under any other output name: when it boots, and the length in the template reaches past the CRC word, the
   * test passes exactly when the program carries its own CRC; with a shorter length it also judges what RAM held.
   */
  method LoadUnderOtherName(console: Console, raw: seq<Byte>, elf: Elf, ghost template: seq<Byte>, ghost title: seq<Byte>,
                            bssStart: nat, bssEnd: nat)
    returns (outcome: Outcome)
    requires FitsRegion(elf, bssStart, bssEnd) && raw == Mcs2Raw(FilledTemplate(template, title, elf)) && console.Valid()
    modifies console`integrityOk, console.ram
    ensures outcome == EntryOutcome(raw)
    ensures outcome == Jump(REGION_START) && |elf.image| + Gap(|elf.image|) + 4 <= |LoadedBytes(raw)| ==>
              (console.integrityOk <==> Accepted(elf.image, elf.crc))
    ensures |elf.image| + Gap(|elf.image|) + 4 <= REGION_LENGTH
    ensures outcome == Jump(REGION_START) ==>
              (console.integrityOk <==> BinaryAccepted(RegionAfter(old(console.ram[..]), raw), |elf.image|))
  {
    hide Placement, Gap, EntryOutcome, Overwrite, RegionAfter, Accepted, LoadedBytes, FilledTemplate, Mcs2Raw, Covered,
         FitsRegion;
    ghost var ram0 := console.ram[..];
    FitsPlacement(elf, bssStart, bssEnd);
    outcome := LoadSave(console, raw, |elf.image|, bssStart, bssEnd);
    if outcome == Jump(REGION_START) && |elf.image| + Gap(|elf.image|) + 4 <= |LoadedBytes(raw)| {
      CoveredByLoad(ram0, raw, |elf.image|);
      CoveredUnderOtherName(template, title, elf, bssStart, bssEnd);
    }
  }

  /** The address and length fields of a raw save. */
  function Fields(raw: seq<Byte>): seq<Byte>
    requires |raw| >= 0x100
  {
    raw[0x40..0x48]
  }

  /** A burst that hits the fields spares everything that could be loaded. */
  lemma {:induction false} FieldsOrData(a: seq<Byte>, b: seq<Byte>, start: nat)
    requires |a| >= 0x100 && DifferWithin(a, b, start, 32)
    ensures |a| == |b| && (Fields(a) != Fields(b) ==> a[0x100..] == b[0x100..])
  {
    hide MessageBits;
    if Fields(a) != Fields(b) {
      var i :| 0x40 <= i < 0x48 && a[i] != b[i];
      if start + 32 <= 8 * i || 8 * i + 8 <= start {
        SpareByte(a, b, start, i);
      }
      forall k | 0x100 <= k < |a| ensures a[k] == b[k] {
        SpareByte(a, b, start, k);
      }
    }
  }

  /** With the fields spared, the altered save carries the altered binary. */
  lemma {:induction false} StillCarries(intact: seq<Byte>, raw: seq<Byte>, binary: seq<Byte>)
    requires Carries(intact, binary) && |raw| == |intact| && Fields(raw) == Fields(intact)
    ensures Carries(raw, raw[0x100..0x100 + |binary|])
  {
    hide ToLittleEndian;
    assert Fields(raw)[..4] == raw[0x40..0x44] && Fields(raw)[4..] == raw[0x44..0x48];
    assert Fields(intact)[..4] == intact[0x40..0x44] && Fields(intact)[4..] == intact[0x44..0x48];
  }

  /** With a field hit, what is loaded by a save that still boots is a part of the original bytes. */
  lemma {:induction false} LoadsOriginal(intact: seq<Byte>, raw: seq<Byte>, elf: Elf)
    requires Carries(intact, PaddedBinary(elf)) && |raw| == |intact| && raw[0x100..] == intact[0x100..]
    requires EntryOutcome(raw).Jump? && |elf.image| + Gap(|elf.image|) + 4 <= |LoadedBytes(raw)| && ElfOk(elf)
    ensures Covered(LoadedBytes(raw), |elf.image|) == (elf.image, elf.crc)
  {
    hide PaddedBinary, ToLittleEndian, Gap, FromLittleEndian, HeaderLength, HeaderAddress;
    BinaryParts(elf);
    var binary, loaded, n := PaddedBinary(elf), LoadedBytes(raw), |elf.image|;
    assert forall i :: 0 <= i < |loaded| ==> loaded[i] == raw[0x100 + i] == raw[0x100..][i];
    assert forall i :: 0 <= i < |binary| ==> binary[i] == intact[0x100..0x100 + |binary|][i] == intact[0x100..][i];
    assert loaded[..n] == binary[0..n];
    assert loaded[n + Gap(n)..n + Gap(n) + 4] == binary[n + Gap(n)..n + Gap(n) + 4];
  }

  /** What the verdict on such a save comes to. */
  lemma {:induction false} AlteredSave(ram: seq<Byte>, raw: seq<Byte>, intact: seq<Byte>, start: nat, elf: Elf,
                                       template: seq<Byte>, title: seq<Byte>, bssStart: nat, bssEnd: nat)
    requires FitsRegion(elf, bssStart, bssEnd) && Accepted(elf.image, elf.crc) && |PaddedBinary(elf)| < 0x1_0000_0000
    requires intact == Mcs2Raw(SaveFile(template, title, elf)) && DifferWithin(intact, raw, start, 32) && |ram| == RAM_SIZE
    ensures |elf.image| + Gap(|elf.image|) + 4 <= |PaddedBinary(elf)| <= REGION_LENGTH
    ensures |raw| == |intact| >= 0x100 + |PaddedBinary(elf)|
    ensures Fields(raw) == Fields(intact) ==>
              && EntryOutcome(raw) == Jump(REGION_START)
              && (BinaryAccepted(RegionAfter(ram, raw), |elf.image|) <==>
                  Covered(raw[0x100..0x100 + |PaddedBinary(elf)|], |elf.image|) == (elf.image, elf.crc))
    ensures Fields(raw) != Fields(intact) ==> raw[0x100..] == intact[0x100..]
    ensures Fields(raw) != Fields(intact) && EntryOutcome(raw) == Jump(REGION_START) &&
            |elf.image| + Gap(|elf.image|) + 4 <= |LoadedBytes(raw)| ==>
              BinaryAccepted(RegionAfter(ram, raw), |elf.image|)
  {
    hide Gap, EntryOutcome, Overwrite, RegionAfter, Accepted, LoadedBytes, SaveFile, Mcs2Raw, Covered, PaddedBinary,
         DifferWithin, MessageBits, Fields;
    var binary, n := PaddedBinary(elf), |elf.image|;
    RawSaveBoots(template, title, elf, bssStart, bssEnd);
    CoveredOfPadded(elf, bssStart, bssEnd);
    FieldsOrData(intact, raw, start);
    if Fields(raw) == Fields(intact) {
      var altered := raw[0x100..0x100 + |binary|];
      StillCarries(intact, raw, binary);
      CarriedBoots(raw, altered);
      CoveredByLoad(ram, raw, n);
      var start' := BurstInSlice(intact, raw, start, 0x100, |binary|);
      BurstInBinaryRejected(binary, altered, n, start');
    } else if EntryOutcome(raw) == Jump(REGION_START) && n + Gap(n) + 4 <= |LoadedBytes(raw)| {
      LoadsOriginal(intact, raw, elf);
      CoveredByLoad(ram, raw, n);
    }
  }

  /**
   * A burst of at most 32 bits anywhere in a save that is accepted. If it spares address and length, the save boots,
   * and the test fails exactly when image or stored CRC were hit. If it does not, everything else is intact: when
   * the save still boots and as much is loaded as the test covers, the test passes.
   */
  method LoadAlteredSave(console: Console, raw: seq<Byte>, ghost intact: seq<Byte>, ghost start: nat, elf: Elf,
                         ghost template: seq<Byte>, ghost title: seq<Byte>, bssStart: nat, bssEnd: nat)
    returns (outcome: Outcome)
    requires FitsRegion(elf, bssStart, bssEnd) && Accepted(elf.image, elf.crc) && |PaddedBinary(elf)| < 0x1_0000_0000
    requires intact == Mcs2Raw(SaveFile(template, title, elf)) && DifferWithin(intact, raw, start, 32)
    requires console.Valid()
    modifies console`integrityOk, console.ram
    ensures outcome == EntryOutcome(raw) && |raw| == |intact| >= 0x100 + |PaddedBinary(elf)|
    ensures outcome != Jump(REGION_START) ==> console.integrityOk == old(console.integrityOk)
    ensures |elf.image| + Gap(|elf.image|) + 4 <= |PaddedBinary(elf)| <= REGION_LENGTH
    ensures Fields(raw) == Fields(intact) ==>
              && outcome == Jump(REGION_START)
              && (console.integrityOk <==>
                  Covered(raw[0x100..0x100 + |PaddedBinary(elf)|], |elf.image|) == (elf.image, elf.crc))
    ensures Fields(raw) != Fields(intact) ==> raw[0x100..] == intact[0x100..]
    ensures Fields(raw) != Fields(intact) && outcome == Jump(REGION_START) ==>
              && (console.integrityOk <==> BinaryAccepted(RegionAfter(old(console.ram[..]), raw), |elf.image|))
              && (|elf.image| + Gap(|elf.image|) + 4 <= |LoadedBytes(raw)| ==> console.integrityOk)
  {
    hide Placement, Gap, EntryOutcome, Overwrite, RegionAfter, Accepted, LoadedBytes, SaveFile, Mcs2Raw, Covered,
         FitsRegion, PaddedBinary, DifferWithin, MessageBits, Carries, Fields;
    ghost var ram0, binary, n := console.ram[..], PaddedBinary(elf), |elf.image|;
    FitsPlacement(elf, bssStart, bssEnd);
    AlteredSave(ram0, raw, intact, start, elf, template, title, bssStart, bssEnd);
    outcome := LoadSave(console, raw, |elf.image|, bssStart, bssEnd);
  }

  // ---------- End to end ----------

  /** The build-time half: the CRC goes in, the save file is put together and its container comes off. */
  method BuildRawSave(disk: Disk, elf: Elf, blocks: seq<Byte>, tpl: string, title: seq<Byte>, bssStart: nat, bssEnd: nat)
    returns (built: Elf, raw: seq<Byte>)
    requires FitsRegion(elf, bssStart, bssEnd) && tpl in disk.files && tpl != "tonyhax.mcs"
    modifies disk
    ensures built.image == elf.image && FitsRegion(built, bssStart, bssEnd) && Accepted(built.image, built.crc)
    ensures |PaddedBinary(built)| <= REGION_LENGTH && raw == Mcs2Raw(SaveFile(old(disk.files)[tpl], title, built))
    ensures built.crc == ToLittleEndian(Crc32(elf.image)) && built.roStart == elf.roStart
    ensures disk.files == old(disk.files)["tonyhax.mcs" := SaveFile(old(disk.files)[tpl], title, built)]
  {
    hide SaveFile, PaddedBinary, FromLittleEndian, ToLittleEndian, Gap, Crc32, Mcs2Raw, FilledTemplate;
    built := InsertCrc(elf, blocks);
    LittleEndianRoundTrip(Crc32(elf.image));
    PaddedBinaryFits(built, bssStart, bssEnd);
    var packaged := GenerateMcs(disk, built, tpl, "tonyhax.mcs", title);
    raw := Mcs2Raw(disk.files["tonyhax.mcs"]);
  }

  /** RAM after the load, summed up. */
  lemma {:induction false} LoadedRamFacts(ram: seq<Byte>, header: seq<Byte>, elf: Elf, bssStart: nat, bssEnd: nat)
    requires FitsRegion(elf, bssStart, bssEnd) && |ram| == RAM_SIZE && |header| == 0x100
    ensures var r := LoadedRam(ram, header, PaddedBinary(elf), bssStart, bssEnd);
            var base := REGION_START - RAM_BASE;
      && |r| == RAM_SIZE && |elf.image| <= REGION_LENGTH && r[base..base + |elf.image|] == elf.image
      && forall i :: 0 <= i < RAM_SIZE && !(HEADER_BUFFER <= RAM_BASE + i < REGION_START + REGION_LENGTH) ==> r[i] == ram[i]
  {
    hide PaddedBinary, LoadedRam, Gap, Covered;
    var binary, n := PaddedBinary(elf), |elf.image|;
    CoveredOfPadded(elf, bssStart, bssEnd);
    LoadedRamHoldsBinary(ram, header, binary, n, bssStart, bssEnd);
    forall i | 0 <= i < RAM_SIZE && !(HEADER_BUFFER <= RAM_BASE + i < REGION_START + REGION_LENGTH)
      ensures LoadedRam(ram, header, binary, bssStart, bssEnd)[i] == ram[i]
    {
      LoadedRamElsewhere(ram, header, binary, n, bssStart, bssEnd, i);
    }
  }

  /**
   * End to end: insert the CRC, package, strip the container, load through the entry point, clear the BSS and
   * test. Every program that fits the region is accepted, whatever it, the template and RAM held before.
   */
  method BuildLoadAndTest(disk: Disk, console: Console, elf: Elf, blocks: seq<Byte>, tpl: string, title: seq<Byte>,
                          bssStart: nat, bssEnd: nat)
    returns (outcome: Outcome)
    requires FitsRegion(elf, bssStart, bssEnd) && tpl in disk.files && tpl != "tonyhax.mcs"
    requires console.Valid()
    modifies disk, console`integrityOk, console.ram
    ensures outcome == Jump(0x801F_A100) && console.integrityOk
    ensures console.ram[0x1F_A100..0x1F_A100 + |elf.image|] == elf.image
    ensures forall i :: 0 <= i < 0x20_0000 && !(0x1F_A000 <= i < 0x1F_E000) ==> console.ram[i] == old(console.ram[i])
  {
    hide FitsRegion, SaveFile, PaddedBinary, Accepted, Mcs2Raw, LoadedRam, Gap;
    var built, raw := BuildRawSave(disk, elf, blocks, tpl, title, bssStart, bssEnd);
    ghost var ram0 := console.ram[..];
    outcome := LoadAndTest(console, raw, built, old(disk.files)[tpl], title, bssStart, bssEnd);
    LoadedRamFacts(ram0, raw[..0x100], built, bssStart, bssEnd);
    ghost var r := console.ram[..];
    assert console.ram[REGION_START - RAM_BASE..REGION_START - RAM_BASE + |elf.image|] ==
           r[REGION_START - RAM_BASE..REGION_START - RAM_BASE + |elf.image|];
    assert forall i :: 0 <= i < RAM_SIZE ==> console.ram[i] == r[i];
  }
}
