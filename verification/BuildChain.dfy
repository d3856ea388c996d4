/**
 * The scripts that build and package the loader: `loader/insert-tonyhax-crc.sh`,
 * `loader/generate-tonyhax-mcs.sh` and `util/mcs2raw.sh`.
 */
module BuildChain {
  import opened Bits
  import opened Crc
  import opened Gzip
  import opened Numerals
  import opened Storage

  // ---------- Text the scripts pass around ----------

  function ToUpper(c: char): char {
    if 'a' <= c <= 'f' then (c as int - 'a' as int + 'A' as int) as char else c
  }

  /** `tr [a-f] [A-F]` */
  function Uppercase(s: string): (t: string)
    ensures |t| == |s|
  {
    if s == "" then "" else Uppercase(s[..|s| - 1]) + [ToUpper(s[|s| - 1])]
  }

  /** `tr -dc [a-f0-9]` */
  function KeepHexDigits(s: string): string {
    if s == "" then ""
    else
      var c := s[|s| - 1];
      KeepHexDigits(s[..|s| - 1]) + if 'a' <= c <= 'f' || '0' <= c <= '9' then [c] else ""
  }

  /** `od -N4 -An -tx4` on a little-endian host: the first four bytes as one hexadecimal word. */
  function OdWord(bytes: seq<Byte>): string
    requires |bytes| >= 4
  {
    " " + LowerHex(FromLittleEndian(bytes[..4]), 8) + "\n"
  }

  /** The characters in codes: 48 to 57 and 97 to 102 are kept, and 97 to 102 are raised to 65 to 70. */
  lemma ScriptCharacters(c: char)
    ensures KeepHexDigits([c]) == if 48 <= c as int <= 57 || 97 <= c as int <= 102 then [c] else ""
    ensures Uppercase([c]) == if 97 <= c as int <= 102 then [(c as int - 32) as char] else [c]
  {
    assert [c][..0] == "";
  }

  /** The last `n` bytes, as `tail -c` keeps them. */
  function TailBytes(s: seq<Byte>, n: nat): seq<Byte> {
    if |s| <= n then s else s[|s| - n..]
  }

  /** A gzip file: header and compressed blocks, then the trailer of RFC 1952 with the CRC and the length. */
  function GzipFile(blocks: seq<Byte>, data: seq<Byte>): seq<Byte> {
    blocks + ToLittleEndian(TableCrc(data)) + ToLittleEndian(|data| % 0x1_0000_0000)
  }

  lemma GzipTail(blocks: seq<Byte>, data: seq<Byte>)
    ensures TailBytes(GzipFile(blocks, data), 8) ==
            ToLittleEndian(TableCrc(data)) + ToLittleEndian(|data| % 0x1_0000_0000)
  {
    var trailer := ToLittleEndian(TableCrc(data)) + ToLittleEndian(|data| % 0x1_0000_0000);
    assert GzipFile(blocks, data) == blocks + trailer;
  }

  /** The shell function `crc32`: the checksum is fished out of the trailer of a gzip file. */
  function ShellCrc32(blocks: seq<Byte>, data: seq<Byte>): string
  {
    GzipTail(blocks, data);
    Uppercase(KeepHexDigits(OdWord(TailBytes(GzipFile(blocks, data), 8))))
  }

  /** The byte `echo -ne` writes for `\x` and two hexadecimal digits. */
  function EscapedByte(high: char, low: char): Byte
    requires ToDigit(high) < 16 && ToDigit(low) < 16
  {
    16 * ToDigit(high) + ToDigit(low)
  }

  predicate EightHexDigits(s: string) {
    |s| == 8 && forall i :: 0 <= i < 8 ==> ToDigit(s[i]) < 16
  }

  /** `\x${s:6:2}\x${s:4:2}\x${s:2:2}\x${s:0:2}` */
  function EscapedWord(s: string): (b: seq<Byte>)
    requires EightHexDigits(s)
    ensures |b| == 4
  {
    [EscapedByte(s[6], s[7]), EscapedByte(s[4], s[5]), EscapedByte(s[2], s[3]), EscapedByte(s[0], s[1])]
  }

  lemma {:induction false} KeepConcat(s: string, t: string)
    ensures KeepHexDigits(s + t) == KeepHexDigits(s) + KeepHexDigits(t)
  {
    if t == "" {
      assert s + t == s;
    } else {
      var n := |t| - 1;
      assert (s + t)[..|s + t| - 1] == s + t[..n];
      KeepConcat(s, t[..n]);
    }
  }

  lemma {:induction false} KeepLowerHex(v: nat, n: nat)
    ensures KeepHexDigits(LowerHex(v, n)) == LowerHex(v, n)
    decreases n
  {
    if n == 0 {
    } else {
      assert LowerHex(v, n)[..n - 1] == LowerHex(v / 16, n - 1);
      KeepLowerHex(v / 16, n - 1);
    }
  }

  lemma {:induction false} UppercaseLowerHex(v: nat, n: nat)
    ensures Uppercase(LowerHex(v, n)) == Hex(v, n)
    decreases n
  {
    if n == 0 {
    } else {
      assert LowerHex(v, n)[..n - 1] == LowerHex(v / 16, n - 1);
      UppercaseLowerHex(v / 16, n - 1);
      assert ToUpper(LowerDigit(v % 16)) == UpperDigit(v % 16);
    }
  }

  lemma {:induction false} HexOfByte(b: Byte)
    ensures Hex(b, 2) == [UpperDigit(b / 16), UpperDigit(b % 16)]
    ensures ToDigit(Hex(b, 2)[0]) < 16 && ToDigit(Hex(b, 2)[1]) < 16
    ensures EscapedByte(Hex(b, 2)[0], Hex(b, 2)[1]) == b
  {
    hide Hex;
    HexUnfold(b, 2);
    HexUnfold(b / 16, 1);
    HexUnfold(b / 16 / 16, 0);
    ToDigitOfUpper(b / 16);
    ToDigitOfUpper(b % 16);
  }

  /** The last byte of a number in two digits of its own. */
  lemma {:induction false} HexLastByte(v: nat, n: nat)
    requires n >= 2
    ensures Hex(v, n) == Hex(v / 0x100, n - 2) + Hex(v % 0x100, 2)
  {
    hide *;
    var b := v % 0x100;
    HexOfByte(b);
    HexUnfold(v, n);
    HexUnfold(v / 16, n - 1);
    assert v / 16 / 16 == v / 0x100 && b / 16 == v / 16 % 16 && b % 16 == v % 16;
  }

  lemma {:induction false} HexOfWord(w: Word)
    ensures var b := ToLittleEndian(w);
            Hex(w, 8) == Hex(b[3], 2) + Hex(b[2], 2) + Hex(b[1], 2) + Hex(b[0], 2)
  {
    hide Hex;
    var w1 := w / 0x100;
    var w2 := w1 / 0x100;
    HexLastByte(w, 8);
    HexLastByte(w1, 6);
    HexLastByte(w2, 4);
    assert Hex(w, 8) == Hex(w2 / 0x100, 2) + Hex(w2 % 0x100, 2) + Hex(w1 % 0x100, 2) + Hex(w % 0x100, 2);
  }

  /** The digits of a word taken in pairs from the right are its bytes in memory order. */
  lemma {:induction false} EscapedHexIsLittleEndian(w: Word)
    ensures EightHexDigits(Hex(w, 8)) && EscapedWord(Hex(w, 8)) == ToLittleEndian(w)
  {
    var b := ToLittleEndian(w);
    HexOfWord(w);
    HexOfByte(b[0]);
    HexOfByte(b[1]);
    HexOfByte(b[2]);
    HexOfByte(b[3]);
  }

  /** What `od` prints, stripped and raised, is the word in eight digits. */
  lemma {:induction false} StrippedOdWord(w: Word)
    ensures Uppercase(KeepHexDigits(" " + LowerHex(w, 8) + "\n")) == Hex(w, 8)
  {
    var digits := LowerHex(w, 8);
    KeepConcat(" " + digits, "\n");
    KeepConcat(" ", digits);
    assert " "[..0] == "" && "\n"[..0] == "";
    assert KeepHexDigits(" ") == "" && KeepHexDigits("\n") == "";
    KeepLowerHex(w, 8);
    assert KeepHexDigits(" " + digits + "\n") == digits;
    UppercaseLowerHex(w, 8);
  }

  /** Whatever gzip compressed to, the shell function prints the loader's own CRC in eight digits. */
  lemma {:induction false} ShellCrcIsCrc32(blocks: seq<Byte>, data: seq<Byte>)
    ensures ShellCrc32(blocks, data) == Hex(Crc32(data), 8)
  {
    var w := TableCrc(data);
    var tail := TailBytes(GzipFile(blocks, data), 8);
    GzipTail(blocks, data);
    assert tail[..4] == ToLittleEndian(w);
    LittleEndianRoundTrip(w);
    StrippedOdWord(w);
    TableCrcIsCrc32(data);
  }

  // ---------- The linked program ----------

  /**
   * What the scripts see of the linked file: the contents of .text, .rodata and .data as one block from
   * `roStart` on, and the four bytes of .crc, which the linker aligns to a word.
   */
  datatype Elf = Elf(roStart: Word, image: seq<Byte>, crc: seq<Byte>)

  predicate ElfOk(elf: Elf) {
    |elf.crc| == 4
  }

  /** Filler between the end of .data and the aligned .crc. */
  function Gap(imageLength: nat): (g: nat)
    ensures g < 4 && (imageLength + g) % 4 == 0
  {
    (4 - imageLength % 4) % 4
  }

  /** `objcopy -O binary` of all four sections. */
  function Binary(elf: Elf): seq<Byte> {
    elf.image + Zeros(Gap(|elf.image|)) + elf.crc
  }

  /** `insert-tonyhax-crc.sh`: the .crc section is replaced by the checksum of the other three. */
  function InsertCrc(elf: Elf, blocks: seq<Byte>): (r: Elf)
    requires ElfOk(elf)
    ensures ElfOk(r) && r.roStart == elf.roStart && r.image == elf.image
    ensures r.crc == ToLittleEndian(Crc32(elf.image))
  {
    var digits := ShellCrc32(blocks, elf.image);
    ShellCrcIsCrc32(blocks, elf.image);
    EscapedHexIsLittleEndian(Crc32(elf.image));
    elf.(crc := EscapedWord(digits))
  }

  // ---------- The save file ----------

  /** `truncate --size=%128` */
  function RoundUp128(n: nat): (r: nat)
    ensures r % 0x80 == 0 && n <= r < n + 0x80
  {
    (n + 0x7F) / 0x80 * 0x80
  }

  function PaddedBinary(elf: Elf): seq<Byte> {
    Binary(elf) + Zeros(RoundUp128(|Binary(elf)|) - |Binary(elf)|)
  }

  /** The eight header bytes: load address and length, from their eight-digit renderings. */
  function HeaderFields(elf: Elf): (h: seq<Byte>)
    requires |PaddedBinary(elf)| < 0x1_0000_0000
    ensures h == ToLittleEndian(elf.roStart) + ToLittleEndian(|PaddedBinary(elf)|)
  {
    EscapedHexIsLittleEndian(elf.roStart);
    EscapedHexIsLittleEndian(|PaddedBinary(elf)|);
    EscapedWord(Hex(elf.roStart, 8)) + EscapedWord(Hex(|PaddedBinary(elf)|, 8))
  }

  /** The template with the title and the binary written into it. */
  function FilledTemplate(template: seq<Byte>, title: seq<Byte>, elf: Elf): seq<Byte> {
    Overwrite(Overwrite(template, 132, title), 384, PaddedBinary(elf))
  }

  /** The finished save file, when the script is given the name the Makefile gives it. */
  function SaveFile(template: seq<Byte>, title: seq<Byte>, elf: Elf): seq<Byte>
    requires |PaddedBinary(elf)| < 0x1_0000_0000
  {
    Overwrite(FilledTemplate(template, title, elf), 192, HeaderFields(elf))
  }

  predicate Covers(i: nat, at: nat, len: nat) {
    at <= i < at + len
  }

  /**
   * Every byte of the filled template: the binary from 384 on, the title from 132 on, and the template's own bytes
   * everywhere else, with zeros behind its end.
   */
  lemma {:induction false} FilledTemplateBytes(template: seq<Byte>, title: seq<Byte>, elf: Elf, i: nat)
    requires i < |FilledTemplate(template, title, elf)|
    ensures |FilledTemplate(template, title, elf)| == Max(Max(|template|, 132 + |title|), 384 + |PaddedBinary(elf)|)
    ensures FilledTemplate(template, title, elf)[i] ==
            if Covers(i, 384, |PaddedBinary(elf)|) then PaddedBinary(elf)[i - 384]
            else if Covers(i, 132, |title|) then title[i - 132]
            else if i < |template| then template[i] else 0
  {
    hide Overwrite, PaddedBinary;
    OverwriteFacts(template, 132, title);
    OverwriteFacts(Overwrite(template, 132, title), 384, PaddedBinary(elf));
  }

  /** The finished save is the filled template but for bytes 192 to 199: load address and length, low byte first. */
  lemma {:induction false} SaveFileBytes(template: seq<Byte>, title: seq<Byte>, elf: Elf, i: nat)
    requires |PaddedBinary(elf)| < 0x1_0000_0000 && i < |SaveFile(template, title, elf)|
    ensures |SaveFile(template, title, elf)| == |FilledTemplate(template, title, elf)| >= 384
    ensures SaveFile(template, title, elf)[i] ==
            if 192 <= i < 196 then ToLittleEndian(elf.roStart)[i - 192]
            else if 196 <= i < 200 then ToLittleEndian(|PaddedBinary(elf)|)[i - 196]
            else FilledTemplate(template, title, elf)[i]
  {
    hide Overwrite, PaddedBinary, ToLittleEndian;
    var filled := FilledTemplate(template, title, elf);
    FilledTemplateBytes(template, title, elf, 0);
    hide FilledTemplate;
    OverwriteFacts(filled, 192, HeaderFields(elf));
  }

  lemma LongEnough(template: seq<Byte>, title: seq<Byte>, elf: Elf)
    requires |PaddedBinary(elf)| < 0x1_0000_0000
    ensures |SaveFile(template, title, elf)| == |FilledTemplate(template, title, elf)| >= 384
  {
    hide PaddedBinary, Overwrite;
  }

  /** A title that ends before the fields is in the save, letter for letter. */
  lemma {:induction false} TitleInSave(template: seq<Byte>, title: seq<Byte>, elf: Elf)
    requires |PaddedBinary(elf)| < 0x1_0000_0000 && 132 + |title| <= 192
    ensures |SaveFile(template, title, elf)| >= 384 && SaveFile(template, title, elf)[132..132 + |title|] == title
  {
    hide SaveFile, PaddedBinary, FilledTemplate;
    LongEnough(template, title, elf);
    forall k | 0 <= k < |title| ensures SaveFile(template, title, elf)[132 + k] == title[k] {
      SaveFileBytes(template, title, elf, 132 + k);
      FilledTemplateBytes(template, title, elf, 132 + k);
    }
  }

  /** The filler before the CRC and the padding behind it are zeros. */
  lemma {:induction false} FillerIsZero(elf: Elf, i: nat)
    requires ElfOk(elf) && i < |PaddedBinary(elf)|
    requires |elf.image| <= i < |elf.image| + Gap(|elf.image|) || |elf.image| + Gap(|elf.image|) + 4 <= i
    ensures PaddedBinary(elf)[i] == 0
  {
    hide Gap;
  }

  /**
   * `generate-tonyhax-mcs.sh elf tpl mcs version`, with `title` the bytes of "tonyhax" and the version. The header
   * always goes to "tonyhax.mcs", whatever name the script was given.
   */
  method GenerateMcs(disk: Disk, elf: Elf, tpl: string, mcs: string, title: seq<Byte>) returns (ok: bool)
    requires |PaddedBinary(elf)| < 0x1_0000_0000
    modifies disk
    ensures ok <==> tpl in old(disk.files) && tpl != mcs
    ensures !ok ==> disk.files == old(disk.files)
    ensures ok && mcs == "tonyhax.mcs" ==>
            disk.files == old(disk.files)[mcs := SaveFile(old(disk.files)[tpl], title, elf)]
    ensures ok && mcs != "tonyhax.mcs" ==>
            disk.files == old(disk.files)[mcs := FilledTemplate(old(disk.files)[tpl], title, elf)]
                       ["tonyhax.mcs" := Overwrite(old(disk.Contents("tonyhax.mcs")), 192, HeaderFields(elf))]
  {
    hide Overwrite, PaddedBinary, HeaderFields;
    var bin := PaddedBinary(elf);
    if tpl !in disk.files || tpl == mcs {
      return false;
    }
    ghost var template := disk.files[tpl];
    ghost var filled := FilledTemplate(template, title, elf);
    disk.files := disk.files[mcs := disk.files[tpl]];
    disk.WriteAt(mcs, 132, title);
    disk.WriteAt(mcs, 384, bin);
    assert disk.files == old(disk.files)[mcs := filled];
    disk.WriteAt("tonyhax.mcs", 192, HeaderFields(elf));
    return true;
  }

  /** `mcs2raw.sh`: the 128-byte container header is dropped. */
  function Mcs2Raw(mcs: seq<Byte>): seq<Byte> {
    if |mcs| < 0x80 then [] else mcs[0x80..]
  }
}
