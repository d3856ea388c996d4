/** The ROM directory walker of `util/print-ps2-romdir.py`: where each file of a BIOS image starts. */
module Romdir {
  import opened Bits

  // ---------- The image as a file ----------

  class RomFile {
    const data: seq<Byte>
    var pos: nat

    constructor (data: seq<Byte>)
      ensures this.data == data && pos == 0
    {
      this.data, pos := data, 0;
    }

    ghost predicate Valid()
      reads this
    {
      pos <= |data|
    }

    /** `f.read(16)`: fewer bytes at the end of the file. */
    method ReadLine() returns (line: seq<Byte>)
      requires Valid()
      modifies `pos
      ensures Valid() && pos == old(pos) + |line| && line == data[old(pos)..pos]
      ensures |line| == if old(pos) + 16 <= |data| then 16 else |data| - old(pos)
    {
      var end := if pos + 16 <= |data| then pos + 16 else |data|;
      line := data[pos..end];
      pos := end;
    }
  }

  // ---------- Finding the directory ----------

  /** "RESET" filled up with zeros to ten bytes. */
  const RESET: seq<Byte> := [0x52, 0x45, 0x53, 0x45, 0x54, 0, 0, 0, 0, 0]

  predicate ResetAt(data: seq<Byte>, p: nat) {
    p + 16 <= |data| && data[p..p + 10] == RESET
  }

  predicate OnLine(p: nat, start: nat) {
    p >= start && (p - start) % 16 == 0
  }

  /** `find_romdir`: the first line, counted from where the file stood, that holds the RESET entry. */
  method FindRomdir(f: RomFile) returns (found: bool)
    requires f.Valid()
    modifies f`pos
    ensures f.Valid()
    ensures found <==> exists p: nat :: OnLine(p, old(f.pos)) && ResetAt(f.data, p)
    ensures found ==> OnLine(f.pos, old(f.pos)) && ResetAt(f.data, f.pos)
    ensures found ==> forall p: nat :: OnLine(p, old(f.pos)) && ResetAt(f.data, p) ==> f.pos <= p
    ensures !found ==> f.pos == |f.data|
  {
    while true
      invariant f.Valid() && OnLine(f.pos, old(f.pos))
      invariant forall p: nat :: OnLine(p, old(f.pos)) && ResetAt(f.data, p) ==> f.pos <= p
      decreases |f.data| - f.pos
    {
      var line := f.ReadLine();
      if |line| != 16 {
        return false;
      }
      if line[0..10] == RESET {
        assert line[0..10] == f.data[f.pos - 16..f.pos - 6];
        f.pos := f.pos - 16;
        return true;
      }
      assert line[0..10] == f.data[f.pos - 16..f.pos - 6];
    }
  }

  // ---------- The entries ----------

  /** A directory entry: ten bytes of name, two of extended information, and the size of the file. */
  datatype Entry = Entry(name: seq<Byte>, size: Word)

  /** `rstrip(b'\0')` */
  function StripZeros(s: seq<Byte>): (r: seq<Byte>)
    ensures r <= s && (r != [] ==> r[|r| - 1] != 0) && forall i :: |r| <= i < |s| ==> s[i] == 0
  {
    if s == [] || s[|s| - 1] != 0 then s else StripZeros(s[..|s| - 1])
  }

  predicate IsAscii(s: seq<Byte>) {
    forall i :: 0 <= i < |s| ==> s[i] < 0x80
  }

  function EntryAt(data: seq<Byte>, p: nat): Entry
    requires p + 16 <= |data|
  {
    Entry(StripZeros(data[p..p + 10]), FromLittleEndian(data[p + 12..p + 16]))
  }

  /** What a line of the directory amounts to: the end of it, a name that does not decode, or an entry. */
  datatype Row = End | BadName | Item(entry: Entry)

  function RowAt(data: seq<Byte>, p: nat): Row {
    if p + 16 > |data| then End
    else if !IsAscii(EntryAt(data, p).name) then BadName
    else if EntryAt(data, p).name == [] then End
    else Item(EntryAt(data, p))
  }

  /** A directory line: the name filled up with zeros to ten bytes, two bytes of other information, the size. */
  function EntryLine(name: seq<Byte>, info: seq<Byte>, size: Word): (line: seq<Byte>)
    requires |name| <= 10 && |info| == 2
    ensures |line| == 16
  {
    name + seq(10 - |name|, _ => 0) + info + ToLittleEndian(size)
  }

  lemma {:induction false} StripFilled(name: seq<Byte>, n: nat)
    requires name != [] ==> name[|name| - 1] != 0
    ensures StripZeros(name + seq(n, _ => 0)) == name
  {
    var filled := name + seq(n, _ => 0);
    if n == 0 {
      assert filled == name;
    } else {
      assert filled[..|filled| - 1] == name + seq(n - 1, _ => 0);
      StripFilled(name, n - 1);
    }
  }

  /** A line written down is read back, wherever it stands: its name, if that ends in no zero, and its size. */
  lemma {:induction false} LineReadsBack(before: seq<Byte>, name: seq<Byte>, info: seq<Byte>, size: Word, after: seq<Byte>)
    requires |name| <= 10 && |info| == 2 && (name != [] ==> name[|name| - 1] != 0)
    ensures RowAt(before + EntryLine(name, info, size) + after, |before|) ==
            if !IsAscii(name) then BadName else if name == [] then End else Item(Entry(name, size))
  {
    hide FromLittleEndian, ToLittleEndian, StripZeros, IsAscii;
    var line, p := EntryLine(name, info, size), |before|;
    var data := before + line + after;
    assert data[p..p + 16] == line;
    assert data[p..p + 10] == line[..10] == name + seq(10 - |name|, _ => 0);
    assert data[p + 12..p + 16] == line[12..] == ToLittleEndian(size);
    StripFilled(name, 10 - |name|);
    LittleEndianRoundTrip(size);
  }

  /** The entries from `p` up to the first line that is not one. */
  function EntriesFrom(data: seq<Byte>, p: nat): (es: seq<Entry>)
    decreases |data| - p
  {
    if RowAt(data, p).Item? then [RowAt(data, p).entry] + EntriesFrom(data, p + 16) else []
  }

  lemma AsciiInFigures(b: Byte, s: seq<Byte>)
    ensures IsAscii([b]) <==> b <= 127
    ensures IsAscii([b] + s) <==> IsAscii([b]) && IsAscii(s)
  {
    assert ([b] + s)[0] == b;
    assert forall i :: 0 <= i < |s| ==> ([b] + s)[i + 1] == s[i];
  }

  /** What ends a directory: the end of the file, fewer than sixteen bytes away. */
  lemma ShortLineEnds(data: seq<Byte>, p: nat)
    requires |data| < p + 16
    ensures RowAt(data, p) == End && EntriesFrom(data, p) == []
  {}

  /** The entry searched for, letter for letter. */
  lemma ResetInFigures(before: seq<Byte>, info: seq<Byte>, size: Word, after: seq<Byte>)
    requires |info| == 2
    ensures ResetAt(before + EntryLine([82, 69, 83, 69, 84], info, size) + after, |before|)
  {
    hide ToLittleEndian;
    var line := EntryLine([82, 69, 83, 69, 84], info, size);
    var data := before + line + after;
    assert data[|before|..|before| + 10] == line[..10] == [82, 69, 83, 69, 84] + seq(5, _ => 0) == RESET;
  }

  /** Reads and decodes one line. */
  method ReadRow(f: RomFile) returns (row: Row)
    requires f.Valid()
    modifies f`pos
    ensures f.Valid() && row == RowAt(f.data, old(f.pos)) && (row.Item? ==> f.pos == old(f.pos) + 16)
  {
    hide StripZeros, FromLittleEndian, IsAscii;
    ghost var p := f.pos;
    var line := f.ReadLine();
    if |line| != 16 {
      return End;
    }
    assert line[0..10] == f.data[p..p + 10] && line[12..16] == f.data[p + 12..p + 16];
    var entryName := StripZeros(line[0..10]);
    if !IsAscii(entryName) {
      return BadName;
    }
    if |entryName| == 0 {
      return End;
    }
    return Item(Entry(entryName, FromLittleEndian(line[12..16])));
  }

  // ---------- Where the files lie ----------

  const ROM_BASE: nat := 0xBFC0_0000
  const ADDRESS_SPACE: nat := 0x1_0000_0000

  function RoundUp16(n: nat): (r: nat)
    ensures r % 16 == 0 && n <= r < n + 16
  {
    (n + 0xF) / 16 * 16
  }

  /** What the first `k` files take up, each filled up to a multiple of 16. */
  function Occupied(es: seq<Entry>, k: nat): (n: nat)
    requires k <= |es|
    ensures n % 16 == 0
  {
    if k == 0 then 0 else Occupied(es, k - 1) + RoundUp16(es[k - 1].size)
  }

  /** The address listed for file `k`, on 32 bits. */
  function ListedAddress(es: seq<Entry>, k: nat): (a: Word)
    requires k <= |es|
  {
    (ROM_BASE + Occupied(es, k)) % ADDRESS_SPACE
  }

  datatype Listed = Listed(name: seq<Byte>, address: Word)

  /** Each file with its address. */
  function Listing(es: seq<Entry>): (lines: seq<Listed>)
    ensures |lines| == |es|
  {
    seq(|es|, k requires 0 <= k < |es| => Listed(es[k].name, ListedAddress(es, k)))
  }

  /** `(address + size + 0xF) & 0xFFFFFFF0` */
  function NextAddress(address: Word, size: Word): Word {
    (address + size + 0xF) % ADDRESS_SPACE / 16 * 16
  }

  /** The first file is listed at 0xBFC00000, and one file of `size` bytes moves the next one on by it, rounded up. */
  lemma ListingInFigures(es: seq<Entry>)
    requires es != []
    ensures ListedAddress(es, 0) == 0xBFC0_0000
    ensures es[0].size == 0x2700 ==> ListedAddress(es, 1) == 0xBFC0_2700
    ensures es[0].size == 0x2701 ==> ListedAddress(es, 1) == 0xBFC0_2710
    ensures Listing(es)[0] == Listed(es[0].name, 0xBFC0_0000)
  {
    assert Occupied(es, 1) == Occupied(es, 0) + RoundUp16(es[0].size);
  }

  /** From a multiple of 16, the mask moves on by the size rounded up. */
  lemma NextAddressRoundsUp(address: Word, size: Word)
    requires address % 16 == 0
    ensures NextAddress(address, size) == (address + RoundUp16(size)) % ADDRESS_SPACE
  {
    var sum := address + size + 0xF;
    var up: nat := address + RoundUp16(size);
    assert sum / 16 * 16 == up;
    if sum >= ADDRESS_SPACE {
      assert sum % ADDRESS_SPACE == sum - ADDRESS_SPACE;
      assert up % ADDRESS_SPACE == up - ADDRESS_SPACE;
    } else {
      assert sum % ADDRESS_SPACE == sum && up % ADDRESS_SPACE == up;
    }
  }

  lemma {:induction false} WholeTurns(q: nat, n: nat)
    ensures (q * ADDRESS_SPACE + n) % ADDRESS_SPACE == n % ADDRESS_SPACE
  {
    if q == 0 {
    } else {
      WholeTurns(q - 1, n);
      var m: nat := (q - 1) * ADDRESS_SPACE + n;
      assert (m + ADDRESS_SPACE) % ADDRESS_SPACE == m % ADDRESS_SPACE;
    }
  }

  lemma WrapTwice(total: nat, size: nat)
    ensures (total % ADDRESS_SPACE + size) % ADDRESS_SPACE == (total + size) % ADDRESS_SPACE
    ensures total % 16 == 0 ==> total % ADDRESS_SPACE % 16 == 0
  {
    var q, r := total / ADDRESS_SPACE, total % ADDRESS_SPACE;
    WholeTurns(q, r + size);
    assert total == q * ADDRESS_SPACE + r;
  }

  /** Masking at every step is the same as masking the total. */
  lemma TotalFurther(total: nat, size: Word)
    requires total % 16 == 0
    ensures total % ADDRESS_SPACE % 16 == 0
    ensures NextAddress(total % ADDRESS_SPACE, size) == (total + RoundUp16(size)) % ADDRESS_SPACE
  {
    hide NextAddress, RoundUp16;
    WrapTwice(total, RoundUp16(size));
    NextAddressRoundsUp(total % ADDRESS_SPACE, size);
  }

  lemma OneFileFurther(es: seq<Entry>, k: nat)
    requires k < |es|
    ensures ListedAddress(es, k) % 16 == 0
    ensures ListedAddress(es, k + 1) == NextAddress(ListedAddress(es, k), es[k].size)
  {
    hide NextAddress, RoundUp16;
    TotalFurther(ROM_BASE + Occupied(es, k), es[k].size);
  }

  /** The whole listing, and whether it ends other than at a name that is not ASCII. */
  function Printed(data: seq<Byte>, start: nat): (seq<Listed>, bool) {
    var es := EntriesFrom(data, start);
    (Listing(es), RowAt(data, start + 16 * |es|) != BadName)
  }

  /** Having listed `lines`, the walk stands at position `p` with this address for the next file. */
  ghost predicate Walked(data: seq<Byte>, start: nat, lines: seq<Listed>, p: nat, address: Word) {
    var es := EntriesFrom(data, start);
    && |lines| <= |es| && p == start + 16 * |lines| && es[|lines|..] == EntriesFrom(data, p)
    && lines == Listing(es)[..|lines|] && address == ListedAddress(es, |lines|)
  }

  lemma NothingWalked(data: seq<Byte>, start: nat)
    ensures Walked(data, start, [], start, ROM_BASE)
  {}

  /** One more line of the listing, or its end. */
  lemma WalkFurther(data: seq<Byte>, start: nat, lines: seq<Listed>, p: nat, address: Word)
    requires Walked(data, start, lines, p, address)
    ensures var row := RowAt(data, p);
      if row.Item? then
        Walked(data, start, lines + [Listed(row.entry.name, address)], p + 16, NextAddress(address, row.entry.size))
      else Printed(data, start) == (lines, row.End?)
  {
    hide ListedAddress, RowAt;
    var es, k := EntriesFrom(data, start), |lines|;
    if RowAt(data, p).Item? {
      assert es[k..] == [RowAt(data, p).entry] + EntriesFrom(data, p + 16);
      assert es[k] == es[k..][0] && es[k + 1..] == es[k..][1..];
      hide EntriesFrom;
      OneFileFurther(es, k);
    } else {
      assert k == |es| && lines == Listing(es) && p == start + 16 * |es|;
    }
  }

  /**
   * `print_romdir`, with the lines it prints as the result; `decoded` is false when it breaks off with an
   * exception.
   */
  method PrintRomdir(f: RomFile) returns (lines: seq<Listed>, decoded: bool)
    requires f.Valid()
    modifies f`pos
    ensures (lines, decoded) == Printed(f.data, old(f.pos))
  {
    var address: Word := 0xBFC0_0000;
    lines := [];
    NothingWalked(f.data, f.pos);
    hide Walked, Printed, NextAddress, RowAt;
    while true
      invariant f.Valid() && Walked(f.data, old(f.pos), lines, f.pos, address)
      decreases |f.data| - f.pos
    {
      WalkFurther(f.data, old(f.pos), lines, f.pos, address);
      var row := ReadRow(f);
      if !row.Item? {
        return lines, row.End?;
      }
      lines := lines + [Listed(row.entry.name, address)];
      address := NextAddress(address, row.entry.size);
    }
  }

  /** No file reaches into the one listed after it. */
  predicate InOrder(es: seq<Entry>) {
    forall k :: 0 <= k < |es| - 1 ==> ListedAddress(es, k) + es[k].size <= ListedAddress(es, k + 1)
  }

  lemma {:induction false} OccupiedMonotone(es: seq<Entry>, j: nat, k: nat)
    requires j <= k <= |es|
    ensures Occupied(es, j) <= Occupied(es, k)
    decreases k
  {
    if j < k {
      OccupiedMonotone(es, j, k - 1);
    }
  }

  /** A file that takes the total past the address space is listed as reaching over the next one. */
  lemma WrapOverlaps(es: seq<Entry>, k: nat)
    requires k < |es|
    requires ROM_BASE + Occupied(es, k) < ADDRESS_SPACE <= ROM_BASE + Occupied(es, k + 1)
    ensures ListedAddress(es, k) + es[k].size > ListedAddress(es, k + 1)
  {
    assert RoundUp16(es[k].size) <= ADDRESS_SPACE;
    assert ListedAddress(es, k + 1) == ROM_BASE + Occupied(es, k + 1) - ADDRESS_SPACE;
  }

  lemma {:induction false} FirstWrap(es: seq<Entry>, n: nat) returns (k: nat)
    requires n <= |es| && ROM_BASE + Occupied(es, n) >= ADDRESS_SPACE
    ensures k < n && ROM_BASE + Occupied(es, k) < ADDRESS_SPACE <= ROM_BASE + Occupied(es, k + 1)
  {
    if ROM_BASE + Occupied(es, n - 1) < ADDRESS_SPACE {
      k := n - 1;
    } else {
      k := FirstWrap(es, n - 1);
    }
  }

  lemma NotWrapped(es: seq<Entry>, k: nat)
    requires k <= |es| && ROM_BASE + Occupied(es, k) < ADDRESS_SPACE
    ensures ListedAddress(es, k) == ROM_BASE + Occupied(es, k)
  {
    hide Occupied;
  }

  /** The listed files lie one after the other exactly when the last of them starts inside the address space. */
  lemma {:induction false} ListedInOrderIff(es: seq<Entry>)
    requires es != []
    ensures InOrder(es) <==> ROM_BASE + Occupied(es, |es| - 1) < ADDRESS_SPACE
  {
    hide RoundUp16, ListedAddress;
    var last := |es| - 1;
    if ROM_BASE + Occupied(es, last) < ADDRESS_SPACE {
      forall k | 0 <= k < last ensures ListedAddress(es, k) + es[k].size <= ListedAddress(es, k + 1) {
        OccupiedMonotone(es, k, last);
        OccupiedMonotone(es, k + 1, last);
        NotWrapped(es, k);
        NotWrapped(es, k + 1);
      }
    } else {
      var k := FirstWrap(es, last);
      WrapOverlaps(es, k);
    }
  }

  lemma OccupiedNext(es: seq<Entry>, k: nat)
    requires k < |es|
    ensures Occupied(es, k + 1) == Occupied(es, k) + RoundUp16(es[k].size)
  {}

  /** Then no two files share a byte, and no file leaves sixteen bytes before the next. */
  lemma {:induction false} FilesDisjoint(es: seq<Entry>, i: nat, j: nat)
    requires i < j < |es| && ROM_BASE + Occupied(es, j) < ADDRESS_SPACE
    ensures ListedAddress(es, i) + es[i].size <= ListedAddress(es, j)
    ensures j == i + 1 ==> ListedAddress(es, j) < ListedAddress(es, i) + es[i].size + 16
  {
    hide *;
    OccupiedMonotone(es, i, j);
    OccupiedMonotone(es, i + 1, j);
    OccupiedNext(es, i);
    NotWrapped(es, i);
    NotWrapped(es, j);
  }
}
