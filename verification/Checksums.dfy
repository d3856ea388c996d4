/** The checksum repair of game saves: `entrypoints/fix-crash-checksum.sh` and `entrypoints/fix-cb4-checksum.sh`. */
module Checksums {
  import opened Bits
  import opened Storage

  const MODULUS: nat := 0x1_0000_0000

  /** Byte `i` of a file, zero past its end. */
  function ByteIn(file: seq<Byte>, i: nat): Byte {
    if i < |file| then file[i] else 0
  }

  // ---------- Crash Bandicoot ----------

  datatype Region = Region(offset: nat, words: nat)

  /** The save area of each game and region; `None` for any other argument. */
  datatype RegionResult = NoRegion | Found(region: Region)

  function RegionOf(name: string): RegionResult {
    if name == "eu2" then Found(Region(0x180, 0x2A4))
    else if name == "eu3" then Found(Region(0x180, 0x590))
    else if name == "us2" then Found(Region(0x280, 0x2A4))
    else if name == "us3" then Found(Region(0x280, 0x590))
    else NoRegion
  }

  const CRASH_SEED: Word := 0x1234_5678
  const CRASH_SLOT: nat := 9

  /** Word `k` of the area, as `od -tu4 -w4` prints it: a file that ends inside it is filled up with zeros. */
  function WordIn(file: seq<Byte>, offset: nat, k: nat): Word {
    FromLittleEndian([ByteIn(file, offset + 4 * k), ByteIn(file, offset + 4 * k + 1),
                      ByteIn(file, offset + 4 * k + 2), ByteIn(file, offset + 4 * k + 3)])
  }

  /** The checksum of the first `n` words, the slot left out. */
  function CrashSum(file: seq<Byte>, offset: nat, n: nat): Word {
    if n == 0 then CRASH_SEED
    else if n - 1 == CRASH_SLOT then CrashSum(file, offset, n - 1)
    else (CrashSum(file, offset, n - 1) + WordIn(file, offset, n - 1)) % MODULUS
  }

  /** The number of words `dd` and `od` find in the area. */
  function WordsPresent(file: seq<Byte>, region: Region): (n: nat)
    ensures n <= region.words
  {
    var bytes := if |file| < region.offset then 0 else |file| - region.offset;
    var words := (bytes + 3) / 4;
    if words < region.words then words else region.words
  }

  /** The file after the repair. */
  function CrashRepaired(file: seq<Byte>, region: Region): seq<Byte> {
    Overwrite(file, region.offset + 4 * CRASH_SLOT, ToLittleEndian(CrashSum(file, region.offset, region.words)))
  }

  /** The game's own check: the word in the slot is the checksum of the others. */
  predicate CrashVerifies(file: seq<Byte>, region: Region) {
    WordIn(file, region.offset, CRASH_SLOT) == CrashSum(file, region.offset, region.words)
  }

  /** Words past the end of the file add nothing. */
  lemma {:induction false} AbsentWordsAddNothing(file: seq<Byte>, offset: nat, n: nat, m: nat)
    requires n <= m && |file| <= offset + 4 * n
    ensures CrashSum(file, offset, m) == CrashSum(file, offset, n)
    decreases m
  {
    if n < m {
      AbsentWordsAddNothing(file, offset, n, m - 1);
      assert WordIn(file, offset, m - 1) == 0;
    }
  }

  /**
   * `fix-crash-checksum.sh`. Only an unknown region makes the script stop before it writes. When the file has
   * nothing in the area, the empty line that is read instead of a number breaks off the loop alone: the seed is
   * written, and the file grows up to the end of the slot.
   */
  method FixCrashChecksum(disk: Disk, mcs: string, regionName: string) returns (ok: bool)
    requires mcs in disk.files
    modifies disk
    ensures ok <==> RegionOf(regionName).Found?
    ensures !ok ==> disk.files == old(disk.files)
    ensures ok ==> disk.files == old(disk.files)[mcs := CrashRepaired(old(disk.files)[mcs], RegionOf(regionName).region)]
  {
    hide WordIn, Overwrite, FromLittleEndian, ToLittleEndian;
    if RegionOf(regionName).NoRegion? {
      return false;
    }
    var region := RegionOf(regionName).region;
    var file := disk.files[mcs];
    var present := WordsPresent(file, region);
    var checksum: Word := 0x1234_5678;
    var pos := 0;
    while pos < present
      invariant 0 <= pos <= present && checksum == CrashSum(file, region.offset, pos)
    {
      if pos != 9 {
        checksum := (checksum as nat + WordIn(file, region.offset, pos)) % MODULUS;
      }
      pos := pos + 1;
    }
    if present < region.words {
      AbsentWordsAddNothing(file, region.offset, present, region.words);
    }
    disk.WriteAt(mcs, region.offset + 9 * 4, ToLittleEndian(checksum));
    return true;
  }

  /** The sum depends on the words outside the slot only. */
  lemma {:induction false} CrashSumDepends(f: seq<Byte>, g: seq<Byte>, offset: nat, n: nat)
    requires forall k :: 0 <= k < n && k != CRASH_SLOT ==> WordIn(f, offset, k) == WordIn(g, offset, k)
    ensures CrashSum(f, offset, n) == CrashSum(g, offset, n)
  {
    if n == 0 {
    } else {
      CrashSumDepends(f, g, offset, n - 1);
    }
  }

  /** The repair writes the slot and no other word. */
  lemma {:induction false} CrashRepairedWords(file: seq<Byte>, region: Region, k: nat)
    ensures k == CRASH_SLOT ==>
              WordIn(CrashRepaired(file, region), region.offset, k) == CrashSum(file, region.offset, region.words)
    ensures k != CRASH_SLOT ==> WordIn(CrashRepaired(file, region), region.offset, k) == WordIn(file, region.offset, k)
  {
    hide FromLittleEndian, ToLittleEndian, CrashSum, Overwrite;
    var sum := CrashSum(file, region.offset, region.words);
    var r, at := CrashRepaired(file, region), region.offset + 4 * CRASH_SLOT;
    var field := ToLittleEndian(sum);
    OverwriteFacts(file, at, field);
    LittleEndianRoundTrip(sum);
    if k == CRASH_SLOT {
      assert [ByteIn(r, at), ByteIn(r, at + 1), ByteIn(r, at + 2), ByteIn(r, at + 3)] == field;
    }
  }

  /** A repaired save verifies, and repairing it again changes nothing, for every file and region. */
  lemma {:induction false} CrashRepairVerifies(file: seq<Byte>, region: Region)
    ensures CrashVerifies(CrashRepaired(file, region), region)
    ensures CrashRepaired(CrashRepaired(file, region), region) == CrashRepaired(file, region)
  {
    hide FromLittleEndian, ToLittleEndian, CrashSum, WordIn;
    var r := CrashRepaired(file, region);
    forall k | 0 <= k < region.words && k != CRASH_SLOT
      ensures WordIn(r, region.offset, k) == WordIn(file, region.offset, k)
    {
      CrashRepairedWords(file, region, k);
    }
    CrashRepairedWords(file, region, CRASH_SLOT);
    CrashSumDepends(r, file, region.offset, region.words);
    OverwriteFacts(file, region.offset + 4 * CRASH_SLOT, ToLittleEndian(CrashSum(file, region.offset, region.words)));
  }

  lemma DifferentTerms(a: Word, b: Word, c: Word)
    requires b != c
    ensures (a + b) % MODULUS != (a + c) % MODULUS
  {}

  /** Changing any one word outside the slot changes the sum. */
  lemma {:induction false} OneWordChanges(f: seq<Byte>, g: seq<Byte>, offset: nat, n: nat, at: nat)
    requires at < n && at != CRASH_SLOT && WordIn(f, offset, at) != WordIn(g, offset, at)
    requires forall k :: 0 <= k < n && k != CRASH_SLOT && k != at ==> WordIn(f, offset, k) == WordIn(g, offset, k)
    ensures CrashSum(f, offset, n) != CrashSum(g, offset, n)
  {
    hide WordIn;
    if at == n - 1 {
      CrashSumDepends(f, g, offset, n - 1);
      DifferentTerms(CrashSum(f, offset, n - 1), WordIn(f, offset, at), WordIn(g, offset, at));
    } else {
      OneWordChanges(f, g, offset, n - 1, at);
      if n - 1 != CRASH_SLOT {
        DifferentTerms(WordIn(f, offset, n - 1), CrashSum(f, offset, n - 1), CrashSum(g, offset, n - 1));
      }
    }
  }

  /** A repaired save altered in one word outside the slot no longer verifies. */
  lemma {:induction false} CrashDetectsOneWord(f: seq<Byte>, g: seq<Byte>, region: Region, at: nat)
    requires CrashVerifies(f, region) && WordIn(f, region.offset, CRASH_SLOT) == WordIn(g, region.offset, CRASH_SLOT)
    requires at < region.words && at != CRASH_SLOT && WordIn(f, region.offset, at) != WordIn(g, region.offset, at)
    requires forall k :: 0 <= k < region.words && k != at ==> WordIn(f, region.offset, k) == WordIn(g, region.offset, k)
    ensures !CrashVerifies(g, region)
  {
    OneWordChanges(f, g, region.offset, region.words, at);
  }

  /** An area of zeros sums up to the seed. */
  lemma {:induction false} CrashSumOfZeros(file: seq<Byte>, offset: nat, n: nat)
    requires forall k :: 0 <= k < n && k != CRASH_SLOT ==> WordIn(file, offset, k) == 0
    ensures CrashSum(file, offset, n) == 0x1234_5678
  {
    if n == 0 {
    } else {
      CrashSumOfZeros(file, offset, n - 1);
    }
  }

  /** The sum of the words themselves, without a modulus: what is added to the seed. */
  function WordTotal(file: seq<Byte>, offset: nat, n: nat): nat {
    if n == 0 then 0 else WordTotal(file, offset, n - 1) + if n - 1 == 9 then 0 else WordIn(file, offset, n - 1)
  }

  lemma WholeMultiples(q: nat, v: nat)
    requires v < MODULUS
    ensures (q * MODULUS + v) % MODULUS == v
  {}

  lemma AddModulo(a: nat, b: nat)
    ensures (a % MODULUS + b) % MODULUS == (a + b) % MODULUS
  {
    var q, r := a / MODULUS, a % MODULUS;
    var u, v := (r + b) / MODULUS, (r + b) % MODULUS;
    assert a + b == (q + u) * MODULUS + v;
    WholeMultiples(q + u, v);
  }

  lemma {:induction false} CrashSumIsTotal(file: seq<Byte>, offset: nat, n: nat)
    ensures CrashSum(file, offset, n) == (0x1234_5678 + WordTotal(file, offset, n)) % MODULUS
  {
    hide WordIn;
    if n == 0 {
    } else {
      CrashSumIsTotal(file, offset, n - 1);
      AddModulo(0x1234_5678 + WordTotal(file, offset, n - 1), WordIn(file, offset, n - 1));
    }
  }

  lemma {:induction false} TotalAdds(f: seq<Byte>, g: seq<Byte>, offset: nat, n: nat, at: nat, d: nat)
    requires at != 9 && at < n ==> WordIn(g, offset, at) == WordIn(f, offset, at) + d
    requires forall k :: 0 <= k < n && k != at ==> WordIn(f, offset, k) == WordIn(g, offset, k)
    ensures WordTotal(g, offset, n) == WordTotal(f, offset, n) + if at == 9 || n <= at then 0 else d
  {
    hide WordIn;
    if n == 0 {
    } else {
      TotalAdds(f, g, offset, n - 1, at, d);
    }
  }

  /** Raising one word outside word 9 by `d` raises the sum by `d`, modulo 2^32; word 9 itself does not matter. */
  lemma {:induction false} CrashSumAdds(f: seq<Byte>, g: seq<Byte>, offset: nat, n: nat, at: nat, d: nat)
    requires at < n && (at != 9 ==> WordIn(g, offset, at) == WordIn(f, offset, at) + d)
    requires forall k :: 0 <= k < n && k != at ==> WordIn(f, offset, k) == WordIn(g, offset, k)
    ensures CrashSum(g, offset, n) == (CrashSum(f, offset, n) + if at == 9 then 0 else d) % MODULUS
  {
    hide WordIn, CrashSum;
    TotalAdds(f, g, offset, n, at, d);
    CrashSumIsTotal(f, offset, n);
    CrashSumIsTotal(g, offset, n);
    AddModulo(0x1234_5678 + WordTotal(f, offset, n), if at == 9 then 0 else d);
  }

  /** A word of the area in figures: four bytes of the file, the lowest first. */
  lemma WordInFigures(file: seq<Byte>, offset: nat, k: nat)
    requires offset + 4 * k + 4 <= |file|
    ensures WordIn(file, offset, k) == Number(file, offset + 4 * k)
  {}

  /**
   * The saves in figures: European ones are repaired at bytes 420 to 423 and American ones at 676 to 679; the words
   * summed are those from byte 384 or 640 on, 676 of them for the second game and 1424 for the third.
   */
  lemma {:induction false} RegionsInFigures(name: string)
    ensures RegionOf("eu2") == Found(Region(384, 676)) && RegionOf("eu3") == Found(Region(384, 1424))
    ensures RegionOf("us2") == Found(Region(640, 676)) && RegionOf("us3") == Found(Region(640, 1424))
    ensures RegionOf(name).Found? <==> name == "eu2" || name == "eu3" || name == "us2" || name == "us3"
  {}

  lemma {:induction false} OnlySlotChanges(file: seq<Byte>, name: string, i: nat)
    requires RegionOf(name).Found? && i < |CrashRepaired(file, RegionOf(name).region)|
    ensures var slot := if name == "eu2" || name == "eu3" then 420 else 676;
            var r := CrashRepaired(file, RegionOf(name).region);
      && |r| == Max(|file|, slot + 4)
      && r[slot..slot + 4] == ToLittleEndian(CrashSum(file, slot - 36, RegionOf(name).region.words))
      && (!(slot <= i < slot + 4) ==> r[i] == if i < |file| then file[i] else 0)
  {
    hide Overwrite, CrashSum, ToLittleEndian;
    var region := RegionOf(name).region;
    OverwriteFacts(file, region.offset + 4 * CRASH_SLOT, ToLittleEndian(CrashSum(file, region.offset, region.words)));
  }

  // ---------- Cool Boarders 4 ----------

  const CB4_OFFSET: nat := 640
  const CB4_BYTES: nat := 6376
  const CB4_SLOT: nat := 7016

  function Total(bytes: seq<Byte>): nat {
    if bytes == [] then 0 else Total(bytes[..|bytes| - 1]) + bytes[|bytes| - 1]
  }

  /** The bytes `dd` finds in the area. */
  function Cb4Area(file: seq<Byte>): (area: seq<Byte>)
    ensures |area| <= CB4_BYTES
  {
    if |file| <= CB4_OFFSET then []
    else if |file| < CB4_SLOT then file[CB4_OFFSET..]
    else file[CB4_OFFSET..CB4_SLOT]
  }

  /** The byte total plus 0 + 1 + ... + (n - 1). */
  function Cb4Sum(area: seq<Byte>): nat {
    Total(area) + |area| * (|area| - 1) / 2
  }

  function Triangle(n: nat): nat {
    if n == 0 then 0 else Triangle(n - 1) + (n - 1)
  }

  lemma {:induction false} TriangleClosed(n: nat)
    ensures 2 * Triangle(n) == n * (n - 1)
  {
    if n == 0 {
    } else {
      TriangleClosed(n - 1);
      assert n * (n - 1) == (n - 1) * (n - 2) + 2 * (n - 1);
    }
  }

  lemma {:induction false} TotalBound(bytes: seq<Byte>)
    ensures Total(bytes) <= 0xFF * |bytes|
  {
    if bytes == [] {
    } else {
      TotalBound(bytes[..|bytes| - 1]);
    }
  }

  lemma {:induction false} TriangleMonotone(m: nat, n: nat)
    requires m < n
    ensures n >= 2 ==> Triangle(m) < Triangle(n)
    ensures Triangle(m) <= Triangle(n)
    decreases n
  {
    if m < n - 1 {
      TriangleMonotone(m, n - 1);
    }
  }

  /** The sum of the whole area stays far below 32 bits, so the script's mask never wraps it. */
  lemma {:induction false} Cb4NeverWraps(area: seq<Byte>)
    requires |area| <= CB4_BYTES
    ensures Total(area) + Triangle(|area|) == Cb4Sum(area) < MODULUS
  {
    TotalBound(area);
    TriangleClosed(|area|);
    TriangleClosed(CB4_BYTES);
    if |area| < CB4_BYTES {
      TriangleMonotone(|area|, CB4_BYTES);
    }
  }

  function Cb4Repaired(file: seq<Byte>): seq<Byte> {
    Overwrite(file, CB4_SLOT, ToLittleEndian(Cb4Sum(Cb4Area(file)) % MODULUS))
  }

  /** The summing loop of `fix-cb4-checksum.sh`. */
  method SumCb4(area: seq<Byte>) returns (checksum: Word)
    requires |area| <= CB4_BYTES
    ensures checksum == Cb4Sum(area)
  {
    hide Cb4Sum;
    var pos := 0;
    checksum := 0;
    assert Total(area[..0]) == 0;
    while pos < |area|
      invariant 0 <= pos <= |area| && checksum == Total(area[..pos]) + Triangle(pos)
    {
      assert area[..pos + 1][..pos] == area[..pos];
      Cb4NeverWraps(area[..pos + 1]);
      checksum := (checksum as nat + area[pos] + pos) % MODULUS;
      pos := pos + 1;
    }
    assert area[..pos] == area;
    Cb4NeverWraps(area);
  }

  /** `fix-cb4-checksum.sh` */
  method FixCb4Checksum(disk: Disk, mcs: string)
    requires mcs in disk.files
    modifies disk
    ensures disk.files == old(disk.files)[mcs := Cb4Repaired(old(disk.files)[mcs])]
  {
    hide Cb4Sum, Overwrite;
    var area := Cb4Area(disk.files[mcs]);
    var checksum := SumCb4(area);
    disk.WriteAt(mcs, 7016, ToLittleEndian(checksum));
  }

  /** The game's own check of a whole save. */
  predicate Cb4Verifies(file: seq<Byte>)
    requires |file| >= CB4_SLOT + 4
  {
    FromLittleEndian(file[CB4_SLOT..CB4_SLOT + 4]) == Cb4Sum(Cb4Area(file))
  }

  /** The total adds up over pieces and is the byte itself for a single one; zeros add nothing. */
  lemma {:induction false} TotalOfPieces(a: seq<Byte>, b: seq<Byte>, c: Byte)
    ensures Total([]) == 0 && Total([c]) == c && Total(a + b) == Total(a) + Total(b)
    decreases |b|
  {
    assert [c][..0] == [];
    if b == [] {
      assert a + b == a;
    } else {
      assert (a + b)[..|a + b| - 1] == a + b[..|b| - 1];
      TotalOfPieces(a, b[..|b| - 1], c);
    }
  }

  /** The repaired file is long enough for the game's check, and its slot holds the sum of the original area. */
  lemma {:induction false} Cb4SlotHoldsSum(file: seq<Byte>)
    ensures var r := Cb4Repaired(file);
            |r| >= CB4_SLOT + 4 && FromLittleEndian(r[CB4_SLOT..CB4_SLOT + 4]) == Cb4Sum(Cb4Area(file))
  {
    hide Overwrite, ToLittleEndian, FromLittleEndian, Cb4Sum;
    Cb4NeverWraps(Cb4Area(file));
    var sum: Word := Cb4Sum(Cb4Area(file));
    OverwriteFacts(file, CB4_SLOT, ToLittleEndian(sum));
    LittleEndianRoundTrip(sum);
  }

  /** The save in figures: of a whole save the bytes 640 to 7015 are summed, and bytes 7016 to 7019 are written. */
  lemma {:induction false} Cb4InFigures(file: seq<Byte>, i: nat)
    requires |file| >= 7020 && i < |file|
    ensures Cb4Area(file) == file[640..7016] && |Cb4Area(file)| == 6376
    ensures |Cb4Repaired(file)| == |file|
    ensures FromLittleEndian(Cb4Repaired(file)[7016..7020]) == Total(file[640..7016]) + 6376 * 6375 / 2
    ensures !(7016 <= i < 7020) ==> Cb4Repaired(file)[i] == file[i]
  {
    hide Overwrite, ToLittleEndian, FromLittleEndian;
    Cb4SlotHoldsSum(file);
    OverwriteFacts(file, CB4_SLOT, ToLittleEndian(Cb4Sum(Cb4Area(file)) % MODULUS));
  }

  lemma {:induction false} TotalOfPadded(bytes: seq<Byte>, n: nat)
    ensures Total(bytes + Zeros(n)) == Total(bytes)
    decreases n
  {
    var padded := bytes + Zeros(n);
    if n == 0 {
      assert padded == bytes;
    } else {
      assert padded[..|padded| - 1] == bytes + Zeros(n - 1);
      TotalOfPadded(bytes, n - 1);
    }
  }

  /** The area of the repaired file: the original one, filled up with zeros when the file was too short. */
  lemma {:induction false} Cb4AreaAfterRepair(file: seq<Byte>)
    ensures Cb4Area(Cb4Repaired(file)) == Cb4Area(file) + Zeros(CB4_BYTES - |Cb4Area(file)|)
  {
    hide Overwrite, ToLittleEndian, Cb4Sum;
    OverwriteFacts(file, CB4_SLOT, ToLittleEndian(Cb4Sum(Cb4Area(file)) % MODULUS));
    var area, r := Cb4Area(file), Cb4Repaired(file);
    var whole, padded := r[CB4_OFFSET..CB4_SLOT], area + Zeros(CB4_BYTES - |area|);
    assert Cb4Area(r) == whole;
    forall i | 0 <= i < CB4_BYTES ensures whole[i] == padded[i] {
      assert i < |area| ==> area[i] == file[CB4_OFFSET + i];
    }
  }

  /**
   * The repair gives a save the game accepts, and is idempotent, exactly when the file reaches the slot: the slot
   * lies just past the summed bytes, and extending a shorter file adds positions to the sum.
   */
  lemma {:induction false} Cb4RepairVerifiesIff(file: seq<Byte>)
    ensures |Cb4Repaired(file)| >= CB4_SLOT + 4
    ensures Cb4Verifies(Cb4Repaired(file)) <==> |file| >= CB4_SLOT
    ensures Cb4Repaired(Cb4Repaired(file)) == Cb4Repaired(file) <==> |file| >= CB4_SLOT
  {
    hide Overwrite, ToLittleEndian, FromLittleEndian, Cb4Sum;
    var area, r := Cb4Area(file), Cb4Repaired(file);
    var padded := area + Zeros(CB4_BYTES - |area|);
    Cb4SlotHoldsSum(file);
    Cb4SlotHoldsSum(r);
    Cb4AreaAfterRepair(file);
    TotalOfPadded(area, CB4_BYTES - |area|);
    Cb4NeverWraps(area);
    Cb4NeverWraps(padded);
    if |file| < CB4_SLOT {
      TriangleMonotone(|area|, CB4_BYTES);
      assert Cb4Sum(padded) != Cb4Sum(area);
    } else {
      assert padded == area;
      OverwriteFacts(file, CB4_SLOT, ToLittleEndian(Cb4Sum(area) % MODULUS));
      OverwriteFacts(r, CB4_SLOT, ToLittleEndian(Cb4Sum(area) % MODULUS));
    }
  }
}
