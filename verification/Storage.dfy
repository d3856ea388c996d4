/** Byte ranges written in place, into files by `dd conv=notrunc` and into memory by stores. */
module Storage {
  import opened Bits

  function Zeros(n: nat): (z: seq<Byte>)
    ensures |z| == n && forall i :: 0 <= i < n ==> z[i] == 0
  {
    seq(n, _ => 0)
  }

  function Max(a: nat, b: nat): nat {
    if a < b then b else a
  }

  /** `s` with `data` written at `at`; a hole past the old end reads as zeros. */
  function Overwrite(s: seq<Byte>, at: nat, data: seq<Byte>): (r: seq<Byte>)
    ensures |r| == Max(|s|, at + |data|)
  {
    var base := if |s| < at then s + Zeros(at - |s|) else s;
    base[..at] + data + if at + |data| < |s| then s[at + |data|..] else []
  }

  /** Four bytes of a file as a number, the lowest first. */
  function Number(file: seq<Byte>, at: nat): nat
    requires at + 4 <= |file|
  {
    var b0: nat, b1: nat, b2: nat, b3: nat := file[at], file[at + 1], file[at + 2], file[at + 3];
    b0 + 256 * b1 + 65536 * b2 + 16777216 * b3
  }

  /** What was written reads back; everything else is as before. */
  lemma OverwriteFacts(s: seq<Byte>, at: nat, data: seq<Byte>)
    ensures var r := Overwrite(s, at, data);
      && r[at..at + |data|] == data
      && (forall i :: at <= i < at + |data| ==> r[i] == data[i - at])
      && (forall i :: 0 <= i < |s| && !(at <= i < at + |data|) ==> r[i] == s[i])
      && (forall i :: |s| <= i < at ==> r[i] == 0)
  {}

  /** A range that a write does not touch reads the same after it. */
  lemma ReadElsewhere(s: seq<Byte>, at: nat, data: seq<Byte>, from: nat, to: nat)
    requires from <= to <= |s| && (to <= at || at + |data| <= from)
    ensures Overwrite(s, at, data)[from..to] == s[from..to]
  {
    OverwriteFacts(s, at, data);
  }

  /** A part of what was written reads back. */
  lemma ReadBack(s: seq<Byte>, at: nat, data: seq<Byte>, from: nat, len: nat)
    requires from + len <= |data|
    ensures Overwrite(s, at, data)[at + from..at + from + len] == data[from..from + len]
  {
    OverwriteFacts(s, at, data);
  }

  /** The files the scripts read and edit in place. */
  class Disk {
    var files: map<string, seq<Byte>>

    function Contents(name: string): seq<Byte>
      reads this
    {
      if name in files then files[name] else []
    }

    /** `dd conv=notrunc bs=1 seek=at of=name` */
    method WriteAt(name: string, at: nat, data: seq<Byte>)
      modifies this
      ensures files == old(files)[name := Overwrite(old(Contents(name)), at, data)]
    {
      files := files[name := Overwrite(Contents(name), at, data)];
    }
  }
}
