/** The compressed file layout written by `compressFile` and read back by
    `decompressFile`:
      [unusedBits: 1][entryCount: 4][entryCount x (ch: 1, freq: 4)][payloadLength: 4][payload]
    The C++ program writes host-native `int`s; this model fixes them as 4-byte
    little-endian two's complement. */
module Container {
  import opened Wrappers
  import opened Bytes

  const TwoTo32: int := 0x1_0000_0000
  const MinInt32: int := -0x8000_0000
  const MaxInt32: int := 0x7FFF_FFFF

  predicate IsInt32(x: int) {
    MinInt32 <= x <= MaxInt32
  }

  /** The 4 bytes of `x` stored in a 32-bit `int` (wrapped modulo 2^32),
      least significant first. */
  function Int32Bytes(x: int): (b: seq<Byte>)
    ensures |b| == 4
  {
    var u := x % TwoTo32;
    var u1 := u / 256;
    var u2 := u1 / 256;
    [u % 256, u1 % 256, u2 % 256, u2 / 256]
  }

  /** The `int` that 4 little-endian bytes hold. */
  function Int32Value(b: seq<Byte>): (x: int)
    requires |b| == 4
    ensures IsInt32(x)
  {
    var b0, b1, b2, b3: int := b[0], b[1], b[2], b[3];
    var u := b0 + 256 * (b1 + 256 * (b2 + 256 * b3));
    if u > MaxInt32 then u - TwoTo32 else u
  }

  /** Every 32-bit value is read back as written. */
  lemma Int32RoundTrip(x: int)
    requires IsInt32(x)
    ensures Int32Value(Int32Bytes(x)) == x
  {
  }

  /** Every 4-byte group is written back as read. */
  lemma Int32BytesRoundTrip(b: seq<Byte>)
    requires |b| == 4
    ensures Int32Bytes(Int32Value(b)) == b
  {
    var b0, b1, b2, b3: int := b[0], b[1], b[2], b[3];
    var u2 := b2 + 256 * b3;
    var u1 := b1 + 256 * u2;
    var u := b0 + 256 * u1;
    assert Int32Value(b) % TwoTo32 == u;
    assert u / 256 == u1 && u % 256 == b0;
    assert u1 / 256 == u2 && u1 % 256 == b1;
    assert u2 / 256 == b3 && u2 % 256 == b2;
  }

  /** What the file holds besides framing: the padding count of the last
      payload byte, the frequency table entries in write order, and the packed
      payload. */
  datatype Contents = Contents(unusedBits: Byte, entries: seq<(Byte, int)>, payload: seq<Byte>)

  /** The fields of `c` fit the 32-bit `int`s they are written as. */
  predicate FitsInt32(c: Contents) {
    && |c.entries| <= MaxInt32
    && (forall i :: 0 <= i < |c.entries| ==> IsInt32(c.entries[i].1))
    && |c.payload| <= MaxInt32
  }

  /** The table entries, each as its byte followed by its 4-byte frequency. */
  function WriteEntries(es: seq<(Byte, int)>): (blob: seq<Byte>)
    ensures |blob| == 5 * |es|
  {
    if |es| == 0 then [] else [es[0].0] + Int32Bytes(es[0].1) + WriteEntries(es[1..])
  }

  /** The bytes `compressFile` writes after opening the output. */
  function Write(c: Contents): (blob: seq<Byte>)
    ensures |blob| == 9 + 5 * |c.entries| + |c.payload|
    ensures blob[0] == c.unusedBits
    ensures blob[1..5] == Int32Bytes(|c.entries|)
    ensures blob[|blob| - |c.payload|..] == c.payload
  {
    [c.unusedBits] + Int32Bytes(|c.entries|) + WriteEntries(c.entries)
      + Int32Bytes(|c.payload|) + c.payload
  }

  /** Reads `n` entries; returns them and the bytes after them. `None` when the
      input ends first (the source then goes on with uninitialised values). */
  function ReadEntries(blob: seq<Byte>, n: nat): Option<(seq<(Byte, int)>, seq<Byte>)>
    decreases n
  {
    if n == 0 then Some(([], blob))
    else if |blob| < 5 then None
    else
      var r :- ReadEntries(blob[5..], n - 1);
      Some(([(blob[0], Int32Value(blob[1..5]))] + r.0, r.1))
  }

  /** `n` filler characters ' ' (the initial contents of the payload buffer). */
  function Spaces(n: nat): (s: seq<Byte>)
    ensures |s| == n
  {
    if n == 0 then [] else Spaces(n - 1) + [0x20]
  }

  /** The reads of `decompressFile`, in the same order and sizes as the writes.
      A negative entry count reads no entries (the loop does not run); a
      negative payload length is `None` (constructing the buffer throws); a
      header or entry cut short is `None` (the source reads uninitialised
      values). A payload cut short is NOT detected: the buffer keeps its
      ' ' filler past the bytes the stream still had. Bytes after the payload
      are ignored. */
  function Read(blob: seq<Byte>): Option<Contents> {
    if |blob| < 5 then None
    else
      var count := Int32Value(blob[1..5]);
      var r :- ReadEntries(blob[5..], if count < 0 then 0 else count);
      var tail := r.1;
      if |tail| < 4 then None
      else
        var len := Int32Value(tail[..4]);
        var avail := tail[4..];
        if len < 0 then None
        else if len <= |avail| then Some(Contents(blob[0], r.0, avail[..len]))
        else Some(Contents(blob[0], r.0, avail + Spaces(len - |avail|)))
  }

  /** The first entry of a written entry list, viewed from the front. */
  lemma {:induction false} WriteEntriesFront(es: seq<(Byte, int)>, rest: seq<Byte>)
    requires |es| > 0
    ensures |WriteEntries(es) + rest| >= 5
    ensures (WriteEntries(es) + rest)[0] == es[0].0
    ensures (WriteEntries(es) + rest)[1..5] == Int32Bytes(es[0].1)
    ensures (WriteEntries(es) + rest)[5..] == WriteEntries(es[1..]) + rest
  {
  }

  lemma {:induction false} ReadWriteEntries(es: seq<(Byte, int)>, rest: seq<Byte>)
    requires forall i :: 0 <= i < |es| ==> IsInt32(es[i].1)
    ensures ReadEntries(WriteEntries(es) + rest, |es|) == Some((es, rest))
  {
    if |es| == 0 {
      assert WriteEntries(es) + rest == rest;
    } else {
      WriteEntriesFront(es, rest);
      ReadWriteEntries(es[1..], rest);
      Int32RoundTrip(es[0].1);
      assert [es[0]] + es[1..] == es;
    }
  }

  /** The written file, viewed as its header, its entries and what follows. */
  lemma WriteShape(c: Contents, trailing: seq<Byte>)
    ensures |Write(c) + trailing| >= 5
    ensures (Write(c) + trailing)[0] == c.unusedBits
    ensures (Write(c) + trailing)[1..5] == Int32Bytes(|c.entries|)
    ensures (Write(c) + trailing)[5..]
            == WriteEntries(c.entries) + (Int32Bytes(|c.payload|) + c.payload + trailing)
  {
  }

  /** Round trip: reading what was written recovers the padding count, the
      entries and the payload, whatever bytes follow. */
  lemma ReadWrite(c: Contents, trailing: seq<Byte>)
    requires FitsInt32(c)
    ensures Read(Write(c) + trailing) == Some(c)
  {
    var n := |c.entries|;
    Int32RoundTrip(n);
    Int32RoundTrip(|c.payload|);
    WriteShape(c, trailing);
    var tail := Int32Bytes(|c.payload|) + c.payload + trailing;
    ReadWriteEntries(c.entries, tail);
    assert tail[..4] == Int32Bytes(|c.payload|);
    assert tail[4..][..|c.payload|] == c.payload;
  }
}
