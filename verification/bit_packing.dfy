/** `convertBitStringToBytes` and `convertBytesToBitString`: packing a string
    of bit characters into bytes, most significant bit first, and back. */
module BitPacking {
  import opened Wrappers
  import opened Bytes

  function Pow2(n: nat): (p: nat)
    ensures p >= 1
  {
    if n == 0 then 1 else 2 * Pow2(n - 1)
  }

  /** The bit a character contributes: only '1' sets a bit. */
  function BitValue(c: char): nat {
    if c == '1' then 1 else 0
  }

  /** The bit string as the packer reads it: '1' stays '1', anything else is '0'. */
  function Normalize(s: string): string {
    seq(|s|, i requires 0 <= i < |s| => if s[i] == '1' then '1' else '0')
  }

  /** The inner packing loop over one group of characters: shift the byte left
      and OR in the next bit. The result always fits in `|chunk|` bits, so the
      8-bit `unsigned char` never loses a bit. */
  function PackByte(chunk: string): (b: nat)
    ensures b < Pow2(|chunk|)
    decreases |chunk|
  {
    if |chunk| == 0 then 0
    else 2 * PackByte(chunk[..|chunk| - 1]) + BitValue(chunk[|chunk| - 1])
  }

  /** The outer packing loop: one byte per 8 characters. */
  function PackChunks(p: string): (bytes: seq<Byte>)
    requires |p| % 8 == 0
    ensures |bytes| == |p| / 8
    decreases |p|
  {
    if |p| == 0 then []
    else
      assert Pow2(8) == 256;
      [PackByte(p[..8])] + PackChunks(p[8..])
  }

  /** The packed bytes and the count of zero padding bits in the last byte. */
  datatype Packed = Packed(bytes: seq<Byte>, unusedBits: Byte)

  /** `convertBitStringToBytes`: pad with '0' to a multiple of 8 characters and
      pack. The padding count is below 8, is 0 exactly when no padding is
      needed, and the output has `ceil(|bits| / 8)` bytes. */
  function Pack(bits: string): (r: Packed)
    ensures r.unusedBits < 8
    ensures r.unusedBits == 0 <==> |bits| % 8 == 0
    ensures 8 * |r.bytes| == |bits| + r.unusedBits
    ensures |r.bytes| == (|bits| + 7) / 8
  {
    var remainder := |bits| % 8;
    var unused := if remainder != 0 then 8 - remainder else 0;
    Packed(PackChunks(bits + Zeros(unused)), unused)
  }

  /** The `n` low bits of `v` as characters, most significant first:
      `(byte & (1 << j)) ? '1' : '0'` for `j = n - 1` down to 0. */
  function BitsMsb(v: nat, n: nat): (s: string)
    ensures |s| == n
    ensures IsBitString(s)
  {
    if n == 0 then [] else BitsMsb(v / 2, n - 1) + [if v % 2 == 1 then '1' else '0']
  }

  /** Every byte expanded to its 8 bit characters, in order. */
  function UnpackChunks(bytes: seq<Byte>): (s: string)
    ensures |s| == 8 * |bytes|
    ensures IsBitString(s)
  {
    if |bytes| == 0 then [] else BitsMsb(bytes[0], 8) + UnpackChunks(bytes[1..])
  }

  /** `convertBytesToBitString`: expand the bytes and drop the last `unusedBits`
      characters; an empty byte string gives an empty bit string whatever
      `unusedBits` is. Dropping more characters than there are (undefined
      behaviour in the source) is `None`. */
  function Unpack(bytes: seq<Byte>, unusedBits: Byte): (r: Option<string>)
    ensures |bytes| == 0 ==> r == Some([])
    ensures r.Some? <==> (|bytes| == 0 || unusedBits <= 8 * |bytes|)
    ensures r.Some? && |bytes| > 0 ==> |r.value| == 8 * |bytes| - unusedBits
  {
    var s := UnpackChunks(bytes);
    if unusedBits > 0 && |s| > 0 then
      if unusedBits <= |s| then Some(s[..|s| - unusedBits]) else None
    else Some(s)
  }

  lemma NormalizeConcat(a: string, b: string)
    ensures Normalize(a + b) == Normalize(a) + Normalize(b)
  {
  }

  lemma NormalizeBitString(s: string)
    requires IsBitString(s)
    ensures Normalize(s) == s
  {
  }

  /** Expanding a packed group gives back the group as the packer read it. */
  lemma {:induction false} BitsOfPackByte(chunk: string)
    ensures BitsMsb(PackByte(chunk), |chunk|) == Normalize(chunk)
    decreases |chunk|
  {
    if |chunk| > 0 {
      var init := chunk[..|chunk| - 1];
      BitsOfPackByte(init);
      var v := PackByte(chunk);
      assert v / 2 == PackByte(init);
      assert v % 2 == BitValue(chunk[|chunk| - 1]);
      assert chunk == init + [chunk[|chunk| - 1]];
      NormalizeConcat(init, [chunk[|chunk| - 1]]);
    }
  }

  /** Packing the expansion of a value of `n` bits gives the value back. */
  lemma {:induction false} PackByteOfBits(v: nat, n: nat)
    requires v < Pow2(n)
    ensures PackByte(BitsMsb(v, n)) == v
  {
    if n > 0 {
      PackByteOfBits(v / 2, n - 1);
      var s := BitsMsb(v, n);
      assert s[..n - 1] == BitsMsb(v / 2, n - 1);
    }
  }

  /** Bytes -> bits -> bytes is the identity. */
  lemma {:induction false} PackUnpackChunks(bytes: seq<Byte>)
    ensures PackChunks(UnpackChunks(bytes)) == bytes
  {
    if |bytes| > 0 {
      var s := UnpackChunks(bytes);
      PackUnpackChunks(bytes[1..]);
      assert s[..8] == BitsMsb(bytes[0], 8);
      assert s[8..] == UnpackChunks(bytes[1..]);
      assert Pow2(8) == 256;
      PackByteOfBits(bytes[0], 8);
    }
  }

  /** Bits -> bytes -> bits gives the bits as the packer read them. */
  lemma {:induction false} UnpackPackChunks(p: string)
    requires |p| % 8 == 0
    ensures UnpackChunks(PackChunks(p)) == Normalize(p)
    decreases |p|
  {
    if |p| > 0 {
      UnpackPackChunks(p[8..]);
      BitsOfPackByte(p[..8]);
      assert p == p[..8] + p[8..];
      NormalizeConcat(p[..8], p[8..]);
      var bytes := PackChunks(p);
      assert bytes[1..] == PackChunks(p[8..]);
    }
  }

  /** The padding bits are zeros: the packed bytes expand to the input (as the
      packer reads it) followed by `unusedBits` characters '0'. */
  lemma PackPadsWithZeros(bits: string)
    ensures UnpackChunks(Pack(bits).bytes) == Normalize(bits) + Zeros(Pack(bits).unusedBits)
  {
    var u := Pack(bits).unusedBits;
    UnpackPackChunks(bits + Zeros(u));
    NormalizeConcat(bits, Zeros(u));
    NormalizeBitString(Zeros(u));
  }

  /** Any character other than '1' packs as a 0 bit. */
  lemma PackReadsOnlyOnes(bits: string)
    ensures Pack(bits) == Pack(Normalize(bits))
  {
    var u := Pack(bits).unusedBits;
    var p := bits + Zeros(u);
    UnpackPackChunks(p);
    PackUnpackChunks(PackChunks(p));
    NormalizeConcat(bits, Zeros(u));
    NormalizeBitString(Zeros(u));
    assert Normalize(bits) + Zeros(u) == Normalize(p);
  }

  /** Round trip: a '0'/'1' string packed and unpacked with its padding count
      comes back unchanged (the empty string included). */
  lemma UnpackPack(bits: string)
    requires IsBitString(bits)
    ensures Unpack(Pack(bits).bytes, Pack(bits).unusedBits) == Some(bits)
  {
    var r := Pack(bits);
    PackPadsWithZeros(bits);
    NormalizeBitString(bits);
    var s := UnpackChunks(r.bytes);
    assert s == bits + Zeros(r.unusedBits);
    if r.unusedBits > 0 {
      assert s[..|s| - r.unusedBits] == bits;
    } else {
      assert s == bits;
    }
  }

  /** Round trip the other way: expanding bytes and packing the result gives
      the same bytes with no padding. */
  lemma PackUnpack(bytes: seq<Byte>)
    ensures Pack(UnpackChunks(bytes)) == Packed(bytes, 0)
  {
    PackUnpackChunks(bytes);
    assert UnpackChunks(bytes) + Zeros(0) == UnpackChunks(bytes);
  }
}
