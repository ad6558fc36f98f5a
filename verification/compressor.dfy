/** The compression and decompression pipelines of `compressFile` and
    `decompressFile`, with the file reading and writing stripped away. */
module Compressor {
  import opened Wrappers
  import opened Bytes
  import opened Nodes
  import opened FrequencyCounter
  import opened TreeBuilder
  import opened CodeTable
  import opened BitCodec
  import opened BitPacking
  import opened Container

  /** The code table built from the root; `buildCodeTable(nullptr, "")` adds
      nothing. */
  function CodesOf(root: Option<Tree>): Codes {
    if root.Some? then BuildCodeTable(root.value) else map[]
  }

  /** The encoded bit string of `data`. */
  function CompressedBits(data: seq<Byte>): string {
    Encode(data, CodesOf(HuffmanTreeOf(Frequencies(data))))
  }

  /** The fields `compressFile` writes for `data`. */
  function CompressedContents(data: seq<Byte>): Contents {
    var packed := Pack(CompressedBits(data));
    Contents(packed.unusedBits, Entries(Frequencies(data)), packed.bytes)
  }

  /** `compressFile` on input bytes `data`: count, build the tree and the code
      table, encode, pack, write the container. */
  function Compress(data: seq<Byte>): seq<Byte> {
    Write(CompressedContents(data))
  }

  /** `decode` on a root that may be null: no bits decode to nothing, any bit
      would dereference the null root. */
  function DecodeFrom(bits: string, root: Option<Tree>): Option<seq<Byte>> {
    match root
    case None => if |bits| == 0 then Some([]) else None
    case Some(r) => Decode(bits, r)
  }

  /** `decompressFile` on file bytes `blob`: read the container, rebuild the
      table and the tree, unpack the payload, decode. */
  function Decompress(blob: seq<Byte>): Option<seq<Byte>> {
    var c :- Read(blob);
    var root := HuffmanTreeOf(ToMap(c.entries));
    var bits :- Unpack(c.payload, c.unusedBits);
    DecodeFrom(bits, root)
  }

  /** Input made of one byte value repeated at least once. */
  predicate SingleSymbol(data: seq<Byte>) {
    |data| > 0 && forall k :: 0 <= k < |data| ==> data[k] == data[0]
  }

  /** Inputs below 64 MiB: every count and length then fits a 32-bit `int`. */
  const MaxInput: int := 0x400_0000

  /** Every code of the tree built from a table is a bit string of at most
      255 bits: a tree over at most 256 leaves is at most 255 deep. */
  lemma {:induction false} CodesBounded(t: Table)
    ensures forall b :: b in CodesOf(HuffmanTreeOf(t)) ==>
              && IsBitString(CodesOf(HuffmanTreeOf(t))[b])
              && |CodesOf(HuffmanTreeOf(t))[b]| <= 255
  {
    var root := HuffmanTreeOf(t);
    if root.Some? {
      var r := root.value;
      CodeTableFacts(r);
      DepthBelowLeafCount(r);
      assert |Leaves(r)| == |Entries(t)|;
    }
  }

  /** The encoded stream is a bit string of at most 255 bits per input byte. */
  lemma {:induction false} BitsBounded(data: seq<Byte>)
    ensures IsBitString(CompressedBits(data))
    ensures |CompressedBits(data)| <= 255 * |data|
  {
    var codes := CodesOf(HuffmanTreeOf(Frequencies(data)));
    CodesBounded(Frequencies(data));
    EncodeIsBitString(data, codes);
    EncodeLengthBound(data, codes, 255);
  }

  /** Below `MaxInput` bytes every header field fits its 32-bit slot. */
  lemma {:induction false} ContentsFit(data: seq<Byte>)
    requires |data| < MaxInput
    ensures FitsInt32(CompressedContents(data))
  {
    BitsBounded(data);
    FrequenciesCounts(data);
    var t := Frequencies(data);
    var es := Entries(t);
    forall i | 0 <= i < |es|
      ensures IsInt32(es[i].1)
    {
      assert es[i].0 in t && t[es[i].0] == es[i].1;
    }
  }

  /** What the decompressor recovers from the compressor's output: the same
      table, hence the same tree, and the encoded bits. */
  lemma {:induction false} ReadCompressed(data: seq<Byte>)
    requires |data| < MaxInput
    ensures Read(Compress(data)) == Some(CompressedContents(data))
    ensures ToMap(CompressedContents(data).entries) == Frequencies(data)
    ensures Unpack(CompressedContents(data).payload, CompressedContents(data).unusedBits)
            == Some(CompressedBits(data))
  {
    var c := CompressedContents(data);
    ContentsFit(data);
    ReadWrite(c, []);
    assert Write(c) + [] == Write(c);
    ToMapEntries(Frequencies(data));
    BitsBounded(data);
    UnpackPack(CompressedBits(data));
  }

  /** Below `MaxInput` bytes no frequency of the compressor's tree, parent
      sums included, leaves the 32-bit `int` range; the decompressor builds
      the same tree from the table it reads back. */
  lemma {:induction false} TreeFitsInt32(data: seq<Byte>)
    requires |data| < MaxInput
    ensures HuffmanTreeOf(Frequencies(data)).Some? ==>
              FreqsWithin(HuffmanTreeOf(Frequencies(data)).value, MaxInt32)
  {
    var t := Frequencies(data);
    FrequenciesCounts(data);
    FrequenciesTotal(data);
    HuffmanTreeFreqsBounded(t);
    if HuffmanTreeOf(t).Some? {
      FreqsWithinWeaken(HuffmanTreeOf(t).value, Total(t), MaxInt32);
    }
  }

  /** A byte with an entry in the table has a leaf in the tree built from it. */
  lemma {:induction false} EntryHasLeaf(t: Table, r: Tree, b: Byte)
    requires HuffmanTreeOf(t) == Some(r)
    requires b in t
    ensures b in LeafChars(r)
  {
    assert multiset(Entries(t))[(b, t[b])] == 1;
    LeafCharsOfLeaves(r, b, t[b]);
  }

  /** Every byte of `data` has an entry in its frequency table. */
  lemma {:induction false} DataInTable(data: seq<Byte>)
    ensures forall k :: 0 <= k < |data| ==> data[k] in Frequencies(data)
  {
    FrequenciesCounts(data);
    forall k | 0 <= k < |data|
      ensures data[k] in Frequencies(data)
    {
      assert data[k] in data;
    }
  }

  /** Every byte with an entry in the table has a leaf in the tree built
      from it. */
  lemma {:induction false} DataHasLeaves(data: seq<Byte>, t: Table, r: Tree)
    requires HuffmanTreeOf(t) == Some(r)
    requires forall k :: 0 <= k < |data| ==> data[k] in t
    ensures forall k :: 0 <= k < |data| ==> data[k] in LeafChars(r)
  {
    forall k | 0 <= k < |data|
      ensures data[k] in LeafChars(r)
    {
      EntryHasLeaf(t, r, data[k]);
    }
  }

  /** Decompressing the compressor's output decodes the encoded bits with the
      tree rebuilt from the same table. */
  lemma {:induction false} DecompressCompressed(data: seq<Byte>)
    requires |data| < MaxInput
    ensures Decompress(Compress(data))
            == DecodeFrom(CompressedBits(data), HuffmanTreeOf(Frequencies(data)))
  {
    ReadCompressed(data);
  }

  /** Two distinct byte values give a tree whose root is an internal node. */
  lemma {:induction false} TwoSymbolsGiveNode(data: seq<Byte>)
    requires |data| > 0 && !SingleSymbol(data)
    ensures HuffmanTreeOf(Frequencies(data)).Some?
    ensures HuffmanTreeOf(Frequencies(data)).value.Node?
  {
    var t := Frequencies(data);
    var k :| 0 <= k < |data| && data[k] != data[0];
    DataInTable(data);
    FrequenciesTotal(data);
    var r := HuffmanTreeOf(t).value;
    EntryHasLeaf(t, r, data[0]);
    EntryHasLeaf(t, r, data[k]);
  }

  /** `decompressFile(compressFile(data))` gives back `data` whenever it holds
      no byte value or at least two distinct ones. */
  lemma {:induction false} RoundTrip(data: seq<Byte>)
    requires |data| < MaxInput
    requires !SingleSymbol(data)
    ensures Decompress(Compress(data)) == Some(data)
  {
    DecompressCompressed(data);
    var t := Frequencies(data);
    FrequenciesTotal(data);
    if |data| == 0 {
      assert CompressedBits(data) == [];
    } else {
      TwoSymbolsGiveNode(data);
      var r := HuffmanTreeOf(t).value;
      DataInTable(data);
      DataHasLeaves(data, t, r);
      DecodeEncode(data, r);
    }
  }

  /** A single repeated byte gives a one-entry table. */
  lemma {:induction false} SingleSymbolKeys(data: seq<Byte>)
    requires SingleSymbol(data)
    ensures Frequencies(data).Keys == {data[0]}
  {
    FrequenciesCounts(data);
    var t := Frequencies(data);
    forall b: Byte
      ensures b in t <==> b == data[0]
    {
      if b in data {
        var k :| 0 <= k < |data| && data[k] == b;
      }
      assert data[0] in data;
    }
  }

  /** For a single repeated byte the tree is one leaf carrying the input
      length, and every code is empty. */
  lemma {:induction false} SingleSymbolTree(data: seq<Byte>)
    requires SingleSymbol(data)
    ensures HuffmanTreeOf(Frequencies(data)) == Some(Leaf(data[0], |data|))
    ensures CompressedBits(data) == []
  {
    var t := Frequencies(data);
    SingleSymbolKeys(data);
    assert |t| == |t.Keys| == 1;
    FrequenciesTotal(data);
    FrequenciesCounts(data);
    assert data[0] in data;
    var root := HuffmanTreeOf(t);
    assert root.Some? && root.value.Leaf? && root.value.ch in t;
    assert root.value.ch == data[0];
    assert root.value == Leaf(data[0], |data|);
    var codes := CodesOf(root);
    assert codes == map[data[0] := ""];
    EncodeLengthBound(data, codes, 0);
  }

  /** As written, an input of one repeated byte decompresses to nothing: its
      only code is empty, so the payload carries no bits. */
  lemma {:induction false} SingleSymbolLosesData(data: seq<Byte>)
    requires |data| < MaxInput
    requires SingleSymbol(data)
    ensures Decompress(Compress(data)) == Some([])
    ensures Decompress(Compress(data)) != Some(data)
  {
    DecompressCompressed(data);
    SingleSymbolTree(data);
  }

  /** The concrete case: the one-byte file "a". */
  lemma {:induction false} OneByteFileLost()
    ensures Decompress(Compress([0x61])) == Some([])
  {
    SingleSymbolLosesData([0x61]);
  }

  /** `n` copies of byte `b`, none for a non-positive count. */
  function Repeat(b: Byte, n: int): (s: seq<Byte>)
    ensures |s| == if n < 0 then 0 else n
    ensures forall k :: 0 <= k < |s| ==> s[k] == b
    decreases n
  {
    if n <= 0 then [] else [b] + Repeat(b, n - 1)
  }

  /** `decode` with a single-leaf tree handled: the leaf's frequency says how
      many copies of its byte the empty bit stream stands for. */
  function DecodeFromCorrected(bits: string, root: Option<Tree>): Option<seq<Byte>> {
    match root
    case Some(Leaf(c, f)) => if |bits| == 0 then Some(Repeat(c, f)) else None
    case _ => DecodeFrom(bits, root)
  }

  /** `decompressFile` with the single-leaf tree handled. */
  function DecompressCorrected(blob: seq<Byte>): Option<seq<Byte>> {
    var c :- Read(blob);
    var root := HuffmanTreeOf(ToMap(c.entries));
    var bits :- Unpack(c.payload, c.unusedBits);
    DecodeFromCorrected(bits, root)
  }

  /** Decompressing (corrected) the compressor's output decodes the encoded
      bits with the tree rebuilt from the same table. */
  lemma {:induction false} DecompressCorrectedCompressed(data: seq<Byte>)
    requires |data| < MaxInput
    ensures DecompressCorrected(Compress(data))
            == DecodeFromCorrected(CompressedBits(data), HuffmanTreeOf(Frequencies(data)))
  {
    ReadCompressed(data);
  }

  /** With the single-leaf tree handled, every input below `MaxInput` bytes
      survives compression and decompression. */
  lemma {:induction false} CorrectedRoundTrip(data: seq<Byte>)
    requires |data| < MaxInput
    ensures DecompressCorrected(Compress(data)) == Some(data)
  {
    DecompressCorrectedCompressed(data);
    var bits, root := CompressedBits(data), HuffmanTreeOf(Frequencies(data));
    if SingleSymbol(data) {
      SingleSymbolTree(data);
      assert Repeat(data[0], |data|) == data;
    } else {
      RoundTrip(data);
      DecompressCompressed(data);
      if |data| > 0 {
        TwoSymbolsGiveNode(data);
      } else {
        FrequenciesTotal(data);
      }
      assert DecodeFromCorrected(bits, root) == DecodeFrom(bits, root);
    }
  }
}
