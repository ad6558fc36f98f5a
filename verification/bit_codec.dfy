/** `Huffman::encode` and `Huffman::decode`. */
module BitCodec {
  import opened Wrappers
  import opened Bytes
  import opened Nodes
  import opened FrequencyCounter
  import opened CodeTable

  /** `codeTable[ch]`: a byte without a code reads as the empty code (the
      lookup default-inserts an empty string). */
  function CodeOf(codes: Codes, c: Byte): string {
    if c in codes then codes[c] else ""
  }

  /** `encode`: the codes of the bytes, one after another, in input order. */
  function Encode(data: seq<Byte>, codes: Codes): string
    decreases |data|
  {
    if |data| == 0 then ""
    else Encode(data[..|data| - 1], codes) + CodeOf(codes, data[|data| - 1])
  }

  /** Appending a byte appends its code. */
  lemma EncodeSnoc(s: seq<Byte>, c: Byte, codes: Codes)
    ensures Encode(s + [c], codes) == Encode(s, codes) + CodeOf(codes, c)
  {
  }

  /** Encoding distributes over concatenation of the input. */
  lemma {:induction false} EncodeConcat(a: seq<Byte>, b: seq<Byte>, codes: Codes)
    ensures Encode(a + b, codes) == Encode(a, codes) + Encode(b, codes)
    decreases |b|
  {
    if |b| == 0 {
      assert a + b == a;
    } else {
      var init, last := b[..|b| - 1], b[|b| - 1];
      var ai := a + init;
      assert b == init + [last];
      assert a + b == ai + [last];
      EncodeConcat(a, init, codes);
      EncodeSnoc(ai, last, codes);
      EncodeSnoc(init, last, codes);
      var ea, ei, c := Encode(a, codes), Encode(init, codes), CodeOf(codes, last);
      assert (ea + ei) + c == ea + (ei + c);
    }
  }

  /** With '0'/'1' codes the output is a '0'/'1' string. */
  lemma {:induction false} EncodeIsBitString(data: seq<Byte>, codes: Codes)
    requires forall c :: c in codes ==> IsBitString(codes[c])
    ensures IsBitString(Encode(data, codes))
    decreases |data|
  {
    if |data| > 0 {
      EncodeIsBitString(data[..|data| - 1], codes);
    }
  }

  /** With codes of at most `m` bits, `n` bytes encode to at most `m * n` bits. */
  lemma {:induction false} EncodeLengthBound(data: seq<Byte>, codes: Codes, m: nat)
    requires forall c :: c in codes ==> |codes[c]| <= m
    ensures |Encode(data, codes)| <= m * |data|
    decreases |data|
  {
    if |data| > 0 {
      EncodeLengthBound(data[..|data| - 1], codes, m);
      assert m * |data| == m * (|data| - 1) + m;
    }
  }

  /** Sum over the keys `lo..255` of `freq(c) * |code(c)|`. */
  function CodeBitsFrom(t: Table, codes: Codes, lo: nat): int
    requires lo <= 256
    decreases 256 - lo
  {
    if lo == 256 then 0 else Count(t, lo) * |CodeOf(codes, lo)| + CodeBitsFrom(t, codes, lo + 1)
  }

  lemma {:induction false} CodeBitsFromEmpty(codes: Codes, lo: nat)
    requires lo <= 256
    ensures CodeBitsFrom(map[], codes, lo) == 0
    decreases 256 - lo
  {
    if lo < 256 {
      CodeBitsFromEmpty(codes, lo + 1);
    }
  }

  lemma {:induction false} CodeBitsFromIncrement(t: Table, codes: Codes, c: Byte, lo: nat)
    requires lo <= 256
    ensures CodeBitsFrom(t[c := Count(t, c) + 1], codes, lo)
            == CodeBitsFrom(t, codes, lo) + (if lo <= c then |CodeOf(codes, c)| else 0)
    decreases 256 - lo
  {
    if lo < 256 {
      CodeBitsFromIncrement(t, codes, c, lo + 1);
      if lo == c {
        var w := |CodeOf(codes, c)|;
        assert (Count(t, c) + 1) * w == Count(t, c) * w + w;
      }
    }
  }

  /** The encoded length is the sum over the byte values of
      `frequency * code length`. */
  lemma {:induction false} EncodeLength(data: seq<Byte>, codes: Codes)
    ensures |Encode(data, codes)| == CodeBitsFrom(Frequencies(data), codes, 0)
    decreases |data|
  {
    if |data| == 0 {
      CodeBitsFromEmpty(codes, 0);
    } else {
      var init, c := data[..|data| - 1], data[|data| - 1];
      var t0 := Frequencies(init);
      assert Frequencies(data) == t0[c := Count(t0, c) + 1];
      assert Encode(data, codes) == Encode(init, codes) + CodeOf(codes, c);
      EncodeLength(init, codes);
      CodeBitsFromIncrement(t0, codes, c, 0);
    }
  }

  /** `s` in front of a successful result; failure stays failure. */
  function Prefixed(s: seq<Byte>, o: Option<seq<Byte>>): Option<seq<Byte>> {
    if o.Some? then Some(s + o.value) else None
  }

  lemma PrefixedAssoc(a: seq<Byte>, b: seq<Byte>, o: Option<seq<Byte>>)
    ensures Prefixed(a, Prefixed(b, o)) == Prefixed(a + b, o)
    ensures Prefixed([], o) == o
  {
    if o.Some? {
      assert a + (b + o.value) == (a + b) + o.value;
      assert [] + o.value == o.value;
    }
  }

  /** The decode loop from node `cur` on: '0' goes left, any other character
      right; reaching a leaf emits its byte and restarts at `root`. Stepping
      below a leaf (the source would follow a null child) is `None`. */
  function Walk(bits: string, root: Tree, cur: Tree): Option<seq<Byte>>
    decreases |bits|
  {
    if |bits| == 0 then Some([])
    else match cur
      case Leaf(_, _) => None
      case Node(_, l, r) =>
        var next := if bits[0] == '0' then l else r;
        if next.Leaf? then Prefixed([next.ch], Walk(bits[1..], root, root))
        else Walk(bits[1..], root, next)
  }

  /** `decode(encodedData, root)`. */
  function Decode(bits: string, root: Tree): Option<seq<Byte>> {
    Walk(bits, root, root)
  }

  /** `decode` as the source writes it: one loop over the bits with a current
      node that is reset to the root after each emitted byte. */
  method DecodeStream(bits: string, root: Tree) returns (out: Option<seq<Byte>>)
    ensures out == Decode(bits, root)
  {
    var decoded: seq<Byte> := [];
    var cur := root;
    var i := 0;
    assert bits[0..] == bits;
    PrefixedAssoc([], [], Decode(bits, root));
    while i < |bits|
      invariant 0 <= i <= |bits|
      invariant Decode(bits, root) == Prefixed(decoded, Walk(bits[i..], root, cur))
    {
      assert bits[i..][0] == bits[i] && bits[i..][1..] == bits[i + 1..];
      if cur.Leaf? {
        return None;
      }
      var next := if bits[i] == '0' then cur.left else cur.right;
      if next.Leaf? {
        PrefixedAssoc(decoded, [next.ch], Walk(bits[i + 1..], root, root));
        decoded := decoded + [next.ch];
        cur := root;
      } else {
        cur := next;
      }
      i := i + 1;
    }
    assert decoded + [] == decoded;
    return Some(decoded);
  }

  /** Walking a byte's code from an internal node emits exactly that byte and
      returns to the root. */
  lemma {:induction false} WalkThroughCode(root: Tree, cur: Tree, p: string, rest: string, c: Byte)
    requires cur.Node? && |p| > 0 && ReachesLeaf(cur, p, c)
    ensures Walk(p + rest, root, cur) == Prefixed([c], Walk(rest, root, root))
    decreases |p|
  {
    var next := if p[0] == '0' then cur.left else cur.right;
    assert (p + rest)[0] == p[0];
    assert (p + rest)[1..] == p[1..] + rest;
    assert Follow(cur, p) == Follow(next, p[1..]);
    if |p| == 1 {
      assert p[1..] + rest == rest;
    } else {
      assert next.Node?;
      WalkThroughCode(root, next, p[1..], rest, c);
    }
  }

  /** A bit run that stays on internal nodes emits nothing. */
  lemma {:induction false} WalkPartial(root: Tree, cur: Tree, p: string)
    requires cur.Node?
    requires Follow(cur, p).Some? && Follow(cur, p).value.Node?
    ensures Walk(p, root, cur) == Some([])
    decreases |p|
  {
    if |p| > 0 {
      var next := if p[0] == '0' then cur.left else cur.right;
      assert Follow(cur, p) == Follow(next, p[1..]);
      assert next.Node?;
      WalkPartial(root, next, p[1..]);
    }
  }

  /** Decoding the encoding of `data`, followed by any further bits, yields
      `data` and then whatever those bits decode to on their own. */
  lemma {:induction false} WalkEncoded(data: seq<Byte>, root: Tree, rest: string)
    requires root.Node?
    requires forall k :: 0 <= k < |data| ==> data[k] in LeafChars(root)
    ensures Walk(Encode(data, BuildCodeTable(root)) + rest, root, root)
            == Prefixed(data, Walk(rest, root, root))
    decreases |data|
  {
    var codes := BuildCodeTable(root);
    if |data| == 0 {
      assert Encode(data, codes) + rest == rest;
      PrefixedAssoc([], [], Walk(rest, root, root));
    } else {
      var init, c := data[..|data| - 1], data[|data| - 1];
      var code := codes[c];
      CodeTableFacts(root);
      assert Encode(data, codes) + rest == Encode(init, codes) + (code + rest);
      WalkEncoded(init, root, code + rest);
      WalkThroughCode(root, root, code, rest, c);
      PrefixedAssoc(init, [c], Walk(rest, root, root));
      assert init + [c] == data;
    }
  }

  /** Round trip: for a tree with at least two leaves, decoding the encoding
      of data whose bytes all have leaves gives the data back. */
  lemma DecodeEncode(data: seq<Byte>, root: Tree)
    requires root.Node?
    requires forall k :: 0 <= k < |data| ==> data[k] in LeafChars(root)
    ensures Decode(Encode(data, BuildCodeTable(root)), root) == Some(data)
  {
    WalkEncoded(data, root, "");
    assert Encode(data, BuildCodeTable(root)) + "" == Encode(data, BuildCodeTable(root));
    assert data + [] == data;
  }

  /** A trailing bit run that does not reach a leaf emits nothing. */
  lemma TrailingBitsIgnored(data: seq<Byte>, root: Tree, tail: string)
    requires root.Node?
    requires forall k :: 0 <= k < |data| ==> data[k] in LeafChars(root)
    requires Follow(root, tail).Some? && Follow(root, tail).value.Node?
    ensures Decode(Encode(data, BuildCodeTable(root)) + tail, root) == Some(data)
  {
    WalkEncoded(data, root, tail);
    WalkPartial(root, root, tail);
    assert data + [] == data;
  }
}
