/** The Huffman tree node and the priority-queue ordering `CompareNode`. */
module Nodes {
  import opened Wrappers
  import opened Bytes

  /** A tree node: a leaf holds a byte and its frequency; an internal node holds
      the combined frequency and exactly two children. A leaf is what the
      `Node(character, frequency)` constructor yields (both children null). */
  datatype Tree = Leaf(ch: Byte, freq: int) | Node(freq: int, left: Tree, right: Tree)

  /** The `ch` field the comparator reads: leaves carry their byte, internal
      nodes are created with '\0'. `char` is compared signed. */
  function TieKey(t: Tree): int {
    match t
    case Leaf(c, _) => SignedChar(c)
    case Node(_, _, _) => 0
  }

  /** `CompareNode(l, r)`: true when `l` must come out of the max-heap AFTER `r`,
      that is when `l` is strictly greater in the `(freq, ch)` order. */
  predicate Compare(l: Tree, r: Tree) {
    if l.freq == r.freq then TieKey(l) > TieKey(r) else l.freq > r.freq
  }

  /** The lexicographic `(freq, signed ch)` order the heap top is minimal in. */
  predicate KeyLeq(a: Tree, b: Tree) {
    a.freq < b.freq || (a.freq == b.freq && TieKey(a) <= TieKey(b))
  }

  /** `CompareNode` is the strict converse of the `(freq, ch)` order. */
  lemma CompareIsKeyGreater(l: Tree, r: Tree)
    ensures Compare(l, r) <==> !KeyLeq(l, r)
    ensures Compare(l, r) <==> (KeyLeq(r, l) && !KeyLeq(l, r))
  {
  }

  /** `CompareNode` is a strict weak order: irreflexive, asymmetric, transitive,
      and incomparability (equal `(freq, ch)`) is transitive too. */
  lemma CompareIsStrictWeakOrder()
    ensures forall a :: !Compare(a, a)
    ensures forall a, b :: Compare(a, b) ==> !Compare(b, a)
    ensures forall a, b, c :: Compare(a, b) && Compare(b, c) ==> Compare(a, c)
    ensures forall a, b, c ::
              !Compare(a, b) && !Compare(b, a) && !Compare(b, c) && !Compare(c, b)
              ==> !Compare(a, c) && !Compare(c, a)
  {
  }

  /** Nodes with equal frequency and equal `ch` are incomparable; in particular
      any two internal nodes of equal frequency, and an internal node and the
      leaf of byte 0 of equal frequency. */
  lemma EqualKeysIncomparable(a: Tree, b: Tree)
    requires a.freq == b.freq
    requires TieKey(a) == TieKey(b) || (a.Node? && b.Node?) || (a.Node? && b == Leaf(0, a.freq))
    ensures !Compare(a, b) && !Compare(b, a)
  {
  }

  /** The tie-break is by SIGNED `char`: at equal frequency byte 0x80 leaves the
      heap before byte 0x7F, every byte 0x80..0xFF before an internal node, and
      an internal node before every byte 0x01..0x7F. */
  lemma TieBreakIsSigned(f: int, t: Tree)
    requires t.Node? && t.freq == f
    ensures Compare(Leaf(0x7F, f), Leaf(0x80, f))
    ensures !Compare(Leaf(0x80, f), Leaf(0x7F, f))
    ensures forall b: Byte :: 0x80 <= b ==> Compare(t, Leaf(b, f))
    ensures forall b: Byte :: 0 < b < 0x80 ==> Compare(Leaf(b, f), t)
  {
  }

  /** Every internal node's frequency is the sum of its children's. */
  predicate WellFormed(t: Tree) {
    match t
    case Leaf(_, _) => true
    case Node(f, l, r) => f == l.freq + r.freq && WellFormed(l) && WellFormed(r)
  }

  /** The `(ch, freq)` pairs at the leaves, with multiplicity. */
  function Leaves(t: Tree): multiset<(Byte, int)> {
    match t
    case Leaf(c, f) => multiset{(c, f)}
    case Node(_, l, r) => Leaves(l) + Leaves(r)
  }

  /** The bytes held by the leaves. */
  function LeafChars(t: Tree): set<Byte> {
    match t
    case Leaf(c, _) => {c}
    case Node(_, l, r) => LeafChars(l) + LeafChars(r)
  }

  /** Number of edges on the longest root-to-leaf path. */
  function Depth(t: Tree): nat {
    match t
    case Leaf(_, _) => 0
    case Node(_, l, r) => 1 + (if Depth(l) < Depth(r) then Depth(r) else Depth(l))
  }

  /** Walks `path` down from `t` ('0' goes left, any other character right);
      `None` when the walk would step below a leaf. */
  function Follow(t: Tree, path: string): Option<Tree>
    decreases |path|
  {
    if |path| == 0 then Some(t)
    else match t
      case Leaf(_, _) => None
      case Node(_, l, r) => Follow(if path[0] == '0' then l else r, path[1..])
  }

  /** `path` leads from `t` exactly to a leaf holding `c`. */
  predicate ReachesLeaf(t: Tree, path: string, c: Byte) {
    var n := Follow(t, path);
    n.Some? && n.value.Leaf? && n.value.ch == c
  }

  /** A byte has a leaf exactly when some `(byte, freq)` pair is among the leaves. */
  lemma {:induction false} LeafCharsOfLeaves(t: Tree, c: Byte, f: int)
    requires (c, f) in Leaves(t)
    ensures c in LeafChars(t)
  {
    match t
    case Leaf(_, _) =>
    case Node(_, l, r) =>
      if (c, f) in Leaves(l) {
        LeafCharsOfLeaves(l, c, f);
      } else {
        LeafCharsOfLeaves(r, c, f);
      }
  }

  /** A tree with `n` leaves is at most `n - 1` deep; a leaf is the only tree
      with a single leaf. */
  lemma {:induction false} DepthBelowLeafCount(t: Tree)
    ensures Depth(t) < |Leaves(t)|
    ensures t.Node? ==> |Leaves(t)| >= 2
  {
    match t
    case Leaf(_, _) =>
    case Node(_, l, r) =>
      DepthBelowLeafCount(l);
      DepthBelowLeafCount(r);
  }

  /** Every node's frequency, the parent sums included, lies in `0..m`. */
  predicate FreqsWithin(t: Tree, m: int) {
    && 0 <= t.freq <= m
    && match t
       case Leaf(_, _) => true
       case Node(_, l, r) => FreqsWithin(l, m) && FreqsWithin(r, m)
  }

  /** A well-formed tree whose leaf counts are non-negative has a
      non-negative frequency. */
  lemma {:induction false} FreqNonNegative(t: Tree)
    requires WellFormed(t)
    requires forall p :: p in Leaves(t) ==> p.1 >= 0
    ensures t.freq >= 0
  {
    match t
    case Leaf(c, f) =>
      assert (c, f) in Leaves(t);
    case Node(_, l, r) =>
      FreqNonNegative(l);
      FreqNonNegative(r);
  }

  /** In a well-formed tree with non-negative leaf counts no parent sum
      exceeds the root's frequency: a bound on the root bounds every node. */
  lemma {:induction false} FreqsWithinRoot(t: Tree, m: int)
    requires WellFormed(t)
    requires forall p :: p in Leaves(t) ==> p.1 >= 0
    requires t.freq <= m
    ensures FreqsWithin(t, m)
  {
    FreqNonNegative(t);
    match t
    case Leaf(_, _) =>
    case Node(_, l, r) =>
      FreqNonNegative(l);
      FreqNonNegative(r);
      FreqsWithinRoot(l, m);
      FreqsWithinRoot(r, m);
  }

  lemma {:induction false} FreqsWithinWeaken(t: Tree, m: int, m': int)
    requires FreqsWithin(t, m) && m <= m'
    ensures FreqsWithin(t, m')
  {
    match t
    case Leaf(_, _) =>
    case Node(_, l, r) =>
      FreqsWithinWeaken(l, m, m');
      FreqsWithinWeaken(r, m, m');
  }
}
