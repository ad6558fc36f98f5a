/** `Huffman::buildTree`: the greedy merge loop over a min-priority queue. */
module TreeBuilder {
  import opened Wrappers
  import opened Bytes
  import opened Nodes
  import opened FrequencyCounter

  /** `q[i]` may be the heap top: nothing in `q` ranks strictly before it. */
  predicate IsTop(q: seq<Tree>, i: int) {
    0 <= i < |q| && forall j :: 0 <= j < |q| ==> !Compare(q[i], q[j])
  }

  /** The heap top is a minimum of the queue in the `(freq, signed ch)` order. */
  lemma TopIsKeyMinimum(q: seq<Tree>, i: int)
    requires 0 <= i < |q|
    ensures IsTop(q, i) <==> forall j :: 0 <= j < |q| ==> KeyLeq(q[i], q[j])
  {
  }

  /** A heap top, chosen as the earliest-queued among the minimal nodes. */
  function PickTop(q: seq<Tree>): (i: nat)
    requires |q| > 0
    ensures IsTop(q, i)
    ensures forall k :: 0 <= k < i ==> Compare(q[k], q[i])
    decreases |q|
  {
    if |q| == 1 then 0
    else
      var init := q[..|q| - 1];
      assert forall k :: 0 <= k < |init| ==> init[k] == q[k];
      var i := PickTop(init);
      if Compare(q[i], q[|q| - 1]) then |q| - 1 else i
  }

  /** `minHeap.pop()` of the element at position `i`. */
  function Remove(q: seq<Tree>, i: nat): (r: seq<Tree>)
    requires i < |q|
    ensures |r| == |q| - 1
    ensures forall k :: 0 <= k < |r| ==> r[k] == if k < i then q[k] else q[k + 1]
  {
    q[..i] + q[i + 1..]
  }

  /** Popping removes exactly one copy of the popped node. */
  lemma RemoveMultiset(q: seq<Tree>, i: nat)
    requires i < |q|
    ensures multiset(Remove(q, i)) == multiset(q) - multiset{q[i]}
  {
    assert q == q[..i] + [q[i]] + q[i + 1..];
  }

  /** One turn of the merge loop: pop `q[i]` as `left`, then the element at
      position `j` of what remains as `right`, and push their parent. */
  function Merge(q: seq<Tree>, i: nat, j: nat): seq<Tree>
    requires i < |q| && j < |q| - 1
  {
    var left := q[i];
    var rest := Remove(q, i);
    var right := rest[j];
    Remove(rest, j) + [Node(left.freq + right.freq, left, right)]
  }

  /** A turn of the merge loop that pops two heap tops, in order. */
  ghost predicate GreedyStep(q: seq<Tree>, q': seq<Tree>) {
    exists i: nat, j: nat ::
      i < |q| && j < |q| - 1 && IsTop(q, i) && IsTop(Remove(q, i), j) && q' == Merge(q, i, j)
  }

  /** All leaves of the queued trees. */
  function QueueLeaves(q: seq<Tree>): multiset<(Byte, int)> {
    if |q| == 0 then multiset{} else Leaves(q[0]) + QueueLeaves(q[1..])
  }

  /** Sum of the frequencies of the queued trees. */
  function QueueFreq(q: seq<Tree>): int {
    if |q| == 0 then 0 else q[0].freq + QueueFreq(q[1..])
  }

  predicate AllWellFormed(q: seq<Tree>) {
    forall k :: 0 <= k < |q| ==> WellFormed(q[k])
  }

  lemma {:induction false} QueueLeavesConcat(a: seq<Tree>, b: seq<Tree>)
    ensures QueueLeaves(a + b) == QueueLeaves(a) + QueueLeaves(b)
  {
    if |a| > 0 {
      var ab := a + b;
      assert ab[0] == a[0] && ab[1..] == a[1..] + b;
      QueueLeavesConcat(a[1..], b);
    } else {
      assert a + b == b;
    }
  }

  lemma {:induction false} QueueFreqConcat(a: seq<Tree>, b: seq<Tree>)
    ensures QueueFreq(a + b) == QueueFreq(a) + QueueFreq(b)
  {
    if |a| > 0 {
      var ab := a + b;
      assert ab[0] == a[0] && ab[1..] == a[1..] + b;
      QueueFreqConcat(a[1..], b);
    } else {
      assert a + b == b;
    }
  }

  lemma QueueConcat(a: seq<Tree>, b: seq<Tree>)
    ensures QueueLeaves(a + b) == QueueLeaves(a) + QueueLeaves(b)
    ensures QueueFreq(a + b) == QueueFreq(a) + QueueFreq(b)
  {
    QueueLeavesConcat(a, b);
    QueueFreqConcat(a, b);
  }

  /** The queue after a pop, viewed from its front. */
  lemma RemoveFront(q: seq<Tree>, i: nat)
    requires 0 < i < |q|
    ensures Remove(q, i)[0] == q[0]
    ensures Remove(q, i)[1..] == Remove(q[1..], i - 1)
  {
  }

  lemma {:induction false} RemoveLeaves(q: seq<Tree>, i: nat)
    requires i < |q|
    ensures QueueLeaves(Remove(q, i)) + Leaves(q[i]) == QueueLeaves(q)
    decreases i
  {
    if i == 0 {
      assert Remove(q, i) == q[1..];
    } else {
      RemoveLeaves(q[1..], i - 1);
      RemoveFront(q, i);
    }
  }

  lemma {:induction false} RemoveFreq(q: seq<Tree>, i: nat)
    requires i < |q|
    ensures QueueFreq(Remove(q, i)) + q[i].freq == QueueFreq(q)
    decreases i
  {
    if i == 0 {
      assert Remove(q, i) == q[1..];
    } else {
      RemoveFreq(q[1..], i - 1);
      RemoveFront(q, i);
    }
  }

  lemma RemoveSums(q: seq<Tree>, i: nat)
    requires i < |q|
    ensures QueueLeaves(Remove(q, i)) + Leaves(q[i]) == QueueLeaves(q)
    ensures QueueFreq(Remove(q, i)) + q[i].freq == QueueFreq(q)
  {
    RemoveLeaves(q, i);
    RemoveFreq(q, i);
  }

  lemma RemoveWellFormed(q: seq<Tree>, i: nat)
    requires i < |q| && AllWellFormed(q)
    ensures AllWellFormed(Remove(q, i))
  {
  }

  /** Whatever pair a merge takes, the queue keeps its leaves and its total
      frequency, and the new parent's frequency is its children's sum. */
  lemma MergePreserves(q: seq<Tree>, i: nat, j: nat)
    requires i < |q| && j < |q| - 1
    ensures |Merge(q, i, j)| == |q| - 1
    ensures QueueLeaves(Merge(q, i, j)) == QueueLeaves(q)
    ensures QueueFreq(Merge(q, i, j)) == QueueFreq(q)
    ensures AllWellFormed(q) ==> AllWellFormed(Merge(q, i, j))
  {
    var left := q[i];
    var rest := Remove(q, i);
    var right := rest[j];
    var parent := Node(left.freq + right.freq, left, right);
    var kept := Remove(rest, j);
    var one := [parent];
    assert Merge(q, i, j) == kept + one;
    RemoveSums(q, i);
    RemoveSums(rest, j);
    QueueConcat(kept, one);
    assert one[1..] == [];
    assert QueueLeaves(one) == Leaves(parent);
    assert QueueFreq(one) == parent.freq;
    if AllWellFormed(q) {
      RemoveWellFormed(q, i);
      RemoveWellFormed(rest, j);
      assert WellFormed(left) && WellFormed(right);
      var m := kept + one;
      forall k | 0 <= k < |m|
        ensures WellFormed(m[k])
      {
        if k < |kept| {
          assert m[k] == kept[k];
        } else {
          assert m[k] == parent;
        }
      }
    }
  }

  /** Runs the merge loop to completion, popping the earliest-queued minimum. */
  function Combine(q: seq<Tree>): (root: Tree)
    requires |q| > 0
    ensures Leaves(root) == QueueLeaves(q)
    ensures root.freq == QueueFreq(q)
    ensures AllWellFormed(q) ==> WellFormed(root)
    decreases |q|
  {
    if |q| == 1 then
      assert QueueLeaves(q) == Leaves(q[0]) + QueueLeaves([]);
      q[0]
    else
      var i := PickTop(q);
      var j := PickTop(Remove(q, i));
      MergePreserves(q, i, j);
      Combine(Merge(q, i, j))
  }

  /** One leaf per entry, in entry order (`new Node(pair.first, pair.second)`). */
  function LeavesOf(es: seq<(Byte, int)>): seq<Tree> {
    if |es| == 0 then [] else [Leaf(es[0].0, es[0].1)] + LeavesOf(es[1..])
  }

  lemma {:induction false} LeavesOfShape(es: seq<(Byte, int)>)
    ensures |LeavesOf(es)| == |es|
    ensures forall k :: 0 <= k < |es| ==> LeavesOf(es)[k] == Leaf(es[k].0, es[k].1)
  {
    if |es| > 0 {
      LeavesOfShape(es[1..]);
      assert LeavesOf(es)[1..] == LeavesOf(es[1..]);
    }
  }

  lemma {:induction false} LeavesOfMultiset(es: seq<(Byte, int)>)
    ensures QueueLeaves(LeavesOf(es)) == multiset(es)
  {
    if |es| > 0 {
      LeavesOfMultiset(es[1..]);
      assert es == [es[0]] + es[1..];
      var q := LeavesOf(es);
      assert q[0] == Leaf(es[0].0, es[0].1);
      assert q[1..] == LeavesOf(es[1..]);
    }
  }

  lemma LeavesOfSums(es: seq<(Byte, int)>)
    ensures |LeavesOf(es)| == |es|
    ensures QueueLeaves(LeavesOf(es)) == multiset(es)
    ensures AllWellFormed(LeavesOf(es))
    ensures forall k :: 0 <= k < |es| ==> LeavesOf(es)[k] == Leaf(es[k].0, es[k].1)
  {
    LeavesOfShape(es);
    LeavesOfMultiset(es);
  }

  lemma {:induction false} LeavesOfTotal(t: Table, lo: nat)
    requires lo <= 256
    ensures QueueFreq(LeavesOf(EntriesFrom(t, lo))) == TotalFrom(t, lo)
    decreases 256 - lo
  {
    if lo < 256 {
      LeavesOfTotal(t, lo + 1);
      var rest := EntriesFrom(t, lo + 1);
      if lo in t {
        var es := EntriesFrom(t, lo);
        assert es[1..] == rest;
        assert LeavesOf(es)[1..] == LeavesOf(rest);
      }
    }
  }

  /** The initial heap contents: one leaf per table entry. */
  function LeafQueue(t: Table): seq<Tree> {
    LeavesOf(Entries(t))
  }

  lemma LeafQueueFacts(t: Table)
    ensures |LeafQueue(t)| == |t|
    ensures QueueLeaves(LeafQueue(t)) == multiset(Entries(t))
    ensures QueueFreq(LeafQueue(t)) == Total(t)
    ensures AllWellFormed(LeafQueue(t))
  {
    EntriesCount(t);
    LeavesOfSums(Entries(t));
    LeavesOfTotal(t, 0);
  }

  /** `buildTree` with heap ties resolved in favour of the earliest-queued node:
      no root for an empty table, the single leaf for a one-entry table, and
      otherwise a tree whose leaves are exactly the table's entries and whose
      every internal node carries its children's summed frequency. */
  function HuffmanTreeOf(t: Table): (root: Option<Tree>)
    ensures root.None? <==> |t| == 0
    ensures root.Some? ==> WellFormed(root.value)
    ensures root.Some? ==> Leaves(root.value) == multiset(Entries(t))
    ensures root.Some? ==> root.value.freq == Total(t)
    ensures |t| == 1 ==> root.Some? && root.value.Leaf? && root.value.ch in t
                         && root.value.freq == t[root.value.ch]
  {
    LeafQueueFacts(t);
    var q := LeafQueue(t);
    if |q| == 0 then None
    else
      LeavesOfSums(Entries(t));
      Some(Combine(q))
  }

  /** Consecutive queue contents are related by greedy merge turns. */
  ghost predicate GreedyRun(trace: seq<seq<Tree>>) {
    forall k :: 0 <= k < |trace| - 1 ==> GreedyStep(trace[k], trace[k + 1])
  }

  /** Popping two heap tops and pushing their parent is a greedy turn. */
  lemma TopsMergeGreedily(q: seq<Tree>, i: nat, j: nat)
    requires IsTop(q, i) && IsTop(Remove(q, i), j)
    ensures GreedyStep(q, Merge(q, i, j))
  {
  }

  /** A greedy turn after the last queue contents extends a greedy run. */
  lemma GreedyRunExtend(trace: seq<seq<Tree>>, next: seq<Tree>)
    requires |trace| >= 1 && GreedyRun(trace)
    requires GreedyStep(trace[|trace| - 1], next)
    ensures GreedyRun(trace + [next])
  {
  }

  /** The queue contents `Combine` passes through: `q`, then the queue after
      each of its turns. */
  ghost function CombineTrace(q: seq<Tree>): seq<seq<Tree>>
    requires |q| > 0
    decreases |q|
  {
    if |q| == 1 then [q]
    else
      var i := PickTop(q);
      var j := PickTop(Remove(q, i));
      MergePreserves(q, i, j);
      [q] + CombineTrace(Merge(q, i, j))
  }

  /** A greedy turn in front of a greedy run is a greedy run. */
  lemma GreedyRunCons(q: seq<Tree>, rest: seq<seq<Tree>>)
    requires |rest| >= 1 && GreedyStep(q, rest[0]) && GreedyRun(rest)
    ensures GreedyRun([q] + rest)
  {
  }

  /** `Combine` pops two heap tops each turn, the first as the left child: its
      queue contents form a greedy run of `|q| - 1` turns from `q` down to the
      single tree `Combine(q)`. */
  lemma {:induction false} CombineIsGreedy(q: seq<Tree>)
    requires |q| > 0
    ensures |CombineTrace(q)| == |q|
    ensures CombineTrace(q)[0] == q
    ensures CombineTrace(q)[|q| - 1] == [Combine(q)]
    ensures GreedyRun(CombineTrace(q))
    decreases |q|
  {
    if |q| == 1 {
      assert q == [q[0]];
    } else {
      var i := PickTop(q);
      var j := PickTop(Remove(q, i));
      MergePreserves(q, i, j);
      var next := Merge(q, i, j);
      assert CombineTrace(q) == [q] + CombineTrace(next);
      assert Combine(q) == Combine(next);
      CombineIsGreedy(next);
      TopsMergeGreedily(q, i, j);
      GreedyRunCons(q, CombineTrace(next));
    }
  }

  /** The queue contents `HuffmanTreeOf` passes through. */
  ghost function HuffmanTrace(t: Table): seq<seq<Tree>> {
    if |LeafQueue(t)| == 0 then [[]] else CombineTrace(LeafQueue(t))
  }

  /** The tree `Compress` and `Decompress` use is one of the outcomes
      `BuildTree` allows: the end of a greedy run of `|t| - 1` turns from the
      leaf queue. */
  lemma HuffmanTreeIsGreedy(t: Table)
    ensures |HuffmanTrace(t)| >= 1 && HuffmanTrace(t)[0] == LeafQueue(t)
    ensures GreedyRun(HuffmanTrace(t))
    ensures HuffmanTreeOf(t).Some? ==> |HuffmanTrace(t)| == |t|
    ensures HuffmanTreeOf(t).Some? ==> HuffmanTrace(t)[|HuffmanTrace(t)| - 1] == [HuffmanTreeOf(t).value]
  {
    LeafQueueFacts(t);
    if |LeafQueue(t)| > 0 {
      CombineIsGreedy(LeafQueue(t));
    }
  }

  /** For a table of non-negative counts, every node of the tree, each parent
      sum `left->freq + right->freq` included, lies between 0 and the table
      total. */
  lemma HuffmanTreeFreqsBounded(t: Table)
    requires forall c :: c in t ==> t[c] >= 0
    ensures HuffmanTreeOf(t).Some? ==> FreqsWithin(HuffmanTreeOf(t).value, Total(t))
  {
    if HuffmanTreeOf(t).Some? {
      var r := HuffmanTreeOf(t).value;
      forall p | p in Leaves(r)
        ensures p.1 >= 0
      {
        assert multiset(Entries(t))[p] > 0;
      }
      FreqsWithinRoot(r, Total(t));
    }
  }

  /** A one-entry table starts (and ends) the loop with that entry's leaf. */
  lemma OneEntryQueue(t: Table)
    requires |t| == 1
    ensures |LeafQueue(t)| == 1
    ensures LeafQueue(t)[0].Leaf? && LeafQueue(t)[0].ch in t
    ensures LeafQueue(t)[0].freq == t[LeafQueue(t)[0].ch]
  {
    LeafQueueFacts(t);
    LeavesOfSums(Entries(t));
  }

  /** The two `minHeap.top()`/`pop()` pairs of one turn, for a heap that
      may break ties in any way: the first is a top of the queue, the second a
      top of what remains. */
  method PopTwoTops(q: seq<Tree>) returns (i: nat, j: nat)
    requires |q| > 1
    ensures i < |q| && j < |q| - 1
    ensures IsTop(q, i) && IsTop(Remove(q, i), j)
  {
    assert IsTop(q, PickTop(q));
    i :| i < |q| && IsTop(q, i);
    var rest := Remove(q, i);
    assert IsTop(rest, PickTop(rest));
    j :| j < |rest| && IsTop(rest, j);
  }

  /** The `while (minHeap.size() > 1)` loop of `buildTree`, popping ANY two
      heap tops each turn: it ends with at most one tree, keeps the queued
      leaves and total frequency, and keeps every tree well formed. `trace`
      lists the queue contents before the loop and after each turn. */
  method MergeLoop(q0: seq<Tree>) returns (q: seq<Tree>, trace: seq<seq<Tree>>)
    ensures |trace| >= 1 && trace[0] == q0 && trace[|trace| - 1] == q && GreedyRun(trace)
    ensures |q0| == 0 ==> q == [] && |trace| == 1
    ensures |q0| > 0 ==> |q| == 1 && |trace| == |q0|
    ensures QueueLeaves(q) == QueueLeaves(q0)
    ensures QueueFreq(q) == QueueFreq(q0)
    ensures AllWellFormed(q0) ==> AllWellFormed(q)
  {
    q := q0;
    trace := [q];
    while |q| > 1
      invariant |trace| >= 1 && trace[0] == q0 && trace[|trace| - 1] == q
      invariant GreedyRun(trace)
      invariant |q0| == 0 ==> q == [] && |trace| == 1
      invariant |q0| > 0 ==> |q| >= 1 && |q| + |trace| - 1 == |q0|
      invariant QueueLeaves(q) == QueueLeaves(q0)
      invariant QueueFreq(q) == QueueFreq(q0)
      invariant AllWellFormed(q0) ==> AllWellFormed(q)
      decreases |q|
    {
      var i, j := PopTwoTops(q);
      MergePreserves(q, i, j);
      var next := Merge(q, i, j);
      TopsMergeGreedily(q, i, j);
      GreedyRunExtend(trace, next);
      trace := trace + [next];
      q := next;
    }
  }

  /** `buildTree` with heap ties resolved in ANY way: no root for an empty
      table, the single leaf for a one-entry table, otherwise the last tree of
      a greedy run of `|t| - 1` turns from the leaf queue, whose leaves are
      exactly the table's entries and whose every internal node carries its
      children's summed frequency. */
  method BuildTree(t: Table) returns (root: Option<Tree>, trace: seq<seq<Tree>>)
    ensures |trace| >= 1 && trace[0] == LeafQueue(t) && GreedyRun(trace)
    ensures root.None? <==> |t| == 0
    ensures root.Some? ==> |trace| == |t| && trace[|trace| - 1] == [root.value]
    ensures root.Some? ==> WellFormed(root.value)
    ensures root.Some? ==> Leaves(root.value) == multiset(Entries(t))
    ensures root.Some? ==> root.value.freq == Total(t)
    ensures |t| == 1 ==> root.Some? && root.value.Leaf? && root.value.ch in t
                         && root.value.freq == t[root.value.ch]
  {
    LeafQueueFacts(t);
    var q;
    q, trace := MergeLoop(LeafQueue(t));
    if |q| == 0 {
      root := None;
    } else {
      assert q == [q[0]];
      assert QueueLeaves(q) == Leaves(q[0]) + QueueLeaves([]);
      assert QueueFreq(q) == q[0].freq + QueueFreq([]);
      root := Some(q[0]);
      if |t| == 1 {
        OneEntryQueue(t);
      }
    }
  }
}
