/** The frequency table: `Huffman::buildFrequencyTable` and the table's
    entry list as the container stores it. */
module FrequencyCounter {
  import opened Bytes

  /** Byte value to occurrence count (the `unordered_map<char, int>`). */
  type Table = map<Byte, int>

  /** The count stored for `c`, or 0 when `c` is not a key. */
  function Count(t: Table, c: Byte): int {
    if c in t then t[c] else 0
  }

  /** `buildFrequencyTable` on a fresh object: one `frequencyTable[ch]++` per
      byte, in input order. */
  function Frequencies(data: seq<Byte>): Table
    decreases |data|
  {
    if |data| == 0 then map[]
    else
      var t0 := Frequencies(data[..|data| - 1]);
      var c := data[|data| - 1];
      t0[c := Count(t0, c) + 1]
  }

  /** Exactly the occurring bytes are keys, each mapped to its number of
      occurrences, which lies between 1 and the data length. */
  lemma {:induction false} FrequenciesCounts(data: seq<Byte>)
    ensures forall c: Byte :: c in Frequencies(data) <==> c in data
    ensures forall c :: c in Frequencies(data) ==> Frequencies(data)[c] == multiset(data)[c]
    ensures forall c :: c in Frequencies(data) ==> 1 <= Frequencies(data)[c] <= |data|
    decreases |data|
  {
    if |data| > 0 {
      var init := data[..|data| - 1];
      var c := data[|data| - 1];
      assert data == init + [c];
      FrequenciesCounts(init);
    }
  }

  /** The table depends only on how often each byte occurs, not on where:
      reordering the data gives the same table. */
  lemma FrequenciesOfPermutation(a: seq<Byte>, b: seq<Byte>)
    requires multiset(a) == multiset(b)
    ensures Frequencies(a) == Frequencies(b)
  {
    FrequenciesCounts(a);
    FrequenciesCounts(b);
    forall c: Byte
      ensures c in Frequencies(a) <==> c in Frequencies(b)
    {
      assert c in a <==> c in multiset(a);
      assert c in b <==> c in multiset(b);
    }
  }

  /** Sum of the counts of the keys `lo..255`. */
  function TotalFrom(t: Table, lo: nat): int
    requires lo <= 256
    decreases 256 - lo
  {
    if lo == 256 then 0 else Count(t, lo) + TotalFrom(t, lo + 1)
  }

  /** Sum of all counts of the table. */
  function Total(t: Table): int {
    TotalFrom(t, 0)
  }

  /** Overwriting one key changes the sum by the difference of the two counts. */
  lemma {:induction false} TotalFromUpdate(t: Table, c: Byte, v: int, lo: nat)
    requires lo <= 256
    ensures TotalFrom(t[c := v], lo) == TotalFrom(t, lo) + (if lo <= c then v - Count(t, c) else 0)
    decreases 256 - lo
  {
    if lo < 256 {
      TotalFromUpdate(t, c, v, lo + 1);
    }
  }

  lemma {:induction false} TotalFromEmpty(lo: nat)
    requires lo <= 256
    ensures TotalFrom(map[], lo) == 0
    decreases 256 - lo
  {
    if lo < 256 {
      TotalFromEmpty(lo + 1);
    }
  }

  /** The counts add up to the length of the data; empty data gives an empty table. */
  lemma {:induction false} FrequenciesTotal(data: seq<Byte>)
    ensures Total(Frequencies(data)) == |data|
    ensures |data| == 0 <==> Frequencies(data) == map[]
    decreases |data|
  {
    if |data| == 0 {
      TotalFromEmpty(0);
    } else {
      var init := data[..|data| - 1];
      var c := data[|data| - 1];
      FrequenciesTotal(init);
      var t0 := Frequencies(init);
      TotalFromUpdate(t0, c, Count(t0, c) + 1, 0);
      assert c in Frequencies(data);
    }
  }

  /** The entries of keys `lo..255`, in ascending byte order. */
  function EntriesFrom(t: Table, lo: nat): (es: seq<(Byte, int)>)
    requires lo <= 256
    ensures |es| <= 256 - lo
    decreases 256 - lo
  {
    if lo == 256 then []
    else if lo in t then [(lo as Byte, t[lo])] + EntriesFrom(t, lo + 1)
    else EntriesFrom(t, lo + 1)
  }

  /** Keys of an entry list strictly ascend (so no byte appears twice). */
  predicate KeysAscending(es: seq<(Byte, int)>) {
    forall i, j :: 0 <= i < j < |es| ==> es[i].0 < es[j].0
  }

  /** Every entry of `es` is an entry of `t` with key at least `lo`. */
  predicate EntriesWithin(es: seq<(Byte, int)>, t: Table, lo: int) {
    forall i :: 0 <= i < |es| ==> lo <= es[i].0 && es[i].0 in t && t[es[i].0] == es[i].1
  }

  lemma {:induction false} EntriesFromSound(t: Table, lo: nat)
    requires lo <= 256
    ensures EntriesWithin(EntriesFrom(t, lo), t, lo)
    ensures KeysAscending(EntriesFrom(t, lo))
    decreases 256 - lo
  {
    if lo < 256 {
      EntriesFromSound(t, lo + 1);
      var rest := EntriesFrom(t, lo + 1);
      var es := EntriesFrom(t, lo);
      if lo in t {
        assert es == [(lo as Byte, t[lo])] + rest;
        assert forall i :: 1 <= i < |es| ==> es[i] == rest[i - 1];
      } else {
        assert es == rest;
      }
    }
  }

  lemma {:induction false} EntriesFromMultiset(t: Table, lo: nat)
    requires lo <= 256
    ensures forall e :: multiset(EntriesFrom(t, lo))[e]
                        == (if lo <= e.0 && e.0 in t && t[e.0] == e.1 then 1 else 0)
    decreases 256 - lo
  {
    if lo < 256 {
      EntriesFromMultiset(t, lo + 1);
      var rest := EntriesFrom(t, lo + 1);
      if lo in t {
        var h: (Byte, int) := (lo, t[lo]);
        assert EntriesFrom(t, lo) == [h] + rest;
        assert multiset(EntriesFrom(t, lo)) == multiset{h} + multiset(rest);
      } else {
        assert EntriesFrom(t, lo) == rest;
      }
    }
  }

  /** The table as the list of `(ch, freq)` pairs the container writes, in
      ascending byte order. Every entry of the table appears exactly once, and
      nothing else appears. */
  function Entries(t: Table): (es: seq<(Byte, int)>)
    ensures |es| <= 256
    ensures forall i, j :: 0 <= i < j < |es| ==> es[i].0 < es[j].0
    ensures forall i :: 0 <= i < |es| ==> es[i].0 in t && t[es[i].0] == es[i].1
    ensures forall e :: multiset(es)[e] == (if e.0 in t && t[e.0] == e.1 then 1 else 0)
  {
    EntriesFromSound(t, 0);
    EntriesFromMultiset(t, 0);
    EntriesFrom(t, 0)
  }

  /** The keys of `t` from `lo` on. */
  function KeysFrom(t: Table, lo: nat): set<Byte> {
    set k: Byte | k in t && lo <= k
  }

  lemma {:induction false} EntriesFromCount(t: Table, lo: nat)
    requires lo <= 256
    ensures |EntriesFrom(t, lo)| == |KeysFrom(t, lo)|
    decreases 256 - lo
  {
    var ks := KeysFrom(t, lo);
    if lo == 256 {
      assert ks == {};
    } else {
      EntriesFromCount(t, lo + 1);
      var rest := KeysFrom(t, lo + 1);
      if lo in t {
        var b: Byte := lo;
        assert b !in rest;
        assert ks == rest + {b};
        assert |rest + {b}| == |rest| + 1;
      } else {
        assert ks == rest;
      }
    }
  }

  /** The entry count written to the container equals `frequencyTable.size()`. */
  lemma EntriesCount(t: Table)
    ensures |Entries(t)| == |t|
  {
    EntriesFromCount(t, 0);
    assert KeysFrom(t, 0) == t.Keys;
  }

  /** Inserting the entries in list order (`frequencyTable[ch] = freq`). */
  function ToMap(es: seq<(Byte, int)>): Table {
    if |es| == 0 then map[]
    else map[es[0].0 := es[0].1] + ToMap(es[1..])
  }

  /** The keys are exactly the listed bytes. */
  lemma {:induction false} ToMapKeys(es: seq<(Byte, int)>)
    ensures forall i :: 0 <= i < |es| ==> es[i].0 in ToMap(es)
    ensures forall k :: k in ToMap(es) ==> exists i :: 0 <= i < |es| && es[i].0 == k
  {
    if |es| > 0 {
      var rest := es[1..];
      ToMapKeys(rest);
      forall i | 1 <= i < |es|
        ensures es[i].0 in ToMap(es)
      {
        assert es[i] == rest[i - 1];
      }
      forall k | k in ToMap(es)
        ensures exists i :: 0 <= i < |es| && es[i].0 == k
      {
        if k != es[0].0 {
          var i :| 0 <= i < |rest| && rest[i].0 == k;
          assert es[i + 1].0 == k;
        }
      }
    }
  }

  /** A later entry for the same byte overwrites an earlier one: the last
      entry for a byte gives its value. */
  lemma {:induction false} ToMapLastWins(es: seq<(Byte, int)>)
    ensures forall i :: 0 <= i < |es| && (forall j :: i < j < |es| ==> es[j].0 != es[i].0)
                        ==> es[i].0 in ToMap(es) && ToMap(es)[es[i].0] == es[i].1
  {
    ToMapKeys(es);
    if |es| > 0 {
      var rest := es[1..];
      ToMapLastWins(rest);
      ToMapKeys(rest);
      forall i | 0 <= i < |es| && (forall j :: i < j < |es| ==> es[j].0 != es[i].0)
        ensures es[i].0 in ToMap(es) && ToMap(es)[es[i].0] == es[i].1
      {
        if i > 0 {
          assert es[i] == rest[i - 1];
          forall j | i - 1 < j < |rest|
            ensures rest[j].0 != rest[i - 1].0
          {
            assert rest[j] == es[j + 1];
          }
        }
      }
    }
  }

  /** The part of `t` with keys from `lo` on. */
  function TableFrom(t: Table, lo: nat): Table {
    map k | k in KeysFrom(t, lo) :: t[k]
  }

  /** Peeling the lowest key `lo` off the part of `t` from `lo` on. */
  lemma TableFromStep(t: Table, lo: nat)
    requires lo < 256
    ensures lo in t ==> TableFrom(t, lo) == map[lo as Byte := t[lo]] + TableFrom(t, lo + 1)
    ensures lo !in t ==> TableFrom(t, lo) == TableFrom(t, lo + 1)
  {
  }

  lemma {:induction false} ToMapEntriesFrom(t: Table, lo: nat)
    requires lo <= 256
    ensures ToMap(EntriesFrom(t, lo)) == TableFrom(t, lo)
    decreases 256 - lo
  {
    if lo == 256 {
      assert KeysFrom(t, lo) == {};
    } else {
      ToMapEntriesFrom(t, lo + 1);
      TableFromStep(t, lo);
      var es := EntriesFrom(t, lo);
      if lo in t {
        assert es[1..] == EntriesFrom(t, lo + 1);
      }
    }
  }

  /** Reading back the written entries rebuilds the very same table. */
  lemma ToMapEntries(t: Table)
    ensures ToMap(Entries(t)) == t
  {
    ToMapEntriesFrom(t, 0);
    assert KeysFrom(t, 0) == t.Keys;
  }
}
