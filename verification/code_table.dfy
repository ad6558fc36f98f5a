/** `Huffman::buildCodeTable`: each leaf's root-to-leaf path as its code. */
module CodeTable {
  import opened Bytes
  import opened Nodes

  /** Byte value to its code, a string of '0'/'1' characters. */
  type Codes = map<Byte, string>

  /** `buildCodeTable(node, str)`: records `str` at a leaf, then descends left
      with "0" and right with "1" appended; a later (right-hand) leaf with the
      same byte overwrites an earlier one. One entry per leaf byte. */
  function CodesFrom(t: Tree, prefix: string): (codes: Codes)
    ensures codes.Keys == LeafChars(t)
  {
    match t
    case Leaf(c, _) => map[c := prefix]
    case Node(_, l, r) => CodesFrom(l, prefix + "0") + CodesFrom(r, prefix + "1")
  }

  /** The code table of a whole tree, `buildCodeTable(root, "")`. */
  function BuildCodeTable(root: Tree): (codes: Codes)
    ensures codes.Keys == LeafChars(root)
  {
    CodesFrom(root, "")
  }

  /** No code is a prefix of (or equal to) the code of another byte. */
  predicate PrefixFree(codes: Codes) {
    forall a, b :: a in codes && b in codes && a != b ==> !(codes[a] <= codes[b])
  }

  /** Every code extends the prefix it was built from by the path that leads to
      a leaf of its byte, at most `Depth(t)` steps long and at least one step
      long below an internal node; codes built from a '0'/'1' prefix are '0'/'1'
      strings. */
  lemma {:induction false} CodesFromPaths(t: Tree, prefix: string, c: Byte)
    requires c in CodesFrom(t, prefix)
    ensures var code := CodesFrom(t, prefix)[c];
      && prefix <= code
      && |code| <= |prefix| + Depth(t)
      && (t.Node? ==> |code| > |prefix|)
      && ReachesLeaf(t, code[|prefix|..], c)
      && (IsBitString(prefix) ==> IsBitString(code))
  {
    match t
    case Leaf(_, _) =>
      assert CodesFrom(t, prefix)[c][|prefix|..] == [];
    case Node(_, l, r) =>
      var code := CodesFrom(t, prefix)[c];
      var right := CodesFrom(r, prefix + "1");
      var sub, bit := if c in right then r else l, if c in right then '1' else '0';
      var p := prefix + [bit];
      assert code == CodesFrom(sub, p)[c];
      CodesFromPaths(sub, p, c);
      assert code[|prefix|] == bit;
      assert code[|prefix|..][1..] == code[|p|..];
      assert Follow(t, code[|prefix|..]) == Follow(sub, code[|p|..]);
      if IsBitString(prefix) {
        assert IsBitString(p);
      }
  }

  /** The codes of a subtree built from `prefix` are prefix-free. */
  lemma {:induction false} CodesFromPrefixFree(t: Tree, prefix: string)
    ensures PrefixFree(CodesFrom(t, prefix))
  {
    match t
    case Leaf(_, _) =>
    case Node(_, l, r) =>
      var codes := CodesFrom(t, prefix);
      var lc, rc := CodesFrom(l, prefix + "0"), CodesFrom(r, prefix + "1");
      CodesFromPrefixFree(l, prefix + "0");
      CodesFromPrefixFree(r, prefix + "1");
      forall a, b | a in codes && b in codes && a != b
        ensures !(codes[a] <= codes[b])
      {
        if (a in rc) != (b in rc) {
          // one code goes left at position |prefix|, the other goes right
          var ca, cb := codes[a], codes[b];
          if a in rc {
            CodesFromPaths(r, prefix + "1", a);
            CodesFromPaths(l, prefix + "0", b);
            assert ca[|prefix|] == '1' && cb[|prefix|] == '0';
          } else {
            CodesFromPaths(l, prefix + "0", a);
            CodesFromPaths(r, prefix + "1", b);
            assert ca[|prefix|] == '0' && cb[|prefix|] == '1';
          }
        }
      }
  }

  /** The code table of a tree: codes are '0'/'1' strings, prefix-free, each
      leads from the root to a leaf of its byte, none is longer than the tree is
      deep, and all are non-empty when the root is an internal node. */
  lemma CodeTableFacts(root: Tree)
    ensures PrefixFree(BuildCodeTable(root))
    ensures forall c :: c in BuildCodeTable(root) ==>
              && IsBitString(BuildCodeTable(root)[c])
              && ReachesLeaf(root, BuildCodeTable(root)[c], c)
              && |BuildCodeTable(root)[c]| <= Depth(root)
              && (root.Node? ==> |BuildCodeTable(root)[c]| > 0)
  {
    CodesFromPrefixFree(root, "");
    forall c | c in BuildCodeTable(root)
      ensures IsBitString(BuildCodeTable(root)[c])
      ensures ReachesLeaf(root, BuildCodeTable(root)[c], c)
      ensures |BuildCodeTable(root)[c]| <= Depth(root)
      ensures root.Node? ==> |BuildCodeTable(root)[c]| > 0
    {
      CodesFromPaths(root, "", c);
      assert BuildCodeTable(root)[c][0..] == BuildCodeTable(root)[c];
    }
  }
}
