/**
 * Code generation (HuffmanTree::preorderEncode, huffman.hpp:323-332): a preorder walk that
 * appends '0' for each step to the left and '1' for each step to the right, and records the
 * path it took to every leaf as that leaf's code.
 */
module CodeTable {
  import opened Common
  import opened Nodes

  /**
   * The entries preorderEncode writes for the subtree t reached along the path acc: one per
   * character at t's leaves, each extending acc, strictly when t is internal. The left subtree
   * is written first, so where a character sits at two leaves the right one wins.
   */
  function Codes(t: Tree, acc: string): (m: map<Char, string>)
    requires WellFormed(t)
    ensures forall c :: c in m <==> c in Leaves(t)
    ensures forall c :: c in m ==> acc <= m[c]
    decreases t
  {
    if t.left.Null? then map[t.character.value := acc]
    else Codes(t.left, acc + "0") + Codes(t.right, acc + "1")
  }

  /** A string extending acc + [b] continues, after acc, with b. */
  lemma AfterPrefix(x: string, acc: string, b: char)
    requires acc + [b] <= x
    ensures x[|acc|..] == [b] + x[|acc| + 1..]
  {
    assert x[|acc|] == (acc + [b])[|acc|];
  }

  /**
   * Walking the part of c's code after acc leads to c: the code is the path to c's leaf.
   */
  lemma {:induction false} CodesWalk(t: Tree, acc: string, c: Char)
    requires WellFormed(t) && c in Codes(t, acc)
    ensures Walk(t, Codes(t, acc)[c][|acc|..]) == Some(c)
    decreases t
  {
    var code := Codes(t, acc)[c];
    if t.left.Null? {
      assert code == acc;
      assert code[|acc|..] == [];
    } else {
      var zero, one := acc + "0", acc + "1";
      var rm := Codes(t.right, one);
      var sub, child, b := if c in rm then one else zero, if c in rm then t.right else t.left, if c in rm then '1' else '0';
      assert sub == acc + [b];
      assert c in Codes(child, sub) && code == Codes(child, sub)[c];
      CodesWalk(child, sub, c);
      var tail := code[|sub|..];
      AfterPrefix(code, acc, b);
      assert code[|acc|..] == [b] + tail;
      assert ([b] + tail)[1..] == tail;
    }
  }

  /** A path that leads to a leaf is made of '0' and '1' only. */
  lemma {:induction false} WalkIsBits(t: Tree, path: string)
    requires WellFormed(t) && Walk(t, path).Some?
    ensures IsBits(path)
    decreases t
  {
    if t.left.Node? {
      WalkIsBits(if path[0] == '0' then t.left else t.right, path[1..]);
      assert path == [path[0]] + path[1..];
    }
  }

  /** No code preorderEncode writes is a prefix of another. */
  lemma {:induction false} CodesPrefixFree(t: Tree, acc: string)
    requires WellFormed(t)
    ensures PrefixFree(Codes(t, acc))
    decreases t
  {
    if t.left.Node? {
      var zero, one := acc + "0", acc + "1";
      var lm, rm := Codes(t.left, zero), Codes(t.right, one);
      var m := lm + rm;
      CodesPrefixFree(t.left, zero);
      CodesPrefixFree(t.right, one);
      forall c, d | c in m && d in m && c != d ensures !(m[c] <= m[d]) {
        if (c in rm) != (d in rm) {
          var x, y := m[c], m[d];
          assert x[|acc|] != y[|acc|] by {
            if c in rm {
              assert x[|acc|] == one[|acc|] && y[|acc|] == zero[|acc|];
            } else {
              assert x[|acc|] == zero[|acc|] && y[|acc|] == one[|acc|];
            }
          }
        }
      }
    }
  }

  /** A path that leads to a leaf ends at one of the tree's characters. */
  lemma {:induction false} WalkReachesLeaf(t: Tree, path: string, c: Char)
    requires WellFormed(t) && Walk(t, path) == Some(c)
    ensures c in Leaves(t)
    decreases t
  {
    if t.left.Node? {
      if path[0] == '0' {
        WalkReachesLeaf(t.left, path[1..], c);
      } else {
        WalkReachesLeaf(t.right, path[1..], c);
      }
    }
  }

  /** Splitting off the first character of a path and putting it back changes nothing. */
  lemma SplitFirst(acc: string, path: string)
    requires path != []
    ensures acc + [path[0]] + path[1..] == acc + path
  {
    assert [path[0]] + path[1..] == path;
  }

  /**
   * The other direction of `CodesWalk`: when every character sits at one leaf only, the path
   * to a character's leaf is exactly the code recorded for it.
   */
  lemma {:induction false} WalkFindsCode(t: Tree, acc: string, path: string, c: Char)
    requires WellFormed(t) && DistinctLeaves(t) && Walk(t, path) == Some(c)
    ensures c in Codes(t, acc) && Codes(t, acc)[c] == acc + path
    decreases t
  {
    if t.left.Null? {
      assert acc + path == acc;
    } else {
      var rest := path[1..];
      SubtreesDistinct(t);
      SplitFirst(acc, path);
      if path[0] == '0' {
        WalkFindsCode(t.left, acc + "0", rest, c);
        WalkReachesLeaf(t.left, rest, c);
      } else {
        WalkFindsCode(t.right, acc + "1", rest, c);
      }
    }
  }

  /**
   * The encode table of a whole tree: one code per character at its leaves, every code a bit
   * string, none a prefix of another, and none empty when the root is internal.
   */
  lemma CodeTableFacts(t: Tree)
    requires WellFormed(t) && DistinctLeaves(t)
    ensures var m := Codes(t, "");
      && (forall c :: c in m <==> c in Leaves(t))
      && BitTable(m) && PrefixFree(m) && Injective(m)
      && (t.left.Node? ==> forall c :: c in m ==> m[c] != "")
  {
    var m := Codes(t, "");
    CodesPrefixFree(t, "");
    forall c | c in m ensures IsBits(m[c]) {
      CodesWalk(t, "", c);
      assert m[c][0..] == m[c];
      WalkIsBits(t, m[c]);
    }
    PrefixFreeIsInjective(m);
  }
}
