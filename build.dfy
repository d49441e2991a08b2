/**
 * Tree construction (HuffmanTree::buildTree, huffman.hpp:307-320) on its queue of nodes.
 *
 * The priority queue is a sequence: a push appends, and `top` is the FIRST entry of least
 * count, so among equal counts the node inserted earliest comes out first. The standard
 * library leaves that order unspecified; this rule makes the tree a function of the counts.
 */
module Build {
  import opened Common
  import opened Nodes

  /** Every queued node is a well-formed tree. */
  predicate ValidQueue(q: seq<Tree>) {
    forall i :: 0 <= i < |q| ==> WellFormed(q[i])
  }

  /** Every queued node counts as many characters as its children together, all the way down. */
  predicate AllWeighted(q: seq<Tree>) {
    forall i :: 0 <= i < |q| ==> Weighted(q[i])
  }

  /** The count of a node; a null entry counts nothing. */
  function CountOf(t: Tree): int {
    if t.Node? then t.count else 0
  }

  /** The counts of the queued nodes, summed. */
  function TotalCount(q: seq<Tree>): int {
    if q == [] then 0 else TotalCount(q[..|q| - 1]) + CountOf(q[|q| - 1])
  }

  /** The characters at the leaves of all queued trees. */
  function QueueLeaves(q: seq<Tree>): multiset<Char> {
    if q == [] then multiset{} else QueueLeaves(q[..|q| - 1]) + Leaves(q[|q| - 1])
  }

  function Remove(q: seq<Tree>, k: nat): seq<Tree>
    requires k < |q|
  {
    q[..k] + q[k + 1..]
  }

  /**
   * The index of the queue's top: no entry has higher priority, and every entry before it
   * has strictly lower priority (the first of several equal counts wins).
   */
  function MinIndex(q: seq<Tree>): (k: nat)
    requires |q| > 0 && ValidQueue(q)
    ensures k < |q|
    ensures forall j :: 0 <= j < |q| ==> !Comparator(q[k], q[j])
    ensures forall j :: 0 <= j < k ==> Comparator(q[j], q[k])
  {
    if |q| == 1 then 0
    else
      var k := MinIndex(q[..|q| - 1]);
      if Comparator(q[k], q[|q| - 1]) then |q| - 1 else k
  }

  /** Pushing a node adds its count and its leaves. */
  lemma SnocSums(a: seq<Tree>, t: Tree)
    ensures TotalCount(a + [t]) == TotalCount(a) + CountOf(t)
    ensures QueueLeaves(a + [t]) == QueueLeaves(a) + Leaves(t)
  {
    assert (a + [t])[..|a|] == a;
  }

  /** The sums of a concatenation are the sums of its parts. */
  lemma {:induction false} AppendSums(a: seq<Tree>, b: seq<Tree>)
    ensures TotalCount(a + b) == TotalCount(a) + TotalCount(b)
    ensures QueueLeaves(a + b) == QueueLeaves(a) + QueueLeaves(b)
    decreases |b|
  {
    if b == [] {
      assert a + b == a;
    } else {
      var b', t := b[..|b| - 1], b[|b| - 1];
      assert b == b' + [t];
      assert a + b == (a + b') + [t];
      AppendSums(a, b');
      SnocSums(a + b', t);
      SnocSums(b', t);
    }
  }

  /** A queue is the entries before k, entry k and the entries after it. */
  lemma SplitAround(q: seq<Tree>, k: nat)
    requires k < |q|
    ensures q[..k] + [q[k]] + q[k + 1..] == q
  {
  }

  /** Taking entry k out of the queue keeps the other entries, in order, and only those. */
  lemma RemoveKeeps(q: seq<Tree>, k: nat)
    requires k < |q|
    ensures multiset(Remove(q, k)) + multiset{q[k]} == multiset(q)
    ensures forall i :: 0 <= i < |q| - 1 ==> Remove(q, k)[i] == if i < k then q[i] else q[i + 1]
  {
    assert multiset(Remove(q, k)) + multiset{q[k]} == multiset(q) by {
      SplitAround(q, k);
      assert multiset(q) == multiset(q[..k]) + multiset{q[k]} + multiset(q[k + 1..]);
    }
  }

  /** Taking an entry out of a valid queue leaves a valid queue. */
  lemma RemoveValid(q: seq<Tree>, k: nat)
    requires k < |q|
    ensures ValidQueue(q) ==> ValidQueue(Remove(q, k))
    ensures AllWeighted(q) ==> AllWeighted(Remove(q, k))
  {
    RemoveKeeps(q, k);
  }

  /** A node between two parts of the queue adds its count and its leaves to theirs. */
  lemma SplitSums(front: seq<Tree>, t: Tree, back: seq<Tree>)
    ensures TotalCount(front + [t] + back) == TotalCount(front + back) + CountOf(t)
    ensures QueueLeaves(front + [t] + back) == QueueLeaves(front + back) + Leaves(t)
  {
    SnocSums(front, t);
    AppendSums(front + [t], back);
    AppendSums(front, back);
  }

  /** Taking entry k out of the queue removes exactly its count and its leaves. */
  lemma RemoveSums(q: seq<Tree>, k: nat)
    requires k < |q|
    ensures TotalCount(Remove(q, k)) + CountOf(q[k]) == TotalCount(q)
    ensures QueueLeaves(Remove(q, k)) + Leaves(q[k]) == QueueLeaves(q)
  {
    SplitAround(q, k);
    SplitSums(q[..k], q[k], q[k + 1..]);
  }

  /** Entry i popped first, then entry j of what is left, joined under a new internal node. */
  function Join(q: seq<Tree>, i: nat, j: nat): (r: seq<Tree>)
    requires i < |q| && j < |q| - 1 && q[i].Node? && Remove(q, i)[j].Node?
    ensures |r| == |q| - 1
  {
    var rest := Remove(q, i);
    Remove(rest, j) + [MakeInternal(q[i].count + rest[j].count, q[i], rest[j])]
  }

  /**
   * One iteration of buildTree: pop the top twice, push an internal node over the two popped
   * nodes (the first popped on the left) whose count is the sum of theirs.
   */
  function MergeStep(q: seq<Tree>): (r: seq<Tree>)
    requires ValidQueue(q) && |q| >= 2
    ensures ValidQueue(r) && |r| == |q| - 1
    ensures r[|r| - 1].Node? && r[|r| - 1].character.None?
    ensures r[|r| - 1].left.Node? && r[|r| - 1].right.Node?
  {
    var i := MinIndex(q);
    RemoveValid(q, i);
    var j := MinIndex(Remove(q, i));
    RemoveValid(Remove(q, i), j);
    Join(q, i, j)
  }

  /** Taking out entries i and then j and pushing a node over them conserves both sums. */
  lemma JoinSums(q: seq<Tree>, i: nat, j: nat)
    requires i < |q| && j < |q| - 1 && q[i].Node? && Remove(q, i)[j].Node?
    ensures TotalCount(Join(q, i, j)) == TotalCount(q)
    ensures QueueLeaves(Join(q, i, j)) == QueueLeaves(q)
  {
    var rest := Remove(q, i);
    var n := MakeInternal(q[i].count + rest[j].count, q[i], rest[j]);
    RemoveSums(q, i);
    RemoveSums(rest, j);
    SnocSums(Remove(rest, j), n);
  }

  /** A merge step conserves the total count and the characters at the leaves of the queue. */
  lemma MergeStepConserves(q: seq<Tree>)
    requires ValidQueue(q) && |q| >= 2
    ensures TotalCount(MergeStep(q)) == TotalCount(q)
    ensures QueueLeaves(MergeStep(q)) == QueueLeaves(q)
  {
    var i := MinIndex(q);
    RemoveValid(q, i);
    JoinSums(q, i, MinIndex(Remove(q, i)));
  }

  /** A merge step keeps every queued node weighted. */
  lemma MergeStepKeepsWeighted(q: seq<Tree>)
    requires ValidQueue(q) && |q| >= 2
    ensures AllWeighted(q) ==> AllWeighted(MergeStep(q))
  {
    var i := MinIndex(q);
    var rest := Remove(q, i);
    RemoveValid(q, i);
    var j := MinIndex(rest);
    var remaining := Remove(rest, j);
    RemoveValid(rest, j);
    var n := MakeInternal(q[i].count + rest[j].count, q[i], rest[j]);
    assert MergeStep(q) == remaining + [n];
    if AllWeighted(q) {
      assert Weighted(q[i]) && Weighted(rest[j]);
    }
  }

  /**
   * Joining the least entry i with the least entry j of the rest makes a node over the two,
   * the smaller on the left, that no node left in the queue undercuts.
   */
  lemma JoinLeast(q: seq<Tree>, i: nat, j: nat)
    requires ValidQueue(q) && i < |q| && j < |q| - 1
    requires forall k :: 0 <= k < |q| ==> q[i].count <= q[k].count
    requires forall k :: 0 <= k < |q| - 1 ==> Remove(q, i)[j].count <= Remove(q, i)[k].count
    ensures var r := Join(q, i, j); var n := r[|r| - 1];
      && n.count == n.left.count + n.right.count
      && multiset(r[..|r| - 1]) + multiset{n.left, n.right} == multiset(q)
      && n.left.count <= n.right.count
      && forall k :: 0 <= k < |r| - 1 ==> n.right.count <= r[k].count
  {
    var rest := Remove(q, i);
    RemoveKeeps(q, i);
    RemoveValid(q, i);
    var remaining := Remove(rest, j);
    RemoveKeeps(rest, j);
    var r := Join(q, i, j);
    assert r[..|r| - 1] == remaining;
    assert q[i].count <= rest[j].count by {
      if j < i {
        assert rest[j] == q[j];
      } else {
        assert rest[j] == q[j + 1];
      }
    }
    forall k | 0 <= k < |remaining| ensures rest[j].count <= remaining[k].count {
      if k < j {
        assert remaining[k] == rest[k];
      } else {
        assert remaining[k] == rest[k + 1];
      }
    }
  }

  /**
   * The node a merge step pushes joins the two nodes of least count, the smaller on the left,
   * and no node left in the queue counts less than either.
   */
  lemma MergeStepJoinsLeast(q: seq<Tree>)
    requires ValidQueue(q) && |q| >= 2
    ensures var r := MergeStep(q); var n := r[|r| - 1];
      && n.count == n.left.count + n.right.count
      && multiset(r[..|r| - 1]) + multiset{n.left, n.right} == multiset(q)
      && n.left.count <= n.right.count
      && forall k :: 0 <= k < |r| - 1 ==> n.right.count <= r[k].count
  {
    var i := MinIndex(q);
    RemoveValid(q, i);
    JoinLeast(q, i, MinIndex(Remove(q, i)));
  }

  /** One merge written out: pop the least node i, then the least node j of the rest, push their join. */
  lemma MergeStepUnfold(q: seq<Tree>, i: nat, j: nat, rest: seq<Tree>)
    requires ValidQueue(q) && |q| >= 2 && i == MinIndex(q) && rest == Remove(q, i)
    requires ValidQueue(rest) && j == MinIndex(rest)
    ensures MergeStep(q) == Remove(rest, j) + [MakeInternal(q[i].count + rest[j].count, q[i], rest[j])]
  {
    assert MergeStep(q) == Join(q, i, j);
  }

  /**
   * buildTree's loop run to the end: merge until fewer than two nodes are queued. Each
   * iteration shrinks the queue by one, so n >= 1 nodes end as exactly one.
   */
  function Huffman(q: seq<Tree>): (r: seq<Tree>)
    requires ValidQueue(q)
    ensures ValidQueue(r)
    ensures |r| == if q == [] then 0 else 1
    ensures TotalCount(r) == TotalCount(q)
    ensures QueueLeaves(r) == QueueLeaves(q)
    ensures AllWeighted(q) ==> AllWeighted(r)
    ensures |q| >= 2 ==> r[0].Node? && r[0].left.Node?
    decreases |q|
  {
    if |q| < 2 then q
    else
      var next := MergeStep(q);
      MergeStepConserves(q);
      MergeStepKeepsWeighted(q);
      assert |next| == 1 ==> next[0] == next[|next| - 1];
      Huffman(next)
  }

  /** The characters of a set in ascending order: the order in which a std::map iterates. */
  ghost function SortedKeys(s: set<Char>): (ks: seq<Char>)
    ensures |ks| == |s| && multiset(ks) == multiset(s)
    decreases |s|
  {
    if s == {} then []
    else
      var c := MinKey(s);
      var rest := SortedKeys(s - {c});
      assert multiset(s) == multiset{c} + multiset(s - {c});
      assert forall k :: 0 <= k < |rest| ==> rest[k] in multiset(s - {c});
      [c] + rest
  }

  /** The characters come out in strictly ascending order. */
  lemma {:induction false} SortedKeysAscending(s: set<Char>)
    ensures forall i, j :: 0 <= i < j < |SortedKeys(s)| ==> SortedKeys(s)[i] < SortedKeys(s)[j]
    decreases |s|
  {
    if s != {} {
      var c := MinKey(s);
      var rest := SortedKeys(s - {c});
      SortedKeysAscending(s - {c});
      var ks := SortedKeys(s);
      assert ks == [c] + rest;
      forall i, j | 0 <= i < j < |ks| ensures ks[i] < ks[j] {
        assert ks[j] == rest[j - 1] && rest[j - 1] in multiset(s - {c});
        if i > 0 {
          assert ks[i] == rest[i - 1] && rest[i - 1] < rest[j - 1];
        } else {
          assert rest[j - 1] in s - {c};
        }
      }
    }
  }

  /** Taking the least element off a set: it comes first, the rest follow in order. */
  lemma SortedKeysStep(s: set<Char>, c: Char)
    requires c in s && forall d :: d in s ==> c <= d
    ensures SortedKeys(s) == [c] + SortedKeys(s - {c})
  {
    assert MinKey(s) == c;
  }

  /** One leaf per character of ks, with its count in m, in the order of ks. */
  function LeavesFor(ks: seq<Char>, m: map<Char, int>): (q: seq<Tree>)
    requires forall k :: 0 <= k < |ks| ==> ks[k] in m
    ensures |q| == |ks| && ValidQueue(q) && AllWeighted(q)
    ensures forall i :: 0 <= i < |q| ==> q[i] == MakeLeaf(ks[i], m[ks[i]])
    ensures QueueLeaves(q) == multiset(ks)
  {
    if ks == [] then []
    else
      var front := ks[..|ks| - 1];
      var c := ks[|ks| - 1];
      assert ks == front + [c];
      var leaf := MakeLeaf(c, m[c]);
      var q := LeavesFor(front, m) + [leaf];
      assert q[..|q| - 1] == LeavesFor(front, m);
      assert Leaves(leaf) == multiset{c};
      assert QueueLeaves(q) == multiset(front) + multiset{c};
      assert multiset(ks) == multiset(front) + multiset{c};
      q
  }

  /** One character more: one leaf more at the back. */
  lemma LeavesForSnoc(ks: seq<Char>, c: Char, m: map<Char, int>)
    requires (forall k :: 0 <= k < |ks| ==> ks[k] in m) && c in m
    ensures LeavesFor(ks + [c], m) == LeavesFor(ks, m) + [MakeLeaf(c, m[c])]
  {
    assert (ks + [c])[..|ks|] == ks;
  }

  /**
   * The queue the HuffmanTree constructor fills (huffman.hpp:223-226): one leaf per entry of
   * the count table, in ascending character order.
   */
  ghost function LeafQueue(m: map<Char, int>): (q: seq<Tree>)
    ensures |q| == |m| && ValidQueue(q) && AllWeighted(q)
    ensures QueueLeaves(q) == multiset(m.Keys)
  {
    var ks := SortedKeys(m.Keys);
    assert forall k :: 0 <= k < |ks| ==> ks[k] in multiset(m.Keys);
    LeavesFor(ks, m)
  }

  /** The root buildTree leaves for a count table with at least one entry. */
  ghost function HuffmanRoot(m: map<Char, int>): (root: Tree)
    requires |m| >= 1
    ensures WellFormed(root)
  {
    Huffman(LeafQueue(m))[0]
  }

  /**
   * The root of the tree for a count table: well-formed and weighted, one leaf per character
   * of the table, counting all of the table's counts, and internal when there are two or more.
   */
  lemma HuffmanRootFacts(m: map<Char, int>)
    requires |m| >= 1
    ensures var root := HuffmanRoot(m);
      && Weighted(root)
      && Leaves(root) == multiset(m.Keys)
      && DistinctLeaves(root)
      && root.count == TotalCount(LeafQueue(m))
      && (|m| >= 2 ==> root.left.Node?)
  {
    var q := LeafQueue(m);
    var r := Huffman(q);
    assert r[..0] == [];
    assert QueueLeaves(r) == Leaves(r[0]);
    assert TotalCount(r) == r[0].count;
  }
}
