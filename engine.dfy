/**
 * The Huffman tree object (HuffmanTree, huffman.hpp:215-341): it counts the characters of its
 * input, queues one leaf per character, merges the queue down to one root, and records the
 * code of every character; it then hands out the encode table, its inverse, and the shortest
 * and longest codes.
 *
 * The object owns three pieces of state the methods update in place: the node queue, the root
 * pointer and the encode table. `text` is the input it was built from; it exists only to
 * state what the other fields hold.
 */
module Engine {
  import opened Common
  import opened Nodes
  import opened Build
  import opened CodeTable
  import opened Counting

  /** INT_MAX, the starting value of getMinLengthCode's running minimum. */
  const IntMax := 2147483647

  /**
   * The decode table built from an encode table by visiting the characters in the order ks:
   * each visit maps the character's code back to it, overwriting an earlier entry.
   */
  function Invert(ks: seq<Char>, enc: map<Char, string>): map<string, Char>
    requires forall i :: 0 <= i < |ks| ==> ks[i] in enc
  {
    if ks == [] then map[]
    else Invert(ks[..|ks| - 1], enc)[enc[ks[|ks| - 1]] := ks[|ks| - 1]]
  }

  /**
   * What inverting yields: its keys are the codes of the characters visited, each entry maps a
   * code back to a visited character that has it, and, when distinct characters have distinct
   * codes and no character is visited twice, each character's code maps back to it.
   */
  lemma {:induction false} InvertFacts(ks: seq<Char>, enc: map<Char, string>)
    requires forall i :: 0 <= i < |ks| ==> ks[i] in enc
    ensures forall code :: code in Invert(ks, enc) <==> exists i :: 0 <= i < |ks| && enc[ks[i]] == code
    ensures forall code :: code in Invert(ks, enc) ==> Invert(ks, enc)[code] in ks && enc[Invert(ks, enc)[code]] == code
    ensures Injective(enc) && (forall i, j :: 0 <= i < j < |ks| ==> ks[i] != ks[j]) ==>
      forall i :: 0 <= i < |ks| ==> enc[ks[i]] in Invert(ks, enc) && Invert(ks, enc)[enc[ks[i]]] == ks[i]
    decreases |ks|
  {
    if ks != [] {
      var front, last := ks[..|ks| - 1], ks[|ks| - 1];
      InvertFacts(front, enc);
      var prev, dec := Invert(front, enc), Invert(ks, enc);
      assert dec == prev[enc[last] := last];
      forall code ensures code in dec <==> exists i :: 0 <= i < |ks| && enc[ks[i]] == code {
        if code in dec && code != enc[last] {
          assert code in prev;
          var i :| 0 <= i < |front| && enc[front[i]] == code;
          assert ks[i] == front[i];
        } else if code in dec {
          assert enc[ks[|ks| - 1]] == code;
        }
        if exists i :: 0 <= i < |ks| && enc[ks[i]] == code {
          var i :| 0 <= i < |ks| && enc[ks[i]] == code;
          if i < |front| {
            assert front[i] == ks[i];
          }
        }
      }
      forall code | code in dec ensures dec[code] in ks && enc[dec[code]] == code {
        if code != enc[last] {
          assert code in prev && dec[code] == prev[code];
          assert prev[code] in front;
        }
      }
      if Injective(enc) && (forall i, j :: 0 <= i < j < |ks| ==> ks[i] != ks[j]) {
        forall i | 0 <= i < |ks| ensures enc[ks[i]] in dec && dec[enc[ks[i]]] == ks[i] {
          if i < |ks| - 1 {
            assert ks[i] == front[i] && ks[i] != last;
            assert enc[front[i]] in prev && prev[enc[front[i]]] == front[i];
          }
        }
      }
    }
  }

  /** The decode table getDecodeTable builds: the codes visited in ascending character order. */
  ghost function InvertTable(enc: map<Char, string>): map<string, Char> {
    var ks := SortedKeys(enc.Keys);
    assert forall i :: 0 <= i < |ks| ==> ks[i] in multiset(enc.Keys);
    Invert(ks, enc)
  }

  /**
   * The table of a tree whose leaves are the characters of keys, each once, and whose root is
   * internal: one code per key, all bit strings, none empty, none a prefix of another.
   */
  lemma TreeCodeFacts(root: Tree, keys: set<Char>)
    requires WellFormed(root) && DistinctLeaves(root) && root.left.Node?
    requires Leaves(root) == multiset(keys)
    ensures var enc := Codes(root, "");
      && enc.Keys == keys
      && BitTable(enc) && PrefixFree(enc) && Injective(enc)
      && forall c :: c in enc ==> enc[c] != ""
  {
    CodeTableFacts(root);
    var enc := Codes(root, "");
    forall c ensures c in enc <==> c in keys {
      assert c in Leaves(root) <==> c in multiset(keys);
    }
  }

  /**
   * The table of the Huffman tree for a count table with two or more characters: one code per
   * character of the count table, all bit strings, none empty, none a prefix of another.
   */
  lemma HuffmanCodeFacts(m: map<Char, int>)
    requires |m| >= 2
    ensures var enc := Codes(HuffmanRoot(m), "");
      && enc.Keys == m.Keys
      && BitTable(enc) && PrefixFree(enc) && Injective(enc)
      && forall c :: c in enc ==> enc[c] != ""
  {
    HuffmanRootFacts(m);
    TreeCodeFacts(HuffmanRoot(m), m.Keys);
  }

  /** Writing the entries of b and then those of c is writing those of b + c. */
  lemma UnionAssoc(a: map<Char, string>, b: map<Char, string>, c: map<Char, string>)
    ensures (a + b) + c == a + (b + c)
  {
    var x, y := (a + b) + c, a + (b + c);
    assert x.Keys == y.Keys;
    forall k | k in x ensures x[k] == y[k] {
    }
  }

  /** Writing the entries of b into an empty table gives b. */
  lemma EmptyUnion(b: map<Char, string>)
    ensures map[] + b == b
  {
    var x: map<Char, string> := map[] + b;
    assert x.Keys == b.Keys;
  }

  /** The least element of a set, as the loops below pick it. */
  predicate IsLeast(c: Char, s: set<Char>) {
    c in s && forall d :: d in s ==> c <= d
  }

  /** A non-empty set of characters has a least element. */
  lemma LeastExists(s: set<Char>)
    requires s != {}
    ensures exists c :: IsLeast(c, s)
  {
    assert IsLeast(MinKey(s), s);
  }

  /** The constructor's first step: a count table of the input, and a copy of its counts. */
  method CountInput(input: seq<Char>) returns (counts: map<Char, int>)
    ensures counts == CountMap(input)
  {
    var countTable := new CountTable(input);
    counts := countTable.GetCounts();
  }

  /**
   * One step of a walk over a set of characters in ascending order: the least remaining
   * character moves to the visited ones.
   */
  lemma VisitNext(visited: seq<Char>, remaining: set<Char>, c: Char, keys: set<Char>)
    requires remaining <= keys && IsLeast(c, remaining)
    requires visited + SortedKeys(remaining) == SortedKeys(keys)
    ensures (visited + [c]) + SortedKeys(remaining - {c}) == SortedKeys(keys)
  {
    SortedKeysStep(remaining, c);
  }

  /** Appending a key of m keeps every element a key of m. */
  lemma AppendKey<V>(ks: seq<Char>, c: Char, m: map<Char, V>)
    requires (forall i :: 0 <= i < |ks| ==> ks[i] in m) && c in m
    ensures forall i :: 0 <= i < |ks + [c]| ==> (ks + [c])[i] in m
  {
  }

  /** Visiting one character more writes its entry last. */
  lemma InvertSnoc(ks: seq<Char>, c: Char, enc: map<Char, string>)
    requires (forall i :: 0 <= i < |ks| ==> ks[i] in enc) && c in enc
    ensures Invert(ks + [c], enc) == Invert(ks, enc)[enc[c] := c]
  {
    assert (ks + [c])[..|ks|] == ks;
  }

  class HuffmanTree {
    var nodeQueue: seq<Tree>
    var root: Tree
    var encodeTable: map<Char, string>
    ghost const text: seq<Char>

    /** The state the constructor leaves: the tree of the input's counts and its codes. */
    ghost predicate Valid()
      reads this
    {
      |CountMap(text)| >= 2 && Built(CountMap(text))
    }

    /** The tree of the counts, alone in the queue, and its codes. */
    ghost predicate Built(counts: map<Char, int>)
      reads this`root, this`nodeQueue, this`encodeTable
      requires |counts| >= 2
    {
      && root == HuffmanRoot(counts)
      && nodeQueue == [root]
      && encodeTable == Codes(root, "")
    }

    /**
     * Counts the input, queues one leaf per counted character in ascending character order,
     * builds the tree and generates the codes. With fewer than two distinct counted characters
     * buildTree never assigns root and preorderEncode follows an uninitialised pointer, so two
     * are required.
     */
    constructor(input: seq<Char>)
      requires |CountMap(input)| >= 2
      ensures Valid() && text == input
    {
      nodeQueue := [];
      root := Null;
      encodeTable := map[];
      text := input;
      new;
      var counts := CountInput(input);
      BuildFromCounts(counts);
    }

    /**
     * The rest of the constructor: queue the leaves of the count table, build the tree from
     * them and generate the codes.
     */
    method BuildFromCounts(counts: map<Char, int>)
      modifies this`nodeQueue, this`root, this`encodeTable
      requires |counts| >= 2
      ensures Built(counts)
    {
      GrowTree(counts);
      EncodeTree();
    }

    /** The constructor's last step: the codes of the whole tree, from an empty table. */
    method EncodeTree()
      modifies this`encodeTable
      requires WellFormed(root)
      ensures encodeTable == Codes(root, "")
    {
      encodeTable := map[];
      PreorderEncode(root, "");
      EmptyUnion(Codes(root, ""));
    }

    /**
     * The constructor's middle part: queue the leaves of the count table and build the tree
     * from them.
     */
    method GrowTree(counts: map<Char, int>)
      modifies this`nodeQueue, this`root
      requires |counts| >= 2
      ensures root == HuffmanRoot(counts) && nodeQueue == [root]
    {
      nodeQueue := [];
      PushLeaves(counts);
      BuildTree();
    }

    /**
     * The constructor's first loop (huffman.hpp:223-226): push one leaf per entry of the count
     * table, visiting the characters in ascending order as std::map does.
     */
    method PushLeaves(counts: map<Char, int>)
      modifies this`nodeQueue
      requires nodeQueue == []
      ensures nodeQueue == LeafQueue(counts)
    {
      var remaining := counts.Keys;
      ghost var pushed: seq<Char> := [];
      while remaining != {}
        invariant remaining <= counts.Keys
        invariant pushed + SortedKeys(remaining) == SortedKeys(counts.Keys)
        invariant forall i :: 0 <= i < |pushed| ==> pushed[i] in counts
        invariant nodeQueue == LeavesFor(pushed, counts)
        decreases |remaining|
      {
        LeastExists(remaining);
        var c :| IsLeast(c, remaining);
        VisitNext(pushed, remaining, c, counts.Keys);
        AppendKey(pushed, c, counts);
        LeavesForSnoc(pushed, c, counts);
        nodeQueue := nodeQueue + [MakeLeaf(c, counts[c])];
        pushed := pushed + [c];
        remaining := remaining - {c};
      }
      assert pushed == SortedKeys(counts.Keys);
    }

    /**
     * buildTree: while two or more nodes are queued, pop the two of least count, join them
     * under a new node that counts both, make it the root and push it. The queue ends as
     * Huffman's single tree and root is that tree; with fewer than two nodes nothing changes.
     */
    method BuildTree()
      modifies this`nodeQueue, this`root
      requires ValidQueue(nodeQueue)
      ensures nodeQueue == Huffman(old(nodeQueue))
      ensures |old(nodeQueue)| >= 2 ==> nodeQueue == [root]
      ensures |old(nodeQueue)| < 2 ==> root == old(root)
    {
      ghost var merged := false;
      while |nodeQueue| >= 2
        invariant ValidQueue(nodeQueue)
        invariant Huffman(nodeQueue) == Huffman(old(nodeQueue))
        invariant merged ==> |old(nodeQueue)| >= 2 && |nodeQueue| >= 1 && root == nodeQueue[|nodeQueue| - 1]
        invariant !merged ==> nodeQueue == old(nodeQueue) && root == old(root)
        decreases |nodeQueue|
      {
        MergeTwoLeast();
        merged := true;
      }
      assert Huffman(nodeQueue) == nodeQueue;
      assert merged ==> nodeQueue == [nodeQueue[0]];
    }

    /**
     * One iteration of buildTree's loop: pop the node of least count, pop the least of the
     * rest, and push, as the new root, a node that counts both with them as its children.
     */
    method MergeTwoLeast()
      modifies this`nodeQueue, this`root
      requires ValidQueue(nodeQueue) && |nodeQueue| >= 2
      ensures nodeQueue == MergeStep(old(nodeQueue))
      ensures root == nodeQueue[|nodeQueue| - 1]
    {
      ghost var q := nodeQueue;
      var first := MinIndex(nodeQueue);
      var smallestFirst := nodeQueue[first];
      RemoveValid(nodeQueue, first);
      nodeQueue := Remove(nodeQueue, first);
      ghost var rest := nodeQueue;
      var second := MinIndex(nodeQueue);
      var smallestSecond := nodeQueue[second];
      nodeQueue := Remove(nodeQueue, second);
      root := MakeInternal(smallestFirst.count + smallestSecond.count, smallestFirst, smallestSecond);
      nodeQueue := nodeQueue + [root];
      MergeStepUnfold(q, first, second, rest);
    }

    /**
     * preorderEncode: a leaf records the path that reached it as its character's code; an
     * internal node passes the path on with '0' to the left and then with '1' to the right.
     */
    method PreorderEncode(node: Tree, accumulator: string)
      modifies this`encodeTable
      requires WellFormed(node)
      ensures encodeTable == old(encodeTable) + Codes(node, accumulator)
      decreases node
    {
      var leaf := IsLeaf(node);
      if leaf == Ok(true) {
        var character := GetCharacter(node);
        encodeTable := encodeTable[character.value := accumulator];
        return;
      }
      ghost var before := encodeTable;
      PreorderEncode(node.left, accumulator + "0");
      PreorderEncode(node.right, accumulator + "1");
      UnionAssoc(before, Codes(node.left, accumulator + "0"), Codes(node.right, accumulator + "1"));
    }

    /**
     * getEncodeTable: a copy of the codes, one for each character 0..127 of the input, every
     * one a non-empty bit string and none a prefix of another.
     */
    method GetEncodeTable() returns (table: map<Char, string>)
      requires Valid()
      ensures table == encodeTable
      ensures forall c :: c in table <==> c in text && IsAscii(c)
      ensures BitTable(table) && PrefixFree(table)
      ensures forall c :: c in table ==> table[c] != ""
    {
      HuffmanCodeFacts(CountMap(text));
      table := encodeTable;
    }

    /**
     * getDecodeTable: visit the encode table in ascending character order and map each code
     * back to its character. Its keys are exactly the codes, every entry maps a code back to a
     * character that has it, and when codes are distinct it is the exact inverse.
     */
    method GetDecodeTable() returns (decodeTable: map<string, Char>)
      ensures decodeTable == InvertTable(encodeTable)
      ensures decodeTable.Keys == encodeTable.Values
      ensures forall code :: code in decodeTable ==>
        decodeTable[code] in encodeTable && encodeTable[decodeTable[code]] == code
      ensures Injective(encodeTable) ==> IsInverse(decodeTable, encodeTable)
    {
      decodeTable := map[];
      var remaining := encodeTable.Keys;
      ghost var visited: seq<Char> := [];
      while remaining != {}
        invariant remaining <= encodeTable.Keys
        invariant visited + SortedKeys(remaining) == SortedKeys(encodeTable.Keys)
        invariant forall i :: 0 <= i < |visited| ==> visited[i] in encodeTable
        invariant decodeTable == Invert(visited, encodeTable)
        decreases |remaining|
      {
        LeastExists(remaining);
        var character :| IsLeast(character, remaining);
        VisitNext(visited, remaining, character, encodeTable.Keys);
        AppendKey(visited, character, encodeTable);
        InvertSnoc(visited, character, encodeTable);
        decodeTable := decodeTable[encodeTable[character] := character];
        visited := visited + [character];
        remaining := remaining - {character};
      }
      assert visited == SortedKeys(encodeTable.Keys);
      InvertTableFacts(encodeTable);
    }

    /**
     * getMinLengthCode: the running minimum starts at INT_MAX and is replaced only by a
     * strictly shorter code, so the result is the code of the first character, in ascending
     * order, among those of least length; with no code shorter than INT_MAX it stays "".
     */
    method GetMinLengthCode() returns (mincode: string)
      ensures forall c :: c in encodeTable && |encodeTable[c]| < IntMax ==> |mincode| <= |encodeTable[c]|
      ensures (forall c :: c in encodeTable ==> |encodeTable[c]| >= IntMax) ==> mincode == ""
      ensures (exists c :: c in encodeTable && |encodeTable[c]| < IntMax) ==>
        exists c :: c in encodeTable && mincode == encodeTable[c] &&
          forall d :: d in encodeTable && d < c ==> |encodeTable[d]| > |mincode|
    {
      mincode := "";
      var minlen := IntMax;
      var remaining := encodeTable.Keys;
      ghost var found := false;
      ghost var best: Char := 0;
      while remaining != {}
        invariant remaining <= encodeTable.Keys
        invariant forall d, r :: d in encodeTable && d !in remaining && r in remaining ==> d < r
        invariant minlen <= IntMax
        invariant forall d :: d in encodeTable && d !in remaining ==> minlen <= |encodeTable[d]|
        invariant !found ==> minlen == IntMax && mincode == ""
        invariant !found ==> forall d :: d in encodeTable && d !in remaining ==> |encodeTable[d]| >= IntMax
        invariant found ==> best in encodeTable && best !in remaining && mincode == encodeTable[best] && minlen == |mincode| < IntMax
        invariant found ==> forall d :: d in encodeTable && d < best ==> |encodeTable[d]| > minlen
        decreases |remaining|
      {
        LeastExists(remaining);
        var character :| IsLeast(character, remaining);
        var code := encodeTable[character];
        if |code| < minlen {
          mincode := encodeTable[character];
          minlen := |code|;
          found, best := true, character;
        }
        remaining := remaining - {character};
      }
    }

    /**
     * getMaxLengthCode: the running maximum starts at 0 and is replaced only by a strictly
     * longer code, so the result is the code of the first character, in ascending order, among
     * those of greatest length; when every code is empty it stays "".
     */
    method GetMaxLengthCode() returns (maxcode: string)
      ensures forall c :: c in encodeTable ==> |encodeTable[c]| <= |maxcode|
      ensures (forall c :: c in encodeTable ==> encodeTable[c] == "") ==> maxcode == ""
      ensures (exists c :: c in encodeTable && encodeTable[c] != "") ==>
        exists c :: c in encodeTable && maxcode == encodeTable[c] &&
          forall d :: d in encodeTable && d < c ==> |encodeTable[d]| < |maxcode|
    {
      maxcode := "";
      var maxlen := 0;
      var remaining := encodeTable.Keys;
      ghost var found := false;
      ghost var best: Char := 0;
      while remaining != {}
        invariant remaining <= encodeTable.Keys
        invariant forall d, r :: d in encodeTable && d !in remaining && r in remaining ==> d < r
        invariant forall d :: d in encodeTable && d !in remaining ==> |encodeTable[d]| <= maxlen
        invariant maxlen == |maxcode|
        invariant !found ==> maxcode == "" && forall d :: d in encodeTable && d !in remaining ==> encodeTable[d] == ""
        invariant found ==> best in encodeTable && best !in remaining && maxcode == encodeTable[best]
        invariant found ==> forall d :: d in encodeTable && d < best ==> |encodeTable[d]| < maxlen
        decreases |remaining|
      {
        LeastExists(remaining);
        var character :| IsLeast(character, remaining);
        var code := encodeTable[character];
        if |code| > maxlen {
          maxcode := encodeTable[character];
          maxlen := |code|;
          found, best := true, character;
        }
        remaining := remaining - {character};
      }
    }
  }

  /**
   * The decode table of an encode table: its keys are exactly the codes, every entry maps a
   * code back to a character that has it, and when codes are distinct it is the exact inverse.
   */
  lemma InvertTableFacts(enc: map<Char, string>)
    ensures var dec := InvertTable(enc);
      && dec.Keys == enc.Values
      && (forall code :: code in dec ==> dec[code] in enc && enc[dec[code]] == code)
      && (Injective(enc) ==> IsInverse(dec, enc))
  {
    var ks := SortedKeys(enc.Keys);
    KeysListed(enc.Keys);
    assert forall i :: 0 <= i < |ks| ==> ks[i] in enc;
    InvertFacts(ks, enc);
    var dec := InvertTable(enc);
    assert dec == Invert(ks, enc);
    assert dec.Keys == enc.Values by {
      forall code ensures code in dec <==> code in enc.Values {
        if code in enc.Values {
          var c :| c in enc && enc[c] == code;
          var i :| 0 <= i < |ks| && ks[i] == c;
        }
      }
    }
    if Injective(enc) {
      SortedKeysAscending(enc.Keys);
      assert forall i, j :: 0 <= i < j < |ks| ==> ks[i] != ks[j];
      forall c | c in enc ensures dec[enc[c]] == c {
        var i :| 0 <= i < |ks| && ks[i] == c;
      }
    }
  }

  /** Listing a set in ascending order lists exactly its elements. */
  lemma KeysListed(s: set<Char>)
    ensures forall i :: 0 <= i < |SortedKeys(s)| ==> SortedKeys(s)[i] in s
    ensures forall c :: c in s ==> exists i :: 0 <= i < |SortedKeys(s)| && SortedKeys(s)[i] == c
  {
    var ks := SortedKeys(s);
    forall i | 0 <= i < |ks| ensures ks[i] in s {
      assert ks[i] in multiset(ks);
      assert ks[i] in multiset(s);
    }
    forall c | c in s ensures exists i :: 0 <= i < |ks| && ks[i] == c {
      assert c in multiset(s);
      assert c in multiset(ks);
      assert c in ks;
    }
  }
}
