/**
 * The count table (CountTable, huffman.hpp:16-91): how many times each character of the
 * input occurs. Characters outside 0..127 are reported and skipped.
 */
module Counting {
  import opened Common

  /** A character the count table accepts: 0..127. */
  predicate IsAscii(c: Char) {
    0 <= c
  }

  /** The count table of a text: each ASCII character of it, with its number of occurrences. */
  function CountMap(s: seq<Char>): (m: map<Char, int>)
    ensures forall c :: c in m <==> c in s && IsAscii(c)
    ensures forall c :: c in m ==> m[c] == multiset(s)[c] && m[c] >= 1
  {
    map c | c in s && IsAscii(c) :: multiset(s)[c]
  }

  /** Reading one more character bumps its count, inserting it at 1, or skips it when not ASCII. */
  lemma CountMapSnoc(s: seq<Char>, c: Char)
    ensures IsAscii(c) && c in CountMap(s) ==> CountMap(s + [c]) == CountMap(s)[c := CountMap(s)[c] + 1]
    ensures IsAscii(c) && c !in CountMap(s) ==> CountMap(s + [c]) == CountMap(s)[c := 1]
    ensures !IsAscii(c) ==> CountMap(s + [c]) == CountMap(s)
  {
    assert multiset(s + [c]) == multiset(s) + multiset{c};
    assert forall d :: d in s + [c] <==> d in s || d == c;
  }

  class CountTable {
    var charCounts: map<Char, int>
    /** The characters read so far; it only states what charCounts counts. */
    ghost var text: seq<Char>

    ghost predicate Valid()
      reads this
    {
      charCounts == CountMap(text)
    }

    /** Reads the input character by character and counts every ASCII one. */
    constructor(input: seq<Char>)
      ensures Valid() && text == input
      ensures charCounts == CountMap(input)
    {
      charCounts := map[];
      text := [];
      new;
      var i := 0;
      while i < |input|
        invariant 0 <= i <= |input|
        invariant text == input[..i]
        invariant charCounts == CountMap(input[..i])
      {
        var current := input[i];
        ghost var read := input[..i + 1];
        assert read == input[..i] + [current];
        CountMapSnoc(input[..i], current);
        if current < 0 || current > 127 {
          // reported and skipped
        } else if current !in charCounts {
          charCounts := charCounts[current := 1];
          assert charCounts == CountMap(read);
        } else {
          charCounts := charCounts[current := charCounts[current] + 1];
          assert charCounts == CountMap(read);
        }
        text := read;
        i := i + 1;
      }
      assert input[..i] == input;
    }

    /**
     * The count of c. Like std::map::operator[], a lookup of a missing character inserts it
     * with count 0.
     */
    method GetCount(c: Char) returns (n: int)
      modifies this
      ensures n == if c in old(charCounts) then old(charCounts)[c] else 0
      ensures charCounts == if c in old(charCounts) then old(charCounts) else old(charCounts)[c := 0]
      ensures text == old(text)
    {
      if c !in charCounts {
        charCounts := charCounts[c := 0];
      }
      n := charCounts[c];
    }

    /** A copy of the whole table. */
    method GetCounts() returns (m: map<Char, int>)
      requires Valid()
      ensures m == CountMap(text)
      ensures forall c :: c in m <==> c in text && IsAscii(c)
      ensures forall c :: c in m ==> m[c] == multiset(text)[c]
    {
      m := charCounts;
    }
  }
}
