/** Types shared by every part of the Huffman coding engine. */
module Common {

  /** A C++ `char` as the engine reads it from a file: signed, eight bits. */
  type Char = c: int | -128 <= c <= 127

  /** An `unsigned char`, the unit the encoder writes. */
  type Byte = b: int | 0 <= b < 256

  datatype Option<T> = None | Some(value: T)

  /** A string made only of the characters '0' and '1', as every Huffman code is. */
  predicate IsBits(s: string) {
    forall i :: 0 <= i < |s| ==> s[i] == '0' || s[i] == '1'
  }

  /** Every code of an encode table is a bit string. */
  predicate BitTable(enc: map<Char, string>) {
    forall c :: c in enc ==> IsBits(enc[c])
  }

  /** No code of the table is a prefix of the code of another character. */
  predicate PrefixFree(enc: map<Char, string>) {
    forall c, d :: c in enc && d in enc && c != d ==> !(enc[c] <= enc[d])
  }

  /** Distinct characters have distinct codes. */
  predicate Injective(enc: map<Char, string>) {
    forall c, d :: c in enc && d in enc && c != d ==> enc[c] != enc[d]
  }

  /** `dec` is the exact inverse of `enc`: its keys are the codes, and each code maps back. */
  predicate IsInverse(dec: map<string, Char>, enc: map<Char, string>) {
    && dec.Keys == enc.Values
    && (forall c :: c in enc ==> dec[enc[c]] == c)
  }

  lemma PrefixFreeIsInjective(enc: map<Char, string>)
    requires PrefixFree(enc)
    ensures Injective(enc)
  {
  }

  /** An injective table has as many distinct codes as characters. */
  lemma {:induction false} InjectiveValuesSize(enc: map<Char, string>)
    requires Injective(enc)
    ensures |enc.Values| == |enc.Keys|
    decreases |enc.Keys|
  {
    if enc.Keys != {} {
      var c :| c in enc.Keys;
      var rest := enc - {c};
      assert Injective(rest);
      InjectiveValuesSize(rest);
      assert rest.Keys == enc.Keys - {c};
      assert rest.Values == enc.Values - {enc[c]} by {
        forall v | v in enc.Values - {enc[c]} ensures v in rest.Values {
          var d :| d in enc && enc[d] == v;
          assert d != c;
          assert rest[d] == v;
        }
      }
    }
  }

  /** The least element of a non-empty set of characters: the order in which a std::map iterates. */
  ghost function MinKey(s: set<Char>): (c: Char)
    requires s != {}
    ensures c in s && forall d :: d in s ==> c <= d
    decreases |s|
  {
    var x :| x in s;
    if s == {x} then x
    else
      var m := MinKey(s - {x});
      assert forall d :: d in s ==> d == x || d in s - {x};
      if x < m then x else m
  }
}
