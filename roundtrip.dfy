/**
 * Encoding followed by decoding (huffman.cpp:9-102 with the tables of huffman.hpp:236-249):
 * with the Huffman tree of a text, the decoder gives back the text's counted characters, all
 * of them when the codes fill whole bytes and a prefix of them otherwise, because the fewer
 * than eight bits left at the end are dropped.
 */
module RoundTrip {
  import opened Common
  import opened Bits
  import opened Counting
  import opened Build
  import opened CodeTable
  import opened Encoder
  import opened Decoder
  import opened Engine

  /** The characters of s the table has a code for, in order: the others encode to nothing. */
  function Known(enc: map<Char, string>, s: seq<Char>): (r: seq<Char>)
    ensures |r| <= |s|
    ensures forall i :: 0 <= i < |r| ==> r[i] in enc
  {
    if s == [] then []
    else
      var front := Known(enc, s[..|s| - 1]);
      if s[|s| - 1] in enc then front + [s[|s| - 1]] else front
  }

  /** The characters 0..127 of s, in order: those the count table counts. */
  function AsciiChars(s: seq<Char>): (r: seq<Char>)
    ensures |r| <= |s|
    ensures forall i :: 0 <= i < |r| ==> IsAscii(r[i]) && r[i] in s
  {
    if s == [] then []
    else
      var front := AsciiChars(s[..|s| - 1]);
      assert forall i :: 0 <= i < |front| ==> front[i] in s[..|s| - 1];
      if IsAscii(s[|s| - 1]) then front + [s[|s| - 1]] else front
  }

  /** Characters without a code contribute no bits: the codes of s are those of its known characters. */
  lemma {:induction false} ConcatKnown(enc: map<Char, string>, s: seq<Char>)
    ensures Concat(enc, s) == Concat(enc, Known(enc, s))
    decreases |s|
  {
    if s != [] {
      var front, c := s[..|s| - 1], s[|s| - 1];
      ConcatKnown(enc, front);
      var k := Known(enc, front);
      if c in enc {
        assert (k + [c])[..|k|] == k;
      }
    }
  }

  /** When the table's keys are the ASCII characters of s, its known characters are exactly those. */
  lemma {:induction false} KnownAscii(enc: map<Char, string>, s: seq<Char>)
    requires forall i :: 0 <= i < |s| ==> (s[i] in enc <==> IsAscii(s[i]))
    ensures Known(enc, s) == AsciiChars(s)
    decreases |s|
  {
    if s != [] {
      var front := s[..|s| - 1];
      assert forall i :: 0 <= i < |front| ==> front[i] == s[i];
      KnownAscii(enc, front);
    }
  }

  /**
   * The corrected encoder and the decoder are inverse up to the dropped tail: under a
   * prefix-free table and its inverse, decoding the bytes gives a prefix of the known
   * characters of s, and all of them when the codes fill whole bytes.
   */
  lemma FlushAllDecodes(enc: map<Char, string>, dec: map<string, Char>, s: seq<Char>)
    requires Decodable(enc, dec) && BitTable(enc)
    ensures Scan("", Unpack(FlushAll(enc, s)), dec).chars <= Known(enc, s)
    ensures |Concat(enc, s)| % 8 == 0 ==> Scan("", Unpack(FlushAll(enc, s)), dec).chars == Known(enc, s)
  {
    var k := Known(enc, s);
    var bits := Concat(enc, s);
    var whole := |bits| - |bits| % 8;
    ConcatKnown(enc, s);
    FlushAllBits(enc, s);
    assert Unpack(FlushAll(enc, s)) == Concat(enc, k)[..whole];
    DecodeCutCodes(enc, dec, k, whole);
    if |bits| % 8 == 0 {
      assert Concat(enc, k)[..whole] == Concat(enc, k);
      DecodeCodes(enc, dec, k);
    }
  }

  /**
   * The Huffman round trip: the encode table of a text's tree and its decode table take the
   * text's ASCII characters, written by the corrected encoder, back to a prefix of themselves,
   * and to all of them when the codes fill whole bytes.
   */
  lemma HuffmanRoundTrip(text: seq<Char>)
    requires |CountMap(text)| >= 2
    ensures var enc := Codes(HuffmanRoot(CountMap(text)), "");
      var decoded := Scan("", Unpack(FlushAll(enc, text)), InvertTable(enc)).chars;
      && decoded <= AsciiChars(text)
      && (|Concat(enc, text)| % 8 == 0 ==> decoded == AsciiChars(text))
  {
    var m := CountMap(text);
    var enc := Codes(HuffmanRoot(m), "");
    var dec := InvertTable(enc);
    HuffmanCodeFacts(m);
    InvertTableFacts(enc);
    PrefixFreeIsInjective(enc);
    assert Decodable(enc, dec);
    KnownAscii(enc, text);
    FlushAllDecodes(enc, dec, text);
  }

  /**
   * Building the tree of a text, taking its two tables, encoding the text with the corrected
   * encoder and decoding the bytes: the ASCII characters of the text come back, cut short only
   * by the bits dropped at the end.
   */
  method CompressAndRestore(input: seq<Char>) returns (output: seq<Char>)
    requires |CountMap(input)| >= 2
    ensures output <= AsciiChars(input)
    ensures |Concat(Codes(HuffmanRoot(CountMap(input)), ""), input)| % 8 == 0 ==> output == AsciiChars(input)
  {
    var tree := new HuffmanTree(input);
    var enc := tree.GetEncodeTable();
    var dec := tree.GetDecodeTable();
    var bytes := EncodeFlushAll(input, enc);
    output := Decode(bytes, dec);
    HuffmanRoundTrip(input);
  }
}
