/**
 * Inputs on which encode as written (huffman.cpp:9-46) departs from the corrected encoder,
 * which writes every full byte of the codes, as the comments at huffman.cpp:20 and 32 intend,
 * and drops only the fewer than eight bits at the end. Each lemma evaluates the as-written model and the corrected one on the same input.
 */
module Findings {
  import opened Common
  import opened Bits
  import opened Encoder
  import opened Decoder

  /** Two one-bit codes: 'a' (97) is "1", 'b' (98) is "0". */
  function OneBitCodes(): map<Char, string> {
    map[97 := "1", 98 := "0"]
  }

  /** The inverse of `OneBitCodes`. */
  function OneBitDecode(): map<string, Char> {
    map["1" := 97, "0" := 98]
  }

  /** Eight bits pack into one byte. */
  lemma PackOne(x: string)
    requires |x| == 8
    ensures Pack(x) == [BitsValue(x)]
  {
    assert x[..0] == [] && x[0..] == x;
  }

  /** Sixteen bits pack into two bytes, the first eight bits first. */
  lemma PackTwo(x: string)
    requires |x| == 16
    ensures Pack(x) == [BitsValue(x[..8]), BitsValue(x[8..])]
  {
    PackOne(x[..8]);
  }

  /** The codes of "aaab": one bit each. */
  lemma ConcatAaab()
    ensures Concat(OneBitCodes(), [97, 97, 97, 98]) == "1110"
  {
    var enc := OneBitCodes();
    var s: seq<Char> := [97, 97, 97, 98];
    assert s[..3] == [97, 97, 97] && s[..3][..2] == [97, 97] && s[..3][..2][..1] == [97];
    assert [97][..0] == [];
    assert Concat(enc, [97]) == "1";
    assert Concat(enc, [97, 97]) == "11";
    assert Concat(enc, [97, 97, 97]) == "111";
  }

  /** The inner loop on "aaab": three codes read, then the last one appended four times. */
  lemma FillAaab()
    ensures Fill([97, 97, 97, 98], OneBitCodes(), 1, "1", 0) == Filled(4, "11100000", 4)
  {
    var enc := OneBitCodes();
    var s: seq<Char> := [97, 97, 97, 98];
    assert Code(enc, 97) == "1" && Code(enc, 98) == "0";
    assert "1" + "1" == "11" && "11" + "1" == "111" && "111" + "0" == "1110";
    assert "1110" + "0" == "11100" && "11100" + "0" == "111000";
    assert "111000" + "0" == "1110000" && "1110000" + "0" == "11100000";
    assert Fill(s, enc, 4, "11100000", 4) == Filled(4, "11100000", 4);
    assert Fill(s, enc, 4, "1110000", 3) == Fill(s, enc, 4, "11100000", 4);
    assert Fill(s, enc, 4, "111000", 2) == Fill(s, enc, 4, "1110000", 3);
    assert Fill(s, enc, 4, "11100", 1) == Fill(s, enc, 4, "111000", 2);
    assert Fill(s, enc, 4, "1110", 0) == Fill(s, enc, 4, "11100", 1);
    assert Fill(s, enc, 3, "111", 0) == Fill(s, enc, 4, "1110", 0);
    assert Fill(s, enc, 2, "11", 0) == Fill(s, enc, 3, "111", 0);
    assert Fill(s, enc, 1, "1", 0) == Fill(s, enc, 2, "11", 0);
  }

  /** Decoding a one-bit code first: its character, then what the rest decodes to. */
  lemma ScanOneBit(bits: string, dec: map<string, Char>)
    requires bits != [] && [bits[0]] in dec
    ensures Scan("", bits, dec).chars == [dec[[bits[0]]]] + Scan("", bits[1..], dec).chars
  {
    assert "" + [bits[0]] == [bits[0]];
  }

  /** Decoding three '1's with one-bit codes: three 'a's, nothing left over. */
  lemma ScanOnes()
    ensures Scan("", "111", OneBitDecode()) == Parse([97, 97, 97], "")
  {
    var dec := OneBitDecode();
    assert ["1"[0]] == "1";
    assert "111"[1..] == "11" && "11"[1..] == "1" && "1"[1..] == "";
    ScanOneBit("1", dec);
    ScanOneBit("11", dec);
    ScanOneBit("111", dec);
  }

  /** Decoding five '0's with one-bit codes: five 'b's, nothing left over. */
  lemma ScanZeros()
    ensures Scan("", "00000", OneBitDecode()) == Parse([98, 98, 98, 98, 98], "")
  {
    var dec := OneBitDecode();
    assert ["0"[0]] == "0";
    assert "00000"[1..] == "0000" && "0000"[1..] == "000" && "000"[1..] == "00";
    assert "00"[1..] == "0" && "0"[1..] == "";
    ScanOneBit("0", dec);
    ScanOneBit("00", dec);
    ScanOneBit("000", dec);
    ScanOneBit("0000", dec);
    ScanOneBit("00000", dec);
  }

  /** The byte 11100000 unpacks to its eight bits. */
  lemma UnpackPadded()
    ensures Unpack(Pack("11100000")) == "111" + "00000"
  {
    var x := "11100000";
    assert IsBits(x) by {
      forall i | 0 <= i < 8 ensures x[i] == '0' || x[i] == '1' {
      }
    }
    UnpackPack(x);
  }

  /** The bits "aaab" is written as, decoded with one-bit codes: three 'a's and five 'b's. */
  lemma ScanPaddedBits()
    ensures Scan("", "111" + "00000", OneBitDecode()).chars == [97, 97, 97, 98, 98, 98, 98, 98]
  {
    ScanOnes();
    ScanZeros();
    ScanAppend("", "111", "00000", OneBitDecode());
  }

  /** The byte "aaab" is written as, decoded with one-bit codes: three 'a's and five 'b's. */
  lemma ScanPadded()
    ensures Scan("", Unpack(Pack("11100000")), OneBitDecode()).chars == [97, 97, 97, 98, 98, 98, 98, 98]
  {
    UnpackPadded();
    ScanPaddedBits();
  }

  /** When the first fill already reads the whole input, encode as written writes one byte. */
  lemma RunOneByte(s: seq<Char>, enc: map<Char, string>, x: string, pads: nat)
    requires s != [] && |x| == 8
    requires Fill(s, enc, 1, Code(enc, s[0]), 0) == Filled(|s|, x, pads)
    ensures EncodeAsWritten(s, enc) == Encoded(Pack(x))
  {
    assert "" + Code(enc, s[0]) == Code(enc, s[0]);
    assert x[..8] == x;
    PackOne(x);
    assert Run(s, enc, |s|, x[8..], [] + [BitsValue(x)]) == Encoded(Pack(x));
    assert Run(s, enc, 0, "", []) == Run(s, enc, |s|, x[8..], [] + [BitsValue(x[..8])]);
  }

  /** encode as written on "aaab" with one-bit codes: the single byte 11100000. */
  lemma AaabAsWritten()
    ensures EncodeAsWritten([97, 97, 97, 98], OneBitCodes()) == Encoded(Pack("11100000"))
  {
    var s: seq<Char> := [97, 97, 97, 98];
    FillAaab();
    assert Code(OneBitCodes(), s[0]) == "1";
    RunOneByte(s, OneBitCodes(), "11100000", 4);
  }

  /** The corrected encoder on "aaab" with one-bit codes: four bits, no whole byte, nothing written. */
  lemma AaabFlushAll()
    ensures FlushAll(OneBitCodes(), [97, 97, 97, 98]) == []
  {
    ConcatAaab();
    assert "1110"[..0] == [];
  }

  /**
   * Past the end of the input the inner loop appends the last character's code again until
   * the byte is full, so "aaab" is written as the one byte 11100000, which decodes to
   * "aaabbbbb"; the corrected encoder writes no partial byte, and nothing decodes to nothing.
   */
  lemma LastCodeRepeated()
    ensures EncodeAsWritten([97, 97, 97, 98], OneBitCodes()) == Encoded(Pack("11100000"))
    ensures Scan("", Unpack(Pack("11100000")), OneBitDecode()).chars == [97, 97, 97, 98, 98, 98, 98, 98]
    ensures FlushAll(OneBitCodes(), [97, 97, 97, 98]) == []
  {
    AaabAsWritten();
    ScanPadded();
    AaabFlushAll();
  }

  /** 'a' (97) is "0", 'b' (98) is "1" followed by eleven zeros. */
  function LongCodes(): map<Char, string> {
    map[97 := "0", 98 := "100000000000"]
  }

  /** The inverse of `LongCodes`. */
  function LongDecode(): map<string, Char> {
    map["0" := 97, "100000000000" := 98]
  }

  /** The codes of the long table. */
  lemma LongValues()
    ensures LongCodes().Values == {"0", "100000000000"}
  {
    var enc := LongCodes();
    assert enc[97] == "0" && enc[98] == "100000000000";
  }

  /** The long table and its inverse decode uniquely. */
  lemma LongDecodable()
    ensures Decodable(LongCodes(), LongDecode()) && BitTable(LongCodes())
  {
    LongValues();
    assert "0"[0] != "100000000000"[0];
  }

  /** When each of two characters fills the buffer by itself, encode as written writes two bytes. */
  lemma RunTwoBytes(s: seq<Char>, enc: map<Char, string>, b1: string, b2: string)
    requires |s| == 2 && |b1| >= 8 && |b2| >= 8
    requires Fill(s, enc, 1, Code(enc, s[0]), 0) == Filled(1, b1, 0)
    requires Fill(s, enc, 2, b1[8..] + Code(enc, s[1]), 0) == Filled(2, b2, 0)
    ensures EncodeAsWritten(s, enc) == Encoded([BitsValue(b1[..8]), BitsValue(b2[..8])])
  {
    assert "" + Code(enc, s[0]) == Code(enc, s[0]);
    var out := [] + [BitsValue(b1[..8])];
    assert Run(s, enc, 1, b1[8..], out) == Run(s, enc, 2, b2[8..], out + [BitsValue(b2[..8])]);
  }

  /** encode as written on "bb" with the long table: the first sixteen of its 24 bits. */
  lemma LongAsWritten()
    ensures var code := "100000000000";
      EncodeAsWritten([98, 98], LongCodes()) == Encoded(Pack(code + code[..4]))
  {
    var s: seq<Char> := [98, 98];
    var enc := LongCodes();
    var code := "100000000000";
    var x := code + code[..4];
    var b := code[8..] + code;
    assert Code(enc, s[0]) == code && Code(enc, s[1]) == code;
    assert Fill(s, enc, 1, code, 0) == Filled(1, code, 0);
    assert Fill(s, enc, 2, b, 0) == Filled(2, b, 0);
    RunTwoBytes(s, enc, code, b);
    assert x[..8] == code[..8] && x[8..] == b[..8];
    PackTwo(x);
  }

  /** The codes of "bb" with the long table: the long code twice. */
  lemma LongConcat()
    ensures Concat(LongCodes(), [98, 98]) == "100000000000" + "100000000000"
  {
    var s: seq<Char> := [98, 98];
    assert s[..1] == [98] && [98][..0] == [];
  }

  /** The two bytes encode as written leaves unpack to the 16 bits they were packed from. */
  lemma LongCutBits()
    ensures var code := "100000000000"; Unpack(Pack(code + code[..4])) == code + code[..4]
  {
    var code := "100000000000";
    var x := code + code[..4];
    assert IsBits(code) by {
      forall i | 0 <= i < |code| ensures code[i] == '0' || code[i] == '1' {
      }
    }
    assert IsBits(x) by {
      forall i | 0 <= i < |x| ensures x[i] == '0' || x[i] == '1' {
        assert x[i] == code[if i < 12 then i else i - 12];
      }
    }
    UnpackPack(x);
  }

  /** A whole code followed by part of a code decodes to the one character, the part left over. */
  lemma ScanCodeThenPart(enc: map<Char, string>, dec: map<string, Char>, c: Char, m: nat)
    requires Decodable(enc, dec) && c in enc && m < |enc[c]|
    ensures Scan("", enc[c] + enc[c][..m], dec).chars == [c]
  {
    ScanAppend("", enc[c], enc[c][..m], dec);
    ScanCode(enc, dec, c);
    ScanPartialCode(enc, dec, c, m);
  }

  /** The 16 bits encode as written leaves in the buffer decode to one 'b'. */
  lemma LongCutScan()
    ensures var code := "100000000000"; Scan("", code + code[..4], LongDecode()).chars == [98]
  {
    LongDecodable();
    assert LongCodes()[98] == "100000000000";
    ScanCodeThenPart(LongCodes(), LongDecode(), 98, 4);
  }

  /** The two bytes encode as written writes for "bb" decode to one 'b'. */
  lemma LongCutDecode()
    ensures var code := "100000000000";
      Scan("", Unpack(Pack(code + code[..4])), LongDecode()).chars == [98]
  {
    LongCutBits();
    LongCutScan();
  }

  /** When the codes fill whole bytes, the corrected encoder packs all of them. */
  lemma FlushWhole(enc: map<Char, string>, s: seq<Char>, bits: string)
    requires Concat(enc, s) == bits && |bits| % 8 == 0
    ensures FlushAll(enc, s) == Pack(bits)
  {
    assert bits[..|bits| - |bits| % 8] == bits;
  }

  /** The corrected encoder on "bb" with the long table writes all 24 bits. */
  lemma LongFlushBytes()
    ensures var code := "100000000000"; FlushAll(LongCodes(), [98, 98]) == Pack(code + code)
  {
    var code := "100000000000";
    LongConcat();
    FlushWhole(LongCodes(), [98, 98], code + code);
  }

  /** The bytes the corrected encoder writes for "bb" with the long table decode to "bb". */
  lemma LongFlushDecode()
    ensures Scan("", Unpack(FlushAll(LongCodes(), [98, 98])), LongDecode()).chars == [98, 98]
  {
    LongConcat();
    LongDecodable();
    WholeCodesDecode(LongCodes(), LongDecode(), [98, 98]);
  }

  /** When the codes fill whole bytes, the corrected encoder's bytes decode to the whole text. */
  lemma WholeCodesDecode(enc: map<Char, string>, dec: map<string, Char>, s: seq<Char>)
    requires Decodable(enc, dec) && BitTable(enc) && forall i :: 0 <= i < |s| ==> s[i] in enc
    requires |Concat(enc, s)| % 8 == 0
    ensures Scan("", Unpack(FlushAll(enc, s)), dec).chars == s
  {
    var bits := Concat(enc, s);
    FlushWhole(enc, s, bits);
    ConcatBits(enc, s);
    UnpackPack(bits);
    DecodeCodes(enc, dec, s);
  }

  /**
   * The outer loop writes one byte per character it reads, so when a code is longer than
   * eight bits whole bytes stay in the buffer and are never written: "bb" is written as the
   * two bytes 10000000 00001000 and comes back as "b". The corrected encoder writes all 24 bits
   * and "bb" comes back whole.
   */
  lemma FullBytesLeftBehind()
    ensures var code := "100000000000";
      && EncodeAsWritten([98, 98], LongCodes()) == Encoded(Pack(code + code[..4]))
      && Scan("", Unpack(Pack(code + code[..4])), LongDecode()).chars == [98]
      && FlushAll(LongCodes(), [98, 98]) == Pack(code + code)
      && Scan("", Unpack(FlushAll(LongCodes(), [98, 98])), LongDecode()).chars == [98, 98]
  {
    LongAsWritten();
    LongCutDecode();
    LongFlushBytes();
    LongFlushDecode();
  }

  /**
   * A last character the table has no code for (one outside 0..127, which the count table
   * skips) makes the inner loop append "" for ever when the byte is not yet full.
   */
  lemma UncodedLastCharHangs()
    ensures EncodeAsWritten([97, 98, -61], OneBitCodes()) == Hangs
    ensures FlushAll(OneBitCodes(), [97, 98, -61]) == []
  {
    var s: seq<Char> := [97, 98, -61];
    var enc := OneBitCodes();
    assert s[..2] == [97, 98] && s[..2][..1] == [97] && [97][..0] == [];
    assert Concat(enc, [97]) == "1";
    assert Concat(enc, [97, 98]) == "10";
    assert Concat(enc, s) == "10";
    assert Fill(s, enc, 3, "10", 0) == Stuck;
    assert Fill(s, enc, 2, "10", 0) == Stuck;
    assert Fill(s, enc, 1, "1", 0) == Stuck;
  }
}
