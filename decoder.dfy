/**
 * The bit-stream decoder (decode, huffman.cpp:48-102): expand each byte of the file into eight
 * bits, most significant first, append them to the bits left over from the bytes before, and
 * match codes greedily: grow a frame bit by bit and, as soon as the frame is a key of the
 * decode table, write its character and start a new frame. The bits of the last, unmatched
 * frame stay in the buffer for the next byte.
 */
module Decoder {
  import opened Common
  import opened Bits
  import opened Encoder

  /** What a matching pass yields: the characters written, and the unmatched frame left over. */
  datatype Parse = Parse(chars: seq<Char>, rest: string)

  /** The matching loop (huffman.cpp:80-97) over bits, starting with the frame already built. */
  function Scan(frame: string, bits: string, dec: map<string, Char>): Parse
    decreases |bits|
  {
    if bits == [] then Parse([], frame)
    else
      var grown := frame + [bits[0]];
      if grown in dec then
        var after := Scan("", bits[1..], dec);
        Parse([dec[grown]] + after.chars, after.rest)
      else Scan(grown, bits[1..], dec)
  }

  /** Every character a pass writes is the character of some code of the decode table. */
  lemma {:induction false} ScanWritesValues(frame: string, bits: string, dec: map<string, Char>)
    ensures forall i :: 0 <= i < |Scan(frame, bits, dec).chars| ==> Scan(frame, bits, dec).chars[i] in dec.Values
    decreases |bits|
  {
    if bits != [] {
      var grown := frame + [bits[0]];
      if grown in dec {
        ScanWritesValues("", bits[1..], dec);
        assert dec[grown] in dec.Values;
      } else {
        ScanWritesValues(grown, bits[1..], dec);
      }
    }
  }

  /** No non-empty prefix of f is a key of the decode table. */
  predicate NoKeyPrefix(f: string, dec: map<string, Char>) {
    forall k :: 0 < k <= |f| ==> f[..k] !in dec
  }

  /** r is what is left of w once some leading characters are dropped. */
  predicate IsSuffix(r: string, w: string) {
    |r| <= |w| && r == w[|w| - |r|..]
  }

  /** A suffix of y is a suffix of x + y. */
  lemma SuffixOfTail(x: string, y: string, r: string)
    requires IsSuffix(r, y)
    ensures IsSuffix(r, x + y)
  {
    assert (x + y)[|x + y| - |r|..] == y[|y| - |r|..];
  }

  /** The bits left over are the tail of the frame and the bits scanned. */
  lemma {:induction false} ScanRestIsTail(frame: string, bits: string, dec: map<string, Char>)
    ensures IsSuffix(Scan(frame, bits, dec).rest, frame + bits)
    decreases |bits|
  {
    if bits != [] {
      var grown := frame + [bits[0]];
      assert frame + bits == grown + bits[1..] by {
        assert bits == [bits[0]] + bits[1..];
      }
      if grown in dec {
        ScanRestIsTail("", bits[1..], dec);
        assert "" + bits[1..] == bits[1..];
        SuffixOfTail(grown, bits[1..], Scan("", bits[1..], dec).rest);
      } else {
        ScanRestIsTail(grown, bits[1..], dec);
      }
    }
  }

  /** Scanning x and then y is scanning x + y: the pass can be split at any bit. */
  lemma {:induction false} ScanAppend(frame: string, x: string, y: string, dec: map<string, Char>)
    ensures var p := Scan(frame, x, dec); var q := Scan(p.rest, y, dec);
      Scan(frame, x + y, dec) == Parse(p.chars + q.chars, q.rest)
    decreases |x|
  {
    if x == [] {
      assert x + y == y;
    } else {
      assert (x + y)[0] == x[0] && (x + y)[1..] == x[1..] + y;
      var grown := frame + [x[0]];
      if grown in dec {
        ScanAppend("", x[1..], y, dec);
      } else {
        ScanAppend(grown, x[1..], y, dec);
      }
    }
  }

  /** The frame left over never has a key as a prefix: every prefix of it was tried. */
  lemma {:induction false} ScanRestNoKey(frame: string, bits: string, dec: map<string, Char>)
    requires NoKeyPrefix(frame, dec)
    ensures NoKeyPrefix(Scan(frame, bits, dec).rest, dec)
    decreases |bits|
  {
    if bits != [] {
      var grown := frame + [bits[0]];
      if grown in dec {
        ScanRestNoKey("", bits[1..], dec);
      } else {
        forall k | 0 < k <= |grown| ensures grown[..k] !in dec {
          if k <= |frame| {
            assert grown[..k] == frame[..k];
          } else {
            assert grown[..k] == grown;
          }
        }
        ScanRestNoKey(grown, bits[1..], dec);
      }
    }
  }

  /**
   * Matching the left-over bits again from an empty frame, as the next byte's pass does, is
   * the same as carrying the frame over: none of its prefixes matches.
   */
  lemma {:induction false} Rescan(frame: string, r: string, y: string, dec: map<string, Char>)
    requires forall k :: |frame| < k <= |frame + r| ==> (frame + r)[..k] !in dec
    ensures Scan(frame, r + y, dec) == Scan(frame + r, y, dec)
    decreases |r|
  {
    if r == [] {
      assert r + y == y && frame + r == frame;
    } else {
      var grown := frame + [r[0]];
      assert (r + y)[0] == r[0] && (r + y)[1..] == r[1..] + y;
      assert frame + r == grown + r[1..] by {
        assert r == [r[0]] + r[1..];
      }
      assert (frame + r)[..|grown|] == grown;
      Rescan(grown, r[1..], y, dec);
    }
  }

  /** The bytes before k, expanded. */
  lemma UnpackNext(bytes: seq<Byte>, k: nat)
    requires k < |bytes|
    ensures Unpack(bytes[..k + 1]) == Unpack(bytes[..k]) + ByteBits(bytes[k])
  {
    assert bytes[..k + 1] == bytes[..k] + [bytes[k]];
    UnpackSnoc(bytes[..k], bytes[k]);
  }

  /**
   * One byte more: the characters and the left-over bits after it follow from the left-over
   * bits before it and the byte's own bits.
   */
  lemma DecodeStep(bytes: seq<Byte>, k: nat, dec: map<string, Char>)
    requires k < |bytes|
    ensures var before := Scan("", Unpack(bytes[..k]), dec);
      var step := Scan("", before.rest + ByteBits(bytes[k]), dec);
      Scan("", Unpack(bytes[..k + 1]), dec) == Parse(before.chars + step.chars, step.rest)
  {
    var u, e := Unpack(bytes[..k]), ByteBits(bytes[k]);
    var before := Scan("", u, dec);
    UnpackNext(bytes, k);
    ScanAppend("", u, e, dec);
    ScanRestNoKey("", u, dec);
    assert "" + before.rest == before.rest;
    Rescan("", before.rest, e, dec);
  }

  /**
   * decode as written: the characters are those of one greedy pass over all the bits of the
   * file, however the file splits into bytes.
   */
  method Decode(bytes: seq<Byte>, dec: map<string, Char>) returns (out: seq<Char>)
    ensures out == Scan("", Unpack(bytes), dec).chars
  {
    out := [];
    var buffer: string := "";
    for k := 0 to |bytes|
      invariant out == Scan("", Unpack(bytes[..k]), dec).chars
      invariant buffer == Scan("", Unpack(bytes[..k]), dec).rest
    {
      DecodeStep(bytes, k, dec);
      var byte := ExpandByte(bytes[k]);
      buffer := buffer + byte;
      var written;
      written, buffer := MatchCodes(buffer, dec);
      out := out + written;
    }
    assert bytes[..|bytes|] == bytes;
  }

  /**
   * One pass of the matching loop over the buffer: the characters written, and the buffer
   * with all matched bits removed.
   */
  method MatchCodes(buffer: string, dec: map<string, Char>) returns (written: seq<Char>, rest: string)
    ensures Parse(written, rest) == Scan("", buffer, dec)
    ensures IsSuffix(rest, buffer)
  {
    written := [];
    var frame := "";
    var matchlen := 0;
    for i := 0 to |buffer|
      invariant 0 <= matchlen && matchlen + |frame| == i && buffer[matchlen..i] == frame
      invariant written + Scan(frame, buffer[i..], dec).chars == Scan("", buffer, dec).chars
      invariant Scan(frame, buffer[i..], dec).rest == Scan("", buffer, dec).rest
    {
      assert buffer[i..][0] == buffer[i] && buffer[i..][1..] == buffer[i + 1..];
      frame := frame + [buffer[i]];
      if frame in dec {
        written := written + [dec[frame]];
        matchlen := matchlen + |frame|;
        frame := "";
      }
    }
    assert buffer[|buffer|..] == [];
    rest := buffer[matchlen..];
    ScanRestIsTail("", buffer, dec);
    assert "" + buffer == buffer;
  }

  /** What a code table's inverse makes of the codes of a text. */
  predicate Decodable(enc: map<Char, string>, dec: map<string, Char>) {
    PrefixFree(enc) && IsInverse(dec, enc) && forall c :: c in enc ==> enc[c] != ""
  }

  /** Under a prefix-free table no proper prefix of a code is a key of its inverse. */
  lemma CodePrefixNotKey(enc: map<Char, string>, dec: map<string, Char>, c: Char, k: nat)
    requires Decodable(enc, dec) && c in enc && k < |enc[c]|
    ensures enc[c][..k] !in dec
  {
  }

  /** A proper prefix of a code: the pass writes nothing and keeps all of it. */
  lemma ScanPartialCode(enc: map<Char, string>, dec: map<string, Char>, c: Char, m: nat)
    requires Decodable(enc, dec) && c in enc && m < |enc[c]|
    ensures Scan("", enc[c][..m], dec) == Parse([], enc[c][..m])
  {
    var part := enc[c][..m];
    forall k | 0 < k <= |"" + part| ensures ("" + part)[..k] !in dec {
      assert ("" + part)[..k] == enc[c][..k];
      CodePrefixNotKey(enc, dec, c, k);
    }
    Rescan("", part, [], dec);
    assert part + [] == part && "" + part == part;
  }

  /** The code of a character: the pass writes that character and nothing is left over. */
  lemma ScanCode(enc: map<Char, string>, dec: map<string, Char>, c: Char)
    requires Decodable(enc, dec) && c in enc
    ensures Scan("", enc[c], dec) == Parse([c], "")
  {
    var code := enc[c];
    var n := |code|;
    var front := code[..n - 1];
    forall k | 0 < k <= |"" + front| ensures ("" + front)[..k] !in dec {
      assert ("" + front)[..k] == code[..k];
      CodePrefixNotKey(enc, dec, c, k);
    }
    assert code == front + [code[n - 1]];
    Rescan("", front, [code[n - 1]], dec);
    assert "" + front == front;
  }

  /**
   * Unique decoding: with a prefix-free table and its inverse, one pass over the codes of a
   * text writes exactly that text and leaves nothing over.
   */
  lemma {:induction false} DecodeCodes(enc: map<Char, string>, dec: map<string, Char>, s: seq<Char>)
    requires Decodable(enc, dec) && forall i :: 0 <= i < |s| ==> s[i] in enc
    ensures Scan("", Concat(enc, s), dec) == Parse(s, "")
    decreases |s|
  {
    if s != [] {
      var front, c := s[..|s| - 1], s[|s| - 1];
      DecodeCodes(enc, dec, front);
      ScanAppend("", Concat(enc, front), enc[c], dec);
      ScanCode(enc, dec, c);
      SplitLast(s);
    }
  }

  /** A non-empty text is its front followed by its last character. */
  lemma SplitLast(s: seq<Char>)
    requires s != []
    ensures s[..|s| - 1] + [s[|s| - 1]] == s
  {
  }

  /**
   * Cutting the codes of a text anywhere: the pass writes a prefix of the text, never a
   * character that is not there.
   */
  lemma {:induction false} DecodeCutCodes(enc: map<Char, string>, dec: map<string, Char>, s: seq<Char>, n: nat)
    requires Decodable(enc, dec) && forall i :: 0 <= i < |s| ==> s[i] in enc
    requires n <= |Concat(enc, s)|
    ensures Scan("", Concat(enc, s)[..n], dec).chars <= s
    decreases |s|
  {
    if s != [] {
      var front, c := s[..|s| - 1], s[|s| - 1];
      var head := Concat(enc, front);
      var cut := Concat(enc, s)[..n];
      assert front <= s by { SplitLast(s); }
      if n <= |head| {
        assert Scan("", cut, dec).chars <= s by {
          CutCodes(enc, s, n);
          DecodeCutCodes(enc, dec, front, n);
        }
      } else if n == |Concat(enc, s)| {
        assert Scan("", cut, dec).chars <= s by {
          CutCodes(enc, s, n);
          DecodeCodes(enc, dec, s);
        }
      } else {
        assert Scan("", cut, dec).chars <= s by {
          CutCodes(enc, s, n);
          DecodeCodesThenPart(enc, dec, front, c, n - |head|);
        }
      }
    }
  }

  /** The codes of a text cut at n: within the codes of its front, or inside the last code. */
  lemma CutCodes(enc: map<Char, string>, s: seq<Char>, n: nat)
    requires s != [] && s[|s| - 1] in enc && n <= |Concat(enc, s)|
    ensures var head := Concat(enc, s[..|s| - 1]);
      && Concat(enc, s) == head + enc[s[|s| - 1]]
      && (n <= |head| ==> Concat(enc, s)[..n] == head[..n])
      && (n == |Concat(enc, s)| ==> Concat(enc, s)[..n] == Concat(enc, s))
      && (|head| < n ==> Concat(enc, s)[..n] == head + enc[s[|s| - 1]][..n - |head|])
  {
  }

  /** The codes of a text followed by part of one more code: the text, the part left over. */
  lemma DecodeCodesThenPart(enc: map<Char, string>, dec: map<string, Char>, s: seq<Char>, c: Char, m: nat)
    requires Decodable(enc, dec) && forall i :: 0 <= i < |s| ==> s[i] in enc
    requires c in enc && m < |enc[c]|
    ensures Scan("", Concat(enc, s) + enc[c][..m], dec).chars == s
  {
    DecodeCodes(enc, dec, s);
    ScanAppend("", Concat(enc, s), enc[c][..m], dec);
    ScanPartialCode(enc, dec, c, m);
    assert s + [] == s;
  }
}
