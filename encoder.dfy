/**
 * The bit-stream encoder (encode, huffman.cpp:9-46): append each character's code to a bit
 * buffer and write the buffer out eight bits at a time, most significant bit first.
 *
 * `EncodeAsWritten` and `Encode` follow the code line by line: an outer loop that reads one
 * character and writes one byte per iteration, and an inner loop that keeps reading until the
 * buffer holds eight bits. At the end of the input `istream::get` fails and leaves the last
 * character in place, so the inner loop appends that character's code again and again; a
 * last character without a code (one the table lacks: `operator[]` yields "") makes it spin
 * for ever. `EncodeFlushAll` is the corrected encoder: it writes every full byte of the buffer,
 * as the comments at huffman.cpp:20 and huffman.cpp:32 intend ("until a complete byte is
 * generated", "writing first 8 bits"), and drops the fewer than eight bits left at the end.
 */
module Encoder {
  import opened Common
  import opened Bits

  /** The code `encodeTable[c]` yields: the entry, or "" for a character the table lacks. */
  function Code(enc: map<Char, string>, c: Char): (code: string)
    ensures c in enc ==> code == enc[c]
    ensures c !in enc ==> code == ""
  {
    if c in enc then enc[c] else ""
  }

  /** The codes of the characters of s, one after the other. */
  function Concat(enc: map<Char, string>, s: seq<Char>): (bits: string)
  {
    if s == [] then [] else Concat(enc, s[..|s| - 1]) + Code(enc, s[|s| - 1])
  }

  /** x written n times. */
  function Repeat(x: string, n: nat): (r: string)
    ensures IsBits(x) ==> IsBits(r)
  {
    if n == 0 then [] else Repeat(x, n - 1) + x
  }

  /** What the inner loop ends with: where reading stopped and the buffer, or a loop that never ends. */
  datatype Filled = Filled(next: nat, buffer: string, pads: nat) | Stuck

  /** What the whole encoder ends with: the bytes written, or no end at all. */
  datatype Outcome = Encoded(bytes: seq<Byte>) | Hangs

  /**
   * The inner loop (huffman.cpp:26-30) from input position i with the given buffer: read on
   * while the buffer holds fewer than eight bits; past the end, append the last character's
   * code once more (`pads` counts how often). It spins for ever exactly when it reaches the
   * end with fewer than eight bits and the last character's code is empty (`FillStuck`).
   */
  function Fill(s: seq<Char>, enc: map<Char, string>, i: nat, buffer: string, pads: nat): (f: Filled)
    requires 0 < i <= |s|
    ensures f.Filled? ==> i <= f.next <= |s| && |f.buffer| >= 8 && pads <= f.pads
    ensures f.Filled? && f.pads > pads ==> f.next == |s|
    ensures f.Stuck? ==> Code(enc, s[|s| - 1]) == ""
    decreases |s| - i, if |buffer| < 8 then 8 - |buffer| else 0
  {
    if |buffer| >= 8 then Filled(i, buffer, pads)
    else if i < |s| then Fill(s, enc, i + 1, buffer + Code(enc, s[i]), pads)
    else
      var last := Code(enc, s[|s| - 1]);
      if last == "" then Stuck
      else Fill(s, enc, i, buffer + last, pads + 1)
  }

  /**
   * The outer loop (huffman.cpp:21-42) from input position i: read a character, append its
   * code, fill, write the first eight bits as one byte and keep the rest. The loop ends when
   * no character is left; the bits still in the buffer are never written.
   */
  function Run(s: seq<Char>, enc: map<Char, string>, i: nat, buffer: string, out: seq<Byte>): (r: Outcome)
    requires i <= |s|
    ensures r.Encoded? ==> out <= r.bytes
    decreases |s| - i
  {
    if i == |s| then Encoded(out)
    else
      match Fill(s, enc, i + 1, buffer + Code(enc, s[i]), 0)
      case Stuck => Hangs
      case Filled(j, b, _) => Run(s, enc, j, b[8..], out + [BitsValue(b[..8])])
  }

  /** encode as written, on the whole input. */
  function EncodeAsWritten(s: seq<Char>, enc: map<Char, string>): (r: Outcome)
    ensures s == [] ==> r == Encoded([])
  {
    Run(s, enc, 0, "", [])
  }

  /** With a table of bit strings, the codes of any text are a bit string. */
  lemma {:induction false} ConcatBits(enc: map<Char, string>, s: seq<Char>)
    requires BitTable(enc)
    ensures IsBits(Concat(enc, s))
    decreases |s|
  {
    if s != [] {
      ConcatBits(enc, s[..|s| - 1]);
    }
  }

  /** The codes of c + s: c's code first. */
  lemma {:induction false} ConcatFront(enc: map<Char, string>, s: seq<Char>)
    requires s != []
    ensures Concat(enc, s) == Code(enc, s[0]) + Concat(enc, s[1..])
    decreases |s|
  {
    if |s| > 1 {
      var front, c := s[..|s| - 1], s[|s| - 1];
      var a, m, z := Code(enc, s[0]), Concat(enc, front[1..]), Code(enc, c);
      assert Concat(enc, s) == (a + m) + z by {
        ConcatFront(enc, front);
        assert front[0] == s[0];
      }
      assert Concat(enc, s[1..]) == m + z by {
        assert front[1..] == s[1..][..|s| - 2] && s[1..][|s| - 2] == c;
      }
      assert (a + m) + z == a + (m + z);
    } else {
      assert s[..0] == [] && s[1..] == [];
    }
  }

  /** The codes of a + b are those of a, then those of b. */
  lemma {:induction false} ConcatAppend(enc: map<Char, string>, a: seq<Char>, b: seq<Char>)
    ensures Concat(enc, a + b) == Concat(enc, a) + Concat(enc, b)
    decreases |b|
  {
    if b == [] {
      assert a + b == a;
    } else {
      var front, c := b[..|b| - 1], b[|b| - 1];
      ConcatAppend(enc, a, front);
      assert (a + b)[..|a + b| - 1] == a + front && (a + b)[|a + b| - 1] == c;
      assert Concat(enc, a + b) == Concat(enc, a + front) + Code(enc, c);
      assert Concat(enc, b) == Concat(enc, front) + Code(enc, c);
    }
  }

  /** Repeating x once more at the front or at the back is the same. */
  lemma {:induction false} RepeatFront(x: string, n: nat)
    ensures Repeat(x, n + 1) == x + Repeat(x, n)
    decreases n
  {
    if n > 0 {
      RepeatFront(x, n - 1);
    }
  }

  /** Fewer repetitions are a prefix of more. */
  lemma {:induction false} RepeatPrefix(x: string, m: nat, n: nat)
    requires m <= n
    ensures Repeat(x, m) <= Repeat(x, n)
    decreases n
  {
    if m < n {
      RepeatPrefix(x, m, n - 1);
    }
  }

  /**
   * The buffer the inner loop ends with is the one it started with, the codes of the
   * characters it read and the copies of the last code it appended past the end.
   */
  lemma {:induction false} FillBuffer(s: seq<Char>, enc: map<Char, string>, i: nat, buffer: string, pads: nat)
    requires 0 < i <= |s| && Fill(s, enc, i, buffer, pads).Filled?
    ensures var f := Fill(s, enc, i, buffer, pads);
      f.buffer == buffer + Concat(enc, s[i..f.next]) + Repeat(Code(enc, s[|s| - 1]), f.pads - pads)
    decreases |s| - i, if |buffer| < 8 then 8 - |buffer| else 0, 1
  {
    if |buffer| >= 8 {
      assert s[i..i] == [];
      assert buffer + [] + [] == buffer;
    } else if i < |s| {
      FillBufferRead(s, enc, i, buffer, pads);
    } else {
      FillBufferPad(s, enc, i, buffer, pads);
    }
  }

  /** `FillBuffer` when a character is left to read. */
  lemma {:induction false} FillBufferRead(s: seq<Char>, enc: map<Char, string>, i: nat, buffer: string, pads: nat)
    requires 0 < i < |s| && |buffer| < 8 && Fill(s, enc, i, buffer, pads).Filled?
    ensures var f := Fill(s, enc, i, buffer, pads);
      f.buffer == buffer + Concat(enc, s[i..f.next]) + Repeat(Code(enc, s[|s| - 1]), f.pads - pads)
    decreases |s| - i, 8 - |buffer|, 0
  {
    var f := Fill(s, enc, i, buffer, pads);
    var code := Code(enc, s[i]);
    var rest := Concat(enc, s[i + 1..f.next]);
    var pad := Repeat(Code(enc, s[|s| - 1]), f.pads - pads);
    assert f == Fill(s, enc, i + 1, buffer + code, pads);
    FillBuffer(s, enc, i + 1, buffer + code, pads);
    assert Concat(enc, s[i..f.next]) == code + rest by {
      ConcatFront(enc, s[i..f.next]);
      assert s[i..f.next][1..] == s[i + 1..f.next];
    }
    Regroup(buffer, code, rest, pad);
  }

  lemma Regroup(a: string, b: string, c: string, d: string)
    ensures (a + b) + c + d == a + (b + c) + d
  {
  }

  /** `FillBuffer` past the end of the input. */
  lemma {:induction false} FillBufferPad(s: seq<Char>, enc: map<Char, string>, i: nat, buffer: string, pads: nat)
    requires 0 < i == |s| && |buffer| < 8 && Fill(s, enc, i, buffer, pads).Filled?
    ensures var f := Fill(s, enc, i, buffer, pads);
      f.buffer == buffer + Concat(enc, s[i..f.next]) + Repeat(Code(enc, s[|s| - 1]), f.pads - pads)
    decreases |s| - i, 8 - |buffer|, 0
  {
    var f := Fill(s, enc, i, buffer, pads);
    var last := Code(enc, s[|s| - 1]);
    var k := f.pads - pads;
    assert f == Fill(s, enc, i, buffer + last, pads + 1);
    FillBuffer(s, enc, i, buffer + last, pads + 1);
    assert Concat(enc, s[i..f.next]) == [] by {
      assert s[i..f.next] == [];
    }
    assert Repeat(last, k) == last + Repeat(last, k - 1) by {
      RepeatFront(last, k - 1);
    }
    assert (buffer + last) + [] + Repeat(last, k - 1) == buffer + [] + (last + Repeat(last, k - 1));
  }

  /** The inner loop appends no more copies of the last code than the bits the buffer lacked. */
  lemma {:induction false} FillPadBound(s: seq<Char>, enc: map<Char, string>, i: nat, buffer: string, pads: nat)
    requires 0 < i <= |s| && Fill(s, enc, i, buffer, pads).Filled?
    ensures Fill(s, enc, i, buffer, pads).pads - pads <= (if |buffer| < 8 then 8 - |buffer| else 0)
    decreases |s| - i, if |buffer| < 8 then 8 - |buffer| else 0
  {
    if |buffer| < 8 {
      if i < |s| {
        FillPadBound(s, enc, i + 1, buffer + Code(enc, s[i]), pads);
      } else {
        FillPadBound(s, enc, i, buffer + Code(enc, s[|s| - 1]), pads + 1);
      }
    }
  }

  /** The codes of the first j characters: those of the first i, of s[i], then of the ones between. */
  lemma ConcatSplit(enc: map<Char, string>, s: seq<Char>, i: nat, j: nat)
    requires i < j <= |s|
    ensures Concat(enc, s[..j]) == Concat(enc, s[..i]) + Code(enc, s[i]) + Concat(enc, s[i + 1..j])
  {
    assert s[..j] == s[..i + 1] + s[i + 1..j];
    ConcatAppend(enc, s[..i + 1], s[i + 1..j]);
    assert s[..i + 1][..i] == s[..i];
  }

  /** Writing the first eight bits of a buffer as a byte moves them from the buffer to the output. */
  lemma FlushMoves(out: seq<Byte>, b: string)
    requires |b| >= 8 && IsBits(b)
    ensures BitsValue(b[..8]) < 256
    ensures Unpack(out + [BitsValue(b[..8])]) + b[8..] == Unpack(out) + b
  {
    BitsRoundTrip(b[..8]);
    UnpackSnoc(out, BitsValue(b[..8]));
    assert b[..8] + b[8..] == b;
  }

  /** A suffix of a bit string is a bit string. */
  lemma SuffixBits(x: string, y: string)
    requires IsBits(x + y)
    ensures IsBits(y)
  {
    forall k | 0 <= k < |y| ensures y[k] == '0' || y[k] == '1' {
      assert y[k] == (x + y)[|x| + k];
    }
  }

  /** Each byte the encoder writes consumes at least one character of the input. */
  lemma {:induction false} RunLength(s: seq<Char>, enc: map<Char, string>, i: nat, buffer: string, out: seq<Byte>)
    requires i <= |s| && Run(s, enc, i, buffer, out).Encoded?
    ensures |Run(s, enc, i, buffer, out).bytes| <= |out| + |s| - i
    decreases |s| - i
  {
    if i < |s| {
      var f := Fill(s, enc, i + 1, buffer + Code(enc, s[i]), 0);
      RunLength(s, enc, f.next, f.buffer[8..], out + [BitsValue(f.buffer[..8])]);
    }
  }

  /**
   * One outer iteration before the flush: when the bytes written and the buffer hold the codes
   * of the first i characters, the filled buffer holds, after the bytes, the codes of the
   * characters read so far and the copies of the last code.
   */
  lemma RunStepState(s: seq<Char>, enc: map<Char, string>, i: nat, buffer: string, out: seq<Byte>)
    requires BitTable(enc) && i < |s|
    requires Unpack(out) + buffer == Concat(enc, s[..i])
    requires Fill(s, enc, i + 1, buffer + Code(enc, s[i]), 0).Filled?
    ensures var f := Fill(s, enc, i + 1, buffer + Code(enc, s[i]), 0);
      && Unpack(out) + f.buffer == Concat(enc, s[..f.next]) + Repeat(Code(enc, s[|s| - 1]), f.pads)
      && IsBits(f.buffer) && f.pads <= 8
  {
    var code := Code(enc, s[i]);
    var f := Fill(s, enc, i + 1, buffer + code, 0);
    var pad := Repeat(Code(enc, s[|s| - 1]), f.pads);
    FillPadBound(s, enc, i + 1, buffer + code, 0);
    StepBuffer(s, enc, i, buffer, Unpack(out));
    assert IsBits(f.buffer) by {
      ConcatBits(enc, s[..f.next]);
      AppendBits(Concat(enc, s[..f.next]), pad);
      SuffixBits(Unpack(out), f.buffer);
    }
  }

  /** `RunStepState`'s equation: the filled buffer continues the bits written with the codes read and the copies. */
  lemma StepBuffer(s: seq<Char>, enc: map<Char, string>, i: nat, buffer: string, u: string)
    requires i < |s| && u + buffer == Concat(enc, s[..i])
    requires Fill(s, enc, i + 1, buffer + Code(enc, s[i]), 0).Filled?
    ensures var f := Fill(s, enc, i + 1, buffer + Code(enc, s[i]), 0);
      u + f.buffer == Concat(enc, s[..f.next]) + Repeat(Code(enc, s[|s| - 1]), f.pads)
  {
    var code := Code(enc, s[i]);
    var f := Fill(s, enc, i + 1, buffer + code, 0);
    var pad := Repeat(Code(enc, s[|s| - 1]), f.pads);
    FillBuffer(s, enc, i + 1, buffer + code, 0);
    ConcatSplit(enc, s, i, f.next);
    Regroup5(u, buffer, code, Concat(enc, s[i + 1..f.next]), pad);
  }

  /** Two bit strings together are a bit string. */
  lemma AppendBits(x: string, y: string)
    requires IsBits(x) && IsBits(y)
    ensures IsBits(x + y)
  {
  }

  lemma Regroup5(u: string, a: string, b: string, c: string, d: string)
    ensures u + (a + b + c + d) == (u + a) + b + c + d
  {
  }

  /** Eight bits of a buffer that ends in p <= 8 copies of x are a prefix of eight copies. */
  lemma PaddedPrefix(u: string, b: string, c: string, x: string, p: nat)
    requires |b| >= 8 && p <= 8 && u + b == c + Repeat(x, p)
    ensures u + b[..8] <= c + Repeat(x, 8)
  {
    RepeatPrefix(x, p, 8);
    assert u + b[..8] <= u + b;
  }

  /** Writing the first eight bits of such a buffer keeps the output a prefix of eight copies. */
  lemma PaddedFlush(out: seq<Byte>, b: string, c: string, x: string, p: nat)
    requires |b| >= 8 && IsBits(b) && p <= 8 && Unpack(out) + b == c + Repeat(x, p)
    ensures Unpack(out + [BitsValue(b[..8])]) <= c + Repeat(x, 8)
  {
    PaddedPrefix(Unpack(out), b, c, x, p);
    FlushMoves(out, b);
    assert Unpack(out + [BitsValue(b[..8])]) == Unpack(out) + b[..8] by {
      UnpackSnoc(out, BitsValue(b[..8]));
      BitsRoundTrip(b[..8]);
    }
  }

  /**
   * What the encoder writes from position i on, when the bytes written so far and the buffer
   * together hold exactly the codes read so far: a prefix of the codes of the whole input
   * followed by at most eight copies of the last character's code.
   */
  lemma {:induction false} RunBits(s: seq<Char>, enc: map<Char, string>, i: nat, buffer: string, out: seq<Byte>)
    requires BitTable(enc) && 0 < |s| && i <= |s|
    requires Unpack(out) + buffer == Concat(enc, s[..i])
    requires Run(s, enc, i, buffer, out).Encoded?
    ensures Unpack(Run(s, enc, i, buffer, out).bytes) <= Concat(enc, s) + Repeat(Code(enc, s[|s| - 1]), 8)
    decreases |s| - i
  {
    var last := Code(enc, s[|s| - 1]);
    assert s[..|s|] == s;
    if i == |s| {
      assert Unpack(out) <= Concat(enc, s);
    } else {
      var f := Fill(s, enc, i + 1, buffer + Code(enc, s[i]), 0);
      var j, b, p := f.next, f.buffer, f.pads;
      RunStepState(s, enc, i, buffer, out);
      FlushMoves(out, b);
      var out' := out + [BitsValue(b[..8])];
      assert Run(s, enc, i, buffer, out) == Run(s, enc, j, b[8..], out');
      if p == 0 {
        assert Unpack(out') + b[8..] == Concat(enc, s[..j]);
        RunBits(s, enc, j, b[8..], out');
      } else {
        PaddedFlush(out, b, Concat(enc, s), last, p);
      }
    }
  }

  /**
   * encode as written on a non-empty input with a table of bit strings: it hangs only when the
   * last character has no code; otherwise it writes at most one byte per character, and the
   * bits it writes are a prefix of the codes of the input followed by copies of the last code.
   */
  lemma EncodeAsWrittenBits(s: seq<Char>, enc: map<Char, string>)
    requires BitTable(enc) && 0 < |s|
    ensures EncodeAsWritten(s, enc).Hangs? ==> Code(enc, s[|s| - 1]) == ""
    ensures EncodeAsWritten(s, enc).Encoded? ==>
      && |EncodeAsWritten(s, enc).bytes| <= |s|
      && Unpack(EncodeAsWritten(s, enc).bytes) <= Concat(enc, s) + Repeat(Code(enc, s[|s| - 1]), 8)
  {
    RunHangs(s, enc, 0, "", []);
    if EncodeAsWritten(s, enc).Encoded? {
      RunLength(s, enc, 0, "", []);
      assert s[..0] == [];
      RunBits(s, enc, 0, "", []);
    }
  }

  /** The encoder hangs only in the inner loop, past the end, on a last character without a code. */
  lemma {:induction false} RunHangs(s: seq<Char>, enc: map<Char, string>, i: nat, buffer: string, out: seq<Byte>)
    requires 0 < |s| && i <= |s|
    ensures Run(s, enc, i, buffer, out).Hangs? ==> Code(enc, s[|s| - 1]) == ""
    decreases |s| - i
  {
    if i < |s| {
      var f := Fill(s, enc, i + 1, buffer + Code(enc, s[i]), 0);
      if f.Filled? {
        RunHangs(s, enc, f.next, f.buffer[8..], out + [BitsValue(f.buffer[..8])]);
      }
    }
  }

  /** The codes of s from position i on: the code of s[i], then those after it. */
  lemma ConcatFrom(enc: map<Char, string>, s: seq<Char>, i: nat)
    requires i < |s|
    ensures |Concat(enc, s[i..])| == |Code(enc, s[i])| + |Concat(enc, s[i + 1..])|
  {
    ConcatFront(enc, s[i..]);
    assert s[i..][0] == s[i] && s[i..][1..] == s[i + 1..];
  }

  /**
   * Exactly when the inner loop spins for ever: the last character's code is empty, and the
   * buffer together with the codes of the characters still to read holds fewer than eight bits.
   */
  lemma {:induction false} FillStuck(s: seq<Char>, enc: map<Char, string>, i: nat, buffer: string, pads: nat)
    requires 0 < i <= |s|
    ensures Fill(s, enc, i, buffer, pads).Stuck? <==>
      Code(enc, s[|s| - 1]) == "" && |buffer| + |Concat(enc, s[i..])| < 8
    decreases |s| - i, if |buffer| < 8 then 8 - |buffer| else 0
  {
    if |buffer| < 8 {
      if i < |s| {
        FillStuck(s, enc, i + 1, buffer + Code(enc, s[i]), pads);
        ConcatFrom(enc, s, i);
      } else {
        assert s[i..] == [];
        var last := Code(enc, s[|s| - 1]);
        if last != "" {
          FillStuck(s, enc, i, buffer + last, pads + 1);
        }
      }
    }
  }

  /**
   * The converse of `RunHangs`: an outer iteration that starts with fewer than eight bits in
   * the buffer and the codes still to read, when the last character's code is empty, never ends.
   */
  lemma RunHangsWhenShort(s: seq<Char>, enc: map<Char, string>, i: nat, buffer: string, out: seq<Byte>)
    requires i < |s| && Code(enc, s[|s| - 1]) == ""
    requires |buffer| + |Concat(enc, s[i..])| < 8
    ensures Run(s, enc, i, buffer, out) == Hangs
  {
    ConcatFrom(enc, s, i);
    FillStuck(s, enc, i + 1, buffer + Code(enc, s[i]), 0);
  }

  /** encode as written hangs on a text whose codes are fewer than eight bits and whose last code is empty. */
  lemma HangsWhenShort(s: seq<Char>, enc: map<Char, string>)
    requires 0 < |s| && Code(enc, s[|s| - 1]) == "" && |Concat(enc, s)| < 8
    ensures EncodeAsWritten(s, enc) == Hangs
  {
    assert s[0..] == s;
    RunHangsWhenShort(s, enc, 0, "", []);
  }

  /**
   * encode (huffman.cpp:9-46) as written. Where the inner loop would spin for ever (past the
   * end of the input, with a last character whose code is empty) the method returns `Hangs`.
   */
  method Encode(s: seq<Char>, enc: map<Char, string>) returns (r: Outcome)
    ensures r == EncodeAsWritten(s, enc)
  {
    var out: seq<Byte> := [];
    var buffer: string := "";
    var i := 0;
    while i < |s|
      invariant i <= |s|
      invariant Run(s, enc, i, buffer, out) == EncodeAsWritten(s, enc)
      decreases |s| - i
    {
      ghost var i0, buffer0, out0 := i, buffer, out;
      var current := s[i];
      i := i + 1;
      buffer := buffer + Code(enc, current);
      var stuck;
      i, buffer, stuck := FillByte(s, enc, i, buffer, current);
      if stuck {
        return Hangs;
      }
      var byteToFlush := PackByte(buffer);
      out := out + [byteToFlush];
      buffer := buffer[8..];
      assert Run(s, enc, i0, buffer0, out0) == Run(s, enc, i, buffer, out);
    }
    r := Encoded(out);
  }

  /**
   * The inner loop of encode (huffman.cpp:26-30): read characters and append their codes
   * until the buffer holds eight bits. `stuck` reports the loop that never ends.
   */
  method FillByte(s: seq<Char>, enc: map<Char, string>, i: nat, buffer: string, current: Char)
    returns (next: nat, filled: string, stuck: bool)
    requires 0 < i <= |s| && current == s[i - 1]
    ensures stuck <==> Fill(s, enc, i, buffer, 0).Stuck?
    ensures !stuck ==> Fill(s, enc, i, buffer, 0).next == next && Fill(s, enc, i, buffer, 0).buffer == filled
  {
    next, filled, stuck := i, buffer, false;
    var last := current;
    ghost var pads := 0;
    while |filled| < 8
      invariant 0 < next <= |s| && last == s[next - 1]
      invariant Fill(s, enc, next, filled, pads) == Fill(s, enc, i, buffer, 0)
      decreases |s| - next, if |filled| < 8 then 8 - |filled| else 0
    {
      var code;
      if next < |s| {
        last := s[next];
        next := next + 1;
        code := Code(enc, last);
      } else {
        // inputFile.get fails at the end and leaves currentChar as it was
        code := Code(enc, last);
        if code == "" {
          return next, filled, true;
        }
        pads := pads + 1;
      }
      filled := filled + code;
    }
  }

  /**
   * The corrected encoder: the codes of the whole input packed eight bits to a byte, every
   * full byte written, the fewer than eight bits left at the end dropped.
   */
  function FlushAll(enc: map<Char, string>, s: seq<Char>): (bytes: seq<Byte>)
    ensures |bytes| == |Concat(enc, s)| / 8
  {
    var bits := Concat(enc, s);
    Pack(bits[..|bits| - |bits| % 8])
  }

  /** The codes of one more character of s. */
  lemma ConcatNext(enc: map<Char, string>, s: seq<Char>, i: nat)
    requires i < |s|
    ensures Concat(enc, s[..i + 1]) == Concat(enc, s[..i]) + Code(enc, s[i])
  {
    assert s[..i + 1][..i] == s[..i];
  }

  /** Appending the code of s[i] to the buffer keeps the bits written and buffered equal to the codes read. */
  lemma ReadNext(enc: map<Char, string>, s: seq<Char>, i: nat, written: string, buffer: string)
    requires i < |s| && written + buffer == Concat(enc, s[..i])
    ensures written + (buffer + Code(enc, s[i])) == Concat(enc, s[..i + 1])
  {
    ConcatNext(enc, s, i);
    assert written + (buffer + Code(enc, s[i])) == (written + buffer) + Code(enc, s[i]);
  }

  /** Moving the first eight bits of the buffer to the bits written appends their byte. */
  lemma FlushStep(written: string, buffer: string)
    requires |written| % 8 == 0 && |buffer| >= 8
    ensures |written + buffer[..8]| % 8 == 0
    ensures Pack(written + buffer[..8]) == Pack(written) + [BitsValue(buffer[..8])]
    ensures (written + buffer[..8]) + buffer[8..] == written + buffer
  {
    PackSnoc(written, buffer[..8]);
    assert buffer[..8] + buffer[8..] == buffer;
  }

  /**
   * The corrected encoder: after each character, write out every full byte of the buffer;
   * what is left at the end, fewer than eight bits, is dropped.
   */
  method EncodeFlushAll(s: seq<Char>, enc: map<Char, string>) returns (out: seq<Byte>)
    ensures out == FlushAll(enc, s)
  {
    out := [];
    var buffer: string := "";
    ghost var written: string := "";
    for i := 0 to |s|
      invariant written + buffer == Concat(enc, s[..i])
      invariant |written| % 8 == 0 && out == Pack(written) && |buffer| < 8
    {
      ReadNext(enc, s, i, written, buffer);
      buffer := buffer + Code(enc, s[i]);
      out, buffer, written := FlushFullBytes(out, buffer, written);
    }
    FlushAllEnd(enc, s, written, buffer);
  }

  /** When the loop ends, the bytes written are exactly those of `FlushAll`. */
  lemma FlushAllEnd(enc: map<Char, string>, s: seq<Char>, written: string, buffer: string)
    requires written + buffer == Concat(enc, s[..|s|])
    requires |written| % 8 == 0 && |buffer| < 8
    ensures Pack(written) == FlushAll(enc, s)
  {
    assert s[..|s|] == s;
    WholeBytes(written, buffer);
  }

  /** Writes out every full byte at the front of the buffer and keeps the fewer than eight bits after them. */
  method FlushFullBytes(out: seq<Byte>, buffer: string, ghost written: string)
    returns (out': seq<Byte>, buffer': string, ghost written': string)
    requires |written| % 8 == 0 && out == Pack(written)
    ensures |written'| % 8 == 0 && out' == Pack(written')
    ensures written' + buffer' == written + buffer && |buffer'| < 8
  {
    out', buffer', written' := out, buffer, written;
    while |buffer'| >= 8
      invariant written' + buffer' == written + buffer
      invariant |written'| % 8 == 0 && out' == Pack(written')
      decreases |buffer'|
    {
      var byteToFlush := PackByte(buffer');
      FlushStep(written', buffer');
      out' := out' + [byteToFlush];
      written' := written' + buffer'[..8];
      buffer' := buffer'[8..];
    }
  }

  /** Of a whole number of bytes followed by fewer than eight bits, the whole bytes. */
  lemma WholeBytes(w: string, b: string)
    requires |w| % 8 == 0 && |b| < 8
    ensures var x := w + b; x[..|x| - |x| % 8] == w
  {
    var x := w + b;
    assert |x| % 8 == |b|;
  }

  /**
   * What the corrected encoder writes: one byte for every eight bits of the codes, holding
   * exactly those bits, in order.
   */
  lemma FlushAllBits(enc: map<Char, string>, s: seq<Char>)
    requires BitTable(enc)
    ensures |FlushAll(enc, s)| == |Concat(enc, s)| / 8
    ensures var bits := Concat(enc, s); Unpack(FlushAll(enc, s)) == bits[..|bits| - |bits| % 8]
  {
    var bits := Concat(enc, s);
    var n := |bits| - |bits| % 8;
    assert IsBits(bits[..n]) by {
      ConcatBits(enc, s);
      SliceBits(bits, n);
    }
    UnpackPack(bits[..n]);
  }
}
