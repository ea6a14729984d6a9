/**
  The trace encoder of the harness: every pixel of the input image becomes one
  80-character line of the trace file that drives the simulated pipeline,

      "0001" ++ 52 zeros ++ the 24 binary digits of r * 2^16 + g * 2^8 + b,

  the lines in row-major order, followed by three fixed trailer lines that
  carry the opcodes 0110, 0101 and 0011.
 */
module Trace {
  import opened Wrappers

  /** An 8-bit channel value, as the image matrix stores it (numpy `uint8`). */
  type Byte = x: int | 0 <= x < 256

  function Pow2(n: nat): (p: nat)
    ensures p >= 1
  {
    if n == 0 then 1 else 2 * Pow2(n - 1)
  }

  lemma {:induction false} Pow2Add(a: nat, b: nat)
    ensures Pow2(a + b) == Pow2(a) * Pow2(b)
    decreases a
  {
    if a > 0 {
      Pow2Add(a - 1, b);
      assert Pow2(a + b) == 2 * Pow2(a - 1 + b);
    }
  }

  lemma Pow2Bytes()
    ensures Pow2(8) == 256 && Pow2(16) == 65536 && Pow2(24) == 16777216
  {
    assert Pow2(4) == 16;
    Pow2Add(4, 4);
    Pow2Add(8, 8);
    Pow2Add(16, 8);
  }

  predicate IsBinary(s: string) {
    forall i :: 0 <= i < |s| ==> s[i] == '0' || s[i] == '1'
  }

  lemma BinaryAppend(a: string, b: string)
    requires IsBinary(a) && IsBinary(b)
    ensures IsBinary(a + b)
  {
  }

  /** Python's `c * n` for a one-character string `c`. */
  function Repeat(c: char, n: nat): (s: string)
    ensures |s| == n && forall i :: 0 <= i < n ==> s[i] == c
  {
    seq(n, _ => c)
  }

  /**
    `np.binary_repr(v, width)` and `format(v, '0<width>b')` for 0 <= v < 2^width:
    the big-endian binary digits of v, padded on the left with zeros to `width`.
   */
  function BinaryRepr(v: nat, width: nat): (s: string)
    requires v < Pow2(width)
    ensures |s| == width
    decreases width
  {
    if width == 0 then ""
    else BinaryRepr(v / 2, width - 1) + [if v % 2 == 0 then '0' else '1']
  }

  /** `int(s, 2)` on a string of binary digits (the empty string is given the value 0). */
  function BinaryValue(s: string): (v: nat)
    requires IsBinary(s)
    ensures v < Pow2(|s|)
    decreases |s|
  {
    if |s| == 0 then 0
    else 2 * BinaryValue(s[..|s| - 1]) + (if s[|s| - 1] == '1' then 1 else 0)
  }

  /** Parsing the rendering of a value gives the value back. */
  lemma {:induction false} ValueOfRepr(v: nat, width: nat)
    requires v < Pow2(width)
    ensures IsBinary(BinaryRepr(v, width)) && BinaryValue(BinaryRepr(v, width)) == v
    decreases width
  {
    if width > 0 {
      var s := BinaryRepr(v, width);
      ValueOfRepr(v / 2, width - 1);
      assert s[..|s| - 1] == BinaryRepr(v / 2, width - 1);
      BinaryAppend(BinaryRepr(v / 2, width - 1), [s[|s| - 1]]);
    }
  }

  /** Rendering the value of a binary string at its own width gives the string back. */
  lemma {:induction false} ReprOfValue(s: string)
    requires IsBinary(s)
    ensures BinaryRepr(BinaryValue(s), |s|) == s
    decreases |s|
  {
    if |s| > 0 {
      var init := s[..|s| - 1];
      ReprOfValue(init);
      var v := BinaryValue(s);
      assert v / 2 == BinaryValue(init);
      assert s == init + [s[|s| - 1]];
    }
  }

  /** The value of a concatenation: the digits of s shifted left past those of t. */
  lemma {:induction false} ValueAppend(s: string, t: string)
    requires IsBinary(s) && IsBinary(t)
    ensures IsBinary(s + t)
    ensures BinaryValue(s + t) == BinaryValue(s) * Pow2(|t|) + BinaryValue(t)
    decreases |t|
  {
    if |t| == 0 {
      assert s + t == s;
    } else {
      var init := t[..|t| - 1];
      ValueAppend(s, init);
      assert (s + t)[..|s + t| - 1] == s + init;
      MulTwice(BinaryValue(s), Pow2(|init|));
    }
  }

  lemma MulTwice(x: int, p: int)
    ensures 2 * (x * p) == x * (2 * p)
  {
  }

  /** `rgb_decimal_to_binary`: every channel value becomes its 8-digit binary string. */
  function RgbDecimalToBinary(m: seq<seq<seq<Byte>>>): (bm: seq<seq<seq<string>>>)
    ensures |bm| == |m|
    ensures forall i :: 0 <= i < |m| ==> |bm[i]| == |m[i]|
    ensures forall i, j :: 0 <= i < |m| && 0 <= j < |m[i]| ==> |bm[i][j]| == |m[i][j]|
    ensures forall i, j, k :: 0 <= i < |m| && 0 <= j < |m[i]| && 0 <= k < |m[i][j]| ==>
              |bm[i][j][k]| == 8 && IsBinary(bm[i][j][k]) && BinaryValue(bm[i][j][k]) == m[i][j][k]
  {
    BytesRoundTrip();
    seq(|m|, i requires 0 <= i < |m| =>
      seq(|m[i]|, j requires 0 <= j < |m[i]| =>
        seq(|m[i][j]|, k requires 0 <= k < |m[i][j]| => BinaryRepr(m[i][j][k], 8))))
  }

  lemma BytesRoundTrip()
    ensures Pow2(8) == 256
    ensures forall v: Byte :: IsBinary(BinaryRepr(v, 8)) && BinaryValue(BinaryRepr(v, 8)) == v
  {
    Pow2Bytes();
    forall v: Byte
      ensures IsBinary(BinaryRepr(v, 8)) && BinaryValue(BinaryRepr(v, 8)) == v
    {
      ValueOfRepr(v, 8);
    }
  }

  /** A pixel of the binary matrix: three 8-digit binary strings (R, G, B). */
  predicate IsBinaryPixel(px: seq<string>) {
    |px| == 3 && forall k :: 0 <= k < 3 ==> |px[k]| == 8 && IsBinary(px[k])
  }

  /** A matrix of binary pixels. */
  predicate IsBinaryMatrix(bm: seq<seq<seq<string>>>) {
    forall i, j :: 0 <= i < |bm| && 0 <= j < |bm[i]| ==> IsBinaryPixel(bm[i][j])
  }

  /** Every row has w pixels, as in a numpy array of shape (height, w, 3). */
  predicate IsRectangular<T>(m: seq<seq<T>>, w: nat) {
    forall i :: 0 <= i < |m| ==> |m[i]| == w
  }

  /** The shift accumulator after k channels: `combined = (combined << 8) | int(px[k], 2)`. */
  function Pack(px: seq<string>, k: nat): (r: nat)
    requires IsBinaryPixel(px) && k <= 3
    ensures r < Pow2(8 * k)
  {
    if k == 0 then 0
    else
      var c := Pack(px, k - 1);
      Pow2Add(8 * (k - 1), 8);
      Pow2Bytes();
      assert (c + 1) * 256 <= Pow2(8 * (k - 1)) * 256;
      c * 256 + BinaryValue(px[k - 1])
  }

  /** The packed pixel is r * 2^16 + g * 2^8 + b. */
  lemma PackIsRgb(px: seq<string>)
    requires IsBinaryPixel(px)
    ensures Pack(px, 3) == BinaryValue(px[0]) * 65536 + BinaryValue(px[1]) * 256 + BinaryValue(px[2])
    ensures var rgb := PixelValues(px); Pack(px, 3) == rgb.0 * 65536 + rgb.1 * 256 + rgb.2
  {
    assert Pack(px, 1) == BinaryValue(px[0]);
    assert Pack(px, 2) == BinaryValue(px[0]) * 256 + BinaryValue(px[1]);
  }

  /** On the values the accumulator takes, `(c << 8) | v` is `c * 256 + v`: the
      shift leaves the low eight bits clear and v fits in them. */
  lemma ShiftOrIsMulAdd(c: bv32, v: bv32)
    requires c < 0x1_0000 && v < 256
    ensures (c << 8) | v == c * 256 + v
  {
  }

  /** The trace line of one pixel, as `combine_binary_to_24_bit` builds it. */
  function PixelLine(px: seq<string>): (line: string)
    requires IsBinaryPixel(px)
  {
    PixelPrefix + BinaryRepr(Pack(px, 3), 24)
  }

  /** What precedes the pixel value on a pixel line: the opcode 0001 and 52 zeros. */
  const PixelPrefix: string := "0001" + Repeat('0', 52)

  lemma PrefixIsBinary()
    ensures |PixelPrefix| == 56 && IsBinary(PixelPrefix)
  {
    assert forall k :: 0 <= k < 4 ==> PixelPrefix[k] == "0001"[k];
  }


  /** A pixel line is the opcode, 52 zeros and the three channel strings themselves,
      80 characters of binary digits. */
  lemma PixelLineIsConcatenation(px: seq<string>)
    requires IsBinaryPixel(px)
    ensures PixelLine(px) == PixelPrefix + (px[0] + px[1] + px[2])
    ensures |PixelLine(px)| == 80 && IsBinary(PixelLine(px))
  {
    var s := px[0] + px[1] + px[2];
    Pow2Bytes();
    ValueAppend(px[0], px[1]);
    ValueAppend(px[0] + px[1], px[2]);
    PackIsRgb(px);
    assert BinaryValue(s) == Pack(px, 3);
    ReprOfValue(s);
    PrefixIsBinary();
    BinaryAppend(PixelPrefix, s);
  }

  /** The rows of a matrix laid end to end, as a row-major loop visits them. */
  function Concat<T>(rows: seq<seq<T>>): seq<T>
    decreases |rows|
  {
    if |rows| == 0 then [] else Concat(rows[..|rows| - 1]) + rows[|rows| - 1]
  }

  lemma {:induction false} ConcatLength<T>(rows: seq<seq<T>>, w: nat)
    requires IsRectangular(rows, w)
    ensures |Concat(rows)| == |rows| * w
    decreases |rows|
  {
    if |rows| > 0 {
      var h := |rows| - 1;
      ConcatLength(rows[..h], w);
      MulSucc(h, w);
    }
  }

  /** Row-major order: entry i * w + j of the concatenation is entry (i, j). */
  lemma {:induction false} ConcatRowMajor<T>(rows: seq<seq<T>>, w: nat, i: nat, j: nat)
    requires IsRectangular(rows, w) && i < |rows| && j < w
    ensures i * w + j < |Concat(rows)| && Concat(rows)[i * w + j] == rows[i][j]
    decreases |rows|
  {
    var h := |rows| - 1;
    var init := rows[..h];
    ConcatLength(init, w);
    if i < h {
      ConcatRowMajor(init, w, i, j);
      RowMajorBound(i, j, h, w);
    }
  }

  lemma TakeSucc<T>(s: seq<T>, j: nat)
    requires j < |s|
    ensures s[..j + 1] == s[..j] + [s[j]]
  {
  }

  /** Whatever holds of every entry holds of every element of the concatenation. */
  lemma {:induction false} ConcatAll<T>(rows: seq<seq<T>>, P: T -> bool)
    requires forall i, j :: 0 <= i < |rows| && 0 <= j < |rows[i]| ==> P(rows[i][j])
    ensures forall n :: 0 <= n < |Concat(rows)| ==> P(Concat(rows)[n])
    decreases |rows|
  {
    if |rows| > 0 {
      ConcatAll(rows[..|rows| - 1], P);
    }
  }

  lemma MulSucc(h: nat, w: nat)
    ensures (h + 1) * w == h * w + w
  {
  }

  lemma {:induction false} RowMajorBound(i: nat, j: nat, h: nat, w: nat)
    requires i < h && j < w
    ensures i * w + j < h * w
    decreases h
  {
    MulSucc(h - 1, w);
    if i < h - 1 {
      RowMajorBound(i, j, h - 1, w);
    }
  }

  /** The pixel line of every pixel, in the shape of the image. */
  function LineMatrix(bm: seq<seq<seq<string>>>): (lm: seq<seq<string>>)
    requires IsBinaryMatrix(bm)
    ensures |lm| == |bm| && forall i :: 0 <= i < |bm| ==> |lm[i]| == |bm[i]|
    ensures forall i, j :: 0 <= i < |bm| && 0 <= j < |bm[i]| ==> lm[i][j] == PixelLine(bm[i][j])
  {
    seq(|bm|, i requires 0 <= i < |bm| =>
      seq(|bm[i]|, j requires 0 <= j < |bm[i]| => PixelLine(bm[i][j])))
  }

  /** The lines of the whole image, row after row. */
  function TraceLines(bm: seq<seq<seq<string>>>): seq<string>
    requires IsBinaryMatrix(bm)
  {
    Concat(LineMatrix(bm))
  }

  /** There is one line per pixel, and line i * w + j is the line of pixel (i, j). */
  lemma TraceLinesRowMajor(bm: seq<seq<seq<string>>>, w: nat, i: nat, j: nat)
    requires IsBinaryMatrix(bm) && IsRectangular(bm, w)
    ensures |TraceLines(bm)| == |bm| * w
    ensures i < |bm| && j < w ==> i * w + j < |bm| * w && TraceLines(bm)[i * w + j] == PixelLine(bm[i][j])
  {
    var lm := LineMatrix(bm);
    assert IsRectangular(lm, w);
    ConcatLength(lm, w);
    if i < |bm| && j < w {
      ConcatRowMajor(lm, w, i, j);
    }
  }

  /** `combine_binary_to_24_bit`: the pixel lines of the binary matrix, row after row. */
  method CombineBinaryTo24Bit(bm: seq<seq<seq<string>>>) returns (combinedNumbers: seq<string>)
    requires IsBinaryMatrix(bm)
    ensures combinedNumbers == TraceLines(bm)
  {
    ghost var lm := LineMatrix(bm);
    combinedNumbers := [];
    var height := |bm|;
    for i := 0 to height
      invariant combinedNumbers == Concat(lm[..i])
    {
      ghost var before := combinedNumbers;
      var width := |bm[i]|;
      for j := 0 to width
        invariant combinedNumbers == before + lm[i][..j]
      {
        var px := bm[i][j];
        var combined := 0;
        for k := 0 to 3
          invariant combined == Pack(px, k)
        {
          combined := combined * 256 + BinaryValue(px[k]);
        }
        // Format as 24 binary digits, then prefix the opcode and 52 zeros
        var combinedBinary := BinaryRepr(combined, 24);
        combinedBinary := "0001" + Repeat('0', 52) + combinedBinary;
        assert combinedBinary == lm[i][j];
        TakeSucc(lm[i], j);
        combinedNumbers := combinedNumbers + [combinedBinary];
      }
      assert lm[i][..width] == lm[i];
      TakeSucc(lm, i);
      assert lm[..i + 1][..i] == lm[..i];
    }
    assert lm[..height] == lm;
  }

  /** Decoding a pixel line back to its channel values; None for any other string. */
  function DecodeLine(line: string): (rgb: Option<(Byte, Byte, Byte)>)
  {
    if |line| == 80 && line[..56] == PixelPrefix && IsBinary(line[56..]) then
      Pow2Bytes();
      Some(Unpacked(BinaryValue(line[56..])))
    else None
  }

  /** The three bytes of a 24-bit value, most significant first. */
  function Unpacked(v: nat): (Byte, Byte, Byte)
    requires v < 16777216
  {
    (v / 65536, (v / 256) % 256, v % 256)
  }

  /** The channel values a binary pixel encodes. */
  function PixelValues(px: seq<string>): (Byte, Byte, Byte)
    requires IsBinaryPixel(px)
  {
    Pow2Bytes();
    (BinaryValue(px[0]), BinaryValue(px[1]), BinaryValue(px[2]))
  }

  /** The binary pixel of three channel values. */
  function BinaryPixel(rgb: (Byte, Byte, Byte)): (px: seq<string>)
    ensures IsBinaryPixel(px)
  {
    BytesRoundTrip();
    [BinaryRepr(rgb.0, 8), BinaryRepr(rgb.1, 8), BinaryRepr(rgb.2, 8)]
  }

  /** Packing three bytes and taking them apart again gives the bytes back. */
  lemma Unpack(v: nat, rgb: (Byte, Byte, Byte))
    requires v == rgb.0 * 65536 + rgb.1 * 256 + rgb.2
    ensures v < 16777216 && Unpacked(v) == rgb
  {
    var (a, b, c) := rgb;
    DivMod65536(a, b * 256 + c);
    assert v == (a * 256 + b) * 256 + c;
    DivMod256(a * 256 + b, c);
    DivMod256(a, b);
  }

  lemma DivMod256(q: int, r: int)
    requires 0 <= r < 256
    ensures (q * 256 + r) / 256 == q && (q * 256 + r) % 256 == r
  {
  }

  lemma DivMod65536(q: int, r: int)
    requires 0 <= r < 65536
    ensures (q * 65536 + r) / 65536 == q
  {
  }

  /** Every 24-bit value is the packing of the three bytes taken out of it. */
  lemma Split24(v: nat)
    requires v < 16777216
    ensures var (a, b, c) := Unpacked(v); v == a * 65536 + b * 256 + c
  {
  }

  /** r, g and b are recoverable from a pixel line. */
  lemma DecodePixelLine(px: seq<string>)
    requires IsBinaryPixel(px)
    ensures DecodeLine(PixelLine(px)) == Some(PixelValues(px))
  {
    var line := PixelLine(px);
    var v := Pack(px, 3);
    var digits := BinaryRepr(v, 24);
    PrefixIsBinary();
    assert line[..56] == PixelPrefix && line[56..] == digits;
    ValueOfRepr(v, 24);
    Pow2Bytes();
    PackIsRgb(px);
    Unpack(v, PixelValues(px));
  }

  /** Every line DecodeLine accepts is the pixel line of what it decodes to. */
  lemma DecodedLineIsPixelLine(line: string, rgb: (Byte, Byte, Byte))
    requires DecodeLine(line) == Some(rgb)
    ensures line == PixelLine(BinaryPixel(rgb))
  {
    var digits := line[56..];
    assert |digits| == 24 && IsBinary(digits) && line[..56] == PixelPrefix;
    var v := BinaryValue(digits);
    Pow2Bytes();
    assert Unpacked(v) == rgb;
    Split24(v);
    assert v == rgb.0 * 65536 + rgb.1 * 256 + rgb.2;
    var px := BinaryPixel(rgb);
    ValueOfRepr(rgb.0, 8);
    ValueOfRepr(rgb.1, 8);
    ValueOfRepr(rgb.2, 8);
    assert PixelValues(px) == rgb;
    PackIsRgb(px);
    assert Pack(px, 3) == v;
    ReprOfValue(digits);
    assert BinaryRepr(v, 24) == digits;
    SplitAt(line, 56);
  }

  lemma SplitAt(s: string, n: nat)
    requires n <= |s|
    ensures s == s[..n] + s[n..]
  {
  }

  /** The whole encoder: line i * width + j of the trace of an image decodes to pixel (i, j). */
  lemma TraceRoundTrip(m: seq<seq<seq<Byte>>>, w: nat, i: nat, j: nat)
    requires IsRectangular(m, w) && forall r, c :: 0 <= r < |m| && 0 <= c < w ==> |m[r][c]| == 3
    requires i < |m| && j < w
    ensures IsBinaryMatrix(RgbDecimalToBinary(m))
    ensures |TraceLines(RgbDecimalToBinary(m))| == |m| * w && i * w + j < |m| * w
    ensures DecodeLine(TraceLines(RgbDecimalToBinary(m))[i * w + j]) == Some((m[i][j][0], m[i][j][1], m[i][j][2]))
  {
    var bm := RgbDecimalToBinary(m);
    assert IsBinaryMatrix(bm) && IsRectangular(bm, w);
    TraceLinesRowMajor(bm, w, i, j);
    DecodePixelLine(bm[i][j]);
  }

  /** The three trailer lines: idle cycles that keep the simulation running until the
      pipeline has drained. Each is 80 characters: opcode 0110 with 44 zeros and
      32 ones, opcode 0101 with 76 zeros, opcode 0011 with 76 zeros. */
  const Trailer1: string := "0110" + Repeat('0', 44) + Repeat('1', 32)
  const Trailer2: string := "0101" + Repeat('0', 76)
  const Trailer3: string := "0011" + Repeat('0', 76)

  lemma TrailersHaveNoNewline()
    ensures |Trailer1| == 80 && |Trailer2| == 80 && |Trailer3| == 80
    ensures NoNewline(Trailer1) && NoNewline(Trailer2) && NoNewline(Trailer3)
  {
    assert forall k :: 0 <= k < 4 ==> Trailer1[k] == "0110"[k];
    assert forall k :: 4 <= k < 48 ==> Trailer1[k] == '0';
    assert forall k :: 48 <= k < 80 ==> Trailer1[k] == '1';
    assert forall k :: 4 <= k < 80 ==> Trailer2[k] == '0' && Trailer3[k] == '0';
  }

  /** Lines terminated by newlines, as `f.write(f"{num}\n")` writes them. */
  function Terminated(lines: seq<string>): string
    decreases |lines|
  {
    if |lines| == 0 then "" else lines[0] + "\n" + Terminated(lines[1..])
  }

  lemma {:induction false} TerminatedAppend(lines: seq<string>, line: string)
    ensures Terminated(lines + [line]) == Terminated(lines) + line + "\n"
    decreases |lines|
  {
    if |lines| > 0 {
      assert (lines + [line])[1..] == lines[1..] + [line];
      TerminatedAppend(lines[1..], line);
    }
  }

  /** The trace file: the pixel lines, each terminated, then the trailer, whose last
      line has no newline. */
  function TraceFile(lines: seq<string>): string {
    Terminated(lines) + Trailer1 + "\n" + Trailer2 + "\n" + Trailer3
  }

  /** `write_combined_numbers_to_file`, with the text returned instead of written. */
  method WriteCombinedNumbersToFile(combinedNumbers: seq<string>) returns (text: string)
    ensures text == TraceFile(combinedNumbers)
  {
    text := "";
    for n := 0 to |combinedNumbers|
      invariant text == Terminated(combinedNumbers[..n])
    {
      TerminatedAppend(combinedNumbers[..n], combinedNumbers[n]);
      assert combinedNumbers[..n + 1] == combinedNumbers[..n] + [combinedNumbers[n]];
      text := text + combinedNumbers[n] + "\n";
    }
    assert combinedNumbers[..|combinedNumbers|] == combinedNumbers;
    text := text + Trailer1 + "\n";
    text := text + Trailer2 + "\n";
    text := text + Trailer3;
  }

  /** Python's `s.split('\n')`: the pieces between newlines. */
  function SplitLines(s: string): (pieces: seq<string>)
    ensures |pieces| >= 1
    decreases |s|
  {
    if |s| == 0 then [""]
    else
      var rest := SplitLines(s[1..]);
      if s[0] == '\n' then [""] + rest else [[s[0]] + rest[0]] + rest[1..]
  }

  predicate NoNewline(s: string) {
    forall k :: 0 <= k < |s| ==> s[k] != '\n'
  }

  /** Splitting a string without newlines gives the string itself, and a terminated
      line splits off in front of the rest. */
  lemma {:induction false} SplitLine(line: string, t: string)
    requires NoNewline(line)
    ensures SplitLines(line) == [line]
    ensures SplitLines(line + "\n" + t) == [line] + SplitLines(t)
    decreases |line|
  {
    if |line| > 0 {
      SplitLine(line[1..], t);
      assert (line + "\n" + t)[1..] == line[1..] + "\n" + t;
      assert [line[0]] + line[1..] == line;
    } else {
      assert line + "\n" + t == "\n" + t;
      assert ("\n" + t)[1..] == t;
    }
  }

  lemma {:induction false} SplitTerminated(lines: seq<string>, t: string)
    requires forall i :: 0 <= i < |lines| ==> NoNewline(lines[i])
    ensures SplitLines(Terminated(lines) + t) == lines + SplitLines(t)
    decreases |lines|
  {
    if |lines| > 0 {
      var rest := Terminated(lines[1..]) + t;
      SplitTerminated(lines[1..], t);
      SplitLine(lines[0], rest);
      assert Terminated(lines) + t == lines[0] + "\n" + rest;
      assert [lines[0]] + (lines[1..] + SplitLines(t)) == lines + SplitLines(t);
    } else {
      assert Terminated(lines) + t == t;
    }
  }

  /** Reading the trace file back line by line gives the pixel lines, then the three
      trailer lines. */
  lemma TraceFileLines(lines: seq<string>)
    requires forall i :: 0 <= i < |lines| ==> NoNewline(lines[i])
    ensures SplitLines(TraceFile(lines)) == lines + [Trailer1, Trailer2, Trailer3]
  {
    TrailersHaveNoNewline();
    var tail := Trailer1 + "\n" + Trailer2 + "\n" + Trailer3;
    SplitLine(Trailer3, "");
    SplitLine(Trailer2, Trailer3);
    SplitLine(Trailer1, Trailer2 + "\n" + Trailer3);
    assert Trailer1 + "\n" + Trailer2 + "\n" + Trailer3 == Trailer1 + "\n" + (Trailer2 + "\n" + Trailer3);
    SplitTerminated(lines, tail);
    assert TraceFile(lines) == Terminated(lines) + tail;
  }

  /** The trace file of an image has one line per pixel before its trailer. */
  lemma ImageTraceFile(bm: seq<seq<seq<string>>>)
    requires IsBinaryMatrix(bm)
    ensures SplitLines(TraceFile(TraceLines(bm))) == TraceLines(bm) + [Trailer1, Trailer2, Trailer3]
  {
    TraceLinesBinary(bm);
    TraceFileLines(TraceLines(bm));
  }

  lemma TraceLinesBinary(bm: seq<seq<seq<string>>>)
    requires IsBinaryMatrix(bm)
    ensures forall n :: 0 <= n < |TraceLines(bm)| ==> NoNewline(TraceLines(bm)[n])
  {
    var lm := LineMatrix(bm);
    forall i, j | 0 <= i < |lm| && 0 <= j < |lm[i]|
      ensures NoNewline(lm[i][j])
    {
      PixelLineIsConcatenation(bm[i][j]);
    }
    ConcatAll(lm, NoNewline);
  }
}
