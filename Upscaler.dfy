/**
  The software reference upscaler `race`: one colour channel of a
  `rows x cols` image is doubled in both directions on a `2*rows x 2*cols`
  grid in three passes that write the grid in place.

    1. real pixels:  input (i, j) goes to output (2i, 2j);
    2. linear pass:  (2i+1, 2j) is the truncated-half sum of the real pixels
                     above and below it, with zero below the last input row;
    3. cubic pass:   every output row, swept left to right, gets (r, 2j+1)
                     from a four-operand shift-add cubic kernel, clamped
                     to [0, 255]; the last column is never computed.

  The left operand of the cubic kernel is read from column 2j-3, which the
  sweep has already overwritten with the cubic result of step j-2, so the
  reference below is recursive in j.
 */
module Upscaler {
  import opened Halving

  /** `g` is a rectangular grid of `rows` rows of `cols` values. */
  predicate IsGrid(g: seq<seq<int>>, rows: nat, cols: nat) {
    |g| == rows && forall i :: 0 <= i < rows ==> |g[i]| == cols
  }

  /** Every value of `g` is an 8-bit channel value. */
  predicate IsByteGrid(g: seq<seq<int>>, rows: nat, cols: nat) {
    IsGrid(g, rows, cols) &&
    forall i, j :: 0 <= i < rows && 0 <= j < cols ==> 0 <= g[i][j] <= 255
  }

  /** The contents of a two-dimensional array, row by row. */
  ghost function Grid(a: array2<int>): (g: seq<seq<int>>)
    reads a
    ensures IsGrid(g, a.Length0, a.Length1)
    ensures forall i, j :: 0 <= i < a.Length0 && 0 <= j < a.Length1 ==> g[i][j] == a[i, j]
  {
    seq(a.Length0, i reads a =>
      seq(a.Length1, j reads a =>
        if 0 <= i < a.Length0 && 0 <= j < a.Length1 then a[i, j] else 0))
  }

  /** Python's subscript `row[k]` for -n <= k < n: a negative index counts from the end. */
  function PyIndex(k: int, n: nat): (r: nat)
    requires -(n as int) <= k < n
    ensures r < n
    ensures k >= 0 ==> r == k
    ensures k < 0 ==> r + (-k) == n
  {
    if k < 0 then k + n else k
  }

  /** The vertical linear value under input pixel (i, j): `intdiv2(a) + intdiv2(b)`
      with `b` the pixel below, or `intdiv2(a)` alone in the last input row. */
  function Linear(g: seq<seq<int>>, rows: nat, cols: nat, i: nat, j: nat): int
    requires IsGrid(g, rows, cols) && i < rows && j < cols
  {
    if i == rows - 1 then Half(g[i][j]) else Half(g[i][j]) + Half(g[i + 1][j])
  }

  /** Output cell (r, k) once the real-pixel and linear passes are done:
      odd columns are still the zeros the grid was created with. */
  function Stage(g: seq<seq<int>>, rows: nat, cols: nat, r: nat, k: nat): int
    requires IsGrid(g, rows, cols) && r < 2 * rows && k < 2 * cols
  {
    if k % 2 == 1 then 0
    else if r % 2 == 0 then g[r / 2][k / 2]
    else Linear(g, rows, cols, r / 2, k / 2)
  }

  function Dist(a: int, b: int): nat {
    if a >= b then a - b else b - a
  }

  /** The over/underflow check: the value of [0, 255] nearest to `x`. */
  function Clamp(x: int): (r: int)
    ensures 0 <= r <= 255
    ensures 0 <= x <= 255 ==> r == x
  {
    if x < 0 then 0 else if x > 255 then 255 else x
  }

  /** The unclamped cubic kernel `t3210` of operands in0..in3 (left context, the two
      neighbours, right context), built from the shift-add coefficients t0..t3 and
      the halving accumulations t32 and t321. */
  function CubicRaw(in0: int, in1: int, in2: int, in3: int): int {
    var t0 := in1;
    var t1 := Half(in2) - Half(in0);
    var t2 := in0 - (2 * in1 + Half(in1)) + 2 * in2 - Half(in3);
    var t3 := -1 * Half(in0) + in1 + Half(in1) - (in2 + Half(in2)) + Half(in3);
    var t32 := Half(t3) + t2;
    var t321 := Half(t32) + t1;
    Half(t321) + t0
  }

  /** A cubic kernel of four operands; the sweep below is stated for any kernel
      and instantiated with CubicRaw. */
  type Kernel = (int, int, int, int) -> int

  /** Output row r once the real-pixel and linear passes are done. */
  function StageRow(g: seq<seq<int>>, rows: nat, cols: nat, r: nat): (s: seq<int>)
    requires IsGrid(g, rows, cols) && r < 2 * rows
    ensures |s| == 2 * cols
    ensures forall k :: 0 <= k < 2 * cols ==> s[k] == Stage(g, rows, cols, r, k)
  {
    seq(2 * cols, k requires 0 <= k < 2 * cols => Stage(g, rows, cols, r, k))
  }

  /**
    Step j of the cubic sweep over one output row of 2*cols cells, as the cubic
    pass performs it: the operands are read from the row as steps 0..j-1 left it,
    the left one at column 2j-3 with Python's negative indexing, and only cell
    2j+1 is written. The last step (j = cols - 1) writes nothing.
   */
  function SweepStep(row: seq<int>, cols: nat, j: nat, kernel: Kernel): (row': seq<int>)
    requires |row| == 2 * cols && j < cols
    ensures |row'| == 2 * cols
  {
    if j == cols - 1 then row
    else
      var in0 := if j == 0 then 0 else row[PyIndex(2 * j - 3, 2 * cols)];
      var in1 := row[2 * j];
      var in3 := if j >= cols - 2 then 0 else row[2 * j + 4];
      var in2 := row[2 * j + 2];
      row[2 * j + 1 := Clamp(kernel(in0, in1, in2, in3))]
  }

  /** The row after the first j steps of the sweep. */
  function Sweep(row: seq<int>, cols: nat, j: nat, kernel: Kernel): (row': seq<int>)
    requires |row| == 2 * cols && j <= cols
    ensures |row'| == 2 * cols
    decreases j
  {
    if j == 0 then row else SweepStep(Sweep(row, cols, j - 1, kernel), cols, j - 1, kernel)
  }

  /** The upscaled channel: output cell (r, k) after all three passes. */
  function Upscaled(g: seq<seq<int>>, rows: nat, cols: nat, kernel: Kernel, r: nat, k: nat): int
    requires IsGrid(g, rows, cols) && r < 2 * rows && k < 2 * cols
  {
    Sweep(StageRow(g, rows, cols, r), cols, cols, kernel)[k]
  }

  /**
    A closed-form reference for the cubic cells: the value the sweep leaves in
    cell 2j+1 (j <= cols - 2) of a row whose stage values are `s`. Its left
    operand is the final value of cell 2j-3 (zero for j < 2), its right context
    is zero at j = cols - 2.
   */
  function CubicRef(s: seq<int>, cols: nat, j: nat, kernel: Kernel): (v: int)
    requires |s| == 2 * cols && j + 2 <= cols
    ensures 0 <= v <= 255
    decreases j
  {
    var left := if j < 2 then 0 else CubicRef(s, cols, j - 2, kernel);
    var right := if j + 2 == cols then 0 else s[2 * j + 4];
    Clamp(kernel(left, s[2 * j], s[2 * j + 2], right))
  }

  /**
    The in-place sweep agrees with the closed-form reference: after j steps, the
    odd cells 2j'+1 with j' < j and j' <= cols - 2 hold CubicRef, and every other
    cell (the even columns and the last column) still holds its stage value. The
    left operand of step 1 is read from the last column, which is why that cell
    must be zero, as it is in every stage row.
   */
  lemma {:induction false} SweepMatchesReference(s: seq<int>, cols: nat, j: nat, kernel: Kernel)
    requires |s| == 2 * cols && j <= cols
    requires cols > 0 ==> s[2 * cols - 1] == 0
    ensures SweptTo(Sweep(s, cols, j, kernel), s, cols, j, kernel)
    decreases j
  {
    if j > 0 {
      var step := j - 1;
      SweepMatchesReference(s, cols, step, kernel);
      var prev := Sweep(s, cols, step, kernel);
      if step == cols - 1 {
        assert SweepStep(prev, cols, step, kernel) == prev;
        SweptToLastStep(prev, s, cols, kernel);
      } else {
        LeftOperand(s, cols, step, prev, kernel);
        RightOperand(s, cols, step, prev, kernel);
        NeighbourOperands(s, cols, step, prev, kernel);
        SweepStepMatches(s, cols, step, prev, kernel);
        SweptToStep(prev, s, cols, step, kernel);
      }
    }
  }

  /** The row as the first j steps of the sweep leave it: the odd cells 2j'+1 with
      j' < j and j' <= cols - 2 hold CubicRef, every other cell its stage value. */
  predicate SweptTo(prev: seq<int>, s: seq<int>, cols: nat, j: nat, kernel: Kernel)
    requires |s| == 2 * cols
  {
    |prev| == 2 * cols &&
    forall k {:trigger prev[k]} :: 0 <= k < 2 * cols ==>
      prev[k] == if k % 2 == 1 && k / 2 < j && k / 2 + 2 <= cols then CubicRef(s, cols, k / 2, kernel) else s[k]
  }

  /** Writing the reference value of cell 2 step + 1 extends the swept prefix by one step. */
  lemma SweptToStep(prev: seq<int>, s: seq<int>, cols: nat, step: nat, kernel: Kernel)
    requires |s| == 2 * cols && step + 2 <= cols
    requires SweptTo(prev, s, cols, step, kernel)
    ensures SweptTo(prev[2 * step + 1 := CubicRef(s, cols, step, kernel)], s, cols, step + 1, kernel)
  {
    var next := prev[2 * step + 1 := CubicRef(s, cols, step, kernel)];
    forall k | 0 <= k < 2 * cols
      ensures next[k] ==
                if k % 2 == 1 && k / 2 < step + 1 && k / 2 + 2 <= cols then CubicRef(s, cols, k / 2, kernel) else s[k]
    {
      if k != 2 * step + 1 {
        assert next[k] == prev[k];
      }
    }
  }

  /** The last step writes nothing, and no cell is newly due at that step. */
  lemma SweptToLastStep(prev: seq<int>, s: seq<int>, cols: nat, kernel: Kernel)
    requires |s| == 2 * cols && cols > 0
    requires SweptTo(prev, s, cols, cols - 1, kernel)
    ensures SweptTo(prev, s, cols, cols, kernel)
  {
  }

  /** One step of the sweep writes the reference value into cell 2 step + 1, once its
      four operands are known to be the reference's operands. */
  lemma SweepStepMatches(s: seq<int>, cols: nat, step: nat, prev: seq<int>, kernel: Kernel)
    requires |s| == 2 * cols && |prev| == 2 * cols && step + 2 <= cols
    requires (if step == 0 then 0 else prev[PyIndex(2 * step - 3, 2 * cols)]) ==
             (if step < 2 then 0 else CubicRef(s, cols, step - 2, kernel))
    requires (if step >= cols - 2 then 0 else prev[2 * step + 4]) ==
             (if step + 2 == cols then 0 else s[2 * step + 4])
    requires prev[2 * step] == s[2 * step] && prev[2 * step + 2] == s[2 * step + 2]
    ensures SweepStep(prev, cols, step, kernel) == prev[2 * step + 1 := CubicRef(s, cols, step, kernel)]
  {
  }

  /** The left operand: the final value of cell 2 step - 3, or the zero of the
      never-written last column (Python index -1) at step 1, or zero at step 0. */
  lemma LeftOperand(s: seq<int>, cols: nat, step: nat, prev: seq<int>, kernel: Kernel)
    requires |s| == 2 * cols && |prev| == 2 * cols && step + 2 <= cols
    requires s[2 * cols - 1] == 0
    requires SweptTo(prev, s, cols, step, kernel)
    ensures (if step == 0 then 0 else prev[PyIndex(2 * step - 3, 2 * cols)]) ==
            (if step < 2 then 0 else CubicRef(s, cols, step - 2, kernel))
  {
    if step == 1 {
      var k := 2 * cols - 1;
      assert k % 2 == 1 && k / 2 == cols - 1;
      assert prev[k] == s[k];
    } else if step >= 2 {
      var k := 2 * step - 3;
      assert k % 2 == 1 && k / 2 == step - 2;
      assert prev[k] == CubicRef(s, cols, step - 2, kernel);
    }
  }

  /** The right context: the real or linear cell 2 step + 4, or zero at the end. */
  lemma RightOperand(s: seq<int>, cols: nat, step: nat, prev: seq<int>, kernel: Kernel)
    requires |s| == 2 * cols && |prev| == 2 * cols && step + 2 <= cols
    requires SweptTo(prev, s, cols, step, kernel)
    ensures (if step >= cols - 2 then 0 else prev[2 * step + 4]) ==
            (if step + 2 == cols then 0 else s[2 * step + 4])
  {
    if step + 2 < cols {
      var k := 2 * step + 4;
      assert k % 2 == 0;
      assert prev[k] == s[k];
    }
  }

  /** The two neighbours 2 step and 2 step + 2 are even cells, still at their stage values. */
  lemma NeighbourOperands(s: seq<int>, cols: nat, step: nat, prev: seq<int>, kernel: Kernel)
    requires |s| == 2 * cols && |prev| == 2 * cols && step + 2 <= cols
    requires SweptTo(prev, s, cols, step, kernel)
    ensures prev[2 * step] == s[2 * step] && prev[2 * step + 2] == s[2 * step + 2]
  {
    var k1, k2 := 2 * step, 2 * step + 2;
    assert k1 % 2 == 0 && k2 % 2 == 0;
    assert prev[k1] == s[k1];
    assert prev[k2] == s[k2];
  }

  /** Every stage row ends in a zero: odd columns are untouched by the first two passes. */
  lemma StageRowEndsInZero(g: seq<seq<int>>, rows: nat, cols: nat, r: nat)
    requires IsGrid(g, rows, cols) && r < 2 * rows && cols > 0
    ensures StageRow(g, rows, cols, r)[2 * cols - 1] == 0
  {
  }

  /** The value of every upscaled cell, by the role the parity of (r, k) gives it. */
  lemma UpscaledCell(g: seq<seq<int>>, rows: nat, cols: nat, kernel: Kernel, r: nat, k: nat)
    requires IsGrid(g, rows, cols) && r < 2 * rows && k < 2 * cols
    ensures Upscaled(g, rows, cols, kernel, r, k) ==
              if k % 2 == 1 && k / 2 + 2 <= cols then CubicRef(StageRow(g, rows, cols, r), cols, k / 2, kernel)
              else Stage(g, rows, cols, r, k)
  {
    SweepMatchesReference(StageRow(g, rows, cols, r), cols, cols, kernel);
  }

  /** Real pixels: input (i, j) lands in output (2i, 2j) and no later pass overwrites it. */
  lemma RealPixelsKept(g: seq<seq<int>>, rows: nat, cols: nat, kernel: Kernel, i: nat, j: nat)
    requires IsGrid(g, rows, cols) && i < rows && j < cols
    ensures Upscaled(g, rows, cols, kernel, 2 * i, 2 * j) == g[i][j]
  {
    UpscaledCell(g, rows, cols, kernel, 2 * i, 2 * j);
  }

  /** Linear cells: (2i+1, 2j) is the sum of the truncated halves of the real pixel
      above and the one below, or the half of the one above in the last row. */
  lemma LinearCells(g: seq<seq<int>>, rows: nat, cols: nat, kernel: Kernel, i: nat, j: nat)
    requires IsGrid(g, rows, cols) && i < rows && j < cols
    ensures Upscaled(g, rows, cols, kernel, 2 * i + 1, 2 * j) ==
              if i == rows - 1 then Half(g[i][j]) else Half(g[i][j]) + Half(g[i + 1][j])
  {
    UpscaledCell(g, rows, cols, kernel, 2 * i + 1, 2 * j);
  }

  /** Cubic cells: (r, 2j+1) for j <= cols - 2 holds the reference value, within [0, 255],
      in every output row, the linear rows included. */
  lemma CubicCells(g: seq<seq<int>>, rows: nat, cols: nat, kernel: Kernel, r: nat, j: nat)
    requires IsGrid(g, rows, cols) && r < 2 * rows && j + 2 <= cols
    ensures Upscaled(g, rows, cols, kernel, r, 2 * j + 1) == CubicRef(StageRow(g, rows, cols, r), cols, j, kernel)
    ensures 0 <= Upscaled(g, rows, cols, kernel, r, 2 * j + 1) <= 255
  {
    UpscaledCell(g, rows, cols, kernel, r, 2 * j + 1);
  }

  /** The last output column is never computed: it keeps the zero it was created with. */
  lemma LastColumnZero(g: seq<seq<int>>, rows: nat, cols: nat, kernel: Kernel, r: nat)
    requires IsGrid(g, rows, cols) && r < 2 * rows && cols > 0
    ensures Upscaled(g, rows, cols, kernel, r, 2 * cols - 1) == 0
  {
    UpscaledCell(g, rows, cols, kernel, r, 2 * cols - 1);
  }

  /** For an 8-bit input every output value is 8-bit, and a linear value is at most 254. */
  lemma UpscaledIsByte(g: seq<seq<int>>, rows: nat, cols: nat, kernel: Kernel, r: nat, k: nat)
    requires IsByteGrid(g, rows, cols) && r < 2 * rows && k < 2 * cols
    ensures 0 <= Upscaled(g, rows, cols, kernel, r, k) <= 255
    ensures r % 2 == 1 && k % 2 == 0 ==> Upscaled(g, rows, cols, kernel, r, k) <= 254
  {
    UpscaledCell(g, rows, cols, kernel, r, k);
    if k % 2 == 0 && r % 2 == 1 && r / 2 + 1 < rows {
      assert 0 <= g[r / 2 + 1][k / 2] <= 255;
    }
  }

  /** The linear value is the mean of its two operands rounded down, with at most
      one unit of extra low bias from truncating each half separately. */
  lemma LinearIsBiasedMean(a: int, b: int)
    requires a >= 0 && b >= 0
    ensures 2 * (Half(a) + Half(b)) <= a + b <= 2 * (Half(a) + Half(b)) + 2
    ensures (a + b) / 2 - 1 <= Half(a) + Half(b) <= (a + b) / 2
  {
  }

  /** Clamping projects onto [0, 255]: no value of the range is nearer to x. */
  lemma ClampIsNearest(x: int, y: int)
    requires 0 <= y <= 255
    ensures Dist(x, Clamp(x)) <= Dist(x, y)
  {
  }

  /** Flat-field invariance of the kernel: four equal operands interpolate to themselves. */
  lemma CubicFlatField(v: int)
    ensures CubicRaw(v, v, v, v) == v
  {
    var h := Half(v);
    assert -1 * h + v + h - (v + h) + h == 0;
    assert Half(0) == 0;
    assert v - 2 * h == 0 || v - 2 * h == 1 || v - 2 * h == -1;
  }

  /** The sweep is not flat-field invariant at the left edge: in a uniform 128 image
      at least three pixels wide, the first cubic cell of every row is 136, because
      the zero left operand at j = 0 is weighted into the kernel; in the last output
      row, whose linear cells are 64, it is 68. */
  lemma FlatFieldLeftEdge(g: seq<seq<int>>, rows: nat, cols: nat, r: nat)
    requires IsGrid(g, rows, cols) && cols >= 3 && r < 2 * rows
    requires forall i, j :: 0 <= i < rows && 0 <= j < cols ==> g[i][j] == 128
    ensures Upscaled(g, rows, cols, CubicRaw, r, 1) == if r == 2 * rows - 1 then 68 else 136
  {
    CubicCells(g, rows, cols, CubicRaw, r, 0);
    var s := StageRow(g, rows, cols, r);
    if r % 2 == 0 {
      assert s[0] == g[r / 2][0] && s[2] == g[r / 2][1] && s[4] == g[r / 2][2];
      assert CubicRaw(0, 128, 128, 128) == 136;
    } else {
      assert s[0] == Linear(g, rows, cols, r / 2, 0);
      assert s[2] == Linear(g, rows, cols, r / 2, 1);
      assert s[4] == Linear(g, rows, cols, r / 2, 2);
      if r / 2 == rows - 1 {
        assert s[0] == 64 && s[2] == 64 && s[4] == 64;
        assert CubicRaw(0, 64, 64, 64) == 68;
      } else {
        assert s[0] == 128 && s[2] == 128 && s[4] == 128;
        assert CubicRaw(0, 128, 128, 128) == 136;
      }
    }
  }

  /** The kernel approximates the Catmull-Rom midpoint (-p0 + 9 p1 + 9 p2 - p3) / 16:
      the seven truncated halvings cost less than two units. */
  lemma CubicNearCatmullRom(p0: int, p1: int, p2: int, p3: int)
    ensures Dist(16 * CubicRaw(p0, p1, p2, p3), -p0 + 9 * p1 + 9 * p2 - p3) <= 30
  {
    KernelUnfold(p0, p1, p2, p3);
    KernelBound(p0, p1, p2, p3);
  }
  /** The same bound on the unfolded kernel, kept apart from the unfolding. */
  lemma KernelBound(p0: int, p1: int, p2: int, p3: int)
    ensures var h0, h1, h2, h3 := Half(p0), Half(p1), Half(p2), Half(p3);
            var a := Half(-1 * h0 + p1 + h1 - (p2 + h2) + h3);
            var b := Half(a + (p0 - (2 * p1 + h1) + 2 * p2 - h3));
            var c := Half(b + (h2 - h0));
            Dist(16 * (c + p1), -p0 + 9 * p1 + 9 * p2 - p3) <= 30
  {
    HalvesNear(p0, p1, p2, p3);
    ShiftAddError(p0, p1, p2, p3, Half(p0), Half(p1), Half(p2), Half(p3),
      Half(-1 * Half(p0) + p1 + Half(p1) - (p2 + Half(p2)) + Half(p3)),
      Half(Half(-1 * Half(p0) + p1 + Half(p1) - (p2 + Half(p2)) + Half(p3)) + (p0 - (2 * p1 + Half(p1)) + 2 * p2 - Half(p3))),
      Half(Half(Half(-1 * Half(p0) + p1 + Half(p1) - (p2 + Half(p2)) + Half(p3)) + (p0 - (2 * p1 + Half(p1)) + 2 * p2 - Half(p3))) + (Half(p2) - Half(p0))),
      Half(Half(Half(-1 * Half(p0) + p1 + Half(p1) - (p2 + Half(p2)) + Half(p3)) + (p0 - (2 * p1 + Half(p1)) + 2 * p2 - Half(p3))) + (Half(p2) - Half(p0))) + p1);
  }
  /** The kernel's value in terms of its seven halvings. */
  lemma KernelUnfold(p0: int, p1: int, p2: int, p3: int)
    ensures var h0, h1, h2, h3 := Half(p0), Half(p1), Half(p2), Half(p3);
            var a := Half(-1 * h0 + p1 + h1 - (p2 + h2) + h3);
            var b := Half(a + (p0 - (2 * p1 + h1) + 2 * p2 - h3));
            var c := Half(b + (h2 - h0));
            CubicRaw(p0, p1, p2, p3) == c + p1
  {
  }
  /** Each of the seven halvings is within half a unit of the exact half. */
  lemma HalvesNear(p0: int, p1: int, p2: int, p3: int)
    ensures var h0, h1, h2, h3 := Half(p0), Half(p1), Half(p2), Half(p3);
            var a := Half(-1 * h0 + p1 + h1 - (p2 + h2) + h3);
            var b := Half(a + (p0 - (2 * p1 + h1) + 2 * p2 - h3));
            var c := Half(b + (h2 - h0));
            p0 - 1 <= 2 * h0 <= p0 + 1 && p1 - 1 <= 2 * h1 <= p1 + 1 &&
            p2 - 1 <= 2 * h2 <= p2 + 1 && p3 - 1 <= 2 * h3 <= p3 + 1 &&
            (var t3 := -1 * h0 + p1 + h1 - (p2 + h2) + h3; t3 - 1 <= 2 * a <= t3 + 1) &&
            (var t32 := a + (p0 - (2 * p1 + h1) + 2 * p2 - h3); t32 - 1 <= 2 * b <= t32 + 1) &&
            (var t321 := b + (h2 - h0); t321 - 1 <= 2 * c <= t321 + 1)
  {
    var h0, h1, h2, h3 := Half(p0), Half(p1), Half(p2), Half(p3);
    var a := Half(-1 * h0 + p1 + h1 - (p2 + h2) + h3);
    var b := Half(a + (p0 - (2 * p1 + h1) + 2 * p2 - h3));
    var c := Half(b + (h2 - h0));
    HalfNear(p0);
    HalfNear(p1);
    HalfNear(p2);
    HalfNear(p3);
    HalfNear(-1 * h0 + p1 + h1 - (p2 + h2) + h3);
    HalfNear(a + (p0 - (2 * p1 + h1) + 2 * p2 - h3));
    HalfNear(b + (h2 - h0));
  }
  /** The error bound of the kernel, in terms of halves known only up to one unit. */
  lemma ShiftAddError(p0: int, p1: int, p2: int, p3: int, h0: int, h1: int, h2: int, h3: int,
                      a: int, b: int, c: int, r: int)
    requires p0 - 1 <= 2 * h0 <= p0 + 1 && p1 - 1 <= 2 * h1 <= p1 + 1
    requires p2 - 1 <= 2 * h2 <= p2 + 1 && p3 - 1 <= 2 * h3 <= p3 + 1
    requires var t3 := -1 * h0 + p1 + h1 - (p2 + h2) + h3;
             t3 - 1 <= 2 * a <= t3 + 1
    requires var t32 := a + (p0 - (2 * p1 + h1) + 2 * p2 - h3);
             t32 - 1 <= 2 * b <= t32 + 1
    requires var t321 := b + (h2 - h0);
             t321 - 1 <= 2 * c <= t321 + 1
    requires r == c + p1
    ensures Dist(16 * r, -p0 + 9 * p1 + 9 * p2 - p3) <= 30
  {
  }

  lemma HalfNear(x: int)
    ensures x - 1 <= 2 * Half(x) <= x + 1
  {
  }

  /**
    `race` on one channel: creates the zero grid of twice the height and width
    and fills it with the three passes, in the source's loop order.
   */
  method Race(image: array2<int>) returns (newImage: array2<int>)
    ensures fresh(newImage)
    ensures newImage.Length0 == 2 * image.Length0 && newImage.Length1 == 2 * image.Length1
    ensures forall r, k :: 0 <= r < newImage.Length0 && 0 <= k < newImage.Length1 ==>
              newImage[r, k] == Upscaled(Grid(image), image.Length0, image.Length1, CubicRaw, r, k)
  {
    var hRes := image.Length0;
    var vRes := image.Length1;
    var newHRes := 2 * hRes;
    var newVRes := 2 * vRes;
    newImage := new int[newHRes, newVRes]((_, _) => 0);
    ghost var g := Grid(image);
    RealPass(image, newImage);
    LinearPass(newImage, g, hRes, vRes);
    CubicPass(newImage, g, hRes, vRes);
  }

  /** Put the old image in the even-row, even-column cells of the zero grid. */
  method RealPass(image: array2<int>, newImage: array2<int>)
    requires image != newImage
    requires newImage.Length0 == 2 * image.Length0 && newImage.Length1 == 2 * image.Length1
    requires forall r, k :: 0 <= r < newImage.Length0 && 0 <= k < newImage.Length1 ==> newImage[r, k] == 0
    modifies newImage
    ensures forall r, k :: 0 <= r < newImage.Length0 && 0 <= k < newImage.Length1 ==>
              newImage[r, k] == if r % 2 == 0 && k % 2 == 0 then image[r / 2, k / 2] else 0
  {
    for i := 0 to image.Length0
      invariant forall r, k :: 0 <= r < newImage.Length0 && 0 <= k < newImage.Length1 ==>
                  newImage[r, k] == if r % 2 == 0 && k % 2 == 0 && r / 2 < i then image[r / 2, k / 2] else 0
    {
      PlaceRow(image, newImage, i);
    }
  }

  /** Compute the linear values: the even columns of the odd rows. */
  method LinearPass(newImage: array2<int>, ghost g: seq<seq<int>>, hRes: nat, vRes: nat)
    requires IsGrid(g, hRes, vRes)
    requires newImage.Length0 == 2 * hRes && newImage.Length1 == 2 * vRes
    requires forall r, k :: 0 <= r < 2 * hRes && 0 <= k < 2 * vRes ==>
               newImage[r, k] == if r % 2 == 0 && k % 2 == 0 then g[r / 2][k / 2] else 0
    modifies newImage
    ensures forall r, k :: 0 <= r < 2 * hRes && 0 <= k < 2 * vRes ==> newImage[r, k] == Stage(g, hRes, vRes, r, k)
  {
    for i := 0 to hRes
      invariant forall r, k :: 0 <= r < 2 * hRes && 0 <= k < 2 * vRes ==>
                  newImage[r, k] == if r % 2 == 1 && k % 2 == 0 && r / 2 >= i then 0
                                    else Stage(g, hRes, vRes, r, k)
    {
      LinearRow(newImage, g, hRes, vRes, i);
    }
  }

  /** Compute the cubic values: every output row, swept left to right. */
  method CubicPass(newImage: array2<int>, ghost g: seq<seq<int>>, hRes: nat, vRes: nat)
    requires IsGrid(g, hRes, vRes)
    requires newImage.Length0 == 2 * hRes && newImage.Length1 == 2 * vRes
    requires forall r, k :: 0 <= r < 2 * hRes && 0 <= k < 2 * vRes ==> newImage[r, k] == Stage(g, hRes, vRes, r, k)
    modifies newImage
    ensures forall r, k :: 0 <= r < 2 * hRes && 0 <= k < 2 * vRes ==> newImage[r, k] == Upscaled(g, hRes, vRes, CubicRaw, r, k)
  {
    for i := 0 to 2 * hRes
      invariant forall r, k :: 0 <= r < 2 * hRes && 0 <= k < 2 * vRes ==>
                  newImage[r, k] == if r < i then Upscaled(g, hRes, vRes, CubicRaw, r, k) else Stage(g, hRes, vRes, r, k)
    {
      CubicRow(newImage, StageRow(g, hRes, vRes, i), vRes, i);
    }
  }

  /** One row of the real-pixel pass: input row i goes to the even columns of output row 2i. */
  method PlaceRow(image: array2<int>, newImage: array2<int>, i: nat)
    requires image != newImage && i < image.Length0
    requires newImage.Length0 == 2 * image.Length0 && newImage.Length1 == 2 * image.Length1
    modifies newImage
    ensures forall r, k :: 0 <= r < newImage.Length0 && 0 <= k < newImage.Length1 ==>
              newImage[r, k] == if r == 2 * i && k % 2 == 0 then image[i, k / 2] else old(newImage[r, k])
  {
    for j := 0 to image.Length1
      invariant forall r, k :: 0 <= r < newImage.Length0 && 0 <= k < newImage.Length1 ==>
                  newImage[r, k] == if r == 2 * i && k % 2 == 0 && k / 2 < j then image[i, k / 2]
                                    else old(newImage[r, k])
    {
      newImage[2 * i, 2 * j] := image[i, j];
    }
  }

  /** One row of the linear pass: the even columns of output row 2i+1, from the real
      pixels already in rows 2i and 2i+2. */
  method LinearRow(newImage: array2<int>, ghost g: seq<seq<int>>, hRes: nat, vRes: nat, i: nat)
    requires IsGrid(g, hRes, vRes) && i < hRes
    requires newImage.Length0 == 2 * hRes && newImage.Length1 == 2 * vRes
    requires forall j :: 0 <= j < vRes ==> newImage[2 * i, 2 * j] == g[i][j]
    requires i + 1 < hRes ==> forall j :: 0 <= j < vRes ==> newImage[2 * i + 2, 2 * j] == g[i + 1][j]
    modifies newImage
    ensures forall r, k :: 0 <= r < newImage.Length0 && 0 <= k < newImage.Length1 ==>
              newImage[r, k] == if r == 2 * i + 1 && k % 2 == 0 then Stage(g, hRes, vRes, r, k)
                                else old(newImage[r, k])
  {
    for j := 0 to vRes
      invariant forall r, k :: 0 <= r < newImage.Length0 && 0 <= k < newImage.Length1 ==>
                  newImage[r, k] == if r == 2 * i + 1 && k % 2 == 0 && k / 2 < j then Linear(g, hRes, vRes, i, k / 2)
                                    else old(newImage[r, k])
    {
      if i == hRes - 1 {
        newImage[2 * i + 1, 2 * j] := Half(newImage[2 * i, 2 * j]);
      } else {
        newImage[2 * i + 1, 2 * j] := Half(newImage[2 * i, 2 * j]) + Half(newImage[2 * i + 2, 2 * j]);
      }
    }
    forall r, k | 0 <= r < newImage.Length0 && 0 <= k < newImage.Length1 && r == 2 * i + 1 && k % 2 == 0
      ensures Linear(g, hRes, vRes, i, k / 2) == Stage(g, hRes, vRes, r, k)
    {
      assert r % 2 == 1 && r / 2 == i;
    }
  }

  /** The coefficient, accumulation and over/underflow steps of one cubic
      interpolation, as the cubic pass writes them for one channel. */
  method Interpolate(in0: int, in1: int, in2: int, in3: int) returns (t3210: int)
    ensures t3210 == Clamp(CubicRaw(in0, in1, in2, in3))
  {
    // Compute coefficients
    var t0 := in1;
    var t1 := Half(in2) - Half(in0);
    var t2 := in0 - (2 * in1 + Half(in1)) + 2 * in2 - Half(in3);
    var t3 := -1 * Half(in0) + in1 + Half(in1) - (in2 + Half(in2)) + Half(in3);
    // Final computation
    var t32 := Half(t3) + t2;
    var t321 := Half(t32) + t1;
    t3210 := Half(t321) + t0;
    assert t3210 == CubicRaw(in0, in1, in2, in3);
    // Check for over/underflow
    if t3210 < 0 {
      t3210 := 0;
    } else if t3210 > 255 {
      t3210 := 255;
    }
  }

  /** One row of the cubic pass: the left-to-right sweep over row i, which
      starts out holding `row`, leaves Sweep(row) there; other rows are untouched. */
  method CubicRow(newImage: array2<int>, ghost row: seq<int>, vRes: nat, i: nat)
    requires i < newImage.Length0 && newImage.Length1 == 2 * vRes && |row| == 2 * vRes
    requires forall k :: 0 <= k < 2 * vRes ==> newImage[i, k] == row[k]
    modifies newImage
    ensures forall k :: 0 <= k < 2 * vRes ==> newImage[i, k] == Sweep(row, vRes, vRes, CubicRaw)[k]
    ensures forall r, k :: 0 <= r < newImage.Length0 && r != i && 0 <= k < newImage.Length1 ==>
              newImage[r, k] == old(newImage[r, k])
  {
    ghost var cur := row;
    for j := 0 to vRes
      invariant cur == Sweep(row, vRes, j, CubicRaw)
      invariant forall k :: 0 <= k < 2 * vRes ==> newImage[i, k] == cur[k]
      invariant forall r, k :: 0 <= r < newImage.Length0 && r != i && 0 <= k < newImage.Length1 ==>
                  newImage[r, k] == old(newImage[r, k])
    {
      ghost var next := SweepStep(cur, vRes, j, CubicRaw);
      CubicStep(newImage, cur, vRes, i, j);
      cur := next;
    }
  }

  /** Step j of the sweep over row i, which holds `cur`: reads the four operands with
      the edge rules and writes the interpolated cell 2j+1, unless j is the last step. */
  method CubicStep(newImage: array2<int>, ghost cur: seq<int>, vRes: nat, i: nat, j: nat)
    requires i < newImage.Length0 && newImage.Length1 == 2 * vRes && |cur| == 2 * vRes && j < vRes
    requires forall k :: 0 <= k < 2 * vRes ==> newImage[i, k] == cur[k]
    modifies newImage
    ensures forall k :: 0 <= k < 2 * vRes ==> newImage[i, k] == SweepStep(cur, vRes, j, CubicRaw)[k]
    ensures forall r, k :: 0 <= r < newImage.Length0 && r != i && 0 <= k < newImage.Length1 ==>
              newImage[r, k] == old(newImage[r, k])
  {
    var newVRes := 2 * vRes;
    var in0, in2, in3;
    // Left edge: no left context at j = 0; otherwise column 2j-3, indexed as Python does.
    if j == 0 {
      in0 := 0;
    } else {
      in0 := newImage[i, PyIndex(2 * j - 3, newVRes)];
    }
    var in1 := newImage[i, 2 * j];
    // Near-right edge: no right context in the last two steps.
    if j >= vRes - 2 {
      in3 := 0;
    } else {
      in3 := newImage[i, 2 * j + 4];
    }
    // Far-right edge: the last step computes nothing.
    if j == vRes - 1 {
      in2 := 0;
      assert SweepStep(cur, vRes, j, CubicRaw) == cur;
    } else {
      in2 := newImage[i, 2 * j + 2];
      var t3210 := Interpolate(in0, in1, in2, in3);
      assert SweepStep(cur, vRes, j, CubicRaw) == cur[2 * j + 1 := t3210];
      label BeforeWrite:
      newImage[i, 2 * j + 1] := t3210;
      forall k | 0 <= k < newVRes
        ensures newImage[i, k] == cur[2 * j + 1 := t3210][k]
      {
        if k != 2 * j + 1 {
          assert newImage[i, k] == old@BeforeWrite(newImage[i, k]);
        }
      }
    }
  }
}
