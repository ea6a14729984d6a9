# Image upscaler: software reference, trace encoder and output decoder

This project models the integer logic of the Python harness that drives a
hardware image upscaler. The hardware doubles an image's width and height.
The model has three parts.

- **`race`, the software reference upscaler** (`Halving`, `Upscaler`). One
  colour channel of a `rows x cols` image is written into a zero grid of
  `2*rows x 2*cols` cells in three passes over that grid:
  - The real pixels go to the even-row, even-column cells.
  - The vertical linear pass fills the even columns of the odd rows with
    `intdiv2(above) + intdiv2(below)`. In the last input row the pixel below
    counts as zero.
  - The horizontal cubic pass sweeps every output row left to right. It fills
    the odd columns from a four-operand shift-add kernel and clamps the
    result to [0, 255].
  `intdiv2` truncates toward zero. It is modelled as `Half`, which differs
  from Dafny's `/` on negative odd values. The method `Race` and its
  per-pass methods keep the source's in-place array updates and loop order.
  They are proved equal to the function `Upscaled`, which runs the same
  sweep on sequences. The lemmas then describe every output cell by role:
  real, linear, cubic or never written. The cubic cells get a closed-form
  reference, `CubicRef`. The sweep's left operand reads column `2j-3`.
  That cell already holds the cubic result of step `j-2`, so `CubicRef` is
  recursive. At `j = 1`, Python's index `-1` reads the last column, which
  is never written and so is 0.
- **The trace encoder** (`Trace`). This is `rgb_decimal_to_binary`,
  `combine_binary_to_24_bit` and `write_combined_numbers_to_file`. Each pixel
  becomes one 80-character line: the opcode `0001`, 52 zeros, then the
  24-bit big-endian binary of `r*2^16 + g*2^8 + b`. The lines are in
  row-major order. Three fixed trailer lines follow, with opcodes `0110`,
  `0101` and `0011`. `DecodeLine` is the partner of the encoder. It is
  proved to recover `(r, g, b)` from each pixel line, and each line it
  accepts is the pixel line of what it returns.
- **The output decoder** (`OutputDecoder`). This is `parse_image`. Cell
  `(i, j, c)` of the `H x W x 3` output image reads entry
  `(i*W + j)*3 + (2 - c)` of the simulator's output list. That index map is
  proved to be a bijection onto `[0, 3*H*W)`, with `CellOf` as its inverse.
  A list too short for the image raises an indexing error in Python. Here
  that case gives `None`.

`runsim.py` and `upscaler/runsim.py` define the same encoder and decoder
functions. Each is modelled once. The rows below cite whichever file states
the property in question.

Where the design description and the code disagree, the model follows the
code:
- **Clamping.** A negative cubic result always becomes 0 (`Clamp`). The
  design describes hardware saturation that turns some negative raw
  results into the maximum value instead.
- **Flat field.** The design says a uniform 128 image upscales to a
  uniform 128 image. The Python reference does not do this.
  `FlatFieldLeftEdge` proves the first cubic cell of each row is 136, or 68
  in the last output row. `LinearCells` shows the last output row's linear
  cells are halved. `LastColumnZero` shows the last column stays 0. Only
  the kernel itself is flat-field invariant (`CubicFlatField`).
- **Direction of the linear pass.** The code's linear pass is vertical
  (odd rows, even columns). The horizontal odd columns are cubic. The
  design describes a horizontal linear ramp.

## Model

| member | source | states |
|---|---|---|
| `Halving.HalfVersusFloor` | upscaler/runsim.py:135-139 | `int(x/2)` equals floor division exactly when x is non-negative or even; -3 becomes -1 where floor gives -2 |
| `Halving.HalfBounds` | upscaler/runsim.py:138 | the truncated half lies between x/2 and zero: within one unit below x/2 for x >= 0 and above it for x < 0 |
| `Halving.HalfIsOdd` | upscaler/runsim.py:138 | truncating halving commutes with negation |
| `Halving.IntDiv2` | upscaler/runsim.py:135-139 | returns a fresh 3-entry buffer whose entry i is the truncated half of channel i |
| `Upscaler.PyIndex` | upscaler/runsim.py:184 | Python subscript of a row of n cells: a negative index k reads cell n + k, a non-negative one reads cell k |
| `Upscaler.Clamp` | upscaler/runsim.py:213-217 | the over/underflow check always gives a value in [0, 255] and leaves values already in range unchanged |
| `Upscaler.ClampIsNearest` | upscaler/runsim.py:213-217 | the clamped value is the value of [0, 255] nearest to the raw result |
| `Upscaler.CubicRef` | upscaler/runsim.py:177-220 | the closed-form cubic cell 2j+1: left operand is the cubic cell two steps back (0 for j < 2), right context is 0 at j = cols-2; always in [0, 255] |
| `Upscaler.SweepMatchesReference` | upscaler/runsim.py:177-220 | after j steps of the in-place left-to-right sweep, the computed odd cells hold CubicRef and every other cell is unchanged |
| `Upscaler.LeftOperand` | upscaler/runsim.py:181-184 | in0 is 0 at j = 0, the never-written last column (Python index -1, so 0) at j = 1, and the cubic result of step j-2 after that |
| `Upscaler.RightOperand` | upscaler/runsim.py:189-193 | in3 is 0 when j >= cols-2 and the still-unchanged even cell 2j+4 otherwise |
| `Upscaler.StageRowEndsInZero` | upscaler/runsim.py:163-174 | the real-pixel and linear passes never write the last column, so it is 0 when the cubic pass starts |
| `Upscaler.UpscaledCell` | upscaler/runsim.py:163-220 | every output cell, by its parity: odd columns with j <= cols-2 are CubicRef, all other cells keep their real, linear or zero value |
| `Upscaler.RealPixelsKept` | upscaler/runsim.py:163-166 | input (i, j) is at output (2i, 2j) after all three passes; no later pass overwrites it |
| `Upscaler.LinearCells` | upscaler/runsim.py:168-174 | output (2i+1, 2j) is Half(in[i,j]) + Half(in[i+1,j]), or Half(in[rows-1,j]) alone in the last input row |
| `Upscaler.CubicCells` | upscaler/runsim.py:176-220 | in every output row, linear rows included, cell 2j+1 with j <= cols-2 holds the reference value, within [0, 255] |
| `Upscaler.LastColumnZero` | upscaler/runsim.py:196-199 | column 2*cols-1 is never computed and stays 0 in every row |
| `Upscaler.UpscaledIsByte` | upscaler/runsim.py:168-220 | for an 8-bit input every output value is in [0, 255], and every linear cell is at most 254 |
| `Upscaler.LinearIsBiasedMean` | upscaler/runsim.py:172-174 | the linear value of two non-negative values is their floor mean or one less |
| `Upscaler.CubicFlatField` | upscaler/runsim.py:201-210 | four equal operands give back that value from the raw kernel |
| `Upscaler.FlatFieldLeftEdge` | upscaler/runsim.py:180-210 | in a uniform 128 image, output (r, 1) is 136, or 68 in the last row, because of the zero left operand |
| `Upscaler.CubicNearCatmullRom` | upscaler/runsim.py:201-210 | 16 times the shift-add kernel is within 30 of the Catmull-Rom midpoint -p0 + 9p1 + 9p2 - p3 |
| `Upscaler.Interpolate` | upscaler/runsim.py:201-217 | the coefficient, accumulation and clamp steps give the clamped raw kernel value |
| `Upscaler.CubicStep` | upscaler/runsim.py:180-220 | one iteration of the cubic sweep reads the operands with the edge rules, writes only cell 2j+1 of row i (nothing at j = cols-1) and leaves other rows unchanged |
| `Upscaler.CubicRow` | upscaler/runsim.py:178-220 | the sweep over output row i leaves that row equal to the functional sweep and touches no other row |
| `Upscaler.PlaceRow` | upscaler/runsim.py:165-166 | input row i lands in the even columns of output row 2i; every other cell is unchanged |
| `Upscaler.LinearRow` | upscaler/runsim.py:170-174 | the even columns of output row 2i+1 get their linear values; every other cell is unchanged |
| `Upscaler.RealPass` | upscaler/runsim.py:163-166 | the zero grid holds input (r/2, k/2) at even/even cells and 0 elsewhere |
| `Upscaler.LinearPass` | upscaler/runsim.py:168-174 | after the linear pass every cell holds its stage value: real, linear, or 0 in odd columns |
| `Upscaler.CubicPass` | upscaler/runsim.py:176-220 | after the cubic pass every cell holds its upscaled value |
| `Upscaler.Race` | upscaler/runsim.py:151-220 | a fresh grid of twice the height and width whose every cell is the upscaled value |
| `Trace.BinaryRepr` | upscaler/runsim.py:49 | the binary rendering of a value below 2^width has exactly width characters |
| `Trace.BinaryValue` | upscaler/runsim.py:60 | `int(s, 2)` of a binary string is below 2^len(s) |
| `Trace.ValueOfRepr` | runsim.py:42 | parsing the width-digit binary rendering of v gives v back, and the rendering uses only 0 and 1 |
| `Trace.ReprOfValue` | runsim.py:53-55 | rendering a binary string's value at its own width gives the string back |
| `Trace.ValueAppend` | runsim.py:53 | the value of s + t is value(s) * 2^len(t) + value(t), so shift-and-or of a byte appends its digits |
| `Trace.BytesRoundTrip` | runsim.py:42 | every byte renders as an 8-digit binary string that parses back to the byte |
| `Trace.RgbDecimalToBinary` | upscaler/runsim.py:47-50 | same shape as the matrix, and every entry is an 8-character binary string whose value is the channel value |
| `Trace.Pack` | runsim.py:51-53 | the shift accumulator after k channels is below 2^(8k), so the packed pixel fits in 24 bits |
| `Trace.PackIsRgb` | upscaler/runsim.py:58-60 | the packed pixel is r*2^16 + g*2^8 + b |
| `Trace.ShiftOrIsMulAdd` | runsim.py:53 | on the accumulator's values, shifting left by 8 and or-ing in a byte equals c*256 + v |
| `Trace.PrefixIsBinary` | upscaler/runsim.py:64 | the prefix '0001' + 52 zeros is 56 binary characters |
| `Trace.PixelLineIsConcatenation` | runsim.py:55-57 | a pixel line is the prefix followed by the three channel strings, 80 binary characters |
| `Trace.TraceLinesRowMajor` | upscaler/runsim.py:56-65 | there are height*width lines, and line i*width+j is the line of pixel (i, j) |
| `Trace.CombineBinaryTo24Bit` | upscaler/runsim.py:53-66 | the returned list is the pixel lines in row-major order |
| `Trace.DecodePixelLine` | upscaler/runsim.py:58-64 | decoding the line of a pixel gives back its (r, g, b) |
| `Trace.DecodedLineIsPixelLine` | upscaler/runsim.py:58-64 | every line the decoder accepts is the pixel line of the values it returns |
| `Trace.TraceRoundTrip` | runsim.py:40-58 | for an image of bytes, line i*w+j of the trace decodes to pixel (i, j) |
| `Trace.TrailersHaveNoNewline` | runsim.py:66-68 | the three trailer lines are 80 characters each and contain no newline |
| `Trace.WriteCombinedNumbersToFile` | upscaler/runsim.py:69-77 | the written text is each pixel line followed by a newline, then the three trailer lines, the last without a newline |
| `Trace.TraceFileLines` | runsim.py:62-68 | splitting the trace file at newlines gives the pixel lines and then the trailers with opcodes 0110, 0101 and 0011 |
| `Trace.ImageTraceFile` | upscaler/runsim.py:53-77 | the trace file of an image reads back as its row-major pixel lines followed by the three trailer lines |
| `OutputDecoder.CellOf` | upscaler/runsim.py:124-128 | the cell that reads a given list entry has a column below W and a channel below 3 |
| `OutputDecoder.FlatIndexInRange` | upscaler/runsim.py:124-128 | every cell of an H x W x 3 image reads an entry below 3*H*W |
| `OutputDecoder.CellOfFlatIndex` | upscaler/runsim.py:126-128 | the entry read by cell (i, j, c) maps back to (i, j, c), so no two cells read the same entry |
| `OutputDecoder.FlatIndexOfCell` | runsim.py:91-95 | every entry below 3*H*W is read by some cell of the image |
| `OutputDecoder.ExactlyOnce` | runsim.py:91-95 | an entry below 3*H*W is read by cell (i, j, c) if and only if that is its CellOf cell |
| `OutputDecoder.ParsePixel` | runsim.py:93-95 | pixel (i, j) gets entries +2, +1, +0 of its block in channels 0, 1, 2; other cells are unchanged |
| `OutputDecoder.ParseRow` | runsim.py:91-95 | fills output row i, fails exactly when the list ends inside that row, and changes no other row |
| `OutputDecoder.ParseImage` | upscaler/runsim.py:109-128 | gives an image exactly when the list holds 3*H*W entries; that image is 2*height x 2*width x 3 with cell (i, j, c) = entry (i*W+j)*3 + (2-c) |

## Left out

- Image file I/O is left out. `Image.open`, `convert` and `split`,
  `cv2.imread` and `cv2.imwrite`, `np.loadtxt` and the file writes are
  foreign library calls. The pixel matrix, the output list and the input
  size are parameters. The trace file's text is a return value.
- Tool and shell plumbing is left out: `subprocess.run("make ...")`,
  `sel_sim_type`, `os.popen` and the `input()` prompts.
- The performance report in `race` is left out. Its time stamps, fps
  figures and prints are wall-clock and floating-point.
- `write_params` and `write_sim_path` only write fixed header strings.
  They are left out.
- numpy's float storage is not modelled. Every channel value in `race` and
  `parse_image` is a small exact integer, modelled as `int`.
- `Upscaler.Race` handles one channel. The source runs all three channels
  in lockstep with element-wise numpy arithmetic. The channels never
  interact, so one channel per run covers them.
- `Trace.BinaryValue`: modelled only on strings of 0 and 1. Python's
  `int(s, 2)` raises on other strings, but it only ever receives
  `np.binary_repr` output.
- `Trace.Pack`: `(combined << 8) | v` is modelled as `combined * 256 + v`.
  `ShiftOrIsMulAdd` proves the two agree on the accumulator's range; values
  outside that range never occur.
- The Verilog upscaling pipeline, its stream controller and its cubic
  pipeline stages are not part of this model. Their stall, handshake and
  latency behaviour has no source here to model against.
