# Verified model of the SGFP4 codec and four neighbouring protocols

This project models, in Dafny, the hardest deterministic parts of the repository and proves what they are for:

- the **SGFP4 quantized-tensor codec** of `gnus-poc/quantize`: quadtree selection, affine fits, code packing, the
  v1 and v2 exporters and the strict decoder, down to the bytes;
- the **arithmetic evaluator** of the symbolic fallback, against its grammar;
- the **signing envelope**: attaching a signature to a JSON message and stripping it off again;
- the **reputation store**, a last-writer-wins replicated map with a text form;
- the **teacher client's circuit breaker** with its retry loop;
- the **ROUGE-L metric** and its two-row dynamic program.

Loops, mutated buffers and objects of the original are methods over arrays, local variables and classes. Each is
proved equal to a specification function, and the properties below are proved about that function. What such a
function computes is in turn stated in terms that do not mention it: bytes at positions, digits of numbers, values of
texts (`AcceptedStream`, `CodeBits`, `FinitePatterns`, `LeafModes`, `CellInNumbers`, `SumsEvaluate`,
`SignedTextHolds`, `ClosedCall` and others).

## Files

| files | content |
|---|---|
| `Bits`, `Format`, `Packing`, `Codes`, `Half`, `Headers` | shifts and masks on numbers, little-endian words, field packing, the two code modes, binary16, leaf headers |
| `Fit` | scale and bias fits, rounding, optimality |
| `Quadtree`, `QuadtreeEncoder`, `SplitMap`, `Layouts` | tilings, the encoder's recursion and gates, split maps, the two leaf orders |
| `ExporterV2`, `DecoderV2`, `AcceptanceV2`, `RoundTripV2`, `CanonicalV2`, `CodecV2`, `WriterV2`, `ReaderV2` | the adaptive profile: specification, accepted byte strings, theorems, loops |
| `CodecV1`, `LoopsV1` | the fixed profile |
| `Grammar`, `Evaluator`, `TextForms`, `Rendering` | tokens, grammar and recursive descent; the evaluating parser; texts put together from texts; writing trees as text |
| `Text`, `MessageSigning`, `ReputationCrdt` | string library calls, the signing envelope, the replicated store |
| `Lcs`, `TeacherCircuit`, `Basics` | the metric, the circuit breaker, shared types |

## How the source is read

- Floats are reals, except that a decoded number is the exact value of its binary16 pattern, with infinities and NaN.
  `np.round` is half-to-even. The conversion of a clipped number *to* binary16 is a parameter of which only its
  finite 16-bit result is used.
- Bytes and words are numbers with explicit bounds; a value that does not fit in 32 bits is an error result. Shifts,
  `|` and `&` are modelled bit by bit. Python's floor semantics and clamped slices are spelled out.
- An assertion, an exception or a format error of the source is an error value here, and every theorem says when it
  occurs. A JSON or text message is a sequence of characters, each standing for one byte.
- Parameters: the Laplacian-weighted error, the sixteen candidate multipliers, the square root of the v1 error
  comparison, the random nonce, the clock, the signature scheme, printing and reading of a score, and the arithmetic of
  `double`, with the rounding of an exact decimal to it.

Where code and documentation differ, the model follows the code:

- The quadtree's 0.8 tightening under an accepted parent never takes effect: a block is split only when it was not
  accepted, so `parent_accepted` is always false (`TryBlockFollowsTree`).
- The evaluator's comments give `'(' expr ')'`; the code accepts a missing `)` at the end of the text, and only there.
  `AcceptedLanguage` states the language it really accepts. A number is any run of digits and dots with a digit
  before its second dot, and what follows that dot is ignored (`ReadableExactly`, `AcceptedTexts`).
- `AttachSignature` promises a signed message; for a payload that does not end in `}`, and when signing fails, it
  returns the payload as it came. `VerifyAndStripUndoesAttach` is therefore an equivalence.
- Replicas of the reputation store converge only when a key's latest time belongs to a single record; equal times are
  resolved by arrival order (`Convergence`).

## Model

| member | source | states |
|---|---|---|
| Format.AlignUp | gnus-poc/quantize/sgfp4_format.py:51-55 | The result is the least multiple of 16 not below the value. |
| Format.LittleEndian | gnus-poc/quantize/fp4_exporter.py:369-372 | A 32-bit word is written and read with its lowest byte first. |
| Packing.PackStep | gnus-poc/quantize/fp4_exporter.py:502-508 | One step of a packing loop, OR-ing a shifted code into its word, turns the packing of a code list into the packing of the list with the next code appended, and changes no other word. |
| Packing.FieldOfPackedWord | gnus-poc/quantize/sgfp4_decoder.py:103-112 | Extracting symbol i from the packed words gives symbol i, and zero past the end, for every length and all three field widths. |
| Packing.PackWordsOfFields | gnus-poc/quantize/sgfp4_decoder.py:103-112 | Conversely, every word sequence is the packing of its own fields, bit for bit. |
| Codes.PackFp4Codes | gnus-poc/quantize/fp4_exporter.py:455-460 | The in-place FP4 packing loop leaves exactly the payload words of its codes. |
| Codes.PackTernaryCodes | gnus-poc/quantize/fp4_exporter.py:502-508 | The in-place ternary loop does the same over a zeroed payload. |
| Codes.DecodeCodes | gnus-poc/quantize/sgfp4_decoder.py:96-113 | The extraction loop fills the array with the codes of the words. |
| Codes.CodesRoundTrip | gnus-poc/quantize/sgfp4_decoder.py:96-113 | Decoding undoes packing for every code list of either mode that fits the payload. |
| Codes.CodeBits | gnus-poc/quantize/sgfp4_decoder.py:79-113 | In numbers: FP4 code i is hexadecimal digit i % 8 of word i / 8, 8 to 15 standing for -8 to -1; ternary code i is base-4 digit i % 16 of word i / 16, 2 standing for -1 and 3 for 0. |
| Codes.PayloadBits | gnus-poc/quantize/fp4_exporter.py:455-460 | The payload of a code list holds code i at that place, and zero at every place behind the last code. |
| Codes.Fp4PayloadCanonical | gnus-poc/quantize/sgfp4_decoder.py:80-83 | FP4 payloads are canonical: re-encoding decoded codes reproduces every word. |
| Codes.T158PayloadCanonical | gnus-poc/quantize/sgfp4_decoder.py:86-93 | Ternary payloads are canonical exactly when the reserved symbol 11 occurs nowhere: re-encoding the decoded codes then, and only then, reproduces every word. |
| Codes.T158PayloadNotCanonical | gnus-poc/quantize/sgfp4_decoder.py:86-93 | Such a payload exists: the words 3 and 0 decode to the same codes. |
| Half.TruncationError | gnus-poc/quantize/sgfp4_decoder.py:353 | Clearing the low four bits of a finite bias keeps it finite, never raises its magnitude and moves it by at most max(15/1024 of its magnitude, 15 * 2^-24). |
| Half.FinitePatterns | gnus-poc/quantize/sgfp4_decoder.py:75-77 | Every finite half by its pattern: 0 reads as 0.0, the next pattern is greater by 2^-24 at exponent fields 0 and 1 and by twice as much with every further exponent, and the top bit negates. |
| Half.OtherPatterns | gnus-poc/quantize/sgfp4_decoder.py:75-77 | 0x3C00 reads as 1.0, 0x7C00 and 0xFC00 as the two infinities, every pattern above them as not a number. |
| Half.AffineIs | gnus-poc/quantize/sgfp4_decoder.py:388-390 | On finite operands the reconstruction is the real number scale * code + bias. |
| Half.AffineOfSpecials | gnus-poc/quantize/sgfp4_decoder.py:388-390 | With infinite or undefined operands: NaN spreads, an infinite scale gives NaN at code 0 and against the opposite infinity, and otherwise the infinity wins with its sign. |
| Half.TruncatedFields | gnus-poc/quantize/sgfp4_decoder.py:353 | Truncation changes neither sign nor exponent, only the low fraction bits. |
| Half.TruncationOfSpecials | gnus-poc/quantize/sgfp4_decoder.py:353 | An infinity or NaN survives truncation exactly unless its fraction lies in 1..15, when a NaN becomes the infinity of its sign. |
| Headers.LeafHeaderFields | gnus-poc/quantize/fp4_exporter.py:335-346 | From a v2 leaf header the decoder's masks recover the scale bits, the truncated bias and the mode, and see clear reserved bits. |
| Headers.PackedFields | gnus-poc/quantize/fp4_exporter.py:540-544 | From a v1 header they recover both halves whole. |
| Fit.BestCandidate | gnus-poc/quantize/fp4_exporter.py:518-529 | The running best is the earliest of the candidates with the least error. |
| Fit.FitAffine | gnus-poc/quantize/fp4_exporter.py:510-530 | The search loop, starting from an infinite error, returns that candidate's scale, and as bias the number from which the deviations of the weights add up to zero, which no other number beats in squared deviation. |
| Fit.MeanIsBest | gnus-poc/quantize/fp4_exporter.py:514 | The same of the mean itself, wherever it is used. |
| Fit.SumParts | gnus-poc/quantize/fp4_exporter.py:514 | A sum is its element for one number and adds up over concatenation, which fixes it. |
| Fit.ErrorParts | gnus-poc/quantize/fp4_exporter.py:526 | The same of a squared error. |
| Fit.MseIs | gnus-poc/quantize/fp4_exporter.py:525-526 | The mean squared error times the number of weights is their squared error against scale * code + bias. |
| Fit.AffineScaleIs | gnus-poc/quantize/fp4_exporter.py:512-530 | The largest weight is seven initial scales, and the fitted scale is the first of the initial scale's multiples with the least error. |
| Fit.TernaryScaleIs | gnus-poc/quantize/fp4_exporter.py:532-538 | The ternary scale times the number of weights is the sum of their absolute deviations from the mean, unless that is at most 1e-8 a weight, when the scale is 1e-8. |
| Fit.CodeTies | gnus-poc/quantize/fp4_exporter.py:442-453 | Exactly between two codes FP4 takes the even one; ternary codes change only beyond half a scale. |
| Fit.FitFp4 | gnus-poc/quantize/fp4_exporter.py:441-467 | The whole FP4 fit: search, codes and packing loop give the specified scale, bias and payload. |
| Fit.FitT158 | gnus-poc/quantize/fp4_exporter.py:468-487 | The whole ternary fit likewise. |
| Fit.FitsAre | gnus-poc/quantize/fp4_exporter.py:441-487 | Both fits hold the mean as bias, the scale of the search or of the spread, and the payload of exactly the codes these give. |
| Fit.TernaryCodes | gnus-poc/quantize/fp4_exporter.py:489-499 | The two masked assignments leave every value's ternary code. |
| Fit.CodesAreOptimal | gnus-poc/quantize/fp4_exporter.py:442-453 | At a given scale and bias no code vector of the mode has a smaller mean squared error than the rounded and clipped (or thresholded) codes. |
| Fit.Fp4FitIsOptimal | gnus-poc/quantize/fp4_exporter.py:510-530 | The fitted FP4 block is no worse than any candidate scale paired with any code vector in [-8, 7]. |
| Quadtree.LeavesTile | gnus-poc/quantize/quadtree.py:166-179 | The depth-first leaves of any quadtree of an aligned square are aligned squares inside it that cover every cell and do not overlap. |
| Quadtree.UniqueLeaf | gnus-poc/quantize/sgfp4_decoder.py:391-396 | The leaf containing a cell of such a tiling is unique. |
| Quadtree.LeavesInZOrder | gnus-poc/quantize/quadtree.py:166-179 | Depth-first order is Z-order: the interleaved coordinate bits of a leaf's corner are the area of the leaves before it. |
| Quadtree.LeavesArea | gnus-poc/quantize/quadtree.py:166-179 | The leaf areas add up to the area of the square. |
| QuadtreeEncoder.TryBlockFollowsTree | gnus-poc/quantize/quadtree.py:64-179 | The recursion never exceeds its depth limit, always hands down a false parent flag, and returns the records of the leaves of one quadtree in depth-first order. |
| QuadtreeEncoder.EncodeTiles | gnus-poc/quantize/quadtree.py:43-62 | Encoding succeeds exactly for a valid minimum block size; the result is a depth-first leaf list that tiles the macroblock exactly, no leaf below the minimum. |
| QuadtreeEncoder.AcceptsWithinSlack | gnus-poc/quantize/quadtree.py:133-153 | Under an unaccepted parent the three acceptance rules amount to: at most the minimum size, or combined error within 1.1 of the bound. |
| QuadtreeEncoder.AcceptanceMeans | gnus-poc/quantize/quadtree.py:133-199 | Whatever the parent flag, a block is accepted exactly when it has the minimum size, or the error of the fit it keeps is within 1.1 of the absolute bound and, where a relative bound applies to its signal power, within 1.1 of that. |
| QuadtreeEncoder.LeavesAreMaximal | gnus-poc/quantize/quadtree.py:64-179 | The leaves are exactly the aligned squares that meet these gates and lie in no larger aligned square that does. |
| QuadtreeEncoder.LeafModes | gnus-poc/quantize/quadtree.py:86-160 | Every leaf is ternary exactly when the ternary error is at most 1 + delta times the FP4 error and no weight is more than five scales from its ternary level; its payload and its clipped scale and bias are those of that fit. |
| QuadtreeEncoder.ReconstructIs | gnus-poc/quantize/quadtree.py:202-227 | The reconstruction the errors are computed from puts each weight at a level of its mode that no other level comes closer than. |
| QuadtreeEncoder.RegionIs | gnus-poc/quantize/quadtree.py:81 | The region of a block lists its weights row by row. |
| QuadtreeEncoder.ThresholdIs | gnus-poc/quantize/quadtree.py:82-88 | A bound missing for a size is that of the minimum size, and 0.0005 when that is missing too. |
| QuadtreeEncoder.SignalPowerIs | gnus-poc/quantize/quadtree.py:192 | The signal power times the number of weights is their squared distance from zero. |
| QuadtreeEncoder.LooseningCoarsens | gnus-poc/quantize/quadtree.py:115-199 | Two encoders differing only in their gates, the second at least as permissive at each of the five sizes and with at least the minimum size: every leaf of the first lies in a leaf of the second, so there are no more leaves. |
| WriterV2.SelectLeaves | gnus-poc/quantize/quadtree.py:64-179 | The recursion, extending its result list in two nested loops over the quadrants, computes that leaf list, with the same errors. |
| SplitMap.Builder.Walk | gnus-poc/quantize/fp4_exporter.py:591-615 | The walk that advances the leaf index and appends bits emits exactly the flags of the specification's walk, with the same failed assertions. |
| SplitMap.Parser.Walk | gnus-poc/quantize/sgfp4_decoder.py:206-226 | The parser's walk appends exactly the specification's leaves and advances to its bit position. |
| SplitMap.PackFlags | gnus-poc/quantize/fp4_exporter.py:627-630 | Setting one bit per split flag packs the flag list into three words. |
| SplitMap.WriteSplitMap | gnus-poc/quantize/fp4_exporter.py:586-631 | The routine yields the specified twelve bytes or the first assertion that fails. |
| SplitMap.ReadSplitMap | gnus-poc/quantize/sgfp4_decoder.py:197-234 | The routine yields the specified leaves or format error. |
| SplitMap.BuildSucceedsExactlyOnLeafLists | gnus-poc/quantize/fp4_exporter.py:591-625 | No assertion of the builder fails exactly on the depth-first leaf lists of quadtrees. |
| SplitMap.ParseUndoesBuild | gnus-poc/quantize/sgfp4_decoder.py:197-234 | Parsing the map built for any depth-first leaf list returns the list. |
| SplitMap.BuildUndoesParse | gnus-poc/quantize/fp4_exporter.py:586-631 | Every twelve-byte map the parser accepts is reproduced bit for bit from its leaves. |
| SplitMap.SplitMapBits | gnus-poc/quantize/fp4_exporter.py:627-631 | Bit k of the twelve bytes, counted from the lowest bit of each little-endian word, is the split flag of node k in depth-first order; the rest is clear. |
| SplitMap.FlagsExample | gnus-poc/quantize/fp4_exporter.py:591-615 | The flags of a tree in which only the upper right quarter, and of it the upper left one, is split. |
| SplitMap.ParseAnalysis | gnus-poc/quantize/sgfp4_decoder.py:206-232 | Parsing any buffer reads the flags of one quadtree, at most 85 bits, and fails exactly when a later bit is set. |
| SplitMap.NoOverrun | gnus-poc/quantize/sgfp4_decoder.py:211-214 | The overrun error is unreachable. |
| SplitMap.ParsedLeavesTile | gnus-poc/quantize/sgfp4_decoder.py:228-234 | Accepted leaves tile the macroblock exactly and number three times the set bits plus one. |
| Layouts.ClassifyLeafList | gnus-poc/quantize/fp4_exporter.py:565-583 | A quadtree is classified MIXED exactly when two of its leaves differ in size; otherwise the layout's leaf size is theirs. |
| Layouts.SortSorts | gnus-poc/quantize/fp4_exporter.py:330 | The sort by (y, x) is an ordered permutation of the leaf records. |
| Layouts.SortedUniformIsRowMajor | gnus-poc/quantize/sgfp4_decoder.py:246-253 | For a uniform quadtree of any leaf size the sorted leaves are the decoder's row-major list. |
| Layouts.RowMajorTiles | gnus-poc/quantize/sgfp4_decoder.py:248-252 | That list tiles the macroblock exactly. |
| Layouts.RowMajorElements | gnus-poc/quantize/sgfp4_decoder.py:248-252 | It holds exactly the aligned squares of its size. |
| Layouts.RowMajorOrdered | gnus-poc/quantize/sgfp4_decoder.py:248-252 | They come by rows, and by columns within a row. |
| Layouts.OrderKeepsLeafOfCell | gnus-poc/quantize/fp4_exporter.py:325-330 | Reordering leaves does not change which leaf record holds a cell. |
| ExporterV2.RecordLength | gnus-poc/quantize/fp4_exporter.py:332-357 | Every v2 record is written, with a length that is a multiple of 16 between 1040 and 5136 bytes. |
| ExporterV2.RecordsFit | gnus-poc/quantize/fp4_exporter.py:325-363 | Record offsets are aligned, at least 1040 bytes apart and fit in 32 bits whenever 5136 bytes per record do; only a 32-bit overflow can fail. |
| WriterV2.WriteLeaves | gnus-poc/quantize/fp4_exporter.py:333-356 | The header and payload lists of one record, built leaf by leaf. |
| WriterV2.WriteRecord | gnus-poc/quantize/fp4_exporter.py:326-357 | The bytes of one record, or the split-map assertion that fails. |
| WriterV2.WriteStream | gnus-poc/quantize/fp4_exporter.py:321-373 | The record loop with its advancing offset, and the framing, yield the specified container. |
| WriterV2.WriteTensor | gnus-poc/quantize/fp4_exporter.py:297-373 | The whole adaptive export, macroblock by macroblock. |
| ReaderV2.WriteTile | gnus-poc/quantize/sgfp4_decoder.py:388-396 | Exactly the cells of the tile change, each to scale * code + bias of its own code. |
| ReaderV2.ReadLeaves | gnus-poc/quantize/sgfp4_decoder.py:351-397 | The leaf loop fills the macroblock with the parsed leaves, touches nothing outside it, and stops with the same error as the specification. |
| ReaderV2.ReadRecord | gnus-poc/quantize/sgfp4_decoder.py:314-397 | Same for a whole record: header, geometry, header table, padding, leaves. |
| ReaderV2.ReadRecords | gnus-poc/quantize/sgfp4_decoder.py:300-397 | Same for the record loop with its increasing offsets; earlier macroblocks stay as they are. |
| ReaderV2.ReadStream | gnus-poc/quantize/sgfp4_decoder.py:257-399 | The decoder rejects with the specified error or returns an array whose every cell is the specified value. |
| AcceptanceV2.AcceptedStream | gnus-poc/quantize/sgfp4_decoder.py:257-312 | The decoder accepts exactly the byte strings that start with the magic, version 2, one record per macroblock, seven zero bytes and a zero-padded offset table, with aligned, strictly increasing offsets to acceptable records. |
| AcceptanceV2.RecordParses | gnus-poc/quantize/sgfp4_decoder.py:314-350 | A record is acceptable exactly when its word is a layout from 0 to 5, its geometry (a valid split map for layout 4, otherwise the grid of 64, 32, 16, 8 or 4), its header table, the zero padding behind it and its leaves are. |
| AcceptanceV2.BodyParses | gnus-poc/quantize/sgfp4_decoder.py:330-397 | Leaf i of an accepted record is read where the padded payloads before it end. |
| AcceptanceV2.LeafParses | gnus-poc/quantize/sgfp4_decoder.py:351-386 | A leaf is acceptable exactly when its three reserved flags are clear and its payload is there with zero padding; it is read with the scale in the high half of its header, the bias in the low half without the low four bits, and the mode in the lowest bit. |
| RoundTripV2.RecordRoundTrip | gnus-poc/quantize/sgfp4_decoder.py:314-397 | A record written anywhere in a buffer parses to its leaves in the record's own order, with scale, truncated bias and codes of each. |
| RoundTripV2.StreamRoundTrip | gnus-poc/quantize/sgfp4_decoder.py:257-399 | For every tensor shape and every choice of quadtrees, modes, scales and payloads the decoder accepts the exported container and returns every leaf. |
| RoundTripV2.ExportFits | gnus-poc/quantize/fp4_exporter.py:321-373 | The export succeeds whenever 5136 bytes per macroblock fit in 32 bits and can only fail because an offset does not. |
| CanonicalV2.StoredDecodes | gnus-poc/quantize/sgfp4_decoder.py:314-397 | What the decoder returns for a record is what is stored in it, its binary16 patterns read as numbers. |
| CanonicalV2.RecordCanonical | gnus-poc/quantize/fp4_exporter.py:332-357 | An accepted record, anywhere in a buffer, is byte for byte what the exporter's formulas write for the leaves stored in it exactly when its layout is the one these leaves are classified as and no ternary payload uses the symbol 11. |
| CodecV2.DecodeUndoesExport | gnus-poc/quantize/fp4_exporter.py:255-373 | End to end: after any successful adaptive export of an O x I tensor the decoder accepts, and cell (r, c) is half(scale) * code + half(bias & 0xFFF0) of the weight's own code in the unique leaf the encoder chose for it. |
| CodecV2.CellInNumbers | gnus-poc/quantize/fp4_exporter.py:255-373 | In numbers: the cell is the real half(scale) * code + half(bias with its low four bits cleared) of a leaf of the cell's macroblock that contains it, the code being the one the fit of that leaf's mode gives the weight. |
| CodecV2.SuperblockIs | gnus-poc/quantize/fp4_exporter.py:275-303 | Macroblock tiles_x * i + j holds the weights from row 64 i and column 64 j on, zeros beyond the matrix. |
| CodecV2.StandardCodecRoundTrip | gnus-poc/quantize/sgfp4_decoder.py:257-399 | The same without assuming success: with the exporter's own fits, any thresholds and error function, a valid minimum block size and 5136 bytes per macroblock fitting in 32 bits, every tensor is exported and every cell decodes. |
| CodecV2.ExportTensorSucceeds | gnus-poc/quantize/fp4_exporter.py:255-373 | The adaptive export fails only for a bad minimum block size or an offset beyond 32 bits, and succeeds when 5136 bytes per macroblock fit. |
| CodecV2.StandardFitsAreProper | gnus-poc/quantize/quadtree.py:202-227 | The exporter's own fits pack exactly the codes the encoder's reconstruction error was computed from. |
| CodecV2.StandardEncoderIs | gnus-poc/quantize/fp4_exporter.py:303-310 | The encoder of the adaptive export carries the given options and the two fits of `Fit`. |
| CodecV2.TruncationMovesWeight | gnus-poc/quantize/sgfp4_decoder.py:351-396 | For any leaf and weight the decoded value is finite and within max(15/1024 of the bias, 15 * 2^-24) of its value under the untruncated bias. |
| CodecV2.TruncationMovesCell | gnus-poc/quantize/sgfp4_decoder.py:351-396 | The same of every cell of every exported tensor, as the decoder returns it. |
| CodecV1.StreamRoundTripV1 | gnus-poc/quantize/sgfp4_decoder.py:116-194 | The fixed-profile export succeeds exactly up to 2^21 macroblocks, and the decoder then finds every block. |
| CodecV1.DecodeUndoesExportV1 | gnus-poc/quantize/fp4_exporter.py:173-249 | End to end for v1, up to 2^21 macroblocks: the export succeeds, and cell (r, c) is half(scale) * code + half(bias) of the weight's own code in its block, the bias whole. |
| CodecV1.CellInNumbersV1 | gnus-poc/quantize/fp4_exporter.py:173-249 | The same as a real number: half(scale) * code + half(bias). |
| CodecV1.ChooseBlockIs | gnus-poc/quantize/fp4_exporter.py:204-217 | A block is ternary exactly when that is preferred and its root mean squared error is at most 1 + delta times that of FP4. |
| CodecV1.LayoutV1 | gnus-poc/quantize/fp4_exporter.py:219-249 | With B blocks, the header of block k stands at byte 4 k, its offset 2048 k with the mode bit at 4 B + 4 k, its payload at 8 B + 2048 k. |
| CodecV1.AcceptedStreamV1 | gnus-poc/quantize/sgfp4_decoder.py:116-194 | The v1 decoder accepts exactly the byte strings of 2056 bytes a block whose offset words have clear reserved flags and name payloads inside the string, ternary ones with zero words behind the codes; and what it reads from them. |
| LoopsV1.WriteBlocks | gnus-poc/quantize/fp4_exporter.py:197-234 | The block loop fills the header and offset tables and appends the payloads as specified. |
| LoopsV1.WriteV1 | gnus-poc/quantize/fp4_exporter.py:173-249 | The container is headers, offset words, payloads. |
| LoopsV1.ReadV1 | gnus-poc/quantize/sgfp4_decoder.py:116-194 | The decoder rejects with the specified error or fills every cell with the specified value. |
| Grammar.FunctionNamed | src/specialists/symbolic_fallback.cpp:132-146 | The seven names are recognised and no other. |
| Grammar.ParseAtSound | src/specialists/symbolic_fallback.cpp:44-163 | Whatever a level of the recursive descent reads, with its missing parentheses supplied, is derived from that level's nonterminal with the tree returned; parentheses are missing only where no operator and no `)` follows. |
| Grammar.ParseAtComplete | src/specialists/symbolic_fallback.cpp:44-163 | Every derivation is found, whatever follows it, if no operator that could continue it does: left association for + - * /, right for ^, unary minus tighter than ^. |
| Grammar.ReadsExactlySentences | src/specialists/symbolic_fallback.cpp:168-185 | A token list is read to its end as a tree with k parentheses missing exactly when the list followed by k closing parentheses is a sentence with that tree. |
| Grammar.Unambiguous | src/specialists/symbolic_fallback.cpp:44-163 | A text has at most one tree, and at most one number of closing parentheses completes it. |
| Evaluator.Parser.ParseExpr | src/specialists/symbolic_fallback.cpp:44-56 | The loop that adds while it parses returns the value of the tree of the tokens it reads, none if parsing fails or the tree has no value, and stops at the same token. |
| Evaluator.Parser.ParseTerm | src/specialists/symbolic_fallback.cpp:59-75 | Same for products and quotients; a zero divisor raises. |
| Evaluator.Parser.ParseFactor | src/specialists/symbolic_fallback.cpp:78-89 | Same for powers, recursing to the right. |
| Evaluator.Parser.ParsePrimary | src/specialists/symbolic_fallback.cpp:92-163 | Same for numbers, negations, parentheses and calls, with every error case; the four methods terminate by remaining text and level. |
| Evaluator.Evaluate | src/specialists/symbolic_fallback.cpp:168-185 | Parsing, checking for trailing text and evaluating at once is the same as parsing the tokens and then evaluating the tree. |
| Evaluator.AcceptedLanguage | src/specialists/symbolic_fallback.cpp:168-185 | A text evaluates to v exactly when the text followed by some number of `)` is a sentence of the grammar whose tree has the value v. |
| Grammar.ReadableExactly | src/specialists/symbolic_fallback.cpp:151-160 | `std::stod` reads a run of digits and dots exactly when a digit stands before its second dot. |
| Evaluator.EvalDefined | src/specialists/symbolic_fallback.cpp:67-70 | A tree has a value exactly when each of its numerals has a digit before its second dot and is in range, and no divisor is zero. |
| Evaluator.AcceptedTexts | src/specialists/symbolic_fallback.cpp:168-185 | The accepted language: a text evaluates at all exactly when, followed by some number of `)`, it is a sentence whose numerals have a digit before their second dot and are in range, and in which nothing is divided by zero. |
| TextForms.OperationsEvaluate | src/specialists/symbolic_fallback.cpp:44-163 | A text whose tree joins, negates or passes on the trees of two texts is worth the sum, difference, product, quotient (none for a zero divisor), power, negation or function of their values. |
| TextForms.SumsEvaluate | src/specialists/symbolic_fallback.cpp:43-56 | For any expression s and term t: `s+t` and `s-t` are expressions worth the sum and the difference of their values. |
| TextForms.ProductsEvaluate | src/specialists/symbolic_fallback.cpp:58-75 | For any term s and factor t: `s*t` and `s/t` are terms worth product and quotient; the quotient is missing exactly for a zero divisor or a missing operand. |
| TextForms.PowersEvaluate | src/specialists/symbolic_fallback.cpp:77-89 | For any primary s and factor t: `s^t` is a factor worth the power. |
| TextForms.PrimariesEvaluate | src/specialists/symbolic_fallback.cpp:91-121 | `(t)` is worth what t is, `-t` its negation. |
| TextForms.CallsEvaluate | src/specialists/symbolic_fallback.cpp:123-147 | The seven functions, by name, on any sentence in parentheses. |
| TextForms.NumeralsEvaluate | src/specialists/symbolic_fallback.cpp:151-160 | A run of digits and dots is worth its rounded decimal, and nothing without a digit before its second dot. |
| TextForms.Conventions | src/specialists/symbolic_fallback.cpp:43-163 | `s-t-w` goes from left to right, `s^t^w` from right to left, `s+t*w` multiplies first and `-s^t` negates first. |
| Grammar.DecimalIs | src/specialists/symbolic_fallback.cpp:151-160 | A numeral with f fraction digits, multiplied by ten f times, is the number of its digits without the dot; what a second dot starts is ignored. |
| Rendering.RenderIs | src/specialists/symbolic_fallback.cpp:43-163 | A tree rendered for a level is derived from that level's nonterminal with the same tree. |
| Rendering.RenderIsShortest | src/specialists/symbolic_fallback.cpp:43-163 | No derivation of the tree at that level has fewer tokens, so only needed parentheses are written. |
| Rendering.LexOfSpelling | src/specialists/symbolic_fallback.cpp:21-27 | Any white space around and between separable tokens reads back as the tokens. |
| Rendering.SentencesEvaluate | src/specialists/symbolic_fallback.cpp:168-185 | Any sentence, redundant parentheses included and spaced in any way, evaluates to its tree's direct value. |
| Rendering.RenderedEvaluates | src/specialists/symbolic_fallback.cpp:168-185 | Evaluating a rendered tree, spaced in any way, gives the tree's direct value, and no value exactly when the tree has none. |
| Text.RFind | src/security/message_signing.cpp:185 | The result is the last position where the pattern stands, and none exactly when it stands nowhere. |
| Text.FindsFirst | src/security/message_signing.cpp:191 | A forward search returns the first position with one of the characters, and none exactly when there is none. |
| Text.HexRoundTrip | src/security/message_signing.cpp:27-45 | Hexadecimal text reads back as the bytes it was made from. |
| Text.HexNotation | src/security/message_signing.cpp:27-45 | Byte i is written as two of the digits 0-9a-f, the high one first, and both cases are read. |
| Text.HexPairForms | src/security/message_signing.cpp:37-45 | What a pair that is not two digits is read as, and which pairs throw. |
| Text.WriteHex | src/security/message_signing.cpp:27-35 | The appending loop writes two digits per byte. |
| Text.ReadHex | src/security/message_signing.cpp:37-45 | The loop over character pairs returns the bytes, or throws exactly when some complete pair is no number. |
| Text.StoullOfNatToString | src/security/message_signing.cpp:157-217 | A printed 64-bit number reads back, whatever non-digit follows. |
| Text.StoullForms | src/security/message_signing.cpp:211-221 | White space and a plus in front do not matter, a minus negates modulo 2^64, a value beyond 64 bits throws. |
| Text.SpacesAre | src/security/message_signing.cpp:215 | The six characters of white space. |
| Text.DecimalNotation | src/security/message_signing.cpp:157 | Decimal text: each further digit multiplies by ten, and no leading zero is written. |
| MessageSigning.AttachSignature | src/security/message_signing.cpp:145-177 | The in-place edits produce the payload with nonce, time and signature fields, or the payload itself. |
| MessageSigning.SignedTextHolds | src/security/message_signing.cpp:145-160 | For a payload ending in a brace, what stands between the last nonce marker of the signed text and the next quote reads as exactly the nonce, the number behind the ts marker as the time, and the rest is the payload. |
| MessageSigning.SignedTextsDiffer | src/security/message_signing.cpp:145-160 | So no two different messages, nonces or times are signed as the same text. |
| MessageSigning.AttachedHolds | src/security/message_signing.cpp:162-177 | What is sent is the signed text with a last sig field that reads as the signature; the payload itself when signing fails or it ends in no brace. |
| MessageSigning.Message.Strip | src/security/message_signing.cpp:182-261 | The in-place verification has the specified verdict and leaves the specified text. |
| MessageSigning.VerifyAndStrip | src/security/message_signing.cpp:182-261 | A message that is not accepted is left as it was; an accepted one gets shorter. |
| MessageSigning.VerifyAndStripUndoesAttach | src/security/message_signing.cpp:182-261 | With a matching key pair the receiver accepts and gets the original payload back exactly when the payload ended in a brace, the signer could sign it and it arrives in the window, even if it contains any of the three markers. |
| MessageSigning.RoundTrip | src/security/message_signing.cpp:224-260 | Outside the window the same message is rejected and left as it was. |
| MessageSigning.AcceptedExactly | src/security/message_signing.cpp:184-238 | Any text whatsoever is accepted exactly when its 33-byte key accepts everything before the last sig field, closed by a brace, with the bytes of that field, and that text carries a time inside the window. |
| MessageSigning.TailIsDelivered | src/security/message_signing.cpp:203-260 | The signature covers what stands before its field: any text without a comma behind the closing quote gets the verdict of the single brace a sender writes there, and on acceptance is delivered as it came behind the stripped fields. |
| MessageSigning.WindowMeaning | src/security/message_signing.cpp:224-231 | The wrapped and re-signed 64-bit age is in range exactly when the message is at most 30 seconds old and not from the future, or the clock has wrapped. |
| MessageSigning.UnfinishedFields | src/security/message_signing.cpp:240-260 | Nothing is cut without a marker; a field without an end is cut to the end of the text, except for a nonce marker at position 0. |
| ReputationCrdt.Store.MergeRecord | src/reputation/reputation_crdt.cpp:26-44 | The map gains the record or keeps the newer one; keys stay those of their records. |
| ReputationCrdt.ReplicaHoldsFirst | src/reputation/reputation_crdt.cpp:26-44 | What a replica holds, exactly: for each delivered key the first delivered record among those with the key's latest time. |
| ReputationCrdt.ReplicaHoldsLatest | src/reputation/reputation_crdt.cpp:26-44 | After any deliveries, in any order and with any duplication, a replica holds for exactly the delivered keys a record with the latest time. |
| ReputationCrdt.Convergence | src/reputation/reputation_crdt.cpp:26-44 | All orders and duplications of a set of records lead to the same state exactly when every key has a single record with its latest time. |
| ReputationCrdt.DistinctTimesConverge | src/reputation/reputation_crdt.cpp:26-44 | In particular when no two distinct records share a key and a time. |
| ReputationCrdt.ExchangingStates | src/reputation/reputation_crdt.cpp:63-73 | Receiving only the records another replica holds leads to the very state of having received everything it ever received, in its order, ties for the latest time included. |
| ReputationCrdt.StaleRecordsChangeNothing | src/reputation/reputation_crdt.cpp:26-44 | Merging records changes nothing exactly when each is for a held key and not newer than the held record. |
| ReputationCrdt.Store.Serialize | src/reputation/reputation_crdt.cpp:78-89 | The loop over the table, in whatever order, writes every entry's line exactly once. |
| ReputationCrdt.ReadRecord | src/reputation/reputation_crdt.cpp:104-121 | Reading the eight fields one by one gives the specified record, or none at the first field that throws. |
| ReputationCrdt.Store.DeserializeAndMerge | src/reputation/reputation_crdt.cpp:94-129 | The line loop merges every readable line and skips the others. |
| ReputationCrdt.ParseLineOfFields | src/reputation/reputation_crdt.cpp:104-121 | Any line whatsoever is read as the parts between its commas: the first eight, the last one repeated if there are fewer. |
| ReputationCrdt.ParseLineOfLine | src/reputation/reputation_crdt.cpp:84-121 | The line of a record reads back as the first eight of the parts of its key and its seven printed fields, whatever commas the key holds. |
| ReputationCrdt.LineIs | src/reputation/reputation_crdt.cpp:78-89 | The line of a record: key, five scores, task count and time, in this order, with commas between. |
| ReputationCrdt.EightFields | src/reputation/reputation_crdt.cpp:104-121 | A line of eight parts or more yields the record of its first eight, in that order, exactly when all numbers read. |
| ReputationCrdt.LinesEnd | src/reputation/reputation_crdt.cpp:94-103 | A last line needs no line break, and a final line break starts no further line. |
| ReputationCrdt.ReceivedWithCleanKey | src/reputation/reputation_crdt.cpp:84-121 | Without a comma in the key that is the record itself, its scores as their printed form reads. |
| ReputationCrdt.ReceivedWithOneComma | src/reputation/reputation_crdt.cpp:84-121 | With one comma the fields shift by one: the key's second half is read as a score, a score as the task count, the task count as the time. |
| ReputationCrdt.DeserializeUndoesSerialize | src/reputation/reputation_crdt.cpp:78-129 | Sending a state as text merges exactly its records, as they arrive, in iteration order, for keys free of line breaks. |
| ReputationCrdt.TextChangesNothing | src/reputation/reputation_crdt.cpp:94-129 | Receiving any text changes nothing exactly when none of its lines delivers a newer record. |
| ReputationCrdt.SerializedChangesNothing | src/reputation/reputation_crdt.cpp:78-129 | For any keys, commas and line breaks included: a serialized state changes nothing exactly when no part of an entry's line between line breaks delivers a newer record. |
| ReputationCrdt.OwnStateExactly | src/reputation/reputation_crdt.cpp:78-129 | Merging back one's own serialized state, keys free of line breaks, changes nothing exactly when what arrives of each entry is unreadable or stale under the key it arrives with. |
| ReputationCrdt.OwnStateChangesNothing | src/reputation/reputation_crdt.cpp:78-129 | Merging back one's own serialized state changes nothing for keys free of commas and line breaks, although scores lose digits. |
| ReputationCrdt.CommaInKeyExactly | src/reputation/reputation_crdt.cpp:104-122 | Among clean keys, a key with one comma leaves the state as it is exactly when its second half is no number, a score does not read back (or is no count), or its first half is already held with a time at least the entry's task count. |
| ReputationCrdt.CommaInKeyAddsEntry | src/reputation/reputation_crdt.cpp:104-122 | Otherwise an entry under the key's first half is added, or an older one there is overwritten. |
| ReputationCrdt.CommaDoesHarm | src/reputation/reputation_crdt.cpp:104-122 | Such a state exists: a single entry under the key `a,1` with all scores 1 and task count 7 is changed by its own text. |
| Lcs.LcsLength | gnus-poc/eval/evaluator.py:147-160 | The two-row table returns the greatest length of a common subsequence, for word lists of any length. |
| Lcs.LengthIsMaximum | gnus-poc/eval/evaluator.py:147-160 | The recurrence is attained by a common subsequence and exceeded by none. |
| Lcs.RougeFormula | gnus-poc/eval/evaluator.py:135-145 | The score is twice the common length over the total number of words. |
| Lcs.RougeProperties | gnus-poc/eval/evaluator.py:135-145 | The score is symmetric, lies in [0, 1] and is 1 exactly for equal non-empty word lists. |
| TeacherCircuit.InitiallyConsistent | gnus-poc/distill/teacher.py:351-381 | A new client satisfies the invariant exactly when the threshold is at least 1. |
| TeacherCircuit.RetryConsistent | gnus-poc/distill/teacher.py:444-490 | The retry loop keeps the invariant up to the counter reset, sends one request while probing and otherwise no more than the failures still tolerated. |
| TeacherCircuit.GenerateConsistent | gnus-poc/distill/teacher.py:411-516 | Every call keeps: open exactly when the failures reached the threshold, open exactly when an opening time is set, half-open only while open. A blocked call sends nothing. |
| TeacherCircuit.Probe | gnus-poc/distill/teacher.py:452-474 | A half-open probe sends exactly one request; a failure restarts the timer, a success closes the circuit and clears the counter. |
| TeacherCircuit.GatedCalls | gnus-poc/distill/teacher.py:430-440 | A blocked call, one without budget and one for an unknown backend send nothing; the first that applies is reported, and only an overdue timeout changes the breaker, to half open. |
| TeacherCircuit.ClosedCall | gnus-poc/distill/teacher.py:442-490 | On a closed breaker, after n failures in a row: a success clears the counter, an error not to be retried keeps it, the failure reaching the threshold opens the breaker at its moment, and running out of retries leaves it closed; with the requests sent in each case. |
| TeacherCircuit.RetryRequests | gnus-poc/distill/teacher.py:444-488 | Every request of a call is sent with the breaker open, half open and since when it was before the loop: none follows an opening or a closing inside the call. |
| TeacherCircuit.RunIsSafe | gnus-poc/distill/teacher.py:371-381 | Over any run of calls the invariant holds, and at the moment any request is sent the breaker is closed, or half open with its recovery timeout over. |
| TeacherCircuit.OutageLoad | gnus-poc/distill/teacher.py:465-484 | During an outage the failure count equals the requests sent, and one full recovery timeout for each request beyond the threshold adds up to no more than the outage lasts. |
| TeacherCircuit.TeacherClient.Check | gnus-poc/distill/teacher.py:351-381 | The gate's field updates are those of the specification. |
| TeacherCircuit.TeacherClient.Call | gnus-poc/distill/teacher.py:411-490 | The retry loop over the client's fields has the specified outcome, request count and state. |
| TeacherCircuit.TeacherClient.GenerateAnswer | gnus-poc/distill/teacher.py:496-523 | The public call, with its counter reset, keeps the invariant on the client's fields. |

## Left out

- float32 rounding: weights, fits and errors are real numbers, so the optimality of the fits is exact.
- Conversion to binary16: a parameter that maps the clipped range to finite 16-bit patterns.
- The Laplacian-weighted error, built on a Gaussian filter of a library: any non-negative function of region, reconstruction and size.
- The sixteen logarithmically spaced multipliers: any non-empty list of positive numbers.
- Shape, type and NaN checks on tensors: the model's matrices are total functions with explicit bounds.
- A numpy assignment of an offset beyond 32 bits: modelled as an error result.
- The final crop of the decoded tensor: the decoder's method returns the padded array and speaks about its O x I corner.
- Files, manifests, checksums, statistics and the command line of the exporter.
- Splitting and lowercasing of text before ROUGE-L: the word lists are inputs.
- The real arithmetic of `double`, `pow`, `sqrt` and the trigonometric functions: an algebra with arbitrary operations. A numeral is an exact decimal, and its rounding is arbitrary and may be refused as out of range.
- Messages of exceptions in the evaluator: all of them end in the same missing result.
- Finding expressions inside prose and formatting results, next to the evaluator.
- secp256k1, SHA-256 and key files: a scheme whose public key accepts its own signatures; nothing is claimed about signatures of others.
- Locks: the reputation store's methods run one at a time.
- Survival of scores in the store's text form: default printing keeps six digits.
- Costs, budget files, logs and waiting times of the teacher client: the budget gate is an input of each call, the clock a non-decreasing input.
- The teacher cascade, routing rules, training pipeline, network, storage and model runtime.
