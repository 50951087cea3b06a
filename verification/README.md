# Verification model of STDFS

STDFS holds an LCD demo with the JPEG decompressor of the Independent JPEG Group, a small
file system for the Linux kernel (lkfs), a review copy of the ext4 multi-block allocator, and
a number printer and parser.  This project models the parts of them whose correctness rests
on invariants, and proves what they are for.  `dafny verify dfyconfig.toml` checks everything.

Objects that the C code updates in place are classes and arrays here, loops are loops, and
every method is proved against a function or predicate of its inputs and the old state.

## What is modelled

**Entropy decoding** (`BitStrings`, `HuffmanCode`, `HuffmanTable`, `EntropyStream`,
`BitReader`, `SequentialDecoder`, `Coefficients`, `Refinement`, `ProgressiveDecoder`), **and the
encoding it inverts** (`EntropyWriter`, `HuffmanEncoder`, `SequentialEncoder`, `SequentialScan`,
`RefinementEncoder`, `RefinementScan`).  A data
stream is a sequence of bytes of which a growing prefix has been delivered.  Its meaning is a
function of the bytes alone: `Segment` bits up to the next marker, codes of the canonical
Huffman code, coefficients of an MCU.  The bit reservoir, the lookahead table, byte
un-stuffing, dummy zeros at a marker, the search for restart markers and every suspension are
modelled step by step, and shown to come to that function.

- Decoding inverts encoding.  `SequentialEncoder` codes blocks as section F.1.2 of ITU-T T.81 asks,
  `RefinementEncoder` codes the refinement of blocks as section G.1.2.3 asks, with end-of-band runs
  of any choice; bytes are stuffed and segments closed by restart markers.  Whatever the blocks,
  the decoder gives them back, over any cut of the stream into deliveries (`SequentialScan` and
  `RefinementScan`, `DecodeEncodedScan`).
- When one or two restart markers are lost, or one comes again, the decoder is in step behind the
  next marker (`LostMarker`, `LostMarkers`, `StaleMarker`).
- Decoding is independent of how the input arrives, for one MCU or block and for whole scans:
  a list of deliveries may cut the stream anywhere.  A call fails with all input delivered only
  if no marker closes the segment it needs (`Closed`).
- AC refinement can be retried without any condition on the coefficients.  Corrected
  coefficients are guarded by the test of the bit just added, and new ones are taken back.  A
  new coefficient past the end of the band is written only as the last action of a block, so
  nothing is ever taken back there.  That non-zero coefficients are multiples of twice the
  weight of the bit is needed only for the correction to raise the magnitude, as section
  G.1.2.3 of ITU-T T.81 asks; every scan leaves what the next one needs (`RefineScaled`).

**Colour quantization** (`ColorSpace`, `InverseColormap`, `MedianCut`, `TwoPassQuantizer`,
`OrthogonalColormap`, `ErrorDiffusion`).  The two-pass quantizer: histogram, median cut, mean
colours, and the pruned, incremental, cached search for the nearest entry.  The one-pass
quantizer: choice of the numbers of values, mixed-radix colormap and colour index, and the
Floyd-Steinberg dither with one error row and three registers.

- The 32-bit `long` of `compute_color` cannot overflow for boxes of at most 8438049 pixels,
  and for boxes of brightest green it does so exactly above that number (`ComputeColor`,
  `PixelLimitIsSharp`; `BrightHistogram` is such a histogram).
- The dither follows the rule of Floyd and Steinberg, stated for all columns of a row at once
  (`FloydSteinberg`), and loses no error but by rounding and at the ends of the sample range
  (`ErrorConserved`).
- `select_ncolors` fails exactly if two values per component are already too many.

**Context rows** (`Arithmetic`, `ContextRows`, `MainController`).  The main buffer controller
with its two lists of row pointers into one workspace.  Every row group is handed over once and
in order; the rows next to it are the true ones.  One view differs from the image repeated at
its edges: the last row group before the last iMCU row, when the image ends within the row
group below it, has padding below its nearest neighbour (`PaddingInView`, with a witness).

**Virtual arrays** (`VirtualArray`).  The window of the memory manager over its backing store
refines a plain array of rows, over all sequences of operations.

**Upsampling** (`Upsampling`, `UpsamplerMerged`, `UpsamplerSeparate`, `UpsamplingEquivalence`).
Merged upsampling and colour conversion against replication followed by conversion, for all
sizes, odd ones included, and all sequences of requests of at least one row.  Every pixel delivered
is the one the conversion equations of JFIF give (`PixelConverted`).  On a request without
room `merged_2v_upsample` returns the spare row all the same, past the limit, and if there is none,
the row that would have been next is only in the spare row and is lost.

**Geometry and the coefficient controller** (`McuGeometry`, `OnePass`, `MultiScan`).
The sizes computed by `initial_setup` and `per_scan_setup`; the single-pass controller,
which sends each wanted block exactly once to its own place; and the buffered
controller, whose output never overtakes its input.

**lkfs** (`BlockMap`, `Lkfs`, `DirFormat`, `Directory.dfy`).  The pointer tree of a file with
the block bitmap and free counter, truncation, and directories as chains of variable-length
records.

- Truncating a file gives back exactly its blocks if and only if none of the pointers it visits
  beyond the direct ones is empty (`NoHole`); else the code also clears bit 0 of the bitmap.  For
  a file without holes this means that its number of blocks is not 21 and not 277 + 256 k
  (`WellCut`).
- `lkfs_new_blocks` compares with `>`, so on a full disk it gives out the number after the last
  block if that bit exists and is clear (`NewBlock`).  When blocks run out, `lkfs_get_blocks`
  reports success with block 0, except in the direct range, and clears block 0 if a pointer block
  could not be had (`GetBlocks`).
- A look-up finds a name if and only if its record lies before `Searched()`, that is on the
  first `i_blocks / 8 + 1` pages.  Every change of a directory sets `i_blocks` so that this is
  everything.  The root directory as read from disk has `i_blocks` 2 (lkfs/inode.c:428), so only
  its first page is searched; `RootLosesNames` shows a name that is there and is not found.
- `lkfs_add_link` refuses a name that is there exactly if it meets its record before a place with
  room for the new one, and otherwise adds the name a second time.

**Buddy bitmaps** (`Buddy`, `BuddyGenerator`).  `ext4_mb_generate_buddy` computes the canonical
decomposition of the free blocks into aligned chunks of powers of two.  The border is 16 bits wide,
so for blocks of 32 KB and more it is zero, and a run of several free blocks at block 0 gets order
-1; these are exactly the groups the code does not handle (`Generable`, `LargeBlocks`).

**Number text** (`NumberText`).  `xitoa` and `xatoi` with 32-bit arithmetic.  Plain and
space-padded decimal output reads back for every 32-bit value, the most negative one included,
because both conversions wrap around.  Zero-padded decimal output is taken for octal and reads
back only without padding or for 0 to 7.  Hexadecimal output after `0x` reads back with zeros
for padding; with spaces the parser reads zero.  The parser takes the six characters behind `9` in
ASCII for the digits 10 to 15 (`HexCharacters`).

## Model

| member | source | states |
|---|---|---|
| HuffmanCode.Spec.PrefixFree | lcd-demo/uCGUI/JPEG/jdhuff.c:148-266 | for every table the routine accepts, a code that is the beginning of another code belongs to the same symbol |
| HuffmanCode.Spec.NotAllOnes | lcd-demo/uCGUI/JPEG/jdhuff.c:193-212 | no code of an accepted table consists of ones only |
| HuffmanCode.Spec.LegalIsKraft | lcd-demo/uCGUI/JPEG/jdhuff.c:181-212 | the tables accepted are those whose counts satisfy the inequality of Kraft at every length, with the code of all ones left over |
| HuffmanCode.Spec.FirstCode | lcd-demo/uCGUI/JPEG/jdhuff.c:193-212 | the first code is all zeros |
| HuffmanCode.Spec.NextCode | lcd-demo/uCGUI/JPEG/jdhuff.c:193-212 | each further code is the one before plus one, with zeros appended if it is longer |
| HuffmanCode.Spec.LengthOf | lcd-demo/uCGUI/JPEG/jdhuff.c:181-212 | every symbol of an accepted table has a code of one of the sixteen lengths |
| HuffmanCode.Spec.AnyLegalStart | lcd-demo/uCGUI/JPEG/jdhuff.c:397-433 | beginning the bit-serial search at any length no longer than the code gives the same symbol and length |
| HuffmanCode.Spec.MatchDecodes | lcd-demo/uCGUI/JPEG/jdhuff.c:397-433 | a code found at a position of any bit string is what is decoded there, whatever follows |
| HuffmanCode.Spec.NoMatchFails | lcd-demo/uCGUI/JPEG/jdhuff.c:424-433 | the search ends in the sentinel at length 17 exactly if no code fits the bits |
| HuffmanCode.Spec.LookaheadAgrees | lcd-demo/uCGUI/JPEG/jdhuff.h:168-188 | on every bit string the lookahead entry gives the symbol and length of the bit-serial search, or sends it to length 9, which is then a legal start |
| HuffmanCode.Spec.RoundTrip | lcd-demo/uCGUI/JPEG/jdhuff.c:148-266 | decoding an encoded sequence of symbols, in any surroundings, returns these symbols and uses exactly their bits |
| HuffmanTable.MakeSizes | lcd-demo/uCGUI/JPEG/jdhuff.c:181-191 | succeeds exactly if there are at most 256 symbols; the sizes list each length as often as it is counted |
| HuffmanTable.MakeCodes | lcd-demo/uCGUI/JPEG/jdhuff.c:193-212 | succeeds exactly if at every length the codes fit below the all-ones one; the codes are those of Annex C of ITU-T T.81 |
| HuffmanTable.MakeSequential | lcd-demo/uCGUI/JPEG/jdhuff.c:212-227 | maxcode and valoffset for each length agree with first code, last code and first symbol of that length |
| HuffmanTable.MakeLookahead | lcd-demo/uCGUI/JPEG/jdhuff.c:229-251 | each of the 256 entries holds symbol and length of the code its byte begins with, or none |
| HuffmanTable.MakeDerivedTable | lcd-demo/uCGUI/JPEG/jdhuff.c:148-266 | accepts exactly the legal trees, with symbols up to 15 for DC, and leaves a fully derived table |
| EntropyStream.UnitPrefix | lcd-demo/uCGUI/JPEG/jdhuff.c:318-347 | a data byte or marker read from the delivered bytes is that of the whole stream, so more input never changes it |
| BitReader.StuffZeros | lcd-demo/uCGUI/JPEG/jdhuff.c:357-378 | dummy zeros at a marker extend the segment without moving any of its bits |
| BitStrings.LeadingBitWeighs | lcd-demo/uCGUI/JPEG/jdhuff.h:136-140 | of the bits read as a number, the first weighs most |
| BitReader.Reader.FetchUnit | lcd-demo/uCGUI/JPEG/jdhuff.c:318-347 | past stuffing and fill bytes the next data byte or marker of the whole stream is fetched, or the delivered bytes are too short |
| BitReader.Reader.FillBitBuffer | lcd-demo/uCGUI/JPEG/jdhuff.c:291-389 | the buffer holds at least the bits asked for, still the bits of the segment at the same place; zeros are added, and the warning set, only when bits are needed beyond the end of the segment |
| BitReader.Reader.GetBits | lcd-demo/uCGUI/JPEG/jdhuff.h:130-146 | the value of the next n bits of the padded segment; nothing is lost on failure |
| BitReader.Reader.HuffDecodeSlow | lcd-demo/uCGUI/JPEG/jdhuff.c:397-433 | symbol and length of the search from the given legal minimum length |
| BitReader.Reader.HuffDecode | lcd-demo/uCGUI/JPEG/jdhuff.h:168-188 | symbol and length of the canonical code at this place, on either path |
| BitReader.Reader.NextMarker | lcd-demo/uCGUI/JPEG/jdmarker.c:873-917 | finds the first marker from the position; a call without enough input leaves the same first marker ahead, and fails with everything delivered only if there is none |
| BitReader.Reader.ResyncToRestart | lcd-demo/uCGUI/JPEG/jdmarker.c:1191-1234 | resynchronises as the stream alone determines, however often it is suspended |
| BitReader.ActionIs | lcd-demo/uCGUI/JPEG/jdmarker.c:1200-1214 | what is done with a marker depends on how far it is ahead of the one expected, modulo 8 |
| BitReader.LostMarker | lcd-demo/uCGUI/JPEG/jdmarker.c:1112-1234 | if one restart marker is lost, one segment is empty and the decoder is in step behind the next marker |
| BitReader.LostMarkers | lcd-demo/uCGUI/JPEG/jdmarker.c:1112-1234 | the same with two empty segments if two are lost |
| BitReader.StaleMarker | lcd-demo/uCGUI/JPEG/jdmarker.c:1112-1234 | a marker one or two behind is passed, and the search goes on to the one expected |
| BitReader.Reader.ReadRestartMarker | lcd-demo/uCGUI/JPEG/jdmarker.c:1112-1139 | ends where the whole stream says, with the next expected number; a suspended call changes neither that place nor the number |
| BitReader.Reader.Restart | lcd-demo/uCGUI/JPEG/jdhuff.c:467-498 | comes to the segment after the restart marker, as a function of the stream and the old segment |
| SequentialDecoder.RetryIsHarmless | lcd-demo/uCGUI/JPEG/jdhuff.c:534-626 | repeating the assignments of an MCU from the start wipes out what an abandoned attempt assigned |
| SequentialDecoder.HuffDecoder.DecodeMcu | lcd-demo/uCGUI/JPEG/jdhuff.c:516-627 | success carries out exactly the assignments and new state the stream determines; failure makes some first assignments of them, leaves predictions and bit state as they were once restart handling is done, and happens with everything delivered only if no marker closes the segment |
| SequentialDecoder.HuffDecoder.DecodeMcuInPieces | lcd-demo/uCGUI/JPEG/jdhuff.c:516-627 | over any list of deliveries the block ends as after one call with all input, in state and contents |
| SequentialDecoder.HuffDecoder.DecodeMcusInPieces | lcd-demo/uCGUI/JPEG/jdhuff.c:516-627 | over any list of deliveries cut anywhere in n MCUs, the MCUs and the state are those of the stream alone; it stops short only where a segment is not closed |
| Coefficients.OrderInverts | lcd-demo/uCGUI/JPEG/jutils.c:53-64 | the first 64 entries invert the zigzag numbering, and the sixteen safety entries are all 63 |
| Coefficients.NumberInverts | lcd-demo/uCGUI/JPEG/jutils.c:53-64 | the zigzag numbering inverts the table |
| Coefficients.ZigZagWalk | lcd-demo/uCGUI/JPEG/jutils.c:37-64 | the table is the zigzag walk: diagonal by diagonal, up and down in turn, the second half mirroring the first |
| Coefficients.ExtendInverts | lcd-demo/uCGUI/JPEG/jdhuff.c:443-457 | extending the sign of the magnitude bits of a value gives the value, for every value of up to fifteen bits |
| EntropyWriter.SegmentReads | lcd-demo/uCGUI/JPEG/jdhuff.c:300-380 | packed and stuffed bits are read back, up to the marker behind them and past its fill bytes |
| SequentialEncoder.AcRoundTrip | lcd-demo/uCGUI/JPEG/jdhuff.c:558-604 | from the encoding of the coefficients from k on, exactly these coefficients are stored and exactly its bits used |
| SequentialEncoder.BlockRoundTrip | lcd-demo/uCGUI/JPEG/jdhuff.c:540-604 | from the encoding of a block, exactly its coefficients are stored, and the new prediction is its DC coefficient |
| SequentialEncoder.McuRoundTrip | lcd-demo/uCGUI/JPEG/jdhuff.c:499-619 | from the encoding of an MCU, each block is stored in its place, whatever bits follow |
| SequentialScan.ScanRoundTrip | lcd-demo/uCGUI/JPEG/jdhuff.c:458-619 | decoding an encoded scan, restart markers included, gives every block that was encoded |
| SequentialScan.DecodeEncodedScan | lcd-demo/uCGUI/JPEG/jdhuff.c:458-619 | the decoder delivers the blocks that were encoded over any cut of the stream, and comes to the end once everything has arrived |
| Refinement.CorrectIdempotent | lcd-demo/uCGUI/JPEG/jdphuff.c:564-578 | the guarded correction applied twice equals once and leaves a non-zero coefficient non-zero, in 16 bits, for every Al up to 13 |
| Refinement.CorrectionRaisesMagnitude | lcd-demo/uCGUI/JPEG/jdphuff.c:564-578 | on a multiple of 2^(Al+1) in range the correction adds the bit weight to the magnitude |
| Refinement.RefineKeeps | lcd-demo/uCGUI/JPEG/jdphuff.c:490-633 | corrections of a block touch only non-zero coefficients of the band |
| Refinement.RefineRetry | lcd-demo/uCGUI/JPEG/jdphuff.c:490-633 | refining what an abandoned attempt has left gives the same corrections, new coefficients, bit position and end-of-band run as one uninterrupted attempt |
| Refinement.RefineScaled | lcd-demo/uCGUI/JPEG/jdphuff.c:490-633 | a scan at Al on multiples of 2^(Al+1) leaves multiples of 2^Al, what the next scan presupposes |
| Refinement.RunCovers | lcd-demo/uCGUI/JPEG/jdphuff.c:593-614 | in a block covered by an end-of-band run nothing becomes non-zero, one bit is read for each coefficient of the band that is not zero, and the run gets shorter by one |
| ProgressiveDecoder.Undo | lcd-demo/uCGUI/JPEG/jdphuff.c:627-632 | the block is again what the corrections alone made of it |
| ProgressiveDecoder.RefineBlock | lcd-demo/uCGUI/JPEG/jdphuff.c:514-626 | the corrections and new coefficients of one block are those of the specification, or the block is left partly corrected and otherwise unchanged |
| ProgressiveDecoder.RefineDecoder.DecodeMcu | lcd-demo/uCGUI/JPEG/jdphuff.c:490-633 | success yields the block and state the stream determines; after failure zero coefficients are zero, a retry still comes to that same block and state, and with everything delivered a segment is not closed; in a block covered by an end-of-band run the run gets shorter by one, and one bit is used for each coefficient of the band that is not zero |
| ProgressiveDecoder.RefineDecoder.DecodeMcuInPieces | lcd-demo/uCGUI/JPEG/jdphuff.c:490-633 | over any list of deliveries the block and state are those of one uninterrupted call |
| ProgressiveDecoder.RefineDecoder.RefineBlocksInPieces | lcd-demo/uCGUI/JPEG/jdphuff.c:490-633 | over any list of deliveries cut anywhere in a list of blocks, the refined blocks and the state are those of the stream alone |
| RefinementEncoder.BlockReads | lcd-demo/uCGUI/JPEG/jdphuff.c:477-614 | from the encoding of the refinement of a block exactly the refined block comes out, exactly its bits are used, and the end-of-band run left is the one encoded |
| RefinementScan.ScanRoundTrip | lcd-demo/uCGUI/JPEG/jdphuff.c:477-634 | decoding an encoded refinement scan, with end-of-band runs and restart markers, gives every refined block |
| RefinementScan.DecodeEncodedScan | lcd-demo/uCGUI/JPEG/jdphuff.c:477-634 | the decoder refines the blocks as they were encoded over any cut of the stream, and comes to the end once everything has arrived |
| InverseColormap.AxisDist | lcd-demo/uCGUI/JPEG/jquant2.c:686-759 | bounds on the scaled squared distance to all points of a range, the upper one attained |
| ColorSpace.DistScaled | lcd-demo/uCGUI/JPEG/jquant2.c:700-770 | the distance is the one of Euclid with the axes scaled by 2, 3 and 1 |
| ColorSpace.CellOfCentre | lcd-demo/uCGUI/JPEG/jquant2.c:700-936 | a pixel is in a cell exactly if it lies within half the size of the cell from its centre, and then its distance from the centre is at most 116 |
| InverseColormap.PruningSafe | lcd-demo/uCGUI/JPEG/jquant2.c:761-771 | no entry nearest, or tied for nearest, to some point of the box lies beyond the pruning bound |
| InverseColormap.FindNearbyColors | lcd-demo/uCGUI/JPEG/jquant2.c:646-772 | in ascending order, the list keeps every entry that is nearest, or tied for nearest, to some point of the update box |
| InverseColormap.AxisTermStep | lcd-demo/uCGUI/JPEG/jquant2.c:798-812 | the increment from cell to cell is the difference of true scaled squares |
| InverseColormap.FindBestColors | lcd-demo/uCGUI/JPEG/jquant2.c:775-852 | each of the 128 cells gets the first entry of the list at least distance from its centre |
| InverseColormap.BestInListIsNearest | lcd-demo/uCGUI/JPEG/jquant2.c:855-908 | searching the kept candidates finds the lowest-index nearest entry of the whole colormap |
| InverseColormap.FillInverseCmap | lcd-demo/uCGUI/JPEG/jquant2.c:855-908 | every filled cell of the cache holds the lowest-index nearest entry for its centre, and the cell asked for is filled |
| TwoPassQuantizer.Quantizer.StartPass | lcd-demo/uCGUI/JPEG/jquant2.c:1168-1224 | refuses the second pass exactly if the number of colours is below 1 or above 256; cells are zero when counting or caching begins |
| TwoPassQuantizer.Quantizer.PrescanQuantize | lcd-demo/uCGUI/JPEG/jquant2.c:222-248 | each cell has counted the pixels whose components lie in it, sticking at 65535 |
| TwoPassQuantizer.Quantizer.FinishPass1 | lcd-demo/uCGUI/JPEG/jquant2.c:1143-1153 | the colormap has the rounded mean colour of each box of the cut of the cells in use |
| TwoPassQuantizer.Quantizer.Pass2NoDither | lcd-demo/uCGUI/JPEG/jquant2.c:915-944 | every pixel gets the lowest-index entry nearest the centre of the cell in which its components lie |
| TwoPassQuantizer.Quantizer.NewColorMap | lcd-demo/uCGUI/JPEG/jquant2.c:1231-1238 | after a change of the colormap the cached cells are marked to be zeroed, so none of the old answers is used |
| MedianCut.UpdateBox | lcd-demo/uCGUI/JPEG/jquant2.c:313-421 | the box shrinks to its occupied part: no occupied cell is lost, every face holds one, and volume and count are recomputed |
| MedianCut.SplitBox | lcd-demo/uCGUI/JPEG/jquant2.c:450-487 | the box is cut in the middle of its longest scaled axis, ties for green, then red; both halves are occupied, disjoint and together hold its cells |
| MedianCut.FindBiggestColorPop | lcd-demo/uCGUI/JPEG/jquant2.c:273-290 | the box with most occupied cells among those that can be split, the first of equals, or none if none can be split |
| MedianCut.FindBiggestVolume | lcd-demo/uCGUI/JPEG/jquant2.c:293-310 | the box of largest volume, the first of equals, or none if all are single cells |
| MedianCut.MedianCut | lcd-demo/uCGUI/JPEG/jquant2.c:424-496 | the boxes stay a partition of the occupied cells into shrunk, disjoint, occupied boxes; they come about by rounds that halve the most populous, later the largest, box along its longest axis; the desired number is reached or no box can be split |
| MedianCut.CutOnce | lcd-demo/uCGUI/JPEG/jquant2.c:424-567 | the boxes are determined by the cells in use and the desired number: two cuts are the same list |
| MedianCut.CountsAddUp | lcd-demo/uCGUI/JPEG/jquant2.c:405-421 | the counts of disjoint boxes add up to the number of their cells |
| MedianCut.NormIsDiagonal | lcd-demo/uCGUI/JPEG/jquant2.c:400-408 | the measure of volume is the squared distance between opposite corners |
| MedianCut.PixelCounts | lcd-demo/uCGUI/JPEG/jquant2.c:499-536 | one pixel more in a cell adds one to the population of its box and the coordinates of the cell centre to the sums, and nothing elsewhere |
| MedianCut.NoPixels | lcd-demo/uCGUI/JPEG/jquant2.c:499-536 | without pixels all sums are zero |
| MedianCut.ComputeColor | lcd-demo/uCGUI/JPEG/jquant2.c:499-536 | the rounded mean of the pixels; the divisor is positive and the result lies between the outermost cell centres of the box; with at most 8438049 pixels no sum leaves 32 bits |
| MedianCut.PixelLimitIsSharp | lcd-demo/uCGUI/JPEG/jquant2.c:499-536 | for a box within the plane of brightest green, the sums stay within 32 bits if and only if the box has at most 8438049 pixels |
| MedianCut.BrightHistogram | lcd-demo/uCGUI/JPEG/jquant2.c:499-536 | a histogram of 16-bit counts and a box for which a sum leaves 32 bits |
| MedianCut.SelectColors | lcd-demo/uCGUI/JPEG/jquant2.c:539-567 | the boxes are the cut of the cells in use, their counts sum to the number of these cells, and each colour is the rounded mean of its box, within the cell centres |
| OrthogonalColormap.FindRoot | lcd-demo/uCGUI/JPEG/jquant1.c:198-210 | the largest number of values all components can have |
| OrthogonalColormap.SelectNColors | lcd-demo/uCGUI/JPEG/jquant1.c:185-241 | fails exactly if 2^nc exceeds the limit; otherwise the total is the product, within the limit, every component has at least the common root, and the component favoured first cannot have one more |
| OrthogonalColormap.CreateColormap | lcd-demo/uCGUI/JPEG/jquant1.c:276-329 | entry p holds, for each component, the value of the digit of p in the mixed radix of the numbers of values |
| OrthogonalColormap.ValuesSpread | lcd-demo/uCGUI/JPEG/jquant1.c:248-260 | the values of a component are the integers nearest to equal shares of the range, from 0 up to 255 |
| OrthogonalColormap.CreateColorIndex | lcd-demo/uCGUI/JPEG/jquant1.c:336-391 | each input value gets the number of the value chosen for it, premultiplied with the block size of its component |
| OrthogonalColormap.ChosenIsNear | lcd-demo/uCGUI/JPEG/jquant1.c:244-269 | the chosen value is within half a step and half a sample of the input value |
| OrthogonalColormap.SumFinds | lcd-demo/uCGUI/JPEG/jquant1.c:613-718 | the sum of the premultiplied numbers is below the number of colours, and its digits are these numbers |
| OrthogonalColormap.TablesValid | lcd-demo/uCGUI/JPEG/jquant1.c:613-718 | the tables so made meet what the dither presupposes |
| OrthogonalColormap.MakeLevels | lcd-demo/uCGUI/JPEG/jquant1.c:276-391 | colormap and colour index together are the tables of the numbers of values chosen |
| OrthogonalColormap.OutputIsColor | lcd-demo/uCGUI/JPEG/jquant1.c:613-718 | each dithered pixel is an index below the number of colours, and the entry there holds for each component exactly the value its code stands for |
| ErrorDiffusion.ScatterBounded | lcd-demo/uCGUI/JPEG/jquant1.c:613-718 | errors passed to the next row are at most 9 * 255 in magnitude |
| ErrorDiffusion.InPlaceStep | lcd-demo/uCGUI/JPEG/jquant1.c:658-701 | one pixel with the in-place row and the registers is one pixel of the 7/3/5/1 scatter over two rows, and the table index is within its range |
| ErrorDiffusion.EndInPlace | lcd-demo/uCGUI/JPEG/jquant1.c:702-714 | once the last register is unloaded the row holds exactly the scattered errors |
| ErrorDiffusion.ScatterFollows | lcd-demo/uCGUI/JPEG/jquant1.c:613-718 | scattering pixel by pixel gives each column 7, 3, 5 and 1 sixteenths of the errors of its neighbours, and each pixel the sample nearest to what it has received |
| ErrorDiffusion.RoundsToNearest | lcd-demo/uCGUI/JPEG/jquant1.c:670-690 | a corrected sample is as near to its sixteenths as a sample can be |
| ErrorDiffusion.ErrorConserved | lcd-demo/uCGUI/JPEG/jquant1.c:613-718 | what the samples exceed the chosen values by, with the errors received, is handed on, inside and beside the image, but for rounding remainders of -8 to 7 sixteenths and what limiting takes |
| ErrorDiffusion.Ditherer.DitherRow | lcd-demo/uCGUI/JPEG/jquant1.c:613-718 | one row, in either direction: what the single row of errors gives is the scatter over two rows, every component follows the rule of Floyd and Steinberg, and the output is the sum of the codes |
| ErrorDiffusion.Ditherer.QuantizeFsDither | lcd-demo/uCGUI/JPEG/jquant1.c:613-718 | every row follows the rule with the errors handed on by the row above, the direction alternating |
| ContextRows.Strip.MakeFunnyPointers | lcd-demo/uCGUI/JPEG/jdmainct.c:194-234 | the first list shows the workspace in order, the second with its last four row groups swapped; above the image the first row is repeated |
| ContextRows.Strip.SetWraparoundPointers | lcd-demo/uCGUI/JPEG/jdmainct.c:237-262 | both lists wrap around at their ends |
| ContextRows.Strip.SetBottomPointers | lcd-demo/uCGUI/JPEG/jdmainct.c:265-299 | below the last real row the list repeats that row, and nothing else changes |
| ContextRows.InnerGroup | lcd-demo/uCGUI/JPEG/jdmainct.c:384-447 | a row group inside an iMCU row is seen with the image rows above and below it |
| ContextRows.PostponedGroup | lcd-demo/uCGUI/JPEG/jdmainct.c:405-417 | the postponed last row group is seen through the other list with the rows of both iMCU rows around it |
| ContextRows.BottomGroup | lcd-demo/uCGUI/JPEG/jdmainct.c:265-299 | a row group of the last iMCU row is seen with the last row repeated below the image |
| ContextRows.TrailBehind | lcd-demo/uCGUI/JPEG/jdmainct.c:194-234 | the last two row groups of an iMCU row stand where the other list needs them behind the next one |
| MainController.LastRowsOf | lcd-demo/uCGUI/JPEG/jdmainct.c:272-290 | the row groups left in the last iMCU row are the same number for every component |
| MainController.MainController.ProcessData | lcd-demo/uCGUI/JPEG/jdmainct.c:384-447 | the invariant is kept by every call, also one that suspends after part of an iMCU row has been stored; nothing handed over is taken back, and with input and room something is handed over |
| MainController.MainController.OutBounded | lcd-demo/uCGUI/JPEG/jdmainct.c:384-447 | never more row groups than the image has, and all of them exactly when the controller is done |
| MainController.MainController.RunPass | lcd-demo/uCGUI/JPEG/jdmainct.c:306-447 | over any sequence of calls, output sizes and suspensions, row group j is handed over as the j-th, in its context, and with enough calls all of them are; every row in view is the row of the image there or the nearest one, unless it may be padding |
| MainController.NearestRows | lcd-demo/uCGUI/JPEG/jdmainct.c:384-447 | the rows next to a row group, and its own, are those of the image with its first and last row repeated |
| MainController.WholeView | lcd-demo/uCGUI/JPEG/jdmainct.c:384-447 | unless padding is in view, all three row groups shown are those of the image with its edges repeated |
| MainController.PaddingShown | lcd-demo/uCGUI/JPEG/jdmainct.c:405-417 | where padding is in view, the view shows whatever stands in that row of the workspace, and anything may stand there |
| MainController.PaddingWitness | lcd-demo/uCGUI/JPEG/jdmainct.c:405-417 | an image of five rows in which any value is shown as padding |
| VirtualArray.VirtArray.DoIo | lcd-demo/uCGUI/JPEG/jmemmgr.c:653-711 | the window is transferred chunk by chunk, short last chunk included; undefined rows and rows beyond the file are left alone |
| VirtualArray.VirtArray.AccessRows | lcd-demo/uCGUI/JPEG/jmemmgr.c:714-794 | granted exactly for legal accesses, and then the strip returned is the rows asked for; writing makes rows defined |
| VirtualArray.VirtArray.Apply | lcd-demo/uCGUI/JPEG/jmemmgr.c:714-794 | one operation does to the abstract array what it does to a plain one |
| VirtualArray.RunAll | lcd-demo/uCGUI/JPEG/jmemmgr.c:653-794 | over all sequences of operations the rows read are those of the plain array, zeros where pre-zeroed and never written, and exactly the accesses the plain array allows are granted |
| Upsampling.BuildYccRgbTable | lcd-demo/uCGUI/JPEG/jdcolor.c:69-105 | the four tables hold the fixed-point products for every chrominance value |
| Upsampling.Conversion | lcd-demo/uCGUI/JPEG/jdcolor.c:86-153 | each byte of a pixel is the sample nearest to the luminance plus 1.402, -0.34414 and -0.71414, or 1.772 times the chrominance, rounded |
| Upsampling.GreyStays | lcd-demo/uCGUI/JPEG/jdcolor.c:86-153 | without colour all three bytes are the luminance |
| UpsamplerMerged.H2v1Merged | lcd-demo/uCGUI/JPEG/jdmerge.c:228-283 | every byte of the output row is that of replication and conversion, for odd widths too; other rows are untouched |
| UpsamplerMerged.H2v2Merged | lcd-demo/uCGUI/JPEG/jdmerge.c:290-361 | every byte of both output rows of a chrominance row is that of replication and conversion; other rows are untouched |
| UpsamplerMerged.MergedUpsampler.Upsample1v | lcd-demo/uCGUI/JPEG/jdmerge.c:193-211 | the next row of the picture |
| UpsamplerMerged.MergedUpsampler.Upsample2v | lcd-demo/uCGUI/JPEG/jdmerge.c:143-190 | the next rows of the picture, at least one if there is room for one, the spare row returned first, even past the limit; the row that would have been next is lost exactly if there is no room and no spare row |
| UpsamplerSeparate.UpsampleComponent | lcd-demo/uCGUI/JPEG/jdsample.c:238-293 | each sample is repeated twice across, and the row twice if vertical sampling asks for it |
| UpsamplerSeparate.SepUpsampler.Upsample | lcd-demo/uCGUI/JPEG/jdsample.c:88-141 | the next rows of the picture, at least one if there is room for one |
| UpsamplingEquivalence.BothPaths | lcd-demo/uCGUI/JPEG/jdmerge.c:143-361 | for every picture and any two lists of requests, long enough and of at least one row each, both paths deliver the same rows, all of the picture, and every pixel is converted from its own luminance and the chrominance of its square |
| McuGeometry.NestedRoundUp | lcd-demo/uCGUI/JPEG/jdinput.c:79-98 | rounding up a scaled size in two steps is rounding it up once |
| McuGeometry.BlocksCoverSamples | lcd-demo/uCGUI/JPEG/jdinput.c:79-110 | the blocks of a component are as many as its own samples need |
| McuGeometry.RowGroupsAgree | lcd-demo/uCGUI/JPEG/jdinput.c:79-116 | the row groups of all components are equally many and fill the iMCU rows, as the main controller assumes |
| McuGeometry.InputController.InitialSetup | lcd-demo/uCGUI/JPEG/jdinput.c:38-117 | each of the four errors exactly under its condition; otherwise the sizes of all components, the iMCU rows and whether the file has several scans |
| McuGeometry.InputController.PerScanSetup | lcd-demo/uCGUI/JPEG/jdinput.c:120-195 | each error exactly under its condition; otherwise full MCU columns and rows before the last, with the last part, make up the blocks of each component, and the membership list names each block of an MCU |
| OnePass.ScanFromSetup | lcd-demo/uCGUI/JPEG/jdinput.c:120-195 | what per_scan_setup leaves is what the controllers need |
| OnePass.OneSource | lcd-demo/uCGUI/JPEG/jdcoefct.c:146-220 | two blocks of the image never come from the same place of the data |
| OnePass.OneDestination | lcd-demo/uCGUI/JPEG/jdcoefct.c:118-220 | two wanted blocks go to the same samples exactly if they are of one component and one block of it, which takes a scan header that names the component twice |
| OnePass.SampleRow | lcd-demo/uCGUI/JPEG/jdcoefct.c:183-204 | the sample row of a block, counted from the top, is eight times its block row |
| OnePass.EverythingSent | lcd-demo/uCGUI/JPEG/jdcoefct.c:146-220 | when the last MCU has been dealt with, exactly the non-dummy blocks of wanted components have been sent, each once |
| OnePass.CoefController.DecompressOnepass | lcd-demo/uCGUI/JPEG/jdcoefct.c:78-220 | one call, suspended anywhere or complete: exactly the blocks of the MCUs decoded so far have been sent, each once |
| OnePass.CoefController.Run | lcd-demo/uCGUI/JPEG/jdcoefct.c:78-220 | over any sequence of suspensions the scan finishes exactly when the input suffices, and then each wanted block has gone to its own place once |
| MultiScan.StoreMcu | lcd-demo/uCGUI/JPEG/jdcoefct.c:262-287 | the blocks of one more MCU are in their places of the arrays |
| MultiScan.RowInPlace | lcd-demo/uCGUI/JPEG/jdcoefct.c:244-304 | when the input is past an iMCU row, all its blocks of that scan are in the arrays |
| MultiScan.Decompressor.ConsumeData | lcd-demo/uCGUI/JPEG/jdcoefct.c:244-304 | reads on or is blocked for input; what is stored is never lost |
| MultiScan.Decompressor.ConsumeInput | lcd-demo/uCGUI/JPEG/jdinput.c:253-331 | every call that is neither blocked nor in error moves input forward until the end of image; there output_scan_number is lowered to the last scan |
| MultiScan.Decompressor.CatchUp | lcd-demo/uCGUI/JPEG/jdcoefct.c:324-334 | terminates with the input past the row to be put out, unless it is blocked or the file breaks off; the scan put out changes only to the last one there is |
| MultiScan.Decompressor.DecompressData | lcd-demo/uCGUI/JPEG/jdcoefct.c:315-375 | a row is put out only when input is past it and its blocks are stored, and then all of its blocks are shown; otherwise no row is shown; the scan put out changes only if the stream has no such scan |
| MultiScan.Decompressor.Preload | lcd-demo/uCGUI/JPEG/jdapistd.c:37-83 | with everything read, output and input stand at the last scan and all scans are complete in the arrays |
| MultiScan.Decompressor.StartOutput | lcd-demo/uCGUI/JPEG/jdapistd.c:227-242 | the scan number is raised to 1 and, once the end is known, lowered to the last |
| MultiScan.Decompressor.FinishOutput | lcd-demo/uCGUI/JPEG/jdapistd.c:252-273 | reads to the next scan or the end of image, or is blocked |
| MultiScan.Decompressor.Run | lcd-demo/uCGUI/JPEG/jdcoefct.c:244-375 | over any sequence of input calls, output calls and arriving data, no row is put out that the input has not passed |
| BlockMap.ExtendSound | lkfs/inode.c:84-215 | giving a free block to an empty pointer keeps all pointers of the tree distinct and marked used |
| Lkfs.FileSystem.NewBlock | lkfs/inode.c:15-44 | the first number whose bit is clear, up to and including the one after the last block, which is given out exactly if no block is free; zero exactly if there is none |
| Lkfs.FileSystem.GetBlocks | lkfs/inode.c:84-215 | pointers stay distinct and used, free plus used is constant, and a mapped block is returned unchanged; exactly the missing blocks of the path are taken, or all there are; block 0 is the answer exactly if these do not suffice, an error only in the direct range, and block 0 is cleared exactly for want of a pointer block; blocks beyond the double-indirect range are refused |
| Lkfs.OtherMappings | lkfs/inode.c:84-215 | the mapping of every other file block is unchanged |
| Lkfs.OtherFiles | lkfs/inode.c:84-215 | every pointer of every other file is unchanged |
| Lkfs.FileSystem.WriteFile | lkfs/inode.c:84-215 | of n blocks written front to back to a new file, exactly those are mapped for which, and for all before them, there was room; what was taken belongs to the file |
| BlockMap.AllGone | lkfs/inode.c:510-582 | when all slots have been visited, the blocks they name have become free, each counted once, if no pointer beyond the direct range was empty; else bit 0 is cleared |
| BlockMap.DenseCut | lkfs/inode.c:510-582 | a file without holes has no empty pointer among those visited if and only if its number of blocks is neither 21 nor 277 + 256 k |
| Lkfs.FileSystem.PointersReadable | lkfs/inode.c:510-582 | only block numbers are read as such if no pointer block is missing or block 0 is cleared |
| Lkfs.FileSystem.FreeMetaBlocks | lkfs/inode.c:490-508 | the named blocks and, if asked to, the pointer block lose their bits and are counted free |
| Lkfs.FileSystem.TruncateBlocks | lkfs/inode.c:510-582 | for files with or without holes: if no pointer visited beyond the direct range is empty, exactly the blocks visited are freed and each counted once; else bit 0 is cleared; nothing is done beyond the double-indirect range |
| Lkfs.FileSystem.WriteAndTruncate | lkfs/inode.c:84-582 | writing a new file and truncating it restores the bitmap, and then the free count, if and only if its number of blocks is neither 21 nor 277 + 256 k and there was room for it or it is below 21 |
| DirFormat.ReplaceRecord | lkfs/dir.c:97-196 | replacing one record by others of the same total length keeps the chain and all other entries |
| DirFormat.InsertExtends | lkfs/dir.c:97-196 | an entry under a new name, wherever it goes, adds exactly that name to the map |
| DirFormat.RemoveShrinks | lkfs/dir.c:316-356 | taking an entry out removes exactly its name |
| DirFormat.SplitRecord | lkfs/dir.c:166-186 | the room behind a record becomes a record of its own |
| DirFormat.Absorb | lkfs/dir.c:316-356 | the record before takes over the bytes of the deleted one, and no other entry changes |
| Directories.Directory.Match | lkfs/dir.c:52-60 | a record in use with exactly this name |
| Directories.Directory.AddLink | lkfs/dir.c:97-196 | a name is refused, with nothing changed, exactly if its record is met before the first room; otherwise it is added and every other entry kept, and an absent name is added to the map and nothing else |
| Directories.Directory.FindEntry | lkfs/dir.c:240-299 | a record is returned if and only if a live record with the name begins before the place where the search stops, and it is one |
| Directories.Directory.InodeByName | lkfs/dir.c:301-313 | non-zero exactly if such a record exists, and then the inode of the name; with all pages searched, the inode exactly of the names in the map |
| Directories.Directory.LookupCompleteIff | lkfs/dir.c:240-299 | every name is found if and only if no entry lies behind the place where the search stops |
| Directories.Directory.RootLosesNames | lkfs/inode.c:425-430 | a root directory of two pages, as read from disk, that begins with its own and its parent entry and has a name that is there and is not found |
| Directories.Directory.DeleteEntry | lkfs/dir.c:316-356 | exactly the name of the record disappears |
| Directories.Directory.MakeEmpty | lkfs/dir.c:201-238 | a directory of one chunk with exactly its own and its parent entry |
| Directories.Directory.ReadDir | lkfs/dir.c:358-402 | the entries from the position on, as many as the caller takes, and the position of the next |
| Directories.Directory.ReadAll | lkfs/dir.c:358-402 | over repeated calls taking any numbers of entries, exactly the first entries are listed, each once, as many as the calls have room for altogether, and all of them as soon as that room suffices |
| Directories.Directory.AddAndFind | lkfs/dir.c:97-313 | a name added is found with its inode, and every other name is found as before |
| Buddy.CanonicalDisjoint | EXT4_review/mballoc.c:70-110 | chunks of the canonical decomposition do not overlap |
| Buddy.EveryFreeBlockCovered | EXT4_review/mballoc.c:70-110 | every free block lies in one of them |
| Buddy.NoCanonicalSiblings | EXT4_review/mballoc.c:70-110 | below the top order the two halves of a chunk are never both free chunks |
| Buddy.GreedyCanonical | EXT4_review/mballoc.c:70-110 | the largest aligned chunk at the beginning of the rest of a run is canonical |
| BuddyGenerator.BorderOrderIs | EXT4_review/mballoc.c:78-86 | ffs of the position or-ed with the 16-bit border is the largest order at which the position is aligned, and -1 exactly for block 0 when blocks have 32 KB or more |
| BuddyGenerator.OrderIsLargest | EXT4_review/mballoc.c:82-92 | the order chosen is that of the largest aligned chunk that fits, and -1 exactly in that case |
| BuddyGenerator.LargeBlocks | EXT4_review/mballoc.c:78-92 | a group of 32 KB blocks with blocks 0 and 1 free, for which the order is -1 |
| BuddyGenerator.ClearBits | EXT4_review/mballoc.c:15-110 | bit n of the bitmap of order k, which begins at byte offsets[k], is clear exactly if the 2^k blocks from 2^k n on are a canonical chunk |
| BuddyGenerator.OffsetsFit | EXT4_review/mballoc.c:134-162 | the offsets fit 16 bits if and only if blocks have at most 64 KB |
| BuddyGenerator.InitTables | EXT4_review/mballoc.c:134-162 | offsets and sizes of the bitmaps of all orders |
| BuddyGenerator.Layout | EXT4_review/mballoc.c:134-162 | the bitmaps of different orders do not overlap |
| BuddyGenerator.InBlock | EXT4_review/mballoc.c:134-162 | the bitmap of every order fits into one block |
| BuddyGenerator.MarkFreeSimple | EXT4_review/mballoc.c:70-110 | succeeds exactly if blocks have less than 32 KB or the run is not one of several blocks at block 0, and then exactly the canonical chunks of the run are marked and counted |
| BuddyGenerator.GenerateBuddy | EXT4_review/mballoc.c:15-64 | succeeds exactly if blocks have less than 32 KB or no run of several free blocks begins at block 0; then a bit is clear exactly for canonical chunks of the blocks seen (their number is 16 bits wide), counters count them by order, their weighted sum is the number of free blocks, fragments are the maximal runs, and the first free block is recorded |
| NumberText.Xitoa | lcd-demo/src/xprintf.c:108-142 | prints padding, sign and digits of the value as a function of value, radix and width |
| NumberText.PrintedShape | lcd-demo/src/xprintf.c:108-142 | what is printed is as wide as asked for or as the number needs: padding, a minus sign for a negative number if a sign is asked for, and the digits |
| NumberText.Xatoi | lcd-demo/src/xprintf.c:26-76 | parses as the function Parse does, advancing past what it read |
| NumberText.FitsBuffer | lcd-demo/src/xprintf.c:108-142 | digits and sign fit the buffer exactly if the magnitude is below radix to the power 20, or 19 with a sign; from radix 4 on they always do |
| NumberText.LiteralReads | lcd-demo/src/xprintf.c:26-76 | digits written in radix 2, 8, 10 or 16, with prefix, sign and spaces, are read as they say, modulo 2^32 |
| NumberText.HexCharacters | lcd-demo/src/xprintf.c:60-70 | the characters taken for hexadecimal digits are the digits, the letters a to f in either case, and the six characters behind 9 |
| NumberText.DecimalCharacters | lcd-demo/src/xprintf.c:60-70 | in radix 10 and below only the decimal digits below the radix are taken |
| NumberText.DecimalRoundTrip | lcd-demo/src/xprintf.c:26-142 | every 32-bit value printed in decimal, with any spaces before it, is read back whatever follows, and reading stops at its end |
| NumberText.DecimalWithZeros | lcd-demo/src/xprintf.c:26-142 | decimal output padded with zeros is read back if and only if there is no padding or the number is 0 to 7 |
| NumberText.HexRoundTrip | lcd-demo/src/xprintf.c:26-142 | unsigned hexadecimal output after 0x, padded with zeros or not, is read back |
| NumberText.HexWithSpaces | lcd-demo/src/xprintf.c:26-142 | unsigned hexadecimal output after 0x, padded with spaces, is read back if and only if there is no padding or the number is zero |

## Left out

- DC scans and first AC scans of the progressive decoder, and arithmetic coding: their retry is
  that of the sequential decoder, without corrections to take back.
- The inverse DCTs with their shortcuts for zero coefficients, block smoothing and scaled output:
  each column or row is a formula of its own.
- The padding of the one-pass quantizer for ordered dither (`is_padded`), ordered dither itself, and
  error diffusion in the two-pass quantizer.
- Floating-point and fancy upsampling, colour spaces other than YCbCr to RGB, and DCT scaling.
- alloc_small, alloc_large and free_pool: a virtual array begins as realize_virt_arrays would leave
  it, in either form, with the backing store as an array of rows; the in-memory budget is a
  parameter.
- Input sources that advance within one MCU and then fail: jpeg_fill_bit_buffer cannot back up
  over them, so deliveries here only append bytes.
- An image without pixels, for which compute_color would divide by zero: select_colors is called with
  some cell in use.
- Page locking, buffer heads, inode writing, mounting and the other kernel plumbing: blocks and
  pages are arrays.  The stubs of lkfs/namei.c and the inode bitmap.
- The block allocator of ext4 itself, and the last shift of the table loop of ext4_mb_init, whose
  result is not used.
- Lkfs.FileSystem.GetBlocks: does not cover allocations that reach the number after the last block
  when the device has no such block (`Backed`): what reading it gives is up to the kernel.
- Lkfs.FileSystem.WriteFile: does not cover that case either.
- Lkfs.FileSystem.TruncateBlocks: does not cover files whose missing pointer blocks make the code
  take words of block 0 that are no block numbers for such (`Readable`).
- Lkfs.FileSystem.WriteAndTruncate: does not cover these two cases.
- NumberText.Xitoa: does not model writing beyond its buffer of 20 characters, which numbers of more
  digits in radix 2 and 3 would; that digits and sign fit (`FitsBuffer` says when they do) is a
  precondition unless the width refuses the number anyway.
- MultiScan.Decompressor.Run: does not model what the application does with the rows, nor the
  contents of coefficient blocks; a stored block is named by scan, MCU and place.
- Traces, warnings and progress callbacks; error exits are results.
- LCD drivers, operating system tasks, fonts, consoles and the drawing library.
- C integers are modelled where their width matters (the bit buffer, coefficients, `long` totals,
  16-bit buddy arithmetic, number text) and are unbounded elsewhere.
