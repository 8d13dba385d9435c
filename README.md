# alnSeq core in Dafny

This project models the alignment core of alnSeq, a C program that aligns a
query DNA or protein sequence against a reference sequence. Every part is a
Dafny module in its own file, and each module follows one header of the C code:

- **Scoring settings** (`alnSetStruct.h`, module `AlnSetStruct`): the `alnSet`
  structure with its gap penalties, direction preference, base score matrix and
  match matrix. Bases are looked up by their letter index (`c & 31`).
- **Cell rules** (`genAln.h`, `genMath.h`, `genNeedle.h`, `genWater.h`,
  `genScan.h`, modules `GenAln`, `GenMath`, `GenNeedle`, `GenWater`,
  `GenScan`): the branch-free max macros, the six snp/ins/del preference
  orders, and the insertion and deletion scores with gap extension.
  `AlnRecurrence` states the cell recurrence once, and the fills are proved
  against it.
- **Base matching** (`generalAlnFun.c`, module `GeneralAlnFun`):
  `checkIfBasesMatch`, the IUPAC switch that says whether a query base may pair
  with a reference base.
- **Needleman-Wunsch** (`needleman/needleman.h`, module `Needleman`): a global
  alignment that keeps one score row of lenRef + 1 values and a direction matrix
  with one byte per cell.
- **Smith-Waterman** (`waterman/waterTwoBit.h`, module `WaterTwoBit`): a local
  alignment that keeps one score row, a two-bit direction matrix and the
  best-scoring cell.
- **Memory-efficient Waterman** (`memWater/memWater.h`, module `MemWater`): a
  local alignment with no direction matrix. It carries the start index of each
  cell in two rows, then reports the best score with its start and end.
- **Hirschberg** (`hirschberg/hirschberg.h`, `hirschberg/genScoreNoGapHirsch.h`,
  `hirschberg/genHirsch.h`, modules `HirschbergAln`, `HirschScore`, `GenHirsch`):
  divide-and-conquer global alignment. It scores with a forward and a reverse
  score row and writes one flag byte per base into a reference and a query
  alignment array, which `hirschToAlnST` turns into an alignment structure.
- **Two-bit arrays** (`twoBitArrays.h`, module `TwoBitArrays`): a cursor over
  limbs of four two-bit elements.
- **Alignment structures** (`alnStruct.h`, `alnMatrixStruct.h`, modules
  `AlnStructs`, `AlnMatrixStruct`, `AlnRender`, `AlnFormat`):
  - the traceback from a direction matrix into per-base codes (`dirMatrixToAln`);
  - rendering the aligned strings (`alnSTToSeq`);
  - eqx symbols and the expanded-cigar line;
  - the id-capping helpers of the printers.
- **Alternative alignments** (`sortAndFiltAltAlns.h`, modules `SortAndFilt`,
  `AltFilt`): the in-place shell sorts over the parallel score/start/end arrays,
  and the query-overlap filter.

Loops over arrays and structures that the C code changes in place are methods
on classes and arrays. Each is proved against a pure specification function, and
the properties of that function are proved as lemmas. Code made of expressions
only, such as the macros, is modelled as functions.

## Model

| member | source | states |
|---|---|---|
| GenMath.MacroMaxWord | general/genMath.h:41-53 | on 64-bit two's-complement words the mask formula yields y when x < y (signed) and x otherwise |
| GenMath.MacroIfMaxWord | general/genMath.h:77-83 | on words the mask formula yields yRet when x < y (signed) and xRet otherwise |
| GenMath.MacroMax | general/genMath.h:35-42 | the result is at least both inputs and is one of them |
| GenMath.MacroIfMax | general/genMath.h:72-78 | the result is xRet when x >= y and yRet when y > x |
| GenMath.MacroMaxWordMatchesInt | general/genMath.h:41-53 | whenever the signed word comparison agrees with the integer one, the word macro keeps the operand the integer maximum keeps |
| GenMath.MacroIfMaxWordMatchesInt | general/genMath.h:77-83 | whenever the signed word comparison agrees with the integer one, the word macro returns the value the integer macroIfMax picks |
| GenMath.MacroMaxIdempotent | general/genMath.h:41-42 | macroMax(x, x) is x |
| GenMath.MacroMaxTieKeepsFirst | general/genMath.h:35-42 | macroMax(x, y) is x exactly when x >= y, so ties keep the first operand |
| GenAln.IndelScore | general/genAln.h:67-92 | a gap after a match/snp adds gapOpen, a gap after a gap adds gapExtend (the mask `0 - (dirC == defMvSnp)` selects one of the two); NextDelScore and InsCandidate are proved equal to it, and NeedleMaxScore and InnerCell use it for both gap moves |
| GenAln.Max3 | general/genAln.h:472-500 | the largest of the three move scores: at least each of them and equal to one |
| GenAln.BestIsFirstMaximum | general/genAln.h:204-331 | the reference cell's direction is a real move (never defMvStop) whose score is the maximum, and every move preferred over it scores strictly less |
| GenAln.InsDelSnpMax | general/genAln.h:204-223 | branchless insDelSnp yields the reference best cell for the ins-del-snp preference |
| GenAln.DelInsSnpMax | general/genAln.h:225-244 | branchless delInsSnp yields the reference best cell for the del-ins-snp preference |
| GenAln.InsSnpDelMax | general/genAln.h:246-266 | branchless insSnpDel yields the reference best cell for the ins-snp-del preference |
| GenAln.DelSnpInsMax | general/genAln.h:268-290 | branchless delSnpIns yields the reference best cell for the del-snp-ins preference |
| GenAln.SnpInsDelMax | general/genAln.h:292-311 | branchless snpInsDel yields the reference best cell for the snp-ins-del preference |
| GenAln.SnpDelInsMax | general/genAln.h:313-331 | branchless snpDelIns yields the reference best cell for the snp-del-ins preference |
| GenAln.InsDelSnpBranched | general/genAln.h:137-146 | the branched insDelSnp yields the same reference best cell |
| GenAln.DelInsSnpBranched | general/genAln.h:148-157 | the branched delInsSnp yields the same reference best cell |
| GenAln.InsSnpDelBranched | general/genAln.h:159-168 | the branched insSnpDel yields the same reference best cell |
| GenAln.DelSnpInsBranched | general/genAln.h:170-179 | the branched delSnpIns yields the same reference best cell |
| GenAln.SnpInsDelBranched | general/genAln.h:181-190 | the branched snpInsDel yields the same reference best cell |
| GenAln.SnpDelInsBranched | general/genAln.h:192-198 | the branched snpDelIns yields the same reference best cell |
| GenAln.CharMaxScore | general/genAln.h:358-406 | for every preference, the cell is the reference best cell (maximum score, most preferred move reaching it) |
| GenAln.CharMaxScoreBranched | general/genAln.h:137-198 | the branched build picks the same score and direction as the branchless build for every preference |
| GenAln.AlnMaxScore | general/genAln.h:436-500 | for every preference the score is the maximum of snp, ins and del and equals charMaxScore's score |
| GenAln.CharMaxScoreIsMove | general/genAln.h:204-331 | the chosen direction is del, ins or snp (never stop) and its candidate score is the cell's score |
| GenAln.InsDelSnpTies | general/genAln.h:204-223 | under ins-del-snp, snp is chosen only when strictly above both gaps, ins wins its ties with del and snp, and del needs to beat ins strictly |
| GenAln.SnpInsDelTies | general/genAln.h:292-311 | under snp-ins-del, snp wins every tie and del is chosen only when strictly best |
| GeneralAlnFun.ToUpper | generalAlnFun.c:104 | masking with defToUper (95) leaves a byte of at most 95: bits 5 and 7 are cleared |
| GeneralAlnFun.CheckIfBasesMatch | generalAlnFun.c:94-304 | the answer is 0 or 1; an N or X query matches every reference byte; a query byte that is not an IUPAC code matches nothing |
| GeneralAlnFun.MatchIsOverlap | generalAlnFun.c:104-300 | between IUPAC codes the switch says 1 exactly when the two codes share a base (IUPAC-IUB 1984, Table 1), both directions |
| GeneralAlnFun.MatchIgnoresCase | generalAlnFun.c:104-108 | a lower-case letter and its upper-case form give the same answer on either side |
| GeneralAlnFun.AMatches | generalAlnFun.c:106-120 | an A query matches exactly A, W, M, R, D, H, V, N and X |
| GeneralAlnFun.TAndUAgree | generalAlnFun.c:123-157 | T and U queries accept the same reference bytes |
| GeneralAlnFun.MatchIsSymmetric | generalAlnFun.c:104-300 | between IUPAC codes swapping query and reference does not change the answer |
| AlnMatrixStruct.IndexToQry | general/alnMatrixStruct.h:314-331 | the query coordinate of a matrix index, `index / (refLen + 1) - (index >= refLen)` wrapped to an unsigned long; IndexToCoordOfCell gives row - 1 for every cell off the gap row and column, IndexToCoordGapRow the wrapped -1 of the last gap-row cell |
| AlnMatrixStruct.IndexToRef | general/alnMatrixStruct.h:348-368 | the reference coordinate of a matrix index, `index % (refLen + 1) - (index / (refLen + 1) > 0)`; IndexToCoordOfCell gives col - 1 for every cell off the gap row and column, IndexToCoordGapRow col itself in the gap row |
| AlnMatrixStruct.IndexToCoord | general/alnMatrixStruct.h:388-391 | the (reference, query) coordinate pair; IndexToCoordOfCell and CoordIndexRoundTrip show it inverts the row-major cell index for every cell off the gap row and column |
| AlnMatrixStruct.IndexToCoordOfCell | general/alnMatrixStruct.h:314-391 | for index = row * (refLen + 1) + col with row, col >= 1, indexToCoord gives reference col - 1 and query row - 1 |
| AlnMatrixStruct.CoordIndexRoundTrip | general/alnMatrixStruct.h:314-391 | converting 0-based base positions to a cell index and back through indexToCoord returns the same positions |
| AlnMatrixStruct.IndexToCoordGapRow | general/alnMatrixStruct.h:314-360 | in the gap row the formulas give reference coordinate col, and query coordinate 0, except at the last cell where -1 wraps to the largest unsigned long |
| AlnMatrixStruct.AlnMatrix.constructor | general/alnMatrixStruct.h:109-125 | initAlnMatrix: every pointer null and every counter 0 |
| AlnMatrixStruct.AlnMatrix.FreeAlnMatrixStack | general/alnMatrixStruct.h:170-209 | afterwards every pointer is null and every counter 0 |
| AlnMatrixStruct.AlnMatrixTwoBit.constructor | general/alnMatrixStruct.h:138-154 | initAlnMatrixTwoBit: every pointer null and every counter 0 |
| AlnMatrixStruct.AlnMatrixTwoBit.FreeAlnMatrixTwoBitStack | general/alnMatrixStruct.h:225-261 | afterwards every pointer is null and every counter 0 |
| TwoBitArrays.LimbElm | general/twoBitArrays.h:116-123 | an element extracted from a limb is a 2-bit value (below 4) |
| TwoBitArrays.SetLimbElmSpec | general/twoBitArrays.h:244-262 | writing a value below 4 into one element of a limb reads back that value and leaves the other three elements unchanged |
| TwoBitArrays.ElmsOfAt | general/twoBitArrays.h:116-123 | element k of the unpacked sequence is bits 2(k mod 4) of limb k / 4 (also lines 432-441 of the same file) |
| TwoBitArrays.SetElmSpec | general/twoBitArrays.h:244-262 | a buffer-level write changes element k to v and no other element |
| TwoBitArrays.SetElmsSpec | general/twoBitArrays.h:244-262 | the same write stated on the unpacked sequence: it becomes the old sequence with element k replaced |
| TwoBitArrays.TwoBitAry.GetLen | general/twoBitArrays.h:419 | twoBitGetLen is four times lenAryUL |
| TwoBitArrays.TwoBitAry.Blank | general/twoBitArrays.h:328-363 | a structure with no buffer and the cursor at index 0 (the blank makeTwoBit result) |
| TwoBitArrays.TwoBitAry.GetTwoBitElm | general/twoBitArrays.h:116-123 | returns the 2-bit element at the cursor's index in the unpacked buffer |
| TwoBitArrays.TwoBitAry.ChangeTwoBitElm | general/twoBitArrays.h:244-262 | only the cursor's limb changes; for a value below 4 the unpacked buffer is the old one with the cursor's element replaced, so getTwoBitElm returns the value |
| TwoBitArrays.TwoBitAry.TwoBitMvToNextElm | general/twoBitArrays.h:136-140 | the index grows by one and elmOnC stays in 0..3 |
| TwoBitArrays.TwoBitAry.TwoBitMvForXElm | general/twoBitArrays.h:155-164 | the index grows by shiftBy and elmOnC stays in 0..3 |
| TwoBitArrays.TwoBitAry.TwoBitMvBackOneElm | general/twoBitArrays.h:177-186 | the index drops by one (undoing twoBitMvToNextElm) and elmOnC stays in 0..3 |
| TwoBitArrays.TwoBitAry.TwoBitMvBackXElm | general/twoBitArrays.h:201-229 | the index drops by shiftBy (undoing twoBitMvForXElm) and elmOnC stays in 0..3 |
| TwoBitArrays.TwoBitAry.TwoBitMvToNextLimb | general/twoBitArrays.h:293-296 | the cursor moves to element 0 of the next limb |
| TwoBitArrays.TwoBitAry.TwoBitMvToLastLimb | general/twoBitArrays.h:309-312 | the cursor moves to element 0 of the previous limb |
| TwoBitArrays.TwoBitAry.TwoBitMvXElmFromStart | general/twoBitArrays.h:401-407 | afterwards twoBitGetIndex returns shiftBy |
| TwoBitArrays.TwoBitAry.CpTwoBitPos | general/twoBitArrays.h:378-385 | the duplicate has the same buffer, cursor and length |
| TwoBitArrays.TwoBitAry.FreeTwoBitStack | general/twoBitArrays.h:455-465 | with a buffer, the pointer is nulled and cursor and length zeroed; a blank array is left unchanged |
| TwoBitArrays.MakeTwoBit | general/twoBitArrays.h:328-363 | null exactly on allocation failure; otherwise the cursor is at index 0 and either there is no buffer (blank) or (len >> 2) + 1 zeroed limbs with lenAryUL ((len >> 2) << 2) + 4, every element 0 |
| AlnSetStruct.LookupIndex | general/alnSetStruct.h:665-675 | masking with defClearNonAlph (31) gives an index below 32 |
| AlnSetStruct.SetBit64 | general/alnSetStruct.h:701-710 | `c \| 64` sets bit 6 and keeps the low six bits |
| AlnSetStruct.LetterIndex | general/alnSetStruct.h:665-710 | a letter's index is 1..26 and the same for both cases, and setting bit 6 on it gives the upper-case letter |
| AlnSetStruct.SeqToLookupIndex | general/alnSetStruct.h:665-675 | every byte before the NUL is replaced by its masked index; the NUL and what follows it are unchanged |
| AlnSetStruct.LookupIndexToSeq | general/alnSetStruct.h:701-710 | every byte before the NUL gets bit 6 set; the NUL and what follows it are unchanged |
| AlnSetStruct.LookupRoundTrip | general/alnSetStruct.h:665-710 | for a string of letters, converting to indexes and back keeps the length and the NUL position and yields the upper case of each letter |
| AlnSetStruct.LookupTruncatesAtZeroIndex | general/alnSetStruct.h:665-675 | a byte whose index is 0 (a space, '@', '`') becomes a NUL, so the converted string ends at or before it |
| AlnSetStruct.OverriddenUntouched | general/alnSetStruct.h:834-1446 | a matrix cell that no DNA pair setting lands on keeps its initial value |
| AlnSetStruct.OverriddenLastWins | general/alnSetStruct.h:834-1446 | a pair setting that is the last to land on its cell decides that cell |
| AlnSetStruct.AlnSet.constructor | general/alnSetStruct.h:724-726 | a fresh settings structure with two separate 27 x 27 matrices |
| AlnSetStruct.AlnSet.GetBaseScore | general/alnSetStruct.h:350-355 | the score matrix entry of a pair of converted bases; SetBpScore reads its write back through it, and ParamsMatch ties it to the score table the recurrences use |
| AlnSetStruct.AlnSet.MatchOrSnp | general/alnSetStruct.h:397-401 | the match matrix entry of a pair of converted bases; SetIfBpMatch reads its write back through it, and PairFlagLookup turns it into the traceback's match or snp flag |
| AlnSetStruct.AlnSet.SetBpScore | general/alnSetStruct.h:213-218 | getBaseScore on the two converted letters returns the score afterwards, and no other cell of the score matrix changes |
| AlnSetStruct.AlnSet.SetIfBpMatch | general/alnSetStruct.h:267-272 | matchOrSnp on the two converted letters returns the value afterwards, and no other cell of the match matrix changes |
| AlnSetStruct.AlnSet.InitAlnSet | general/alnSetStruct.h:724-1446 | every setting takes its default and lenFileNameUS is 1024; each score cell is the last DNA score override landing on it, else 0; each match cell is the last DNA match override, else defBaseMatch on the diagonal and defBaseSnp off it |
| AlnSetStruct.AlnSet.ApplyScorePairs | general/alnSetStruct.h:834-1158 | after the setBpScore calls in order, each cell holds the last value set on it, or its old value |
| AlnSetStruct.AlnSet.ApplyMatchPairs | general/alnSetStruct.h:1159-1446 | after the setIfBpMatch calls in order, each cell holds the last value set on it, or its old value |
| AlnSetStruct.AlnSet.FillMatrices | general/alnSetStruct.h:784-832 | the score matrix is all 0 and the match matrix is defBaseMatch on the diagonal and defBaseSnp elsewhere |
| GenNeedle.InsCandidate | needleman/genNeedle.h:74-77 | the insertion candidate is the cell above plus gapOpen after a match/snp, else plus gapExtend |
| GenNeedle.NextDelScore | needleman/genNeedle.h:76 | the deletion score handed on is the cell's score plus gapOpen after a match/snp, else plus gapExtend (the expression of line 76 applied to dirOn) |
| GenNeedle.DelScoreAsWritten | needleman/genNeedle.h:90-93 | `gapDiff & (-(dirOn) != defMvSnp)` as C parses it: the mask is 1, so only the low bit of gapDiff is added; DelScoreAsWrittenAgreement says exactly when it agrees with IndelScore, DelScoreAsWrittenCounterexample gives an input where it does not |
| GenNeedle.DelScoreAsWrittenAgreement | needleman/genNeedle.h:90-93 | the delScore expression as written equals the gap rule exactly when the low bit of gapDiff is the whole adjustment the rule asks for |
| GenNeedle.DelScoreAsWrittenCounterexample | needleman/genNeedle.h:90-93 | gapOpen -10, gapExtend -1, a deletion cell of score 0: as written the next deletion scores -9, the gap rule gives -1 |
| GenNeedle.NeedleMaxScore | needleman/genNeedle.h:59-94 | the cell is charMaxScore's best move over diagonal + pair score, the gap-scored cell above and delScore; nextSnpScore becomes the old cell above; delScore is gap-scored from the new cell |
| GenNeedle.NeedleMaxEndRowScore | needleman/genNeedle.h:123-151 | the end-of-row cell is the same best move, with nothing handed on |
| GenNeedle.EndRowAgreesWithFullRule | needleman/genNeedle.h:59-151 | the end-of-row rule scores a cell exactly as the full rule does |
| GenNeedle.NeedleCellIsBestMove | needleman/genNeedle.h:59-94 | the cell names a real move whose candidate is its score, and no candidate is higher |
| GenWater.Floor | waterman/genWater.h:89-92 | a cell scoring above 0 is kept; any other becomes score 0, direction stop |
| GenWater.WaterMaxScore | waterman/genWater.h:56-98 | the cell is the floored best move; nextSnpScore is the old cell above; delScore is gap-scored from the floored cell |
| GenWater.WaterMaxEndRowScore | waterman/genWater.h:127-162 | the end-of-row cell is the floored best move and never negative |
| GenWater.WaterIsFlooredNeedle | waterman/genWater.h:56-98 | the local rule is the global rule followed by the floor; a positive cell is left exactly as the global rule made it |
| GenWater.WaterCellIsStopOrMove | waterman/genWater.h:56-98 | a local cell is never negative, scores above 0 exactly when it is a real move, and a stop scores 0 |
| GenWater.FlooredBest | waterman/genWater.h:89-92 | the floored best move scores the three-way maximum clamped at 0, is a stop exactly when it scores 0, and is otherwise the move that gives its score |
| GenScan.GetAlnStart | general/genScan.h:165-216 | the start index is newIndex for a stop and the chosen move's index for snp, ins and del |
| GenScan.ScanInsDelSnp | general/genScan.h:217-262 | the branchless variant picks charMaxScore's cell for insertion-first preference together with that move's start index |
| GenScan.ScanDelInsSnp | general/genScan.h:263-308 | the same for deletion, insertion, snp preference |
| GenScan.ScanInsSnpDel | general/genScan.h:309-356 | the same for insertion, snp, deletion preference |
| GenScan.ScanDelSnpIns | general/genScan.h:357-404 | the same for deletion, snp, insertion preference |
| GenScan.ScanSnpInsDel | general/genScan.h:405-448 | the same for snp, insertion, deletion preference |
| GenScan.ScanSnpDelInsAsWritten | general/genScan.h:449-492 | read with macroIfMax for the undefined `macoIfMax`, the score and direction are still charMaxScore's |
| GenScan.ScanSnpDelInsAsWrittenCounterexample | general/genScan.h:469-475 | snp 5, ins 5, del 0: the direction is snp but the start index is the insertion's |
| GenScan.ScanSnpDelIns | general/genScan.h:449-492 | with the position step taken snp-first, the variant picks charMaxScore's cell and its move's start index |
| GenScan.ScanSnpDelInsDifference | general/genScan.h:449-492 | the as-written and corrected variants agree on score and direction, and entirely unless snp ties the better gap |
| GenScan.ScanMaxScore | general/genScan.h:710-803 | for every preference the dispatched variant gives charMaxScore's cell and the start index of its move |
| GenScan.WaterScanMaxScore | general/genScan.h:837-890 | the cell is the floored best move; its start index is the chosen move's, or curIndex when the cell is dropped; nextSnpScore and delScore as in waterMaxScore |
| GenScan.WaterScanMaxEndRowScore | general/genScan.h:919-965 | the end-of-row cell and start index equal the full scan rule's |
| GenScan.WaterScanAgreesWithWater | general/genScan.h:837-890 | scan mode scores every cell, and hands on the same nextSnpScore and delScore, exactly as waterMaxScore does |
| GenScan.ScanIfKeepScoreRef | general/genScan.h:1155-1184 | only a match/snp cell is kept; it replaces the reference record when it beats it, otherwise the query record when it beats that, whole records only |
| GenScan.ScanIfKeepScoreQry | general/genScan.h:1191-1220 | the mirror image, query record first |
| GenScan.KeepScoreInvariants | general/genScan.h:1155-1220 | at most one record changes, records never lose score, and a changed record holds the offered score, start and end |
| AlnRecurrence.Clamp | waterman/waterTwoBit.h:342-347 | `x &= -(x > 0)` keeps a positive value and turns any other into 0 |
| AlnRecurrence.RowZero | needleman/needleman.h:146-166 | row 0 has lenRef + 1 cells: a stop, then (global) deletions scoring gapOpen, gapOpen + gapExtend, ..., or (local, waterman/waterTwoBit.h:150-182) stops scoring 0 |
| AlnRecurrence.RowCells | needleman/needleman.h:201-241 | the first j + 1 cells of a row: column 0, then one cell per reference base by the cell rule |
| AlnRecurrence.Row | needleman/needleman.h:196-255 | every row of the matrix has lenRef + 1 cells |
| AlnRecurrence.Matrix | needleman/needleman.h:168-255 | the matrix has one row per query base below row 0, and row i is the i-th row of the recurrence |
| AlnRecurrence.NextCell | needleman/genNeedle.h:59-94 | the cell rule: the preferred best of the diagonal score plus the pair score, the insertion IndelScore from above and the deletion IndelScore from the left (floored to a stop in local mode); RowCellRule proves every computed row follows it, InnerCell and LocalInnerCell state it cell by cell |
| AlnRecurrence.RowCellRule | needleman/needleman.h:207-241 | each cell j >= 1 of a computed row follows the cell rule from its left neighbour and the row above |
| AlnRecurrence.RowCellsFollow | needleman/needleman.h:207-241 | the recursive row satisfies the row-at-a-time specification the fills are proved against |
| AlnRecurrence.MatrixFollowsRows | needleman/needleman.h:168-255 | the recursive matrix satisfies the row-at-a-time specification |
| AlnRecurrence.RecurrenceMatrix | needleman/needleman.h:168-255 | a matrix satisfying the specification exists for every scoring, mode and pair of sequences |
| AlnRecurrence.RowCellsPrefix | needleman/needleman.h:207-241 | computing further along a row never changes the cells already computed |
| AlnRecurrence.RowFollowsPrefix | needleman/needleman.h:207-241 | two rows that follow the cell rule from the same start agree cell by cell |
| AlnRecurrence.MatrixFollowsPrefix | needleman/needleman.h:196-255 | two matrices that follow the recurrence agree row by row |
| AlnRecurrence.MatrixFollowsUnique | needleman/needleman.h:168-255 | the recurrence fixes the matrix: any matrix that follows it is the recursive one |
| AlnRecurrence.FlattenCell | general/alnMatrixStruct.h:388-391 | cell (i, j) of a matrix of width lenRef + 1 stored row after row is at index i * (lenRef + 1) + j |
| AlnRecurrence.RowPeakFirst | waterman/waterTwoBit.h:280-283 | the row scan keeps the peak, or moves it to the first cell of the row that scores above it with the row's maximum |
| AlnRecurrence.MatrixPeakFirst | waterman/waterTwoBit.h:280-326 | bestScoreL is at least 0 and at least every cell; a peak of 0 is index 0; a positive peak is the index of the first cell in row-major order that scores it |
| Needleman.ColZeroStep | needleman/needleman.h:252 | each row's column-0 insertion scores gapExtend more than the one above |
| Needleman.InnerCell | needleman/needleman.h:207-241 | every inner cell of the global matrix is the best move over the diagonal plus pair score and the gap-scored cells above and to the left |
| Needleman.OnlyCornerStops | needleman/needleman.h:146-255 | the only stop of the global matrix is cell (0, 0); row 0 is deletions, column 0 insertions |
| Needleman.InnerCellIsBest | needleman/needleman.h:207-241 | every inner cell is a real move whose candidate is its score, and no candidate is higher |
| Needleman.FillRowInner | needleman/needleman.h:207-241 | the inner loop leaves columns 0 .. lenRef - 1 of the new row in scoreAryL and dirMatrix, the last column of the row above in scoreAryL, and the earlier rows untouched |
| Needleman.ScoreRow | needleman/needleman.h:207-241 | after the row and its end cell, scoreAryL holds the row's scores and dirMatrix its directions; earlier rows are untouched |
| Needleman.FillRowZero | needleman/needleman.h:146-166 | scoreAryL and the first lenRef + 1 directions hold row 0 of the recurrence |
| Needleman.NextRow | needleman/needleman.h:201-255 | one pass of the query loop extends the filled prefix by one row of the recurrence and sets up the next row's column 0 and delScore |
| Needleman.FillRows | needleman/needleman.h:168-255 | after the query loop dirMatrix holds every row of the recurrence and scoreAryL[lenRef] the bottom-right score |
| Needleman.FillMatrix | needleman/needleman.h:146-268 | the direction matrix is the recurrence's directions row after row followed by a stop; the best score is the bottom-right cell's and the end index that cell's index |
| Needleman.NewFilledMatrix | needleman/needleman.h:112-268 | the returned alnMatrix holds the filled direction matrix, the lengths and offsets, the bottom-right score and index, start index 0 and no score arrays |
| Needleman.NeedleWalkable | needleman/needleman.h:146-258 | the global direction matrix can be walked back from any cell: row 0 holds no insertion or snp, column 0 no deletion or snp |
| Needleman.NeedlemanAln | needleman/needleman.h:58-270 | returns null exactly when an allocation fails; otherwise the matrix of the recurrence over the aligned windows, with the fields above, and a direction matrix dirMatrixToAln can walk |
| WaterTwoBit.LocalColZero | waterman/waterTwoBit.h:332-345 | column 0 of every local row is a stop with a non-negative score |
| WaterTwoBit.LocalInnerCell | waterman/waterTwoBit.h:251-270 | every inner local cell scores the three-way maximum clamped at 0, is a stop exactly when it scores 0, and otherwise names the move that gives its score |
| WaterTwoBit.LocalCellBounds | waterman/waterTwoBit.h:183-345 | every local cell is non-negative with a valid direction; row 0 and column 0 are stops, and row 0 scores 0 |
| WaterTwoBit.LocalStep | waterman/waterTwoBit.h:251-310 | waterMaxScore and waterMaxEndRowScore on the carried values compute exactly the next cell of the local recurrence |
| WaterTwoBit.WaterCell | waterman/waterTwoBit.h:251-288 | one inner cell: its direction and score are stored, nextSnpScore and delScore are handed on, and bestScoreL/bestEndIndexUL move only to a strictly higher score |
| WaterTwoBit.WaterRowInner | waterman/waterTwoBit.h:242-288 | the inner loop stores the row's cells 1 .. lenRef - 1 and the scan of their peak |
| WaterTwoBit.WaterEndCell | waterman/waterTwoBit.h:290-328 | the last cell of the row is stored and the peak is the row scan's |
| WaterTwoBit.WaterScoreRow | waterman/waterTwoBit.h:242-328 | a whole row is stored and the peak is the row scan's |
| WaterTwoBit.WaterColZero | waterman/waterTwoBit.h:332-347 | column 0 gets a stop, scoreAryL[0] grows by gapExtend clamped at 0, and delScoreL is that plus gapExtend clamped at 0 |
| WaterTwoBit.LocalRowFollows | waterman/waterTwoBit.h:237-349 | each local row follows the cell rule from its column-0 stop and first deletion score |
| WaterTwoBit.WaterNextRow | waterman/waterTwoBit.h:237-349 | one pass of the query loop stores one more row of the local recurrence and carries the peak |
| WaterTwoBit.WaterFillRows | waterman/waterTwoBit.h:237-349 | after the query loop the two-bit matrix holds every row of the local recurrence and the peak is the scan over the whole matrix |
| WaterTwoBit.WaterRowZero | waterman/waterTwoBit.h:188-194 | row 0 of the two-bit matrix is lenRef + 1 stops and nothing else changes |
| WaterTwoBit.WaterStops | waterman/waterTwoBit.h:188-223 | row 0 and the first column-0 cell are stops and every score starts at 0 |
| WaterTwoBit.WaterFillMatrix | waterman/waterTwoBit.h:183-362 | the two-bit matrix is the recurrence's directions row after row followed by a stop, and the peak is the first maximum of the matrix |
| WaterTwoBit.WaterLastCell | waterman/waterTwoBit.h:360-362 | the cell after the matrix is set to a stop and the cursor left on the bottom-right cell |
| WaterTwoBit.WaterWalkable | waterman/waterTwoBit.h:183-362 | the local direction matrix can be walked back from any cell |
| WaterTwoBit.NewWaterMatrix | waterman/waterTwoBit.h:65-368 | the returned alnMatrixTwoBit holds the filled matrix, the lengths and offsets, the peak score and index, start index 0 and no score arrays |
| WaterTwoBit.WaterTwoBitAln | waterman/waterTwoBit.h:65-368 | returns null exactly when an allocation fails; otherwise the local recurrence over the aligned windows, stored in two bits per cell, bestScoreL and bestEndIndexUL the first maximum in row-major order, and a matrix dirMatrixToAln can walk |
| MemWater.StartCell | memWater/memWater.h:280-296 | following the chosen moves back from a cell ends at a cell no later in either coordinate that is in the gap row or column or scores at most 0 |
| MemWater.StartOfBefore | memWater/memWater.h:280-296 | the start index of the alignment ending in a cell is never after that cell's own index |
| MemWater.StartStep | memWater/memWater.h:280-296 | a kept cell takes the start index of the cell its move came from (diagonal from the previous row's index array, insertion from the one above, deletion from the left); a dropped cell starts at its own index |
| MemWater.StartAtCell | memWater/memWater.h:280-310 | the start recorded for matrix index r * w + j is the start of cell (r, j) |
| MemWater.ScanCellStep | memWater/memWater.h:280-296 | waterScanMaxScore on the two rows' buffers gives the recurrence's cell and that cell's start index |
| MemWater.MemCell | memWater/memWater.h:280-313 | one inner cell: its score, direction and start are stored in the row buffers; nextSnpScore and delScore are handed on; the best score, end and start move only to a strictly higher score |
| MemWater.MemRowInner | memWater/memWater.h:270-314 | the inner loop stores the row's cells 1 .. lenRef - 1 with their starts, and the best cell among them |
| MemWater.MemEndCell | memWater/memWater.h:316-355 | the last cell of the row is stored with its start, and the best is updated as for every other cell |
| MemWater.MemScoreRow | memWater/memWater.h:270-355 | a whole row is stored with its starts and the best is the row scan's |
| MemWater.MemColZero | memWater/memWater.h:363-375 | the next row's column 0 is a stop with the clamped score and delScore; the index arrays are swapped and column 0 of the current one gets the current index (the corrected write) |
| MemWater.MemNextRow | memWater/memWater.h:265-376 | one pass of the query loop advances the buffers by one row of the local recurrence with the starts, and carries the best |
| MemWater.MemFillRows | memWater/memWater.h:265-376 | after the query loop the best score and end index are the first maximum of the local matrix and the best start is that cell's start |
| MemWater.MemInitRows | memWater/memWater.h:218-223 | row 0 is stops scoring 0, and each column's start is its own index |
| MemWater.MemFill | memWater/memWater.h:214-376 | the fill's best cell is the first maximum of the local recurrence and its start the start of the alignment ending there |
| MemWater.MemMatrixOf | memWater/memWater.h:381-406 | the returned alnMatrix holds no direction matrix, the lengths and offsets, and the best score, end and start |
| MemWater.MemWaterAln | memWater/memWater.h:61-407 | returns null exactly when an allocation fails; otherwise the best score and end index of the local recurrence (as in waterTwoBit.h) and the start of the alignment ending there, without a direction matrix |
| MemWater.ColZeroStartAsWritten | memWater/memWater.h:256 | as written the column-0 start seen by query row i is lenRef + 1 in odd rows and 0 in even rows, because only one of the two swapped arrays ever gets its column 0 written (also lines 373-375 of the same file) |
| MemWater.IndexRowsAsWritten | memWater/memWater.h:248-256 | replaying the swaps and the single write of line 256 gives, row after row, the column-0 starts ColZeroStartAsWritten states (also lines 373-375 of the same file) |
| MemWater.StaleColZeroStart | memWater/memWater.h:256 | a matrix where cell (3, 1) is a snp from column 0: its start is 2 * (lenRef + 1), while the as-written column-0 start gives 0 (also lines 290, 373-375 of the same file) |
| GenHirsch.MaxGapInsDelSnpAsWritten | hirschberg/genHirsch.h:547-557 | as written the first macroMax writes isGap, so the result is at least snp and isGap says only whether the stale retMax reached snp |
| GenHirsch.MaxGapInsDelSnpLosesGap | hirschberg/genHirsch.h:547-557 | snp 0, ins 5, del 0 with a stale retMax of 0: as written the macro keeps 0 where the best move scores 5 |
| GenHirsch.MaxGapInsDelSnp | hirschberg/genHirsch.h:547-557 | with the first macroMax writing retMax, the macro gives the best score and whether insertion-first preference picks a gap |
| GenHirsch.MaxGapDelInsSnp | hirschberg/genHirsch.h:563-578 | the best score, and whether deletion, insertion, snp preference picks a gap |
| GenHirsch.MaxGapInsSnpDel | hirschberg/genHirsch.h:579-601 | the best score, and whether insertion, snp, deletion preference picks a gap |
| GenHirsch.MaxGapDelSnpIns | hirschberg/genHirsch.h:602-623 | the best score, and whether deletion, snp, insertion preference picks a gap |
| GenHirsch.MaxGapSnpInsDel | hirschberg/genHirsch.h:624-639 | the best score, and whether snp, insertion, deletion preference picks a gap |
| GenHirsch.MaxGapSnpDelIns | hirschberg/genHirsch.h:640-651 | the best score, and whether snp, deletion, insertion preference picks a gap |
| GenHirsch.MaxGapScore | hirschberg/genHirsch.h:717-741 | for every preference retMax is alnMaxScore's result, and isGap is -1 exactly when charMaxScore's move is not a match/snp, else 0 |
| GenHirsch.LastTrue | hirschberg/genHirsch.h:133-143 | the index the loop leaves in snpIndexUL is the last one whose test held, or none |
| GenHirsch.GapRunAffine | hirschberg/genHirsch.h:125-140 | insScoreL after n steps is the score of n gaps: gapOpen + (n - 1) * gapExtend |
| GenHirsch.PlaceBeats | hirschberg/genHirsch.h:133-143 | one test per base of the region |
| GenHirsch.PlaceOffset | hirschberg/genHirsch.h:133-156 | the base goes to the last offset whose test held, or to the region's first base when none did |
| GenHirsch.PlacedFlags | hirschberg/genHirsch.h:158-175 | the region gets one match/snp flag at the chosen offset and gaps everywhere else |
| GenHirsch.PlacedOnePair | hirschberg/genHirsch.h:158-175 | a placed region holds exactly one match/snp flag and len - 1 gaps |
| GenHirsch.ScanPlace | hirschberg/genHirsch.h:125-156 | the loop's snpIndexUL is the region start plus the offset PlaceOffset picks |
| GenHirsch.MarkPlaced | hirschberg/genHirsch.h:158-175 | the two marking loops leave the placed flags over the region and nothing else changed |
| GenHirsch.PositionSingleBase | hirschberg/genHirsch.h:79-178 | the region of the other sequence holds one match/snp flag at the chosen offset and gaps elsewhere, the rest of that array is unchanged, and the base itself is flagged match/snp |
| GenHirsch.GapOrSnpCount | hirschberg/genHirsch.h:323-420 | a flag array of gaps and aligned bases counts one of the two per position |
| GenHirsch.NotStuck | hirschberg/genHirsch.h:323-420 | on flags with equally many aligned bases on both sides the walk always has a move: a query gap, a pair, or a reference gap |
| GenHirsch.PairFlagOf | hirschberg/genHirsch.h:352-366 | a pair is flagged match or snp |
| GenHirsch.Step | hirschberg/genHirsch.h:323-420 | one pass of the loop reads at least one flag and keeps the aligned-base counts of both sides equal |
| GenHirsch.StepIns | hirschberg/genHirsch.h:330-344 | a query gap is an insertion |
| GenHirsch.StepPair | hirschberg/genHirsch.h:345-399 | two aligned bases pair under the match table's flag, become the last pair and, if none came before, the first |
| GenHirsch.StepDel | hirschberg/genHirsch.h:400-418 | a reference gap is a deletion |
| GenHirsch.Run | hirschberg/genHirsch.h:323-420 | the walk ends with both windows read |
| GenHirsch.SnpPositions | hirschberg/genHirsch.h:345-399 | the positions of the aligned bases, one per aligned base |
| GenHirsch.SnpPositionsExact | hirschberg/genHirsch.h:345-399 | the positions list every aligned base once, in increasing order |
| GenHirsch.StepFlags | hirschberg/genHirsch.h:323-420 | each pass writes a gap exactly where it read one |
| GenHirsch.PairsGap | hirschberg/genHirsch.h:330-344 | a gap leaves the pairs as they were (also lines 400-418 of the same file) |
| GenHirsch.PairsPair | hirschberg/genHirsch.h:345-399 | a pair adds the pair under the match table's flag |
| GenHirsch.StepPairs | hirschberg/genHirsch.h:323-420 | each pass keeps the k-th aligned bases of the two sides paired under the match table's flag |
| GenHirsch.CountsIns | hirschberg/genHirsch.h:330-344 | an insertion keeps the counters counting |
| GenHirsch.CountsDel | hirschberg/genHirsch.h:400-418 | a deletion keeps the counters counting |
| GenHirsch.CountsPair | hirschberg/genHirsch.h:345-399 | a pair keeps the counters counting |
| GenHirsch.StepCounts | hirschberg/genHirsch.h:323-420 | each pass keeps numIns, numDels, numSnps and numMatches counting what has been read |
| GenHirsch.EndsPair | hirschberg/genHirsch.h:370-384 | a pair becomes the last pair, and the first when there was none |
| GenHirsch.EndsGap | hirschberg/genHirsch.h:330-344 | a gap leaves the first and last pairs as they were (also lines 400-418 of the same file) |
| GenHirsch.StepEnds | hirschberg/genHirsch.h:323-420 | each pass keeps the first and last positions those of the first and last pair read |
| GenHirsch.StepAgrees | hirschberg/genHirsch.h:323-420 | each pass keeps flags, pairs, counters and ends in agreement with what has been read |
| GenHirsch.RunAgrees | hirschberg/genHirsch.h:323-420 | the whole walk keeps that agreement |
| GenHirsch.WalkMeaning | hirschberg/genHirsch.h:323-420 | the walk writes a gap exactly where HirschbergFun left one; the k-th aligned bases of the two sides carry the match table's flag; it counts an insertion per query gap, a deletion per reference gap, a snp or match per pair; and first/last are the first and last pairs |
| GenHirsch.WalkFlags | hirschberg/genHirsch.h:323-420 | the written flags have a gap exactly where the read flags do |
| GenHirsch.HirschViewMasks | hirschberg/genHirsch.h:421-510 | each output flag array has one flag per base, the end flag after the last, and soft masks outside the aligned windows |
| GenHirsch.HirschViewGaps | hirschberg/genHirsch.h:323-510 | inside the windows the alnStruct has a gap exactly where HirschbergFun left one and an aligned base elsewhere |
| GenHirsch.HirschViewPairs | hirschberg/genHirsch.h:323-510 | inside the windows each aligned reference base and its query partner carry the same flag, match when the table says so |
| GenHirsch.HirschViewCounts | hirschberg/genHirsch.h:323-510 | the alnStruct counts an insertion per query gap, a deletion per reference gap and a snp or match per pair; lenAln is window plus insertions; start and end are the first and last pairs, or the sequence length when nothing aligned |
| GenHirsch.AlnEndAsWritten | hirschberg/genHirsch.h:440-446 | the end coordinate as written: the last aligned base when it is above 0, else the sequence length; EndAsWrittenMissesFirstBase shows it records the length for an alignment ending at base 0 |
| GenHirsch.AlnEnd | hirschberg/genHirsch.h:440-446 | the end coordinate as intended: the last aligned base, the sequence length only when nothing aligned; HirschViewCounts proves the recorded ends are the last pair's positions, or the lengths when there is no pair |
| GenHirsch.EndAsWrittenMissesFirstBase | hirschberg/genHirsch.h:440-447 | one base aligned to one base ends at 0, but the `> 0` test records the sequence length 1 as the end |
| GenHirsch.WalkStep | hirschberg/genHirsch.h:323-420 | one pass of the loop does what Step states and writes its flags to the output arrays |
| GenHirsch.CopyAln | hirschberg/genHirsch.h:300-420 | the loop leaves the counters and written flags of the whole walk |
| GenHirsch.CloseFlags | hirschberg/genHirsch.h:421-510 | the output array ends up closed: soft masks outside the walk's flags and the end flag after the last base |
| GenHirsch.HirschToAlnST | hirschberg/genHirsch.h:207-512 | returns null exactly when an allocation fails; otherwise the alnStruct HirschView describes (with the corrected end coordinate) |
| HirschScore.Rev | hirschberg/genScoreNoGapHirsch.h:349-463 | the reverse pass reads its regions back to front: entry k is entry len - 1 - k |
| HirschScore.NoGapCells | hirschberg/genScoreNoGapHirsch.h:82-168 | a row has one cell per reference base after the gap column it starts with |
| HirschScore.GapsLinear | hirschberg/genScoreNoGapHirsch.h:240-257 | n gaps cost n * gapOpen in the no-gap scoring |
| HirschScore.NoGapRow | hirschberg/genScoreNoGapHirsch.h:240-304 | row i of the linear-gap matrix has lenRef + 1 cells and starts with i gaps |
| HirschScore.ForRow | hirschberg/genScoreNoGapHirsch.h:203-313 | the forward pass's last row has lenRef + 1 entries |
| HirschScore.BackRow | hirschberg/genScoreNoGapHirsch.h:349-463 | the reverse pass's last row has lenRef + 1 entries |
| HirschScore.Pos | hirschberg/genScoreNoGapHirsch.h:258-304 | the array index of every cell lies inside the region (also lines 408-454 of the same file) |
| HirschScore.HoldsForward | hirschberg/genScoreNoGapHirsch.h:258-304 | the forward pass stores cells 1 .. len of the row left to right in the region |
| HirschScore.HoldsBackward | hirschberg/genScoreNoGapHirsch.h:408-454 | the reverse pass stores the row right to left in the region |
| HirschScore.OrientForward | hirschberg/genScoreNoGapHirsch.h:258-304 | the forward pass reads the region front to back |
| HirschScore.OrientBackward | hirschberg/genScoreNoGapHirsch.h:408-454 | the reverse pass reads the region back to front |
| HirschScore.CellStep | hirschberg/genScoreNoGapHirsch.h:82-111 | hirschScoreNoGap writes the next cell of the row at its index, hands on nextSnpScore and delScore, and changes nothing else |
| HirschScore.FillNoGapRow | hirschberg/genScoreNoGapHirsch.h:272-290 | the inner loop and the end cell leave the whole row in the region and nothing else changes (also lines 418-440 of the same file) |
| HirschScore.LastCell | hirschberg/genScoreNoGapHirsch.h:146-168 | hirschScoreRowEndNoGap completes the row |
| HirschScore.PassRow | hirschberg/genScoreNoGapHirsch.h:267-302 | one pass of the outer loop advances the region to the next row and the gap column by gapOpen (also lines 417-452 of the same file) |
| HirschScore.ForRowZero | hirschberg/genScoreNoGapHirsch.h:240-257 | the forward first row is gapOpen, 2 * gapOpen, ... from refStart |
| HirschScore.RevRowZero | hirschberg/genScoreNoGapHirsch.h:386-407 | the reverse first row is the same, filled from the region's end down |
| HirschScore.ScoreHirschForNoGap | hirschberg/genScoreNoGapHirsch.h:203-313 | the region holds the last row of the forward matrix of the query window against the reference window, the gap column returned is qryLen * gapOpen, and nothing outside the region changes |
| HirschScore.ScoreHirschRevNoGap | hirschberg/genScoreNoGapHirsch.h:349-463 | the region holds the last row of the matrix of both windows read backwards, the gap column returned is qryLen * gapOpen, and nothing outside the region changes |
| HirschScore.NoGapBeats | hirschberg/genScoreNoGapHirsch.h:543-558 | one test per base of the region |
| HirschScore.NoGapBeatsScore | hirschberg/genScoreNoGapHirsch.h:543-558 | with every gap at gapOpen the test holds exactly where the pair score beats one gap |
| HirschScore.PositionSingleBaseNoGap | hirschberg/genScoreNoGapHirsch.h:495-590 | the region holds one match/snp flag at the last position whose pair score beats a gap (else the first base) and gaps elsewhere; the rest is unchanged and the base is flagged match/snp |
| HirschbergAln.SplitScores | hirschberg/hirschberg.h:286-302 | one cut score per cut of the reference: forward plus reverse row |
| HirschbergAln.ScanMid | hirschberg/hirschberg.h:294-302 | the loop's midPointUL starts at the last cut and moves only to a strictly better one, so it is a best cut so far and beats every earlier cut strictly |
| HirschbergAln.MidPoint | hirschberg/hirschberg.h:286-312 | the cut is inside the reference window |
| HirschbergAln.MidPointBest | hirschberg/hirschberg.h:286-312 | the cut scores at least every other cut; cut 0 is taken exactly when it beats every other strictly; otherwise the last cut, or the first strictly better one |
| HirschbergAln.MidPointUnique | hirschberg/hirschberg.h:286-312 | those tie rules fix the cut: any cut obeying them is MidPoint |
| HirschbergAln.Cut | hirschberg/hirschberg.h:245-312 | the cut HirschbergFun makes lies within the reference window |
| HirschbergAln.HirschCuts | hirschberg/hirschberg.h:245-312 | the cut rule HirschbergFun follows always cuts inside the window |
| HirschbergAln.Place | hirschberg/hirschberg.h:177-244 | a lone base lands inside the other window |
| HirschbergAln.HirschPlaces | hirschberg/hirschberg.h:177-244 | the placing rule HirschbergFun follows always places inside the window |
| HirschbergAln.HirschRulesFollow | hirschberg/hirschberg.h:177-312 | HirschCuts and HirschPlaces agree with Cut and Place wherever those apply |
| HirschbergAln.Leaf | hirschberg/hirschberg.h:145-244 | the direct cases write one flag per base, gaps and aligned bases only, and equally many aligned bases on both sides |
| HirschbergAln.Hirsch | hirschberg/hirschberg.h:87-348 | whatever the rules, the alignment has one flag per base of each window, only gaps and aligned bases, and equally many aligned bases on both sides |
| HirschbergAln.LeafBalanced | hirschberg/hirschberg.h:145-244 | a gap run holds no aligned base; a lone base pairs with exactly one base placed against it |
| HirschbergAln.FillGaps | hirschberg/hirschberg.h:145-176 | the gap loops flag the whole window as gaps and change nothing else |
| HirschbergAln.MidStep | hirschberg/hirschberg.h:294-302 | one pass of the midpoint loop adds the reverse score into one cell and keeps the best cut so far |
| HirschbergAln.FindMidPoint | hirschberg/hirschberg.h:286-312 | the midpoint loop returns MidPoint of the cut scores and leaves those scores in the forward row's window |
| HirschbergAln.ForwardHalf | hirschberg/hirschberg.h:253-265 | the forward pass leaves the forward row of the first query half in the window and returns its gap column |
| HirschbergAln.BackHalf | hirschberg/hirschberg.h:266-278 | the reverse pass leaves the reverse row of the second query half in the window and returns its gap column |
| HirschbergAln.ScorePasses | hirschberg/hirschberg.h:245-285 | the two passes leave rows whose best cut is Cut |
| HirschbergAln.ScoreSplit | hirschberg/hirschberg.h:245-312 | sections 3 and 4 return Cut |
| HirschbergAln.CutOfRows | hirschberg/hirschberg.h:245-312 | Cut is MidPoint of forward row of the first query half plus reverse row of the second half |
| HirschbergAln.HirschbergFun | hirschberg/hirschberg.h:87-348 | the windows of refAln and qryAln hold the Hirschberg alignment of the two windows under any rules that agree with Cut and Place, and nothing outside the windows changes |
| HirschbergAln.HirschLeaf | hirschberg/hirschberg.h:140-244 | an empty window or a lone base is aligned directly as Hirsch states |
| HirschbergAln.HirschLoneBase | hirschberg/hirschberg.h:177-244 | a lone base is paired or placed by positionSingleBase as Hirsch states |
| HirschbergAln.HirschSplit | hirschberg/hirschberg.h:245-347 | windows of two bases or more are cut and each half aligned, as Hirsch states |
| HirschbergAln.HirschHalves | hirschberg/hirschberg.h:313-347 | the first halves are aligned, then the second halves, making up the whole |
| HirschbergAln.HirschSecond | hirschberg/hirschberg.h:330-347 | aligning the second halves after the first completes the whole alignment |
| HirschbergAln.JoinHalves | hirschberg/hirschberg.h:313-347 | two aligned halves, written one after the other, make up the whole window's alignment |
| HirschbergAln.HirschSplits | hirschberg/hirschberg.h:313-347 | the alignment of split windows is the first halves' alignment followed by the second halves' |
| HirschbergAln.JoinWindows | hirschberg/hirschberg.h:313-347 | two adjacent windows make up the window they cover |
| HirschbergAln.HirschbergWalk | hirschberg/hirschberg.h:488-533 | what Hirschberg hands hirschToAlnST is one flag per window base with aligned bases paired, starting at the window offsets |
| HirschbergAln.HirschbergReads | hirschberg/hirschberg.h:488-533 | the arrays HirschbergFun filled, closed by the calloc'd 0, are what hirschToAlnST reads |
| HirschbergAln.Hirschberg | hirschberg/hirschberg.h:371-533 | returns null exactly when an allocation fails; otherwise the alnStruct hirschToAlnST makes of the Hirschberg alignment of the two windows |
| HirschbergAln.HirschbergFill | hirschberg/hirschberg.h:408-511 | the two score rows are allocated and HirschbergFun fills the flag arrays hirschToAlnST reads |
| HirschbergAln.FillWindows | hirschberg/hirschberg.h:488-511 | HirschbergFun over both whole windows writes Hirsch under HirschCuts and HirschPlaces and leaves the closing 0 |
| AlnFormat.CigarOp | general/alnStruct.h:1538-1671 | exactly the five expanded-cigar symbols =, X, I, D and S decode to an eqx operation |
| AlnFormat.EqxAddGap | general/alnStruct.h:1538-1561 | expanded cigar writes I for an insertion and D for a deletion, EMBOSS and Clustal a space, and any other format leaves the buffer byte alone |
| AlnFormat.EqxAddSMask | general/alnStruct.h:1576-1597 | expanded cigar writes S, EMBOSS and Clustal a space, and any other format leaves the buffer byte alone |
| AlnFormat.EqxAddSnp | general/alnStruct.h:1612-1633 | expanded cigar writes X, EMBOSS and Clustal a space, and any other format leaves the buffer byte alone |
| AlnFormat.EqxAddMatch | general/alnStruct.h:1648-1671 | expanded cigar writes =, EMBOSS and Clustal a non-space mark, and any other format leaves the buffer byte alone |
| AlnFormat.ExpandCigRoundTrip | general/alnStruct.h:1538-1671 | an expanded-cigar eqx line written by the four writers decodes back to the operations that wrote it, column by column |
| AlnFormat.MarksOnlyMatches | general/alnStruct.h:1538-1671 | in the EMBOSS and Clustal formats a column gets a mark exactly when it is a match |
| AlnFormat.SChar | general/alnStruct.h:1046-1050 | a byte read as a signed char lies in -128..127 and is above 32 exactly when it is a printable non-space ASCII byte |
| AlnFormat.HeaderSkip | general/alnStruct.h:1043 | one leading '>' or '@' is skipped, and nothing else |
| AlnFormat.WordStart | general/alnStruct.h:1046 | the scan stops at the first word byte, every byte before it being white space |
| AlnFormat.WordEnd | general/alnStruct.h:1049 | the scan stops at the first white-space byte, every byte before it being a word byte |
| AlnFormat.CapPos | general/alnStruct.h:1036-1059 | the capped position lies inside the id and below maxIdLenI |
| AlnFormat.CapPosMeaning | general/alnStruct.h:1036-1059 | the capped id keeps only word bytes from its first word on, and ends either at the first white space after that word or at index maxIdLenI - 1 |
| AlnFormat.CapIdLen | general/alnStruct.h:1036-1059 | the NUL goes at CapPos, the byte it replaced is returned, and no other byte of the id changes |
| AlnRender.CountFrom | general/alnStruct.h:361-485 | counting a flag over a suffix adds the first flag's share to the count of the rest |
| AlnRender.PairsFrom | general/alnStruct.h:361-485 | the match/SNP count of a suffix is its first flag's share plus the count of the rest |
| AlnRender.Render | general/alnStruct.h:361-485 | the loop writes the two gapped strings column by column, so they have equal length |
| AlnRender.UngapCons | general/alnStruct.h:385-471 | removing the '-' of a string and counting them both split over its first byte |
| AlnRender.RenderKeepsRef | general/alnStruct.h:361-485 | printing the whole alignment, the reference line with its '-' removed is the reference bases from the start flag on |
| AlnRender.RenderKeepsQry | general/alnStruct.h:361-485 | printing the whole alignment, the query line with its '-' removed is the query bases from the start flag on |
| AlnRender.RenderDashes | general/alnStruct.h:381-429 | printing the whole alignment, the reference line holds one '-' per query gap or soft mask and the query line one per reference gap or soft mask |
| AlnRender.AlignedIsPrefix | general/alnStruct.h:367-373 | printing only the aligned region writes a prefix of the columns printing everything from the same flags writes |
| AlnRender.ClosedFlags | general/alnStruct.h:700-742 | a flag array closed by dirMatrixToAln (soft masks up to the length, then the end flag) is well formed and keeps the path's match/SNP count |
| AlnRender.PairsSuffix | general/alnStruct.h:325-335 | starting past flags that hold no match/SNP keeps the match/SNP count |
| AlnRender.TracebackRenders | general/alnStruct.h:325-364 | every alignment dirMatrixToAln builds can be printed whole or from its start: the flags are well formed and both arrays hold the same number of match/SNP flags from there, so the loop ends on both end flags |
| AlnRender.HirschRenders | hirschberg/genHirsch.h:207-512 | every alignment hirschToAlnST builds can be printed by alnSTToSeq, whole or only its aligned region: flag arrays well formed, equally many match and snp flags on both sides, and no pair flag before the recorded start |
| AlnRender.WindowsRender | hirschberg/genHirsch.h:207-512 | flag arrays with a window of gaps and pair flags between soft masks, equal match and snp counts, and the start at each window's first pair can be printed in both modes |
| AlnRender.RenderFits | general/alnStruct.h:361-485 | every column uses up at least one non-end flag, so a rendering never has more columns than flags left |
| AlnRender.BuffSize | general/alnStruct.h:286-297 | the buffer size alnSTToSeq computes: lenAlnUL for the aligned region, otherwise the counters plus the unaligned bases around the alignment; AlignedBufferShort exhibits a rendering longer than the aligned-mode size |
| AlnRender.AlignedBufferShort | general/alnStruct.h:286-299 | for DelEndView, printing only the aligned region writes three columns while the buffer the source sizes holds lenAlnUL = 2 plus the NUL |
| AlnRender.FillQryGap | general/alnStruct.h:381-393 | a query gap or soft mask writes '-' over the query base and moves on one query flag |
| AlnRender.FillRefGap | general/alnStruct.h:400-429 | a reference gap or soft mask writes the reference base over '-' and moves on one reference flag |
| AlnRender.FillPair | general/alnStruct.h:437-471 | a match or SNP writes both bases and moves on in both arrays |
| AlnRender.FillDone | general/alnStruct.h:361-373 | when the loop stops the buffers hold the whole rendering |
| AlnRender.FillColumn | general/alnStruct.h:381-485 | one pass of the loop writes the next column of the rendering and moves on at least one flag |
| AlnRender.FillBuffers | general/alnStruct.h:299-497 | the calloc'd buffers hold the rendering followed by the NUL |
| AlnRender.AlnToSeq | general/alnStruct.h:233-497 | returns -1 exactly when an allocation fails; otherwise both strings hold the rendering of the flags, NUL-terminated, in buffers large enough for any rendering |
| AlnStructs.AlnStruct.constructor | general/alnStruct.h:128-156 | initAlnST leaves both flag arrays null and every counter and coordinate 0 |
| AlnStructs.AlnStruct.Filled | general/alnStruct.h:614-619 | the structure holds the flag arrays, the sequence lengths, the end coordinates and the walk's counters, with the last match/SNP as the start |
| AlnStructs.FlatWalkable | general/alnStruct.h:627-692 | a direction matrix stored row after row whose gap row never points up or diagonally and whose gap column never points left or diagonally can be walked without leaving the matrix |
| AlnStructs.PairFlag | general/alnStruct.h:654-666 | a diagonal move flags its pair as a match or a SNP, as matchOrSnp decides |
| AlnStructs.Back | general/alnStruct.h:634-686 | an insertion moves up, a match/SNP diagonally and a deletion left, so every move gets closer to the corner |
| AlnStructs.RefStep | general/alnStruct.h:634-686 | a move flags one reference base exactly when it consumes one |
| AlnStructs.QryStep | general/alnStruct.h:634-686 | a move flags one query base exactly when it consumes one |
| AlnStructs.RefFlags | general/alnStruct.h:629-720 | the path flags one entry per reference base before its start cell |
| AlnStructs.QryFlags | general/alnStruct.h:629-726 | the path flags one entry per query base before its start cell |
| AlnStructs.CountFlag | general/alnStruct.h:640-681 | a count of one flag never exceeds the length of the array |
| AlnStructs.CountFlagAppend | general/alnStruct.h:640-681 | counting a flag over two arrays joined adds the two counts |
| AlnStructs.CountFlagConst | general/alnStruct.h:716-746 | a run of soft masks counts only soft masks |
| AlnStructs.StepCounts | general/alnStruct.h:640-691 | every move adds exactly one to one of the four counters, and a match/SNP flags the same on both sides |
| AlnStructs.PathLenIsCountSum | general/alnStruct.h:640-691 | lenAlnUL equals numInssUL + numDelsUL + numSnpsUL + numMatchesUL for every path |
| AlnStructs.PairFlagsAgree | general/alnStruct.h:654-666 | both flag arrays hold as many SNP flags and as many match flags |
| AlnStructs.FlagsAreSet | general/alnStruct.h:733-746 | every flag the walk leaves is a real flag, never the 0 the tail loops stop on |
| AlnStructs.PairFreeNone | general/alnStruct.h:651-652 | a flag array with no match/SNP count holds no match/SNP flag |
| AlnStructs.LeftmostExtend | general/alnStruct.h:651-652 | flags added after the leftmost match/SNP leave it leftmost |
| AlnStructs.LeftmostFirst | general/alnStruct.h:651-652 | the first match/SNP added to a pair-free array is its leftmost |
| AlnStructs.PairsPositive | general/alnStruct.h:651-652 | an array holding a match/SNP flag has a positive match/SNP count |
| AlnStructs.PairsAppend | general/alnStruct.h:651-666 | the match/SNP count of two arrays joined is the sum of their counts |
| AlnStructs.LeftmostStep | general/alnStruct.h:651-652 | one move keeps the recorded last match/SNP at the leftmost match/SNP flag of both arrays |
| AlnStructs.LeftmostNew | general/alnStruct.h:651-652 | the first match/SNP added to two pair-free arrays is leftmost in both |
| AlnStructs.LeftmostKeep | general/alnStruct.h:651-652 | flags added after the leftmost match/SNP flags leave them leftmost |
| AlnStructs.FirstPairIsLeftmost | general/alnStruct.h:651-652 | refStartAlnUL and qryStartAlnUL are the leftmost reference and query bases flagged as a match or SNP, or 0 when the path has none |
| AlnStructs.CellInMatrix | general/alnStruct.h:627 | a cell inside the matrix has its index inside the flat matrix |
| AlnStructs.MoveInside | general/alnStruct.h:634-686 | in a walkable matrix an insertion or match/SNP never starts on the gap row and a deletion or match/SNP never on the gap column |
| AlnStructs.FlagsNext | general/alnStruct.h:636-680 | one move writes its flag just before the flags written so far, and every other entry stays 0 |
| AlnStructs.CountedNext | general/alnStruct.h:640-681 | after one move the counters count the flags written so far |
| AlnStructs.WalkedNext | general/alnStruct.h:651-691 | after one move the length counter and the last match/SNP account for the moves walked |
| AlnStructs.TracedNext | general/alnStruct.h:629-692 | one move of the walk keeps its whole state |
| AlnStructs.RowBack | general/alnStruct.h:641 | the cell above is lenRefUL + 1 cells back |
| AlnStructs.DiagBack | general/alnStruct.h:668 | the diagonal cell is lenRefUL + 2 cells back |
| AlnStructs.WalkInsNext | general/alnStruct.h:634-645 | an insertion flags the query base as a gap, counts it and moves up a row |
| AlnStructs.CountOne | general/alnStruct.h:640-681 | a single flag counts once for its own kind and never for another |
| AlnStructs.SnpSteps | general/alnStruct.h:648-675 | a diagonal move flags both bases with the same pair flag and moves to the diagonal cell |
| AlnStructs.WalkSnpNext | general/alnStruct.h:648-675 | a match/SNP flags both bases, counts a match or a SNP, records the coordinates and moves diagonally |
| AlnStructs.WalkDelNext | general/alnStruct.h:678-686 | a deletion flags the reference base as a gap, counts it and moves one cell left |
| AlnStructs.TraceIns | general/alnStruct.h:634-645 | case defMvIns moves to the cell above and keeps the walk state |
| AlnStructs.TraceSnp | general/alnStruct.h:648-675 | case defMvSnp moves to the diagonal cell and keeps the walk state |
| AlnStructs.TraceDel | general/alnStruct.h:678-686 | case defMvDel moves to the cell on the left and keeps the walk state |
| AlnStructs.DirAtIndex | general/alnStruct.h:627-629 | the entry at the walk's index is the direction of its cell |
| AlnStructs.TraceStep | general/alnStruct.h:629-692 | one pass of the loop moves closer to the corner and keeps the walk state |
| AlnStructs.TracedStart | general/alnStruct.h:589-627 | before the first move nothing has been written and every counter is 0 |
| AlnStructs.TraceBack | general/alnStruct.h:627-692 | the loop stops at the first stop cell on the path, with the path's flags written and the counters holding its counts |
| AlnStructs.MaskHead | general/alnStruct.h:716-726 | every base before the stop cell is soft masked and nothing after it changes |
| AlnStructs.MaskTail | general/alnStruct.h:733-746 | every entry after the start cell still 0 from calloc becomes a soft mask and nothing else changes |
| AlnStructs.FinishFlags | general/alnStruct.h:711-750 | the flag array becomes the path's flags padded with soft masks and closed by the end flag |
| AlnStructs.MatrixTrace | general/alnStruct.h:567-582 | the walk reads the matrix over the aligned windows of the two sequences |
| AlnStructs.Closed | general/alnStruct.h:733-750 | a closed flag array holds one entry per base plus the end flag |
| AlnStructs.StopFlags | general/alnStruct.h:694-726 | at the stop cell the written flags, with soft masks before them, are the path's flags, and the counters are the path's counts |
| AlnStructs.WalkAndClose | general/alnStruct.h:627-750 | both flag arrays are the path's flags closed at the sequence lengths, and the counters are the path's counts and first match/SNP |
| AlnStructs.StartCoord | general/alnStruct.h:567-572 | off the gap row and column, indexToCoord gives the 0-based positions one less than the cell's column and row |
| AlnStructs.BuildAln | general/alnStruct.h:589-752 | the fresh structure holds exactly the alignment of the path from the start cell |
| AlnStructs.BuildUnaligned | general/alnStruct.h:589-752 | from index 0 every base of both sequences is soft masked and every counter is 0 |
| AlnStructs.CornerView | general/alnStruct.h:627-752 | the path from the corner cell aligns nothing, which is what BuildUnaligned builds |
| AlnStructs.DirMatrixToAln | general/alnStruct.h:523-753 | null exactly when an allocation fails; otherwise a fresh structure holding the alignment of the path from the given index, with the window offsets added to its end coordinates |
| SortAndFilt.Zip | general/sortAndFiltAltAlns.h:125-127 | the slots pair the three arrays entry by entry, one slot per score |
| SortAndFilt.AltAt | general/sortAndFiltAltAlns.h:125-127 | reading index i of the three arrays gives slot i |
| SortAndFilt.Swap | general/sortAndFiltAltAlns.h:75-81 | swapping two slots keeps the number of slots |
| SortAndFilt.Sink | general/sortAndFiltAltAlns.h:164-179 | moving the swapped element back keeps the number of slots |
| SortAndFilt.Pass | general/sortAndFiltAltAlns.h:152-181 | one chain of a round keeps the number of slots |
| SortAndFilt.PairStep | general/sortAndFiltAltAlns.h:156-180 | one pair of a chain keeps the number of slots |
| SortAndFilt.Chains | general/sortAndFiltAltAlns.h:150-182 | one round keeps the number of slots |
| SortAndFilt.Rounds | general/sortAndFiltAltAlns.h:148-185 | the rounds keep the number of slots |
| SortAndFilt.Grow | general/sortAndFiltAltAlns.h:139-140 | the gap grows to at least the element count |
| SortAndFilt.ShellSort | general/sortAndFiltAltAlns.h:101-186 | the shell sort keeps the number of slots |
| SortAndFilt.SwapSlots | general/sortAndFiltAltAlns.h:75-81 | the swap macro applied to all three arrays swaps the two slots and changes nothing else |
| SortAndFilt.SinkBack | general/sortAndFiltAltAlns.h:164-179 | the inner while loop over the arrays leaves the slots as Sink does |
| SortAndFilt.PassChain | general/sortAndFiltAltAlns.h:152-181 | the ulElm loop over the arrays leaves the slots as Pass does |
| SortAndFilt.Round | general/sortAndFiltAltAlns.h:150-182 | the ulIndex loop over the arrays leaves the slots as Chains does |
| SortAndFilt.ShellSortSlots | general/sortAndFiltAltAlns.h:139-185 | the gap computation and the rounds over the arrays leave the slots as ShellSort does |
| SortAndFilt.PermutesTrans | general/sortAndFiltAltAlns.h:148-185 | two reorderings of the same range in a row are one reordering |
| SortAndFilt.SwapPermutes | general/sortAndFiltAltAlns.h:75-81 | swapping two slots of the range reorders the range and leaves everything outside it |
| SortAndFilt.SwapMultiset | general/sortAndFiltAltAlns.h:75-81 | a swap keeps the multiset of slots |
| SortAndFilt.SinkPermutes | general/sortAndFiltAltAlns.h:164-179 | moving the swapped element back only reorders the range |
| SortAndFilt.SinkMultiset | general/sortAndFiltAltAlns.h:164-179 | moving the swapped element back keeps the multiset of slots |
| SortAndFilt.SinkFrame | general/sortAndFiltAltAlns.h:164-179 | moving the element back changes no slot outside lo .. on |
| SortAndFilt.SinkUnfolds | general/sortAndFiltAltAlns.h:167-178 | when the break test fails the element is swapped one gap back and keeps sinking from there |
| SortAndFilt.PassPermutes | general/sortAndFiltAltAlns.h:152-181 | a chain only reorders the range |
| SortAndFilt.PairStepPermutes | general/sortAndFiltAltAlns.h:156-180 | one pair of a chain only reorders the range |
| SortAndFilt.ChainsPermutes | general/sortAndFiltAltAlns.h:150-182 | a round only reorders the range |
| SortAndFilt.RoundsPermutes | general/sortAndFiltAltAlns.h:148-185 | the rounds only reorder the range |
| SortAndFilt.ShellSortPermutes | general/sortAndFiltAltAlns.h:101-186 | every variant of the sort only reorders whole slots within the range: a score stays with its start and end |
| SortAndFilt.ConsistentTests | general/sortAndFiltAltAlns.h:158-172 | the score sort's swap and break tests as written agree with lowest-first order; the documented score and query tests agree with greatest-first and query-lowest-then-score-highest order |
| SortAndFilt.SinkSorts | general/sortAndFiltAltAlns.h:164-179 | with gap 1 the element sinks into place in a sorted run |
| SortAndFilt.PassSorts | general/sortAndFiltAltAlns.h:152-181 | with gap 1 a chain is an insertion sort of the range |
| SortAndFilt.PassKeeps | general/sortAndFiltAltAlns.h:152-181 | a chain over slots already in order swaps nothing |
| SortAndFilt.ChainsSort | general/sortAndFiltAltAlns.h:150-182 | the round with gap 1 leaves the range in order |
| SortAndFilt.GrowKnuth | general/sortAndFiltAltAlns.h:138-140 | growing the gap as 3h + 1 keeps it in the sequence 1, 4, 13, 40, ... |
| SortAndFilt.StartGapKnuth | general/sortAndFiltAltAlns.h:138-141 | two or more elements give a first gap in that sequence, so the last round has gap 1; fewer give no round |
| SortAndFilt.RoundsSort | general/sortAndFiltAltAlns.h:148-185 | rounds whose gaps end in 1 leave the range in order |
| SortAndFilt.ShellSortOrders | general/sortAndFiltAltAlns.h:101-186 | a sort whose tests agree with an order leaves the range in that order when it counts two or more elements, and changes nothing otherwise |
| SortAndFilt.AlnMatrixSortScoresAsWritten | general/sortAndFiltAltAlns.h:101-186 | the macro as written: gaps counted from endElm - firstElm, chains from slot 0, the greater score moved later |
| SortAndFilt.AlnMatrixSortScores | general/sortAndFiltAltAlns.h:101-186 | the documented sort of slots firstElm .. endElm, greatest score first |
| SortAndFilt.SortQryScoresAsWritten | general/sortAndFiltAltAlns.h:207-315 | the macro as written: its swap test moves the lower query start later and its break test stops the move back the other way |
| SortAndFilt.SortQryScores | general/sortAndFiltAltAlns.h:207-315 | the documented sort of slots firstElm .. endElm, query start lowest first, then score highest first |
| SortAndFilt.AlnMatrixSortAsWrittenAscends | general/sortAndFiltAltAlns.h:101-186 | as written the sort reorders slots 0 .. endElm lowest score first, and only when endElm - firstElm is at least 2 |
| SortAndFilt.AlnMatrixSortAsWrittenKeepsPair | general/sortAndFiltAltAlns.h:116 | two slots are left unsorted, lower score first |
| SortAndFilt.AlnMatrixSortScoresDescends | general/sortAndFiltAltAlns.h:101-186 | the corrected sort leaves the range greatest score first and only reorders whole slots |
| SortAndFilt.SortQryAsWrittenMisorders | general/sortAndFiltAltAlns.h:279-301 | as written, query starts 0, 1, 2 come out as 1, 2, 0 |
| SortAndFilt.SortQryScoresOrders | general/sortAndFiltAltAlns.h:207-315 | the corrected sort leaves the range query start lowest first, then score highest first, and only reorders whole slots |
| SortAndFilt.FiltStep | general/sortAndFiltAltAlns.h:661-719 | one pass keeps the number of slots and never puts the kept slot past the one being read |
| SortAndFilt.FiltFrom | general/sortAndFiltAltAlns.h:659-720 | the loop keeps the number of slots and its kept slot inside them |
| SortAndFilt.Blank | general/sortAndFiltAltAlns.h:734-738 | blanking keeps the number of slots |
| SortAndFilt.Filter | general/sortAndFiltAltAlns.h:659-738 | the loop, the step off the last kept slot and the blanking keep the number of slots |
| SortAndFilt.AltScoreFilt | general/sortAndFiltAltAlns.h:609-739 | sorting then filtering keeps the number of slots |
| SortAndFilt.CopySlot | general/sortAndFiltAltAlns.h:671-673 | one slot of all three arrays takes another's alignment and nothing else changes |
| SortAndFilt.FiltSlot | general/sortAndFiltAltAlns.h:661-719 | one pass of the loop over the arrays does what FiltStep does |
| SortAndFilt.FilterSlots | general/sortAndFiltAltAlns.h:659-738 | the loop, the step and the blanking over the arrays do what Filter does |
| SortAndFilt.ZeroSlot | general/sortAndFiltAltAlns.h:736 | one score becomes 0 and nothing else changes |
| SortAndFilt.BlankSlots | general/sortAndFiltAltAlns.h:734-738 | the scores from the first unkept slot on become 0 and nothing else changes |
| SortAndFilt.BlankStep | general/sortAndFiltAltAlns.h:734-738 | zeroing one more slot extends the blanked range by one |
| SortAndFilt.AltScoreFiltQry | general/sortAndFiltAltAlns.h:609-739 | the arrays end as AltScoreFilt says: sorted by query start, filtered, the tail zeroed |
| SortAndFilt.SortedStartsRise | general/sortAndFiltAltAlns.h:657 | slots sorted query start first have query starts that never fall from one slot to a later one |
| SortAndFilt.MaxScore | general/sortAndFiltAltAlns.h:689-696 | the best score among the first slots is at least each of theirs and is one of them |
| AltFilt.FiltInvInit | general/sortAndFiltAltAlns.h:657-659 | before the loop the invariant holds on sorted slots |
| AltFilt.FiltStepInv | general/sortAndFiltAltAlns.h:659-720 | every pass of the loop keeps the invariant on sorted, well-formed slots |
| AltFilt.FiltBlankInv | general/sortAndFiltAltAlns.h:661-679 | skipping a zero score, or filling a blank kept slot, keeps the invariant |
| AltFilt.FiltOverlapInv | general/sortAndFiltAltAlns.h:686-697 | an overlapping alignment replaces the kept one only with a higher score, keeping the invariant |
| AltFilt.FiltPastInv | general/sortAndFiltAltAlns.h:699-715 | an alignment past the kept one's end is kept in the next slot, and the same-slot branch cannot happen on well-formed slots |
| AltFilt.FiltInvKeeps | general/sortAndFiltAltAlns.h:661-697 | a pass that changes nothing keeps the invariant |
| AltFilt.FiltInvReplace | general/sortAndFiltAltAlns.h:669-696 | the kept slot taking the new alignment keeps the invariant |
| AltFilt.ReplaceDisjoint | general/sortAndFiltAltAlns.h:689-696 | replacing the kept slot by an alignment starting no earlier keeps the kept slots apart |
| AltFilt.ReplaceDominated | general/sortAndFiltAltAlns.h:691-696 | replacing the kept slot by a score at least as high keeps every alignment seen dominated |
| AltFilt.FiltInvAppend | general/sortAndFiltAltAlns.h:699-707 | keeping the alignment in the next slot keeps the invariant |
| AltFilt.AppendDisjoint | general/sortAndFiltAltAlns.h:699-707 | an alignment starting after the kept one ends keeps the kept slots apart |
| AltFilt.AppendDominated | general/sortAndFiltAltAlns.h:699-707 | keeping a new alignment keeps every alignment seen dominated |
| AltFilt.FiltFromKeeps | general/sortAndFiltAltAlns.h:659-720 | the loop run to the end keeps any invariant each pass keeps |
| AltFilt.FiltStepsKeep | general/sortAndFiltAltAlns.h:659-720 | every pass keeps the filter's invariant |
| AltFilt.FilterInv | general/sortAndFiltAltAlns.h:659-720 | on sorted, well-formed slots the loop ends in the invariant |
| AltFilt.FinalBest | general/sortAndFiltAltAlns.h:659-720 | at the end of the loop every nonzero alignment scores no higher than a kept one |
| AltFilt.LoopEnd | general/sortAndFiltAltAlns.h:659-720 | at the end of the loop the kept slots hold input alignments, are blank only when all input is, do not overlap on the query, and dominate every nonzero input alignment |
| AltFilt.FilterKept | general/sortAndFiltAltAlns.h:727-732 | the filter keeps at least one slot |
| AltFilt.FilterKeepsInput | general/sortAndFiltAltAlns.h:659-738 | each kept slot holds an input alignment and is blank only when every input alignment is |
| AltFilt.FilterKeepsBest | general/sortAndFiltAltAlns.h:686-697 | every nonzero input alignment scores no higher than some kept slot |
| AltFilt.FilterKeepsApart | general/sortAndFiltAltAlns.h:686-707 | the kept slots do not overlap on the query |
| AltFilt.FilterHead | general/sortAndFiltAltAlns.h:727-738 | the filter keeps the loop's slots up to the last one it kept |
| AltFilt.BlankedSlots | general/sortAndFiltAltAlns.h:734-738 | blanking the tail keeps what the loop established about the kept slots |
| AltFilt.BlankKeepsHead | general/sortAndFiltAltAlns.h:734-738 | blanking the tail leaves the kept slots as they were |
| AltFilt.SortedInput | general/sortAndFiltAltAlns.h:657 | the sorted slots are a reordering of the input, query starts rising, still well formed |
| AltFilt.AltScoreFiltSkipsZeros | general/sortAndFiltAltAlns.h:609-739 | at least one slot is kept; each kept slot holds an input alignment and is blank only when every input alignment is |
| AltFilt.AltScoreFiltKeepsBest | general/sortAndFiltAltAlns.h:596-739 | the best of each overlap is kept: every nonzero input alignment scores no higher than some kept slot, and the kept slots follow each other on the query without overlap |
| AltFilt.AltScoreFiltBlanksTail | general/sortAndFiltAltAlns.h:722-738 | every slot past the kept ones has score 0 |
| WaterTwoBit.WaterFirstRow | waterman/waterTwoBit.h:183-223 | row 0 and the first column-0 cell of the two-bit matrix are stops, the score row is 0, and the values follow the local recurrence with no peak yet |
| WaterTwoBit.WaterStart | waterman/waterTwoBit.h:183-223 | stops in row 0 and a zero score row are the state of the query loop before row 1 |
| MemWater.MemStart | memWater/memWater.h:218-223 | before query row 1 the gap row scores 0, holds stops, each cell starts at itself and no cell has been kept |
| TwoBitArrays.ElmAt | general/twoBitArrays.h:116-123 | element k of the buffer is a 2-bit value |
| TwoBitArrays.ElmsOf | general/twoBitArrays.h:116-123 | a buffer of limbs holds four elements per limb |

## Left out

Corrected behaviour used in place of the code as written (each has a row under "## Findings"):

- AlnRecurrence.NextCell: uses the intended deletion score (`GenNeedle.NextDelScore`), not the `delScore` macro as written at needleman/genNeedle.h:92.
- GenNeedle.NeedleMaxScore: uses the intended deletion score, not `delScore` as written at needleman/genNeedle.h:92.
- GenWater.WaterMaxScore: uses the intended deletion score, not `delScore` as written at waterman/genWater.h:96.
- GenScan.WaterScanMaxScore: uses the intended deletion score, not the inline deletion score as written at general/genScan.h:888.
- Needleman.NeedlemanAln: its scores and directions follow the intended deletion score. On default settings they differ from the program's after any deletion.
- WaterTwoBit.WaterTwoBitAln: its scores and directions follow the intended deletion score, for the same reason.
- MemWater.MemWaterAln: its scores follow the intended deletion score. Its column-0 start indices follow `MemColZero`, not the single write at memWater/memWater.h:256.
- MemWater.MemColZero: resets the column-0 start index on every row. The code sets it once, before the first row.
- GenHirsch.HirschToAlnST: records the last aligned base with `AlnEnd` (`>= 0`), not with the `> 0` test at hirschberg/genHirsch.h:440-446.
- HirschbergAln.Hirschberg: inherits the corrected end test through `HirschToAlnST`.
- GenScan.ScanSnpDelIns: models the evident meaning of the undefined `macoIfMax` at general/genScan.h:469 (an `ifmax` on the snp/del/ins scores). That code does not compile as written.
- GenHirsch.MaxGapInsDelSnp: stores the first maximum in `retMax`, not in `isGap` as written at hirschberg/genHirsch.h:549.
- GenHirsch.MaxGapScore: built on the corrected `MaxGapInsDelSnp`.
- SortAndFilt.AltScoreFiltQry: sorts with the corrected `SortQryScores` (ascending query start, the whole range). It does not use the as-written sort.

Substituted or narrowed behaviour:

- HirschbergAln.ForwardHalf: scores a half with the no-gap-extension scoring of `scoreHirschForNoGap` (genScoreNoGapHirsch.h). The program includes genScoreHirsch.h (hirschberg.h:44) and calls its gap-extension `scoreHirschFor` with a direction row (hirschberg.h:250). genScoreHirsch.h is not part of this model, so the modelled cut differs from the program's whenever gapExtend differs from gapOpen.
- HirschbergAln.BackHalf: same substitution for `scoreHirschRev` (hirschberg.h:264).
- HirschbergAln.Cut: the split point is computed from the no-gap-extension halves above.
- HirschbergAln.HirschbergFun: its cuts come from the no-gap-extension halves. Its single-base leaves use the gap-extension `positionSingleBase` (`GenHirsch.PlaceBeats`), as the code does.
- HirschbergAln.Hirschberg: the same no-gap-extension cuts.
- AlnRender.AlnToSeq: sizes each output buffer to refLen + qryLen + 1 bytes (one per reference flag and query flag before the end flags, plus the NUL), a bound RenderFits proves every rendering stays within. The code sizes the aligned-mode buffer by `lenAlnUL + 1` (general/alnStruct.h:286-299), which can be too short (see "## Findings"). Buffer overruns are not modelled.
- AlnRender.BuffSize: the full-mode size is stated as the code computes it. It is not tied to the rendered counts.
- AlnStructs.DirMatrixToAln: a start index on the gap row or gap column other than index 0 is excluded by its requires. Index 0 is modelled: it aligns nothing.
- AlnStructs.DirMatrixToAln: the flag arrays are indexed by window-relative positions, while `refEndAlnUL`/`qryEndAlnUL` add the window offset. This is kept as the code has it.
- GenHirsch.HirschToAlnST: the same mix of window-relative flags and absolute ends is kept. The head soft-mask loop requires the window offset to lie inside the sequence.
- AlnFormat.CapIdLen: inputs on which the id scan would run past the buffer are excluded by `CanCap`.
- SortAndFilt.AltScoreFiltQry: requires at least one slot in the arrays.
- AlnSetStruct.AlnSet.InitAlnSet: the DNA pair overrides of alnSeqDefaults.h are parameters (`scorePairs`, `matchPairs`). alnSeqDefaults.h is not part of this model.
- AlnSetStruct.LookupTruncatesAtZeroIndex: `seqToLookupIndex` turns a byte with `c & 31 == 0` into NUL, which ends the string early. This is modelled and shown, not corrected.

Machine widths and C details:

- AlnSetStruct.AlnSet: `scoreMatrixC`, `gapOpenC` and `gapExtendC` are signed chars in the code (alnSetStruct.h:130-156). Here they are unbounded integers, so char wrap-around on out-of-range settings is not modelled.
- Needleman.NeedlemanAln: the `long` score accumulators are unbounded integers, so overflow on very long sequences is not modelled. The same holds for `WaterTwoBit.WaterTwoBitAln`, `MemWater.MemWaterAln` and `HirschbergAln.Hirschberg`.
- GenAln.CharMaxScore: the `switch` in `charMaxScore` (genAln.h:385-408) has no default. The `Pref` datatype has exactly the six preferences, so a preference flag outside them cannot be given.
- TwoBitArrays.MakeTwoBit: when the limb `calloc` fails, the code frees the structure, sets it to 0 and then writes `lenAryUL` through it (twoBitArrays.h:347-350). Here `allocFails` gives null, without the null dereference.
- TwoBitArrays.TwoBitAry.TwoBitMvForXElm: the macro also adds `elmOnC` into its `shiftBy` argument (twoBitArrays.h:157). The caller's variable is not modelled.
- TwoBitArrays.TwoBitAry.GetLen: `twoBitGetLen` returns `lenAryUL << 2`, four times the element count that `makeTwoBit` stores. This is kept as written.
- TwoBitArrays.TwoBitAry: `blankTwoBitLimb` sets the limb pointer to 0 rather than zeroing the limb (twoBitArrays.h:275-278). It is not modelled, because nothing in the core calls it.
- MemWater.MemWaterAln: the five mallocs of memWater.h:153-210 (the alnMatrix, dirRow, scoreAryL and the two index rows) fail together through the one `allocFails` parameter; which of them failed, and the frees of the ones before it, are not modelled.
- Allocation failure is a boolean parameter (`allocFails`) wherever the code tests a `malloc` or `calloc` result.
- AlnStructs.DirMatrixToAln: the code tests `refAlnStr` twice after its callocs (alnStruct.h:596, 606), so a failed query calloc goes unnoticed. The model fails both allocations together.
- AlnRender.AlnToSeq: `alnSTToSeq` frees `*refRetStr` twice on its failure path (alnStruct.h:280-281). Freeing is not modelled.
- GenHirsch.PlaceBeats: scores the lone base as `getBaseScore(regionBase, loneBase)`, as `positionSingleBase` does (genHirsch.h:140). When the lone base is a query base (hirschberg.h:230), this indexes the score matrix as (reference, query), the reverse of every other lookup. The model keeps this order, so that case scores as intended only for a symmetric matrix.

Operations not modelled:

- `sortRefScores`, `sortRefQryScores`, `altScoreFiltRef` and `altScoreFiltRefQry` (sortAndFiltAltAlns.h) are not modelled. The reference filters mirror the query filter.
- `twoBitDirMatrixToAln` is not modelled. It wraps `dirMatrixToAln` for a two-bit matrix, which `WaterTwoBit.WaterTwoBitAln` already exposes as a flat direction sequence.
- `readInScoreFile`, `printAln`, `pEMBOSSHead`, `pExpandCigHead` and `addPosToBuff` are file I/O and printing, and are not modelled. The pure parts they rely on are modelled: the eqx symbols, the expanded-cigar operations and the id capping.
- The values of the format flags (`defExpandCig`, `defEMBOSS`, `defClustal`, `defFasta`) are not defined in the code available, so the formats are a datatype (`AlnFormat.Format`).
- dataTypeShortHand.h is modelled only for its `uchar`/`ulong` types (`DataTypeShortHand`).

## Findings

| source | as written | input that shows it | evidently intended | confidence | as-written member | corrected member |
|---|---|---|---|---|---|---|
| needleman/genNeedle.h:90-93 (also waterman/genWater.h:94-97, general/genScan.h:888) | `gapDiff & (-(dirOn) != defMvSnp)`: the `!=` binds looser than the unary minus, so the low bit of `gapDiff` is always kept and a deletion never gets the extension penalty | gapOpen -10, gapExtend -1, cell score 0 reached by a deletion: the next deletion scores -9 | `gapDiff & -((dirOn) != defMvSnp)`, as the insertion score at genNeedle.h:76 has it: -1 | not executed | GenNeedle.DelScoreAsWritten, GenNeedle.DelScoreAsWrittenCounterexample | GenNeedle.NextDelScore |
| memWater/memWater.h:248-256, 373-375 | `indexAryUL[0]` is written once, before the first row; afterwards the rows are only swapped, so every other row's column-0 start is stale | query GGA, reference A: cell (3,1) starts off the column-0 cell of row 2, which reads 0 | column 0 of each row starts at its own index (2w for row 2) | not executed | MemWater.ColZeroStartAsWritten, MemWater.IndexRowsAsWritten, MemWater.StaleColZeroStart | MemWater.MemColZero |
| hirschberg/genHirsch.h:440-446 | the end of the alignment is recorded only when the last aligned base is at a position `> 0` | one SNP at reference 0 and query 0: the end recorded is 1, not 0 | `>= 0`: a last aligned base at position 0 is recorded too | not executed | GenHirsch.AlnEndAsWritten, GenHirsch.EndAsWrittenMissesFirstBase | GenHirsch.AlnEnd, GenHirsch.HirschToAlnST |
| general/genScan.h:449-492 | calls the undefined `macoIfMax`; the position is then picked by a test that disagrees with the direction on a snp/ins tie | snp 5, ins 5, del 0: direction snp, position the insertion's (20) | the position of the same candidate the direction names | not executed | GenScan.ScanSnpDelInsAsWritten, GenScan.ScanSnpDelInsAsWrittenCounterexample | GenScan.ScanSnpDelIns |
| hirschberg/genHirsch.h:547-551 | the first `macroMax` writes its result into `isGap`, so the maximum of ins and del is lost | snp 0, ins 5, del 0 with a stale `retMax` of 0: the result stays 0 | the maximum of the three scores, 5 | not executed | GenHirsch.MaxGapInsDelSnpAsWritten, GenHirsch.MaxGapInsDelSnpLosesGap | GenHirsch.MaxGapInsDelSnp |
| general/sortAndFiltAltAlns.h:101-186 | the swap test moves the greater score later, so slots come out lowest score first; `numElm` is `endElm - firstElm`, one short, so a range of two slots is never sorted | scores [1, 2] in slots 0 and 1: left as [1, 2] | greatest to least over the whole range, as the function's comment says | not executed | SortAndFilt.AlnMatrixSortScoresAsWritten, SortAndFilt.AlnMatrixSortAsWrittenAscends, SortAndFilt.AlnMatrixSortAsWrittenKeepsPair | SortAndFilt.AlnMatrixSortScores, SortAndFilt.AlnMatrixSortScoresDescends |
| general/sortAndFiltAltAlns.h:207-315 | the main swap test is the reverse of the sink test, and the length is `endElm - firstElm`, one short | query starts 0, 1, 2 (reference length 1, ends 3, 5, 7) come out as 1, 2, 0 | ascending query start over the whole range | not executed | SortAndFilt.SortQryScoresAsWritten, SortAndFilt.SortQryAsWrittenMisorders | SortAndFilt.SortQryScores, SortAndFilt.SortQryScoresOrders |
| general/alnStruct.h:286-299 | aligned mode callocs `lenAlnUL + 1` bytes per string, and the writes are not bounded by it | alignment of reference "AC" against query "AG" ending in a deletion: 3 columns into a buffer sized for `lenAlnUL` 2 plus the NUL | a buffer as long as the rendered alignment plus the NUL | not executed | AlnRender.BuffSize, AlnRender.AlignedBufferShort | AlnRender.AlnToSeq, AlnRender.RenderFits |
