# samtools-utilities in Dafny

A model of the five small programs of samtools-utilities, with proofs
about each of them.

- **ttview** is a text alignment viewer. Each pileup column is drawn on a
  character screen: a ruler row, the reference row, the consensus row and
  one row per read. The screen grows row by row and is dumped as text.
  The model covers the screen (`Grid`, and the class `TtView.TextView`),
  what each read shows in a column (`Pileup`), the consensus call
  (`Consensus`) and the no-skip CIGAR rewrite (`Cigar`).
- **bamsorted** tells, for each BAM file, whether its records are sorted by
  coordinate (`BamSorted`).
- **bam2wig** prints the depth of every pileup column in a window as a
  WIG-like text. A header line is printed wherever the run of consecutive
  positions breaks (`Bam2Wig`).
- **jointabix** reads delimited lines, splits each into tokens and looks up
  its interval in a tabix index. It prints the line once per record found,
  or marks it `##boum` (`Jointabix`).
- **faidx.cgi** is a CGI program. It decodes a GET query, validates
  chrom/start/end, finds the chromosome in a `.fai` index, and echoes the
  bases of the FASTA file as JSON, XML, plain text or FASTA. The modules
  are `Faidxcgi` (query decoding and parsing), `FaidxcgiMain` (validation
  and the index search), `FaidxcgiEcho` (the echo loops and the seek) and
  `FaidxcgiServe` (the whole run, from the environment to the response
  text).

`Text` holds the pieces of the C library the programs rely on, written as
functions: `strtol`, `%d` printing, `isspace`, `isgraph`, `toupper` and
`tolower`, C strings, `strchr`, and splitting on a delimiter. `Wrappers`
holds `Option` and `Result`.

Where the C code updates state in place, the model does too.
- The viewer's screen, jointabix's `JoinTabix` record and bam2wig's
  callback parameter are classes whose methods carry `modifies` clauses.
- decode and the query loop of faidx.cgi work on an `array<char>`.
- The consensus insertion sort and the CIGAR rewrite work on arrays.

Each such method is proved against a function on values. The properties of
the program are then proved as lemmas about those functions.

Files, databases and the environment are parameters, as sequences of
characters or records:
- BAM records and pileup columns;
- the tabix index, as a name map and a query function;
- the `.fai` and FASTA texts;
- `REQUEST_METHOD` and `QUERY_STRING`.

## Model

| member | source | states |
|---|---|---|
| Grid.Put | src/ttview.c:78-117 | A write outside the width changes nothing. Otherwise the missing rows up to y are created blank, cell (y, x) holds c, and every other cell is unchanged. |
| Grid.PutText | src/ttview.c:137-141 | Character i of the text lands in column x + i when that column is on screen; cells outside [x, x + length) of row y are unchanged; rows up to y are created exactly when some character falls inside the width |
| Grid.PutTextPastEdge | src/ttview.c:137 | Characters past the right edge change nothing: placing a prefix that reaches the edge gives the same screen |
| Grid.RenderedShape | src/ttview.c:145-157 | dump writes one line of exactly `width` characters per row, each followed by '\n'; character x of line y is cell (y, x) |
| Grid.RenderedLength | src/ttview.c:145-157 | The dump is `rows * (width + 1)` characters long |
| Grid.RenderedCell | src/ttview.c:151-155 | Position x of line y in the dump is the cell, or the newline at x == width |
| Pileup.ReadChar | src/ttview.c:210-243 | The character of a read in sub-column j. On a deletion it is '*', or '<'/'>' on a reference skip; past the read's insertion it is '*'. In colour space, at the read's own base or inside its insertion, it is the colour call, or ',' / '.' in dot mode when the colour error is '-'; at the read's own base with no colour call it falls back to the nucleotide rules. In nucleotide mode it is the name letter when names are shown, else the base, with ',' / '.' in dot mode when the base matches the reference ignoring case; inside an insertion it is the inserted base or name letter |
| Pileup.Cased | src/ttview.c:287 | Reverse-strand reads never show upper case, forward reads never lower case; the letter itself is kept |
| Pileup.MaxIns | src/ttview.c:198-204 | The widest insertion: at least every read's indel, and equal to one of them (or 0) |
| Pileup.RefBase | src/ttview.c:168 | The reference base at pos is the fetched slice's base when pos lies inside it, 'N' otherwise |
| Pileup.TailBaseAsWritten | src/ttview.c:396 | The tail padding's reference base as written: the fetched base at pos - left_pos when the absolute position pos is below the slice length, 'N' otherwise |
| Pileup.TailAgreesAtOrigin | src/ttview.c:396 | For a window at position 0 the tail padding as written agrees with RefBase |
| Pileup.TailLosesReference | src/ttview.c:392-398 | For a window at 100 with 80 fetched bases, the tail as written shows 'N' where the reference has 'A' |
| Cigar.SkipAsDeletion | src/ttview.c:361-362 | A reference skip becomes a deletion of the same length; any other operation is unchanged; the result is never a skip |
| Cigar.SkipAsDeletionIdempotent | src/ttview.c:361-362 | Rewriting an operation twice is rewriting it once |
| Cigar.Rewritten | src/ttview.c:360-363 | The rewritten list has the same length, no skip, the same lengths, and every non-skip operation in place |
| Cigar.RewrittenIdempotent | src/ttview.c:360-363 | A list without skips is left alone, so the rewrite is idempotent |
| Cigar.FetchRewrite | src/ttview.c:354-367 | In place: with no_skip the array becomes Rewritten of its old contents, otherwise it is unchanged |
| Consensus.Packed | src/ttview.c:180 | Four packed values: qsum[i] shifted left by two, with the base index i in the two low bits |
| Consensus.PackedOrder | src/ttview.c:180 | The low two bits of a packed value are its base index, and packed values order as Beats orders the bases |
| Consensus.Best | src/ttview.c:184 | The base with the most evidence beats every other base (ties go to the higher index) |
| Consensus.Runner | src/ttview.c:184 | The base ranked second differs from Best and beats the other two |
| Consensus.UniqueBest | src/ttview.c:184 | A base that beats every other base is Best |
| Consensus.UniqueRunner | src/ttview.c:184 | A base other than Best that beats the remaining two is Runner |
| Consensus.SortDescending | src/ttview.c:181-183 | The insertion sort leaves the array non-increasing and a permutation of its old contents |
| Consensus.SinkLast | src/ttview.c:182-183 | The inner loop: the first i + 1 entries become non-increasing, as a permutation |
| Consensus.PermutationDistinct | src/ttview.c:180-183 | A permutation of distinct values is distinct |
| Consensus.NonIncreasingDistinct | src/ttview.c:181-183 | Distinct and non-increasing means strictly decreasing |
| Consensus.SortedPackedStrict | src/ttview.c:180-183 | A sorted permutation of the packed sums is strictly decreasing |
| Consensus.PackEvidence | src/ttview.c:180 | The packing loop fills a fresh array with Packed(qsum) |
| Consensus.RankEvidence | src/ttview.c:180-183 | Packs and sorts: four strictly decreasing values, a permutation of the packed sums |
| Consensus.FirstRankedIsBest | src/ttview.c:184 | The low bits of the largest packed value name Best |
| Consensus.SecondRankedIsRunner | src/ttview.c:184 | The low bits of the second packed value name Runner |
| Consensus.TopTwo | src/ttview.c:180-184 | a1 and a2 are Best and Runner, and they differ |
| Consensus.GenotypeScores | src/ttview.c:185-187 | The three genotype scores: a1/a1 plus the mismatch penalty of a1 against the reference base, a1/a2 plus the heterozygous prior, a2/a2 plus the mismatch penalty of a2 |
| Consensus.CallGenotype | src/ttview.c:185-190 | The call is homozygous a1 exactly when that score is strictly lowest, homozygous a2 likewise, heterozygous otherwise; the confidence is the gap between the two lowest scores and is never negative |
| Consensus.FieldOfPackedBits | src/ttview.c:188-193 | `call >> 16 & 0xf` reads back a 4-bit mask stored above 16 bits of confidence |
| Consensus.FieldOfPacked | src/ttview.c:188-193 | The same for a mask and a non-negative confidence below 2^16 |
| Consensus.RoundAsWritten | src/ttview.c:188-190 | (int)(d + .499) on a whole d, truncated toward zero: d itself when d >= 0, d + 1 when d is negative |
| Consensus.CallWordAsWritten | src/ttview.c:188-190 | The 32-bit call word as written: the mask shifted by 16, ORed with the rounded score gap taken modulo 2^32, with no & 0xffff |
| Consensus.MaskFieldAsWritten | src/ttview.c:193 | The mask read back from a call word: bits 16 to 19 |
| Consensus.CallWordAgrees | src/ttview.c:188-193 | When the confidence fits in 16 bits and the heterozygous gap is not negative, the mask field as written is CallGenotype's mask |
| Consensus.HetTieWord | src/ttview.c:190 | In the tie example the call word as written is 0xFFFFFFDC |
| Consensus.HetTieParts | src/ttview.c:185-190 | In the tie example the scores are (33, 70, 33), the het branch is taken with mask 3 and gap -37 |
| Consensus.HetTiePieces | src/ttview.c:190 | Mask 3 shifted by 16, OR'ed with the truncated gap -36 as a uint32_t, is 0xFFFFFFDC |
| Consensus.HetTieHalves | src/ttview.c:190 | -36 stored in 32 bits is 0xFFFFFFDC |
| Consensus.HetTieField | src/ttview.c:193 | The mask field of 0xFFFFFFDC is 15 |
| Consensus.HetTieCall | src/ttview.c:185-190 | In the tie example the scores are (33, 70, 33) and the corrected call is mask 3 with confidence 0 |
| Consensus.HetTieChars | src/ttview.c:193-196 | Mask 15 shows 'N' and mask 3 shows 'M' on reference 'G' |
| Consensus.HetTieCorruptsMask | src/ttview.c:188-196 | A homozygous tie below the het score shows 'N' as written where the call is 'M' |
| Consensus.ConfidenceSpillsIntoMask | src/ttview.c:188-196 | A homozygous C call 70030 ahead of the others: the call is mask 2 ('.' on reference C) with confidence 70030, but the mask field as written reads 3 and the column shows 'M' |
| Consensus.WideGapScoresAre | src/ttview.c:185-188 | In that example the scores are (0, 70030, 70033), and the first branch is taken with mask 2 and gap 70030 |
| Consensus.WideGapCall | src/ttview.c:185-188 | In that example the corrected call is mask 2 with confidence 70030 |
| Consensus.WideGapWord | src/ttview.c:188 | In that example the call word as written is 0x3118E |
| Consensus.WideGapPieces | src/ttview.c:188 | Mask 2 shifted by 16, OR'ed with 70030 unmasked, is 0x3118E |
| Consensus.WideGapHalves | src/ttview.c:188 | 70030 stored in 32 bits is 0x1118E, which reaches bit 16 |
| Consensus.WideGapField | src/ttview.c:193 | The mask field of 0x3118E is 3 |
| Consensus.WideGapChars | src/ttview.c:193-196 | Mask 2 shows '.' and mask 3 shows 'M' on reference 'C' |
| Consensus.ConsensusChar | src/ttview.c:193-196 | The IUPAC code of the mask, or '.' exactly when that code is the reference base; a single-base mask shows its base |
| Consensus.IupacTableIsStandard | src/ttview.c:193 | Every entry of the display table is the IUPAC code (NC-IUB 1984) of exactly the bases in its mask |
| Consensus.PairCodeShown | src/ttview.c:190-193 | A two-allele call shows the IUPAC code of exactly that pair |
| TtView.Formatted | src/ttview.c:135 | vsnprintf into `mcol` bytes keeps a prefix of the text, at most width - 1 characters |
| TtView.Gap | src/ttview.c:169 | The number of skipped reference positions between two pileup columns: pos - last_pos - 1 when pos is past last_pos + 1, none otherwise |
| TtView.ReferenceRow | src/ttview.c:168-173 | One column's reference row: the skipped positions' bases, the column's base, then '*' for each inserted sub-column |
| TtView.ConsensusShown | src/ttview.c:175-197 | The consensus character of a column: the IUPAC code, '.' or 'N' of the genotype called from the best and runner-up bases by summed quality |
| TtView.Label | src/ttview.c:170-174 | The ruler label of a position touches row 0 only |
| TtView.LabelSameRow | src/ttview.c:170-174 | Two screens whose rows 0 agree still agree after the same label is written on both |
| TtView.LabelsNext | src/ttview.c:169-173 | The labels of n + 1 positions are those of n positions, then the label of the next one |
| TtView.LabelsSameRow | src/ttview.c:169-173 | The same for the labels of n consecutive positions |
| TtView.PadNext | src/ttview.c:169-173 | One padding step changes row 0 only by the position's label |
| TtView.BasesStep | src/ttview.c:171-172 | One padding step puts the next position's reference base on row 1 and keeps the bases already drawn |
| TtView.OutsideStep | src/ttview.c:169-173 | One padding step changes no cell left of the padding, and below row 0 none right of it |
| TtView.RulerPadStep | src/ttview.c:169-173 | After one more padding step row 0 holds the labels of one more position |
| TtView.SameRowTrans | src/ttview.c:169-174 | Rows that agree with a row that agrees with a third agree with it |
| TtView.KeptStep | src/ttview.c:169-173 | One padding step leaves the consensus row and the read rows alone |
| TtView.PaddedStep | src/ttview.c:169-173 | One padding step turns n padded columns into n + 1: bases on row 1, labels on row 0, every other cell kept |
| TtView.ColumnsDrawn | src/ttview.c:166-173 | The columns drawn so far: the next screen column is the length of the reference row drawn, and last_pos never falls below left_pos - 1 |
| TtView.TailRow | src/ttview.c:392-398 | The padding row has exactly the columns left to the width, and column k shows the base of position last_pos + 1 + k |
| TtView.RowStep | src/ttview.c:166-173 | Drawing more of row 1 after the drawn row, and nothing left of it, extends the drawn row |
| TtView.PlacedRow | src/ttview.c:166-301 | A column placed by ttv_pl_func extends row 1 by its ReferenceRow |
| TtView.TailStep | src/ttview.c:392-398 | After the padding row 1 holds the drawn row and the TailRow, over the whole width |
| TtView.OutsideTrans | src/ttview.c:166-301 | Two steps that each keep the cells outside their columns keep the cells outside both |
| TtView.GapThenCall | src/ttview.c:166-301 | The gap drawn before a column, then the column itself, together place the column as PlColumn states it |
| TtView.GapThenLabel | src/ttview.c:169-174 | Row 0 after the gap and the column holds the gap's labels, then the column's label |
| TtView.GapThenFrame | src/ttview.c:169-298 | Rows 2 and below after the gap and the column differ from before only at the consensus cell and, right of the column, on rows a drawn read of the column is on |
| TtView.ColumnRow | src/ttview.c:169-173 | The gap drawn before the column and the sub-columns drawn after it together show ReferenceRow |
| TtView.TextView.constructor | src/ttview.c:303-328 | An empty screen of the given width, window at 0, last_pos 0 as calloc leaves it, nothing drawn yet |
| TtView.TextView.NewRow | src/ttview.c:91-100 | A new row is `width` blanks |
| TtView.TextView.PutChXY | src/ttview.c:108-117 | The screen becomes Put of the old screen |
| TtView.TextView.PrintfYX | src/ttview.c:119-143 | The screen becomes PutText of the formatted, truncated decimal text |
| TtView.TextView.Dump | src/ttview.c:145-157 | Returns Rendered(screen) |
| TtView.TextView.Clear | src/ttview.c:329-340 | Every row is released: the screen is empty |
| TtView.TextView.Ruler | src/ttview.c:170 | The screen becomes the old one with the Label of position i at the current column, which does not move |
| TtView.TextView.PutAdvance | src/ttview.c:172 | Puts the character at the current column, then advances the column by one |
| TtView.TextView.PadColumn | src/ttview.c:169-173 | One pass of the padding loop keeps the screen Padded, one column further |
| TtView.TextView.DrawGap | src/ttview.c:169-173 | The column advances by the gap; row 1 gets the reference base of each skipped position, row 0 their labels, and nothing else changes; no row is lost |
| TtView.TextView.MaxInsertion | src/ttview.c:198-204 | max_ins is MaxIns of the column when insertions are shown, else 0 |
| TtView.TextView.DrawSubColumn | src/ttview.c:207-297 | Every drawn read with a row of its own shows its character for sub-column j; row 1 gets rb or '*'; rows 0 and 2 are untouched, and so is every row no read of the column is drawn on |
| TtView.TextView.DrawReads | src/ttview.c:206-298 | max_ins + 1 sub-columns: row 1 holds rb then '*', every read row holds the read's characters; rows without a drawn read and the cells left of the column are untouched |
| TtView.TextView.DrawConsensus | src/ttview.c:175-197 | Row 2 at the current column gets the consensus character of the column |
| TtView.TextView.DrawCall | src/ttview.c:174-298 | The label of the column on row 0, the consensus on row 2, the reads and the reference row over max_ins + 1 columns; rows without a drawn read keep their cells; no row is lost, and rows 0-2 exist when the column is on screen |
| TtView.TextView.PlColumn | src/ttview.c:160-301 | A column left of the window or past a full screen changes nothing. Otherwise the column advances by the gap, max_ins and one; row 1 shows ReferenceRow, row 2 the consensus, every read its characters, row 0 the labels of the skipped positions and of the column; last_pos becomes the column's position. The screen never loses a row, and has rows 0-2 when the column itself is on screen. |
| TtView.TextView.DrawTail | src/ttview.c:392-398 | The rest of the width gets one reference base per position and its ruler label, last_pos advances with the column, and nothing else changes. Rows 0 and 1 exist once padding was drawn; a screen already full is left as it is. |
| TtView.TextView.PadToWidth | src/ttview.c:392-398 | Entered with columns left, the padding loop stops exactly at the width with its invariant kept |
| TtView.TextView.TailPass | src/ttview.c:393-397 | One pass of the padding loop keeps its invariant, one column further |
| TtView.TextView.DrawColumn | src/ttview.c:388-390 | Drawing one more column keeps last_pos, the current column and row 1 equal to ColumnsDrawn of one more column |
| TtView.TextView.DrawColumns | src/ttview.c:388-390 | After every column, last_pos, the current column and row 1 are those of ColumnsDrawn |
| TtView.TextView.DrawPadding | src/ttview.c:392-398 | After the pileup pass the padding fills the width: row 1 is the drawn reference row followed by the TailRow, and rows 0 and 1 exist whenever the width is positive |
| TtView.TextView.DrawAln | src/ttview.c:369-400 | The window moves to pos and the screen fills the width. Row 1 is the reference row of every drawn column followed by the TailRow, and last_pos and the column are those of ColumnsDrawn advanced by the tail. Rows 0 and 1 exist whenever the width is positive. With no columns, row 1 is the reference from pos on. |
| BamSorted.Step | src/bamsorted.c:53-106 | One record: the three failure branches (a mapped record on a new reference after unmapped ones, a lower reference index, a lower position on the same reference) give None; otherwise the new prev_pos, prev_reference and unmapped flag, prev_pos reset to -1 on a new reference |
| BamSorted.Run | src/bamsorted.c:51-109 | The state after the records, from prev_pos -1, no reference and no unmapped record seen; None from the first failing record on |
| BamSorted.TestSort | src/bamsorted.c:29-115 | An unreadable file fails. Otherwise the result is success exactly when the record loop runs to the end. For a well-formed file that means exactly when the records are sorted. |
| BamSorted.StopsAtFailure | src/bamsorted.c:51-109 | Once a record breaks the order, the records after it do not matter |
| BamSorted.RunSummary | src/bamsorted.c:87-106 | After a successful run the state is the last record's reference and position and whether an unmapped record was seen |
| BamSorted.SortedSnoc | src/bamsorted.c:54-105 | Sorted, extended by one record, holds exactly when the new record respects the last one |
| BamSorted.SortedPrefix | src/bamsorted.c:54-105 | A prefix of a sorted file is sorted |
| BamSorted.UnmappedLast | src/bamsorted.c:60-73 | In a sorted file with an unmapped record the last record is unmapped |
| BamSorted.StepKeepsSorted | src/bamsorted.c:53-106 | After a sorted prefix, the loop accepts one more record exactly when the longer file is sorted |
| BamSorted.SingleRecord | src/bamsorted.c:53-106 | Any single record passes and is sorted |
| BamSorted.RunSnoc | src/bamsorted.c:51-109 | The loop over one more record is one more step, or the earlier failure |
| BamSorted.RunDecidesSorted | src/bamsorted.c:51-109 | test_sort's loop accepts exactly the sorted files |
| BamSorted.FailureCases | src/bamsorted.c:60-105 | A smaller position on the same reference, a smaller reference, or a mapped record after an unmapped one fails. A larger reference after a sorted, mapped file passes. |
| BamSorted.CheckAll | src/bamsorted.c:146-159 | No file fails. Otherwise the status is success exactly when every file passes test_sort. |
| Bam2Wig.Emitted | src/bam2wig.c:38-48 | A column outside [beg, end) prints nothing. Inside, it ends with its depth, and begins with a header naming its reference and position exactly when it breaks the previous run. |
| Bam2Wig.Scan | src/bam2wig.c:35-51 | The lines a run of columns prints: each column's lines in order, the previous reference and position moving only over the columns inside [beg, end) |
| Bam2Wig.ValuesAppend | src/bam2wig.c:42-45 | The values and the header count of two outputs add up |
| Bam2Wig.ScanValues | src/bam2wig.c:35-51 | The value lines are, in order, the depths of the columns inside the window |
| Bam2Wig.FirstLineIsHeader | src/bam2wig.c:97 | Starting from prev_tid = -1, the output starts with a header |
| Bam2Wig.OneHeaderPerRun | src/bam2wig.c:40-43 | A run of consecutive positions prints one header, or none when it continues the previous run |
| Bam2Wig.Moved | src/bam2wig.c:38-48 | prev_tid and prev_pos after a run of columns: the columns outside [beg, end) leave them unchanged, the others set them to their own |
| Bam2Wig.ScanMoves | src/bam2wig.c:35-51 | The output after one more column is the lines of that column followed by the rest |
| Bam2Wig.MovedSnoc | src/bam2wig.c:35-51 | After the columns, prev_tid and prev_pos are those of the last column inside [beg, end), or the starting ones when there is none |
| Bam2Wig.WigWriter.constructor | src/bam2wig.c:96-100 | prev_tid = prev_pos = -1, an empty output, and the given window |
| Bam2Wig.WigWriter.ScanColumn | src/bam2wig.c:35-51 | Appends Emitted; inside the window prev_tid and prev_pos become the column's, outside they are unchanged |
| Bam2Wig.WigWriter.ScanAll | src/bam2wig.c:35-51 | Appends the lines of every column, in order; prev_tid and prev_pos end as Moved gives them |
| Jointabix.NextLine | src/jointabix.c:52-65 | The characters before the first '\n' contain no '\n'. At end of file they are the whole input. Otherwise the input is text, '\n', then the rest. |
| Jointabix.Grown | src/jointabix.c:54-62 | The buffer never shrinks |
| Jointabix.GrownFits | src/jointabix.c:54-64 | After one character or more, the buffer has room for the terminator |
| Jointabix.TerminatorFitsAsWritten | src/jointabix.c:54-66 | The terminator write line[len] = 0 as written lands inside the buffer: len is below the capacity the growth loop reached |
| Jointabix.TerminatorFitsUnlessFirstEmpty | src/jointabix.c:66 | As written, line[len] = 0 is inside the buffer exactly unless nothing was read into a buffer never allocated |
| Jointabix.Capacity | src/jointabix.c:54-66 | The corrected buffer size always holds the terminator and never shrinks |
| Jointabix.Starts | src/jointabix.c:89-96 | One offset more than there are delimiters; the first is 0; all lie within the line |
| Jointabix.Blank | src/jointabix.c:93-94 | Each delimiter is overwritten with NUL; nothing else changes |
| Jointabix.TokenTexts | src/jointabix.c:106 | Token k reads as the C string at its offset |
| Jointabix.TokenSplit | src/jointabix.c:85-97 | Token k of the blanked line is field k of the line, the last token running on into what follows |
| Jointabix.TokenSnoc | src/jointabix.c:85-97 | When a line grows by one character, a token that was not the last keeps its text; the last one is closed by a delimiter (blanked to NUL) or extended by any other character |
| Jointabix.BlankSnoc | src/jointabix.c:91-95 | Blanking a line one character at a time |
| Jointabix.TokenStep | src/jointabix.c:91-96 | The offsets and fields of a line that grows by one character |
| Jointabix.TokenAfterDelim | src/jointabix.c:94-95 | The token after a final delimiter is empty |
| Jointabix.SplitPrintRoundTrip | src/jointabix.c:85-108 | printTokens after splitLine gives the line back; there is one token more than delimiters, and no token holds the delimiter |
| Jointabix.TokensOfLine | src/jointabix.c:85-97 | The tokens read from the buffer after splitLine are the tokens of the line, whatever lies past its NUL |
| Jointabix.ToInt32 | src/jointabix.c:115 | The (int) cast: a value in int range, congruent modulo 2^32, unchanged when it fits |
| Jointabix.ParseIntGE0AsWritten | src/jointabix.c:109-121 | parseIntGE0 as written: -1 on trailing text, on a strtol range error or on a negative value after the cast to int; otherwise the value wrapped to 32 bits |
| Jointabix.ParseIntGE0 | src/jointabix.c:109-121 | -1, or a value in [0, INT_MAX]. The value is not -1 exactly when strtol reads the whole text, without ERANGE, to a value in [0, INT_MAX], and it is then that value. |
| Jointabix.ParseIntGE0Agrees | src/jointabix.c:109-121 | Where the corrected parse accepts, the parse as written returns the same value |
| Jointabix.ParseIntAsWritten | src/jointabix.c:124-133 | parseInt as written: EXIT_FAILURE (1) in place of a bad number, the number otherwise |
| Jointabix.ParseInt1AsWritten | src/jointabix.c:135-144 | parseInt1 as written: EXIT_FAILURE (1) when parseInt gives less than 1, otherwise the 1-based column minus one |
| Jointabix.ParseDecimal | src/jointabix.c:109-121 | A printed non-negative number reads back as itself, or -1 above INT_MAX |
| Jointabix.ParseRejectsTrailing | src/jointabix.c:116 | A number followed by another character is rejected, as written too |
| Jointabix.ParseRejectsNegative | src/jointabix.c:116 | A negative number is rejected; "-0" is 0 |
| Jointabix.ParseRejectsNoDigit | src/jointabix.c:115-116 | Text without a leading space, sign or digit is rejected, as written too |
| Jointabix.TruncationAcceptsOverflow | src/jointabix.c:115 | As written "4294967296" parses to 0; the corrected parse rejects it |
| Jointabix.ParseColumn | src/jointabix.c:135-144 | A 1-based column n >= 1 becomes n - 1; anything else is refused |
| Jointabix.ColumnDecimal | src/jointabix.c:135-144 | Column n >= 1 becomes n - 1, as written too |
| Jointabix.BadColumnsAccepted | src/jointabix.c:124-144 | As written "0" selects column 1 and "x" column 0; the corrected parse refuses both |
| Jointabix.DefaultsQueryOneBase | src/jointabix.c:212-217 | The settings main starts from (tab, '#', chromosome column 1, start and end column 2, no shift) pass its column checks, and a line "chrom TAB n" queries the one base [n, n + 1) |
| Jointabix.Normalize | src/jointabix.c:182-184 | An empty interval widens to one base, and the shift moves both ends |
| Jointabix.Rejected | src/jointabix.c:166-172 | A line is refused when the chrom, start or end column is missing, the chromosome is not in the index, or start or end is not a number >= 0 |
| Jointabix.Hits | src/jointabix.c:181-185 | The records the index returns for the line's chromosome and its normalized, shifted [start, end) interval |
| Jointabix.Prefixed | src/jointabix.c:186-193 | One line per record: the tokens, the delimiter, the record |
| Jointabix.Answer | src/jointabix.c:166-201 | A rejected line, or one without records, prints one `##boum` line. Otherwise the line prints one line per record. |
| Jointabix.AnswerOf | src/jointabix.c:166-201 | Both outcomes of the checks and the query append the Answer |
| Jointabix.Handled | src/jointabix.c:150-201 | One input line: an empty line prints nothing, a line starting with the ignore character is echoed as read, any other is split and answered |
| Jointabix.Output | src/jointabix.c:147-204 | The whole input: the lines each input line prints, in order, until end of file |
| Jointabix.EveryLineAnswered | src/jointabix.c:155-201 | Empty lines print nothing and ignored lines are echoed. Every other line prints the Answer of its fields, which is `##boum` when the line is rejected. |
| Jointabix.OutputStep | src/jointabix.c:149-202 | The output of the input is the output of its first line, then of the rest, also when appended to the lines already printed |
| Jointabix.JoinTabix.constructor | src/jointabix.c:212-217 | The zeroed record with the given settings |
| Jointabix.JoinTabix.CopyLine | src/jointabix.c:52-65 | The characters before the first '\n' are copied into the line, and the buffer grows as readline grows it |
| Jointabix.JoinTabix.Readline | src/jointabix.c:45-68 | At end of file, false and nothing changes. Otherwise the line holds NextLine's text and a NUL, the input is its rest, and the buffer is Capacity. |
| Jointabix.JoinTabix.PushToken | src/jointabix.c:70-83 | The token is appended; the capacity grows by 50 when full |
| Jointabix.JoinTabix.SplitLine | src/jointabix.c:85-97 | The tokens are Starts of the line, and the line becomes Blank of itself |
| Jointabix.JoinTabix.PrintTokens | src/jointabix.c:99-108 | The tokens joined with the delimiter |
| Jointabix.JoinTabix.CheckLine | src/jointabix.c:166-172 | Reports Rejected exactly, with the tid and the two positions otherwise |
| Jointabix.JoinTabix.PrintHits | src/jointabix.c:186-193 | Appends Prefixed of the records |
| Jointabix.JoinTabix.Lookup | src/jointabix.c:166-185 | Reports Rejected exactly; otherwise the records are the index's answer for the line's interval (Hits), and a rejected line has none |
| Jointabix.JoinTabix.QueryLine | src/jointabix.c:166-201 | Appends the Answer of the tokens |
| Jointabix.JoinTabix.ProcessLine | src/jointabix.c:155-201 | Appends Handled of the line |
| Jointabix.JoinTabix.JoinLines | src/jointabix.c:147-204 | Appends the Output of the whole input, and ends at end of file |
| Text.DecimalString | src/bam2wig.c:45 | `%d` of a non-negative value: one digit or more |
| Text.DecimalRoundTrip | src/bam2wig.c:45 | The printed digits read back as the number |
| Text.Split | src/jointabix.c:85-97 | There is at least one field |
| Text.SplitJoin | src/jointabix.c:99-108 | Joining the fields with the delimiter gives the line back |
| Text.SplitCount | src/jointabix.c:89-96 | One field more than there are delimiters |
| Text.SplitFieldsClean | src/jointabix.c:93-95 | No field contains the delimiter |
| Text.SplitNoDelim | src/jointabix.c:93 | A line without delimiter is one field |
| Text.SplitFirst | src/jointabix.c:93-95 | The first field ends at the first delimiter |
| Text.FirstIndex | src/faidxcgi.c:183 | strchr: the index of a c, or the end |
| Text.FirstIndexBefore | src/faidxcgi.c:183 | No c comes before it |
| Text.CStrShape | src/faidxcgi.c:179 | A C string holds no NUL and fits in what follows its start |
| Text.Strtol | src/jointabix.c:115 | strtol in base 10: the end lies in the text, the value in long range, and no digits means 0 |
| Text.StrtolDecimal | src/faidxcgi.c:224 | strtol reads a printed number completely, without ERANGE |
| Text.DigitEndDigits | src/jointabix.c:115 | Every character strtol passes over as part of the number is a digit |
| Text.StrtolReads | src/faidxcgi.c:258 | After white space, strtol reads a printed number up to the next non-digit |
| Faidxcgi.HexPair | src/faidxcgi.c:76-77 | `(char)strtoul` of two characters in base 16: both hex digits give their value, one gives the first, none gives NUL |
| Faidxcgi.Spaced | src/faidxcgi.c:70-73 | '+' becomes a space; nothing else changes |
| Faidxcgi.DecodedFrom | src/faidxcgi.c:65-84 | The decode loop from index i: '+' becomes a space, "%xy" becomes the decoded character, a NUL and y, any other character stays; the length is unchanged |
| Faidxcgi.Decoded | src/faidxcgi.c:65-84 | decode over a whole buffer: the same length as the input |
| Faidxcgi.DecodedFromSuffix | src/faidxcgi.c:68-82 | Decoding from index i is decoding the suffix at i |
| Faidxcgi.DecodedCons | src/faidxcgi.c:68-82 | decode works one character or escape at a time from the front |
| Faidxcgi.DecodedPlain | src/faidxcgi.c:70-73 | Without '%', decode only turns '+' into spaces |
| Faidxcgi.DecodedEscape | src/faidxcgi.c:74-80 | The first full escape becomes its byte, a NUL and the second hex character |
| Faidxcgi.DecodedShortEscape | src/faidxcgi.c:74 | A '%' too close to the end is kept |
| Faidxcgi.EscapeEndsValue | src/faidxcgi.c:76-78 | Read as a C string, a decoded value ends right after its first escape |
| Faidxcgi.EscapeExample | src/faidxcgi.c:65-84 | "a%41b" reads back as "aA" |
| Faidxcgi.Decode | src/faidxcgi.c:65-84 | The C string at `from` is rewritten to its decoding; the rest of the buffer is unchanged |
| Faidxcgi.DecodeRun | src/faidxcgi.c:68-82 | The loop writes Decoded(s) over s and nothing else |
| Faidxcgi.DecodeStep | src/faidxcgi.c:70-81 | One turn writes the decoding of one character or escape and advances past it |
| Faidxcgi.FindChar | src/faidxcgi.c:183-187 | strchr as an index into the buffer |
| Faidxcgi.Assign | src/faidxcgi.c:196-211 | A decoded key sets its variable: tid or chrom the chromosome, start, end, fmt or format the format; other keys change nothing |
| Faidxcgi.Apply | src/faidxcgi.c:187-211 | One segment: without '=' or with '=' first it is skipped; otherwise the key and the value are decoded and read up to their first NUL |
| Faidxcgi.ParseFrom | src/faidxcgi.c:179-215 | The '&'-separated segments applied in order, a later key overriding an earlier one |
| Faidxcgi.ParseQuery | src/faidxcgi.c:179-215 | The variables after the whole query string, from none set |
| Faidxcgi.ParseSplit | src/faidxcgi.c:179-215 | The query is read as its '&'-separated fields, each applied in turn |
| Faidxcgi.ParseAppend | src/faidxcgi.c:179-215 | A later segment is applied after the earlier ones, so it overrides them |
| Faidxcgi.PlainDecoded | src/faidxcgi.c:65-84 | Plain text decodes to itself |
| Faidxcgi.ApplyPlain | src/faidxcgi.c:188-211 | `key=value` with a plain key and value sets that key |
| Faidxcgi.ParseStep | src/faidxcgi.c:181-214 | One turn applies the first segment, then the loop goes on with the rest |
| Faidxcgi.ParseSingle | src/faidxcgi.c:183-214 | A query of one segment applies that segment |
| Faidxcgi.ParseThree | src/faidxcgi.c:179-215 | Three segments are applied in order |
| Faidxcgi.PlainQuery | src/faidxcgi.c:179-215 | `chrom=C&start=S&end=E` sets chrom, start and end, and leaves the format unset |
| Faidxcgi.FirstCleared | src/faidxcgi.c:179-219 | The query string's first character is NUL after the loop: it starts with '&', or its first key starts with a "%xy" that decodes to NUL |
| Faidxcgi.FirstClearedBy | src/faidxcgi.c:186-195 | The first character after the first segment is NUL exactly when FirstCleared holds |
| Faidxcgi.LeadingAmpersand | src/faidxcgi.c:216-219 | A query that starts with '&' leaves query_string[0] == 0 |
| Faidxcgi.ReadPair | src/faidxcgi.c:187-212 | One segment is applied; the buffer outside it is unchanged |
| Faidxcgi.DecodeKeyValue | src/faidxcgi.c:190-195 | The key and the value are the C strings of their decodings |
| Faidxcgi.ReadQuery | src/faidxcgi.c:179-215 | The query parsed as ParseQuery; query_string[0] is NUL afterwards exactly when FirstCleared holds |
| Faidxcgi.ReadSegments | src/faidxcgi.c:181-215 | The loop gives ParseQuery of the query |
| Faidxcgi.ReadSegment | src/faidxcgi.c:183-214 | One turn: the next segment is applied, and the loop resumes after the '&' |
| Faidxcgi.SegmentStep | src/faidxcgi.c:183-214 | The segment and the rest of the query together give the parse |
| Faidxcgi.CutSegment | src/faidxcgi.c:183-186 | amp = strchr(prev, '&') or the end, with *amp = 0 and nothing else changed |
| FaidxcgiMain.Validate | src/faidxcgi.c:220-227 | Any failure is a 400. A success has chrom and start and end set. It happens exactly when strtol reads both whole, without ERANGE, and 0 <= start <= end; the request then carries those values. |
| FaidxcgiMain.ValidateAccepts | src/faidxcgi.c:220-227 | Two printed numbers in order are accepted as they are |
| FaidxcgiMain.ValidateRejectsReversed | src/faidxcgi.c:227 | An end before the start is refused with "bad value for chromEnd" |
| FaidxcgiMain.ValidateRejectsTrailing | src/faidxcgi.c:225 | A start followed by other text is refused with "bad value for chromStart" |
| FaidxcgiMain.ScanNumbers | src/faidxcgi.c:258-260 | k conversions in a row; when all succeed there are exactly k values |
| FaidxcgiMain.ScanEntry | src/faidxcgi.c:258-260 | The four numbers after the name, read as sscanf reads them: length, offset, line bases, line bytes; None when one is missing |
| FaidxcgiMain.FieldsAfter | src/faidxcgi.c:258 | A printed list is its first number followed by the tab and the rest |
| FaidxcgiMain.ScanField | src/faidxcgi.c:258 | One %Ld or %d conversion reads the first number of a printed list after white space and stops at the separator |
| FaidxcgiMain.ScanFieldsList | src/faidxcgi.c:258-260 | sscanf reads back every number of a tab-separated printed list |
| FaidxcgiMain.ScanCons | src/faidxcgi.c:258-260 | Reading the first number and then the rest reads the whole list |
| FaidxcgiMain.ScanNumbersCons | src/faidxcgi.c:258-260 | A conversion that succeeds, then k - 1 more, gives its value in front of theirs |
| FaidxcgiMain.ScanFields | src/faidxcgi.c:258-260 | sscanf reads back the four numbers of an index line |
| FaidxcgiMain.FieldsOneLine | src/faidxcgi.c:253-260 | A printed list of numbers holds no line end, so it stays on its index line |
| FaidxcgiMain.LookupIndexLine | src/faidxcgi.c:248-282 | An index whose first line names chrom finds that line's entry |
| FaidxcgiMain.LineEnd | src/faidxcgi.c:248-250 | The end of a line is at the next '\n' or at the end of the file |
| FaidxcgiMain.LineEndAt | src/faidxcgi.c:248-250 | A line ends at the first '\n' after its start |
| FaidxcgiMain.MatchFrom | src/faidxcgi.c:250-266 | A line found has a matching name field |
| FaidxcgiMain.MatchingLine | src/faidxcgi.c:248-282 | The line found matches chrom |
| FaidxcgiMain.FaiLookup | src/faidxcgi.c:248-287 | The entry of the first line naming the chromosome, Unreadable when its numbers cannot be read, Missing when no line names it |
| FaidxcgiMain.LineEndShift | src/faidxcgi.c:248-269 | Text before a line does not move where it ends |
| FaidxcgiMain.MatchShift | src/faidxcgi.c:248-269 | Text before a line does not change which line matches |
| FaidxcgiMain.LookupSkips | src/faidxcgi.c:253-268 | A line that does not match is skipped |
| FaidxcgiMain.LookupFinds | src/faidxcgi.c:253-265 | The first matching line decides, whatever follows it |
| FaidxcgiMain.LookupUnterminated | src/faidxcgi.c:248-282 | Text after the last '\n' is never matched |
| FaidxcgiMain.NameMatches | src/faidxcgi.c:253-256 | An index line names the chromosome: its first characters are the name and a tab follows |
| FaidxcgiMain.NameMatchesExact | src/faidxcgi.c:254-255 | For a name without tab, a line matches exactly when its first field is the name |
| FaidxcgiMain.FindEntry | src/faidxcgi.c:239-282 | The loop over the index's characters gives FaiLookup |
| FaidxcgiMain.ReadLine | src/faidxcgi.c:248-281 | Collects one line up to its '\n'; the buffer keeps room for the terminator and never shrinks |
| FaidxcgiMain.LineEnds | src/faidxcgi.c:250-268 | A line ending at the '\n' at i decides the search from its start |
| FaidxcgiEcho.GraphsToSame | src/faidxcgi.c:128-130 | Only the characters read so far count |
| FaidxcgiEcho.GraphsToGrow | src/faidxcgi.c:123-141 | Reading on only adds characters after the ones already kept |
| FaidxcgiEcho.GraphsToAppend | src/faidxcgi.c:123-141 | Filtering two blocks one after the other |
| FaidxcgiEcho.GraphsAppend | src/faidxcgi.c:130 | The isgraph filter distributes over concatenation |
| FaidxcgiEcho.GraphsToKeeps | src/faidxcgi.c:130 | Printable characters all pass, read so far |
| FaidxcgiEcho.GraphsKeeps | src/faidxcgi.c:130 | Printable text passes unchanged |
| FaidxcgiEcho.GraphsToDrops | src/faidxcgi.c:130 | Non-printable characters are all dropped, read so far |
| FaidxcgiEcho.GraphsDrops | src/faidxcgi.c:130 | Text without a printable character is dropped whole |
| FaidxcgiEcho.BreaksMod | src/faidxcgi.c:132 | A line break comes before character k exactly when every != -1 and printed % every == 0 |
| FaidxcgiEcho.WrappedToSame | src/faidxcgi.c:123-141 | Only the first n characters count |
| FaidxcgiEcho.WrappedToPlain | src/faidxcgi.c:132 | Without a width the first n characters are printed as they are |
| FaidxcgiEcho.WrappedPlain | src/faidxcgi.c:132 | Without a width nothing is added |
| FaidxcgiEcho.GraphsSnoc | src/faidxcgi.c:132-136 | A line break and a character add only the character once filtered |
| FaidxcgiEcho.WrappedToUnwraps | src/faidxcgi.c:132-136 | Dropping the line breaks of the first n printed characters gives them back |
| FaidxcgiEcho.WrappedUnwraps | src/faidxcgi.c:132-136 | Dropping the line breaks gives back the printed characters |
| FaidxcgiEcho.WrappedSnoc | src/faidxcgi.c:132-137 | One more character: the break if one is due, then the character |
| FaidxcgiEcho.WrappedToLine | src/faidxcgi.c:132-136 | A block after whole lines starts a new line |
| FaidxcgiEcho.WrappedLine | src/faidxcgi.c:132-136 | A block of up to `every` characters after whole lines is one line |
| FaidxcgiEcho.Offset | src/faidxcgi.c:118-121 | The corrected seek: the offset, whole lines of lineLen characters, then the column in the line |
| FaidxcgiEcho.SeekAsWritten | src/faidxcgi.c:118-121 | The seek as written: offset + start / (line_blen * line_len) + start % line_blen |
| FaidxcgiEcho.SeekAgreesOnFirstLine | src/faidxcgi.c:118-121 | On the first line, the seek as written and the corrected seek agree |
| FaidxcgiEcho.SeekAsWrittenFallsShort | src/faidxcgi.c:118-121 | Past the first line and before line lineBlen, the seek as written lands before the base |
| FaidxcgiEcho.LinePosDiv | src/faidxcgi.c:118-121 | The line position is `start / blen * len + start % blen` |
| FaidxcgiEcho.GraphsLine | src/faidxcgi.c:130 | The line end between bases drops out |
| FaidxcgiEcho.LayoutFirstLine | src/faidxcgi.c:118-141 | From a base of the first line, the printable characters are the rest of the sequence |
| FaidxcgiEcho.LayoutFrom | src/faidxcgi.c:118-141 | From the position of base i, the printable characters of a laid-out sequence are the bases from i on |
| FaidxcgiEcho.Echo | src/faidxcgi.c:123-141 | Complete exactly when there are enough printable characters. Then it prints the first toPrint of them, wrapped; otherwise all of them. |
| FaidxcgiEcho.EchoOutWrapped | src/faidxcgi.c:128-140 | After p characters, echo has written the printable ones among them, wrapped |
| FaidxcgiEcho.EchoDone | src/faidxcgi.c:123-128 | How the loops end: toPrint characters out, or the file read to its end |
| FaidxcgiEcho.ExampleFile | src/faidxcgi.c:130 | The example file "AC\nGT\n" and what echo keeps of it |
| FaidxcgiEcho.SeekCounterexample | src/faidxcgi.c:118-121 | For ACGT two bases a line, bases 2-4 print "AC" as written and "GT" corrected |
| FaidxcgiEcho.Region | src/faidxcgi.c:108-141 | echo with the corrected seek: nothing when start is past the sequence or past the clamped end; otherwise the printable characters from the seek, end - start of them wrapped by every, or a hang when the file runs short |
| FaidxcgiEcho.EchoAt | src/faidxcgi.c:122-141 | The read loop from a file position: the first toPrint printable characters, wrapped every so many, and done; or everything there is and not done when the file ends first |
| FaidxcgiEcho.RegionAsWritten | src/faidxcgi.c:108-121 | echo as written: the same early returns and read loop, started from the seek as written |
| FaidxcgiEcho.EchoRegion | src/faidxcgi.c:95-143 | echo's clamping, seek and loops give Region |
| FaidxcgiEcho.IndexedFrom | src/faidxcgi.c:118-141 | On a file that agrees with its index, the printable characters from the seek on are the bases from start on, then what follows |
| FaidxcgiEcho.RegionPrefix | src/faidxcgi.c:106-141 | When the printable characters from the seek begin with the wanted bases, echo prints them, wrapped |
| FaidxcgiEcho.EchoFaithful | src/faidxcgi.c:95-143 | On a file that agrees with its index, echo returns, and prints exactly bases [start, min(len, end)), wrapped |
| FaidxcgiServe.DieText | src/faidxcgi.c:86-93 | die: a Status line, a text/plain Content-Type, an empty line, then the message and ".\n" |
| FaidxcgiServe.FormatOf | src/faidxcgi.c:290-318 | The format parameter compared with json, xml and text in that order, ignoring case; anything else or none is FASTA |
| FaidxcgiServe.FormatIgnoresCase | src/faidxcgi.c:290-311 | The format does not depend on the case of the parameter |
| FaidxcgiServe.FormatExamples | src/faidxcgi.c:290-318 | "JSON", "Xml" and "TEXT" choose their format; "fasta" and no format give FASTA |
| FaidxcgiServe.Header | src/faidxcgi.c:53-54 | The reply header: Content-Disposition naming build_chrom_start_end with the format's extension, then the format's Content-Type and an empty line |
| FaidxcgiServe.Every | src/faidxcgi.c:289-322 | The line width handed to echo is positive exactly for FASTA |
| FaidxcgiServe.Serve | src/faidxcgi.c:146-325 | main as a whole gives Respond |
| FaidxcgiServe.QueryBuffer | src/faidxcgi.c:151 | A fresh buffer holding the query and its NUL |
| FaidxcgiServe.Answer | src/faidxcgi.c:288-325 | Once the entry is found: the header and opening, then nothing to seek gives the closing; an unopenable FASTA file dies with 500; an entry whose line layout cannot be read back is left unmodelled; otherwise the region, and the closing unless the read loop hangs |
| FaidxcgiServe.Respond | src/faidxcgi.c:146-325 | main in order: 406 without GET, 406 without a query string, 400 when the first character was cleared, the validation errors, 500 without an index, 500 on an unreadable entry, 404 on an unknown or empty chromosome, then the answer |
| FaidxcgiServe.RespondNeedsGet | src/faidxcgi.c:162-165 | Anything but GET dies with status 406 |
| FaidxcgiServe.RespondLeadingAmpersand | src/faidxcgi.c:216-219 | A query that starts with '&' dies with 400 "chrom missing" |
| FaidxcgiServe.DigitsPlain | src/faidxcgi.c:65-84 | Digits are plain for decode and the query loop |
| FaidxcgiServe.PlainRequestReads | src/faidxcgi.c:174-227 | A plain query passes every check, as the request it spells out |
| FaidxcgiServe.RespondUnknownChromosome | src/faidxcgi.c:284-287 | A chromosome the index does not name dies with 404 "Unknown chromosome" |
| FaidxcgiServe.RespondFound | src/faidxcgi.c:161-287 | A request that passes every check and names a sequence of the index is answered as Answer |
| FaidxcgiServe.AnswerServes | src/faidxcgi.c:289-325 | On a FASTA file that agrees with its index: header, opening, the wrapped bases, closing, and the run ends |
| FaidxcgiServe.RespondServes | src/faidxcgi.c:146-325 | End to end for every format: the reply is the header, the opening, the bases asked for and the closing |
| FaidxcgiServe.RespondFasta | src/faidxcgi.c:316-321 | End to end: a plain request on a one-line index gives the FASTA header, title, the bases 50 a line, and '\n' |
| FaidxcgiServe.RespondPastEnd | src/faidxcgi.c:108 | A range that starts past the sequence prints no bases and does not open the FASTA file |

## Left out

- The pileup engine (`bam_lplbuf`, `sampileup`) and its stacking of reads
  into levels are not modelled. Pileup columns, with each read's level,
  are inputs. The viewer's contracts describe the reads that have a row to
  themselves.
- The genotype caller `bcf_call_glfgen` is not modelled. Its evidence sums
  and pairwise scores are integer inputs. The scores are doubles in the
  source; the model keeps integers, so the `+ .499` rounding is exact.
- The colour index x (src/ttview.c:251-285) and the confidence bucket i
  (src/ttview.c:194-195) are computed but never drawn in this text viewer,
  so they are not modelled.
- The BAM, tabix, `.fai`, FASTA and gzip/razf files, and `fai_fetch`, are
  values or parameters. Reading and decompressing them is not modelled.
- Option parsing and the `main` functions of ttview, bamsorted, bam2wig and
  jointabix are not modelled. The exception is the loop over files in
  bamsorted (`BamSorted.CheckAll`) and the settings jointabix starts from
  (`Jointabix.Defaults`, with main's column checks as
  `Jointabix.ColumnsAccepted`). The `-f`, `-1`, `+1`, `-d`, `-i`, `-c`, `-s`
  and `-e` options themselves are not parsed; `Jointabix.ParseColumn` models
  parseInt1, which `-c`, `-s` and `-e` call.
- Messages written to stderr, and the reasons bamsorted prints on stdout,
  are not modelled.
- Out-of-memory exits after `malloc`/`realloc` are not modelled.
- The `TEST` build variant of faidx.cgi, which reads the query from `argv`,
  is not modelled.
- The CGI header and the JSON, XML and FASTA framing are modelled as plain
  text. The `BUILD` and `GENOME_PATH` settings are parameters (`Site`).
- TtView.TextView.DrawGap: past the fetched slice the model shows 'N'. The
  loop at src/ttview.c:171 reads `ref[i - left_pos]` without the `l_ref`
  bound of line 168, which reads past the buffer.
- TtView.TextView.PutChXY: requires y >= 0, the assertion of
  src/ttview.c:81.
- FaidxcgiEcho.Echo: when the file ends before toPrint printable
  characters, the source's loop never ends. The model returns
  `complete == false`, and the response ends as `Hangs`.
- FaidxcgiEcho.SeekAsWritten: `line_blen * line_len` is a 32-bit product
  in the source; its overflow is not modelled.
- FaidxcgiServe.Answer: an index entry that is not `Sane` (an empty line
  length, or a line end shorter than a line) is answered only up to the
  header, and the ending is `Unmodelled`.
- FaidxcgiMain.ScanEntry: the `%d` fields of sscanf are read as long
  values, so 32-bit overflow of line_blen and line_len is not modelled.
  Values above LONG_MAX in the index are read as clamped by strtol.
- Jointabix.Normalize: `int` overflow of `chromStart + shift` is not
  modelled.
- Bam2Wig.Emitted: the header names the reference by its index. The
  source prints the header's target name for that index; the BAM header is
  not modelled.
- TtView.TextView.DrawAln: row 0, the ruler, is not stated for the whole
  drawing. Each step states its labels instead: `TtView.TextView.DrawGap`,
  `TtView.TextView.PlColumn` and `TtView.TextView.DrawTail` through
  `Padded` and `ColumnPlaced`. Row 2 and the read rows are likewise stated
  per column by `TtView.TextView.PlColumn`.
- TtView.TextView.PlColumn: where several reads of a column share a screen
  row, the cell holds the last one written; the contract states the cells
  of reads that have a row to themselves.
- Consensus.CallGenotype: keeps the mask and the confidence as two fields.
  The word as written (`Consensus.CallWordAsWritten`) is listed under
  Findings; its confidence bucket is not drawn, see above.
- FaidxcgiMain.NameMatchesExact: needs a chromosome name without a tab. A
  name with a tab can match a line on a prefix, as `strncmp` allows.

## Findings

Each row below has a member that shows the code as written and the
corrected definition beside it. The rest of the model runs the corrected
definitions: `TtView.TextView.DrawTail`, `TtView.TextView.DrawAln` and
`Consensus.CallGenotype` in the viewer, `Jointabix.JoinTabix.Readline`,
`Jointabix.ParseIntGE0`, `Jointabix.ParseColumn` and
`Jointabix.JoinTabix.JoinLines` in jointabix, and
`FaidxcgiEcho.EchoRegion`, `FaidxcgiServe.Respond` and
`FaidxcgiServe.Serve` in faidx.cgi.

| source | as written | input that shows it | evidently intended | confidence | as-written member | corrected member |
|---|---|---|---|---|---|---|
| src/ttview.c:396 | The tail padding tests `pos < l_ref` with the absolute position `pos` | A window at position 100 with 80 fetched bases: every padded column shows 'N' | `pos - left_pos < l_ref`, as on line 168 | not executed | Pileup.TailLosesReference | TtView.TextView.DrawTail |
| src/ttview.c:190 | The het branch ORs `(int)(min(p0,p2) - p1 + .499)` into `call`; a negative gap sets the high bits | Scores (33, 70, 33) for a1 = C, a2 = A, reference G: the mask field reads 15 and the column shows 'N' | A non-negative confidence, keeping mask 3 ('M') | not executed | Consensus.HetTieCorruptsMask | Consensus.CallGenotype |
| src/ttview.c:188-189 | The homozygous branches OR the rounded gap into `call` without `& 0xffff` | Scores (0, 70030, 70033) for a1 = C on reference C: the gap 70030 sets bit 16, the mask field reads 3 and the column shows 'M' | Keep the confidence below bit 16 so that the mask field reads 2 ('.') | not executed | Consensus.ConfidenceSpillsIntoMask | Consensus.CallGenotype |
| src/jointabix.c:66 | `line[len] = 0` writes through the still-NULL buffer when the first line read is empty | An input that starts with '\n', or an empty input that is not yet at EOF | Allocate the buffer before writing the terminator | not executed | Jointabix.TerminatorFitsUnlessFirstEmpty | Jointabix.JoinTabix.Readline |
| src/jointabix.c:115 | `(int)strtol(...)` keeps the low 32 bits of a long before the range check | "4294967296" parses as 0 | Reject values above INT_MAX | not executed | Jointabix.TruncationAcceptsOverflow | Jointabix.ParseIntGE0 |
| src/jointabix.c:124-144 | parseInt and parseInt1 return EXIT_FAILURE (1) as a value on error | `-c 0` selects column 2 and `-c x` selects column 1 | Refuse the option | not executed | Jointabix.BadColumnsAccepted | Jointabix.ParseColumn |
| src/faidxcgi.c:118-121 | The seek is `offset + start / (blen * len) + start % blen` | ACGT two bases a line (`FaiEntry(4, 0, 2, 3)`), start 2, end 4: prints "AC" | `offset + start / blen * len + start % blen` gives "GT" | not executed | FaidxcgiEcho.SeekCounterexample | FaidxcgiEcho.EchoFaithful |
