# GenoPath core in Dafny

GenoPath is a pipeline for tumour phylogenetics. It checks a CloneFinder
input table, runs CloneFinder, and turns the clone tree CloneFinder infers
into the SNV, tree and clone-ID files that Meltos reads. It then reads Meltos'
output back, matches driver mutations (found by the Cancer Genome Interpreter
or by OpenCRAVAT/CHASMplus) to the clones and nodes that carry them, and
labels the edges of the tree and pie plots with those genes and mutational
signatures.

This project models the parts of that pipeline that compute something:
- the Meltos-input builder (`CloneFinder2MeltosIn.py`): sample VAFs, clade
  bit-strings, ancestor chains, clade frequencies, node IDs, edges and the
  trailer of the tree file;
- the CloneFinder and Meltos helpers (`analysis/helper_clonefinder.py`,
  `analysis/helper_meltos.py`, `analysis/general_helper.py`);
- the driver-mutation steps (`analysis/driver_mutations.py`,
  `driver_mutations_with_cravat.py`);
- the bookkeeping behind the plots (`plot_scripts/meltos_plot.py`,
  `plot_scripts/tree_func.py`, `plot_scripts/mut_func.py`,
  `plot_scripts/pie_func.py`).

Each source file is one module, or a few. Files are sequences of lines or
tables of cells. Dictionaries whose iteration order matters are a `Dict`
(keys in insertion order plus a map). A Python exception becomes the `Err`
case of a `Result`. Loops of the source are `method`s. Each method is proved
equal to a recursive specification function, and lemmas state what the
source promises about that function.

Shared modules:
- `Wrappers`: `Option` and `Result`.
- `Text`: the string operations of Python the source relies on, such as
  `split`, `strip`, `replace`, `find` and `int`.
- `Dicts`: insertion-ordered dictionaries.
- `Phylo`: Biopython's clade tree with `get_terminals`,
  `get_nonterminals` and clade bit-strings.
- `CancerTypes`: the cancer-type tables of `analysis/cancer_dict.py`.

`parse_csv_files`, `process_driver_file` and `match_positions` appear with the
same text in three files: `analysis/driver_mutations.py` (lines 206-274),
`plot_scripts/tree_func.py` (lines 428-494) and `plot_scripts/mut_func.py`
(lines 16-82). The `DriverJoin` module models them once, and its rows below
cite the first copy; they hold for the other two unchanged.

## Model

| member | source | states |
|---|---|---|
| MeltosSnv.ChromColumn | CloneFinder2MeltosIn.py:28-30 | the `#chrom` column is every CHR cell with each "chr" removed, in row order |
| MeltosSnv.SampleNames | CloneFinder2MeltosIn.py:39-43 | SampLs is the name before the first ':' of each column containing ":ref", in column order |
| MeltosSnv.SamplesAre | CloneFinder2MeltosIn.py:39-43 | a name is a sample iff some ":ref" column yields it; one sample per ":ref" column, in order |
| MeltosSnv.RefColumns | CloneFinder2MeltosIn.py:41-42 | the ":ref" columns are exactly the header columns containing ":ref" |
| MeltosSnv.SampleNamesLackColon | CloneFinder2MeltosIn.py:43 | no sample name contains ':' |
| MeltosSnv.VafIsFraction | CloneFinder2MeltosIn.py:48-56 | for non-negative counts the VAF lies in [0, 1], is 0 iff there is no alt read, and is 1 when there are only alt reads |
| MeltosSnv.SiteVafs | CloneFinder2MeltosIn.py:45-57 | one VAF per row: 0 when alt + ref is 0, alt / (alt + ref) otherwise |
| MeltosSnv.AddSampleColumns | CloneFinder2MeltosIn.py:44-58 | fails iff a sample lacks its ":alt" or ":ref" column and there are rows; otherwise adds each sample's VAF column after the existing columns and keeps the others unchanged |
| MeltosSnv.SnvOut | CloneFinder2MeltosIn.py:28-59 | KeyError iff CHR or Position is missing or a sample's count columns are; the table's columns are `#chrom, pos, desc, normal` then the samples, each sample holding its VAFs, `#chrom` the chromosome names, `pos` the Position cells, `desc` "NA" and `normal` 0 in every row |
| MeltosSnv.FixedColumnsShape | CloneFinder2MeltosIn.py:33-38 | the four fixed columns come in the order `#chrom, pos, desc, normal`, holding the chromosome names, the positions, "NA" in every row and 0 in every row |
| MeltosSnv.OutHeaderShape | CloneFinder2MeltosIn.py:33-58 | the header starts with the four fixed columns, has no duplicate, and the rest is exactly the samples |
| MeltosEncode.Drop2 | CloneFinder2MeltosIn.py:180 | `IntLs[:-2]` is the path without its last two clades, or empty |
| MeltosEncode.Chain | CloneFinder2MeltosIn.py:179-185 | IntBitLs is the leaf's bit-string followed by the bit-string of each kept path clade, in order |
| MeltosEncode.BitStrs | CloneFinder2MeltosIn.py:161-190 | `_bitstrs` computes the encoding `Encode(tree, paths)` of the four dictionaries |
| MeltosEncode.VisitClades | CloneFinder2MeltosIn.py:170-189 | the clade loop, from four empty dictionaries, computes `EncodeFrom` over all clades |
| MeltosEncode.VisitClade | CloneFinder2MeltosIn.py:171-189 | one pass records a single-leaf clade's bit-string and chain, and every clade's terminals under its bit-string |
| MeltosEncode.ExtendChain | CloneFinder2MeltosIn.py:179-185 | the inner loop builds the chain and links each chain element to its successor in Dec2AncBit |
| MeltosEncode.LinksKeys | CloneFinder2MeltosIn.py:184 | after k writes, Dec2AncBit's keys are the old keys plus the first k chain elements; each written key holds the successor of one of its occurrences, others keep their value |
| MeltosEncode.LinksExact | CloneFinder2MeltosIn.py:184 | on a chain without repeats every written element maps exactly to its successor |
| MeltosEncode.EncodeFromFails | CloneFinder2MeltosIn.py:170-178 | the loop fails iff some single-leaf clade's name cannot be traced |
| MeltosEncode.EncodeFailsExactly | CloneFinder2MeltosIn.py:176-178 | `_bitstrs` raises iff `trace` fails for some leaf name of the tree |
| MeltosEncode.AllCladesWithin | CloneFinder2MeltosIn.py:165 | every visited clade's terminal names are terminal names of the tree |
| MeltosEncode.StepInv | CloneFinder2MeltosIn.py:170-189 | one pass of the clade loop keeps the invariant relating the dictionaries to the clades visited so far |
| MeltosEncode.EncodeFromInv | CloneFinder2MeltosIn.py:170-189 | the remaining passes extend the invariant to every clade |
| MeltosEncode.EncodeInv | CloneFinder2MeltosIn.py:161-190 | the result of `_bitstrs` satisfies the invariant over all clades of the tree |
| MeltosEncode.EncodeLeaves | CloneFinder2MeltosIn.py:177-187 | TipID2Bit and Clone2IntBit have exactly the leaf names as keys |
| MeltosEncode.EncodeLeafBits | CloneFinder2MeltosIn.py:163-177 | a leaf's bit-string has one character per leaf, '1' exactly where its name is among the sorted names |
| MeltosEncode.EncodeChains | CloneFinder2MeltosIn.py:178-187 | each leaf's chain is its bit-string then the bit-strings of its traced path without the last two; Dec2AncBit maps exactly the non-last chain elements, each to its successor in a chain |
| MeltosEncode.EncodeBits | CloneFinder2MeltosIn.py:170-189 | Bit2TipID's keys are the distinct bit-strings of all clades, each mapped to the terminals of a clade with that bit-string |
| MeltosEncode.TipBitsAreCladeBits | CloneFinder2MeltosIn.py:222-226 | every tip bit-string is a key of Bit2TipID, so removing NorBit from the list cannot fail |
| MeltosAggregate.SurvivingAre | CloneFinder2MeltosIn.py:203-206 | the kept clones are exactly the rows whose frequency is above 0 |
| MeltosAggregate.SurvivingPositive | CloneFinder2MeltosIn.py:204 | every kept clone has a positive frequency |
| MeltosAggregate.AddAlongValue | CloneFinder2MeltosIn.py:215-216 | walking a chain adds the amount once per occurrence of a bit-string and creates exactly the chain's entries |
| MeltosAggregate.AlongCount | CloneFinder2MeltosIn.py:215-216 | the amount added is the number of occurrences times the amount |
| MeltosAggregate.AlongPositive | CloneFinder2MeltosIn.py:215-216 | a positive amount adds a positive value exactly to the bit-strings on the chain |
| MeltosAggregate.AddChain | CloneFinder2MeltosIn.py:214-216 | the loop over BitLs computes `AddAlong` of the chain |
| MeltosAggregate.SampleMass | CloneFinder2MeltosIn.py:203-217 | one sample's Bit2VAF is the aggregate of its kept clones' chains |
| MeltosAggregate.AggregateFails | CloneFinder2MeltosIn.py:214 | aggregation fails (KeyError) iff a kept clone has no chain |
| MeltosAggregate.AggregateMass | CloneFinder2MeltosIn.py:208-217 | every bit-string reads as the summed half-frequency of the kept clones whose chain contains it, and has an entry iff some chain contains it |
| MeltosAggregate.MassPositive | CloneFinder2MeltosIn.py:208-217 | with positive frequencies the mass is never negative and is positive iff some chain contains the bit-string |
| MeltosAggregate.PresentExactly | CloneFinder2MeltosIn.py:201-218 | a sample's Bit2VAF is positive for a bit-string iff a clone present in the sample has it on its chain |
| MeltosAggregate.AllSamples | CloneFinder2MeltosIn.py:201-218 | Samp2bitVAF fails iff a sample is missing from the frequency table or a kept clone has no chain; otherwise each sample maps to its aggregate |
| MeltosEmit.IdsContiguous | CloneFinder2MeltosIn.py:237-240 | each listed bit-string gets an ID in 1..Len that points back to it; on distinct bit-strings the IDs are 1..Len in list order |
| MeltosEmit.IdsInjective | CloneFinder2MeltosIn.py:240 | two bit-strings with the same ID are equal |
| MeltosEmit.PresenceShape | CloneFinder2MeltosIn.py:245-252 | Sbit is '0' then one character per sample, '1' exactly when the clade's frequency there is positive |
| MeltosEmit.PresenceCountsVafs | CloneFinder2MeltosIn.py:246-252 | the VAF list holds only positive values, one per '1' of Sbit |
| MeltosEmit.PresenceOf | CloneFinder2MeltosIn.py:245-252 | the sample loop computes Sbit and the VAF list |
| MeltosEmit.NodeEntry | CloneFinder2MeltosIn.py:238-255 | one clade's clone-ID line and tree-file node line |
| MeltosEmit.NodeTables | CloneFinder2MeltosIn.py:233-256 | the loop computes Bit2ID and the clone-ID and node lines in list order |
| MeltosEmit.NodeLinesAt | CloneFinder2MeltosIn.py:244 | clone-ID line k describes the k-th bit-string under ID k + 1 |
| MeltosEmit.VafLinesAt | CloneFinder2MeltosIn.py:255 | node line k of the tree file describes the k-th bit-string under ID k + 1 |
| MeltosEmit.EdgesOnce | CloneFinder2MeltosIn.py:265-268 | each descendant is on the right of exactly one edge line with its ancestor's ID on the left, and no two edge lines share a descendant ID |
| MeltosEmit.EdgeLines | CloneFinder2MeltosIn.py:265-268 | the edge loop computes `Edges`, failing with KeyError on an unnumbered bit-string |
| MeltosEmit.Trailer | CloneFinder2MeltosIn.py:269-275 | the tree file ends with the error score, the normal decomposition line and one decomposition line per sample |
| MeltosEmit.AppendTrailer | CloneFinder2MeltosIn.py:269-275 | the trailer loop appends exactly the trailer |
| MeltosEmit.MrcaComplement | CloneFinder2MeltosIn.py:224 | when Normal's '1' is not first, the decimal subtraction is the bit-wise complement of Normal's bit-string |
| MeltosEmit.MrcaLeadingZero | CloneFinder2MeltosIn.py:224 | when Normal's '1' is first, the subtraction loses the leading zero: MRCAbit is CloC ones |
| MeltosEmit.RemainingShape | CloneFinder2MeltosIn.py:220-227 | the clades that get IDs are the keys of Bit2TipID once each, except Normal's bit-string and the all-ones string |
| MeltosEmit.CladeList | CloneFinder2MeltosIn.py:220-227 | NorBit, MRCAbit and the clade list; ValueError or KeyError exactly when a lookup or a removal fails |
| MeltosEmit.WriteFiles | CloneFinder2MeltosIn.py:229-279 | the clone-ID file is the header then the node lines; the tree file is the node lines, the root edge, the edges and the trailer, or KeyError when MRCAbit or an edge's bit-string has no ID |
| MeltosEmit.Emit | CloneFinder2MeltosIn.py:220-279 | both output files from the encoding, the clone count and Samp2bitVAF, or the error of the clade list |
| MeltosPipeline.RootVisited | CloneFinder2MeltosIn.py:165 | the whole tree is one of the visited clades |
| MeltosPipeline.LeafIsSingleOne | CloneFinder2MeltosIn.py:172-173 | over distinct names, a leaf's bit-string has its only '1' at the leaf's position |
| MeltosPipeline.NormalBit | CloneFinder2MeltosIn.py:222 | NorBit has its single '1' at the position of "Normal" among the sorted leaf names |
| MeltosPipeline.CladeListSucceeds | CloneFinder2MeltosIn.py:226-227 | for one leaf per clone plus Normal with distinct names, neither removal fails |
| MeltosPipeline.MrcaIsCloneClade | CloneFinder2MeltosIn.py:224 | when "Normal" is not the first sorted name, MRCAbit is the bit-string of the clade of all clones |
| MeltosPipeline.NormalFirstBreaksTree | CloneFinder2MeltosIn.py:224 | when "Normal" is the first sorted name, MRCAbit is one character short and the tree file fails with KeyError at `Bit2ID[MRCAbit]` (see also line 263) |
| MeltosPipeline.PresenceMeansClone | CloneFinder2MeltosIn.py:201-252 | character i + 1 of Sbit is '1' iff a clone present in sample i has the clade on its chain |
| GeneralHelper.ProcessClonePresence | analysis/general_helper.py:10-15 | same rows and first column; every other cell is 1 iff it is positive and 0 iff it is not |
| GeneralHelper.ProcessClonePresenceIdempotent | analysis/general_helper.py:13 | processing a processed table changes nothing |
| GeneralHelper.RenameHg19ToNormal | analysis/general_helper.py:18-31 | same number of lines; only the fifth line changes, with every "#hg19" replaced by "#Normal"; shorter files are unchanged |
| GeneralHelper.CheckInputFileColumns | analysis/general_helper.py:66-92 | True iff reading succeeds, all five required columns are present and no other column contains "REF" or "ALT" |
| HelperCloneFinder.IsValidLine | analysis/helper_clonefinder.py:38-49 | True iff some tab field does not end with ":REF" or ":ALT" |
| HelperCloneFinder.ProcessInputFile | analysis/helper_clonefinder.py:52-61 | returns the 1-based number of the first invalid line, or none |
| HelperCloneFinder.FirstInvalidLineSpec | analysis/helper_clonefinder.py:53-60 | nothing is reported iff no non-blank line is invalid; a reported line is invalid and every line before it is blank or valid |
| HelperCloneFinder.OutputNames | analysis/helper_clonefinder.py:7-13 | there are four output names |
| HelperCloneFinder.OutputNamesSpec | analysis/helper_clonefinder.py:7-13 | each name is the input's base name without extension followed by its suffix; the four are distinct and contain no '/' |
| HelperCloneFinder.MoveStep | analysis/helper_clonefinder.py:18-24 | a file moves only when the source exists and the destination does not; otherwise nothing changes, and no other path is touched |
| HelperCloneFinder.MoveCloneFinderOutputs | analysis/helper_clonefinder.py:6-24 | the loop performs the four moves in order |
| HelperCloneFinder.MovesUntouched | analysis/helper_clonefinder.py:17-24 | a path no move names is left as it was |
| HelperCloneFinder.MovesKeepExisting | analysis/helper_clonefinder.py:21-24 | a file present before and after the moves keeps its contents: nothing is overwritten |
| HelperCloneFinder.MovesArrive | analysis/helper_clonefinder.py:21-22 | a source that exists, with no file at its destination, ends up at the destination and is gone from the source |
| HelperCloneFinder.PathJoinInjective | analysis/helper_clonefinder.py:18-19 | distinct names joined to one directory give distinct paths |
| HelperCloneFinder.PathJoinApart | analysis/helper_clonefinder.py:18-19 | plain names joined to two different directories never give the same path |
| HelperCloneFinder.OutputMovesSeparate | analysis/helper_clonefinder.py:15-19 | when the input and target directories differ, no move's path is another move's path |
| HelperCloneFinder.RunCloneFinder | analysis/helper_clonefinder.py:64-86 | a mode other than "snv" raises ValueError and an invalid line raises ValueError naming it; it succeeds iff the mode is "snv" and every line is valid; the outputs are moved in every case, from the files CloneFinder produced when it ran |
| HelperMeltos.LoadSampC | analysis/helper_meltos.py:17-38 | KeyError without a CHR column; otherwise the number of ":ref" columns plus one |
| HelperMeltos.SvSamplesSpec | analysis/helper_meltos.py:49-53 | the SV samples are exactly the columns containing "_GenomeCounts" with it removed |
| HelperMeltos.Matched | analysis/helper_meltos.py:57-59 | a sample is kept iff its "_GenomeCounts" column is an OutSNV column |
| HelperMeltos.OrderVerification | analysis/helper_meltos.py:41-74 | ValueError iff there is no "desc" column; otherwise the target columns are written, and "reordered" holds iff they differ from the old columns |
| HelperMeltos.AlreadyOrdered | analysis/helper_meltos.py:55-68 | a table starting with `#chrom, pos, desc` with no genome-count column of an SV sample is reported as already in order |
| HelperMeltos.BuilderOutputOrdered | analysis/helper_meltos.py:55-68 | the SNV table the Meltos-input builder writes is reported as already in order when no sample name contains "_GenomeCounts" |
| MeltosClones.FirstClosing | plot_scripts/meltos_plot.py:21-29 | the index of the first field ending with "]", or none iff no field does |
| MeltosClones.ScanStep | plot_scripts/meltos_plot.py:21-29 | one field more: after the closing field its digit pieces are collected; before it, the first field ending with "]" becomes the closing one |
| MeltosClones.ScanClones | plot_scripts/meltos_plot.py:19-29 | the field loop with its `array_end_found` flag collects the line's clone IDs |
| MeltosClones.ScanEnd | plot_scripts/meltos_plot.py:21-29 | once every field is scanned, the IDs are the digit-only comma pieces of the fields after the closing one |
| MeltosClones.ParseMeltosOutputForClones | plot_scripts/meltos_plot.py:10-31 | the line loop computes the clone mapping of the file |
| MeltosClones.CloneMappingKeys | plot_scripts/meltos_plot.py:14-18 | a node is a key iff some "Valid" line with at least 4 fields names it at field 2 (see also line 30) |
| MeltosClones.CloneMappingValid | plot_scripts/meltos_plot.py:30 | each node is listed once, in the order of first insertion |
| MeltosClones.CloneMappingLast | plot_scripts/meltos_plot.py:30 | a repeated node keeps the clone IDs of the last line naming it |
| MeltosClones.LastNaming | plot_scripts/meltos_plot.py:30 | the index of the last line naming a node, with no later line naming it |
| MeltosClones.CloneMappingAt | plot_scripts/meltos_plot.py:30 | a node's clone IDs are those of the last line naming it |
| MeltosClones.Strings | plot_scripts/meltos_plot.py:39 | `map(str, ...)` renders each ID in decimal, in order |
| MeltosClones.SaveNodeCloneMapping | plot_scripts/meltos_plot.py:34-40 | writes the header and one `node\tids` line per node, in dictionary order |
| MeltosClones.CloneListChars | plot_scripts/meltos_plot.py:39 | a written clone list has only digits and commas |
| MeltosClones.MappingLineFields | plot_scripts/meltos_plot.py:39 | reading a written line gives back the node and the IDs as strings; a line with no IDs strips down to one field (see also lines 119-123) |
| MeltosClones.ReadBackLines | plot_scripts/meltos_plot.py:116-124 | reading the saved lines keeps exactly the nodes with a non-empty list, in order, each with its IDs as strings |
| MeltosClones.SaveReadRoundTrip | plot_scripts/meltos_plot.py:34-40 | save then read keeps every node with a non-empty list, in the same order, with its IDs as strings; a node with an empty list is dropped (see also lines 114-124) |
| MeltosClones.ReadNodeTable | plot_scripts/meltos_plot.py:116-124 | the node-table loop skips lines with fewer than 2 fields and keeps each node's last list |
| MeltosClones.SvPositionsSpec | plot_scripts/meltos_plot.py:132-136 | a position with exactly one '-' splits into the two sides; any other stays whole with an empty second position |
| MeltosClones.SvDetailsSpec | plot_scripts/meltos_plot.py:127-137 | the SV file is read without IndexError iff every line has at least two fields; the SV ids are the first fields |
| MeltosClones.SvDetailsLast | plot_scripts/meltos_plot.py:127-137 | each SV id read holds the positions of the last line naming it |
| MeltosClones.ReadSvDetails | plot_scripts/meltos_plot.py:127-137 | the SV loop computes the SV table, with IndexError on a line without a second field |
| MeltosClones.KnownSpec | plot_scripts/meltos_plot.py:142-143 | the known clones of a node are its clones that are SV ids, each as often as in the node's list |
| MeltosClones.NodeRows | plot_scripts/meltos_plot.py:142-147 | one row per known clone in the node's order, holding that SV's positions |
| MeltosClones.WriteNodeRows | plot_scripts/meltos_plot.py:142-147 | the inner loop writes exactly the node's rows |
| MeltosClones.WriteMatchRows | plot_scripts/meltos_plot.py:141-147 | the outer loop writes the rows of every node, node by node |
| MeltosClones.MatchNodeIdWithSvAndSave | plot_scripts/meltos_plot.py:114-149 | reads both tables (skipping their headers) and writes the header and the match rows, or fails as reading the SV table does |
| MeltosDrivers.RangePartsSpec | plot_scripts/meltos_plot.py:67-69 | a range token that unpacks is `base:start-end` with no stray ':' or '-' in its parts |
| MeltosDrivers.RangePartsOf | plot_scripts/meltos_plot.py:67-69 | every such `base:start-end` unpacks back to its parts |
| MeltosDrivers.TokenEntries | plot_scripts/meltos_plot.py:64-82 | ValueError iff a token with '-' does not unpack; a range gives `base:start`, plus `base:end` iff the two differ; any other token is kept whole; every entry carries the line's gene |
| MeltosDrivers.ReadDriverLine | plot_scripts/meltos_plot.py:60-82 | the loop body skips lines with fewer than 5 fields and otherwise appends the token's entries |
| MeltosDrivers.DriverListStep | plot_scripts/meltos_plot.py:59-82 | each line read appends its entries, or raises its error |
| MeltosDrivers.ReadDriverMutationFile | plot_scripts/meltos_plot.py:55-83 | skips the header (StopIteration on an empty file) and collects every line's entries in order, up to the first ValueError |
| MeltosDrivers.CoordSpec | plot_scripts/meltos_plot.py:102-105 | `chr:start-end` and `chr:start` read as the same (chr, start); a string with neither separator has no coordinate |
| MeltosDrivers.CoordMask | plot_scripts/meltos_plot.py:102 | splitting on `[:-]` treats '-' as ':' |
| MeltosDrivers.FirstHitSpec | plot_scripts/meltos_plot.py:104-111 | no match iff every driver has another coordinate; a match is the first driver in list order at the coordinate; ValueError only at a driver without a coordinate before any match |
| MeltosDrivers.FirstHitFound | plot_scripts/meltos_plot.py:104-111 | the returned gene is that of a driver at the coordinate, with no earlier driver there |
| MeltosDrivers.FirstHitFails | plot_scripts/meltos_plot.py:105 | a failure is ValueError at a driver without a coordinate, with no earlier match |
| MeltosDrivers.FindDriver | plot_scripts/meltos_plot.py:104-111 | the driver loop with `break` finds the first hit |
| MeltosDrivers.Then | plot_scripts/meltos_plot.py:95-111 | output after an exception is dropped; otherwise the lines of both steps, in order |
| MeltosDrivers.ThenAssociative | plot_scripts/meltos_plot.py:95-111 | sequencing output steps is associative |
| MeltosDrivers.PositionOutput | plot_scripts/meltos_plot.py:101-111 | at most one row per position, and none when it raises |
| MeltosDrivers.LineOutputSpec | plot_scripts/meltos_plot.py:95-111 | at most two rows per line; lines with fewer than 4 fields are skipped and more than 4 raise ValueError; each row names the line's node, clone and one of its positions |
| MeltosDrivers.WritePosition | plot_scripts/meltos_plot.py:101-111 | one pass of the position loop writes the position's output |
| MeltosDrivers.WriteLine | plot_scripts/meltos_plot.py:96-111 | one pass of the line loop writes the line's output |
| MeltosDrivers.MatchLinesAppend | plot_scripts/meltos_plot.py:95-111 | the output of two blocks of lines is the first block's followed by the second's |
| MeltosDrivers.MatchLinesStop | plot_scripts/meltos_plot.py:95-111 | once a line raises, later lines change nothing |
| MeltosDrivers.WriteLines | plot_scripts/meltos_plot.py:95-111 | the line loop writes every line's output up to the first exception |
| MeltosDrivers.MatchDriverMutationsToNodes | plot_scripts/meltos_plot.py:86-111 | skips the header (StopIteration on an empty file), writes the output header, then the rows of every line |
| MeltosDrivers.NodeGenePairs | plot_scripts/meltos_plot.py:316-317 | the (Node_ID, Driver_Gene) pair of every row, in order |
| MeltosDrivers.DriverGeneByNodeSpec | plot_scripts/meltos_plot.py:315-318 | a node is a key iff some row names it, and its gene is that of its last row |
| MeltosDrivers.ReadDriverMatches | plot_scripts/meltos_plot.py:311-319 | the row loop computes the node-to-gene map |
| MeltosDrivers.RelationshipSides | plot_scripts/meltos_plot.py:178-185 | a line with "->" always has a right side; only a side without a word raises |
| MeltosDrivers.ReadRelationships | plot_scripts/meltos_plot.py:176-186 | the relationship loop takes the first word on each side of "->" of every line containing it, in order |
| MeltosDrivers.CladeText | plot_scripts/meltos_plot.py:194-196 | a label's clade text has no ';' |
| MeltosDrivers.LabelSpec | plot_scripts/meltos_plot.py:194-196 | a label fails iff the ID is not an integer; it starts with the ID and has no ';' |
| MeltosDrivers.LabelUnknown | plot_scripts/meltos_plot.py:194-196 | an ID the mapping lacks is labelled "Unknown" |
| MeltosDrivers.ParentLabelNormal | plot_scripts/meltos_plot.py:191-203 | a parent is labelled (and drawn as) "Normal" iff it is "0" |
| MeltosDrivers.LabelledEdgesSpec | plot_scripts/meltos_plot.py:190-206 | one edge per relationship, in order, between the same nodes with their labels; a failure is ValueError |
| MeltosDrivers.LabelRelationships | plot_scripts/meltos_plot.py:190-206 | the labelling loop computes the labelled edges |
| MeltosDrivers.PlotMeltosTreeEdges | plot_scripts/meltos_plot.py:162-206 | the edges drawn are the labelled relationships of the Meltos output, or the error of reading them |
| DriverMutations.ColumnIndex | analysis/driver_mutations.py:20-27 | the column is found iff the upper- or lower-case name is in the header; it is the first occurrence of the upper-case name when present, else of the lower-case one |
| DriverMutations.DataRowsAt | analysis/driver_mutations.py:31-32 | the data rows are the tab fields of every line after the header, in order |
| DriverMutations.WriteCgiRows | analysis/driver_mutations.py:31-39 | the row loop writes `CgiRows` of the data rows |
| DriverMutations.CgiRowsAppend | analysis/driver_mutations.py:31-39 | one more row writes its line, or raises IndexError when it lacks a field |
| DriverMutations.CgiRowsSticky | analysis/driver_mutations.py:31-39 | after IndexError later lines change nothing |
| DriverMutations.CgiRowsOutcome | analysis/driver_mutations.py:31-39 | IndexError iff some row lacks a field, stopping at the first such row after one line per earlier row; otherwise one line per row |
| DriverMutations.CgiRowsLines | analysis/driver_mutations.py:33-39 | line i is row i's chr, pos, ref and alt fields, in that order |
| DriverMutations.ConvertToCgiFormat | analysis/driver_mutations.py:14-39 | the converter writes `CgiOutput` of the input lines |
| DriverMutations.CgiOutputSpec | analysis/driver_mutations.py:18-39 | ValueError, with nothing written, iff the header lacks one of CHR/POS/REF/ALT in both spellings; otherwise the header `chr\tpos\tref\talt` and then the row lines |
| DriverMutations.CgiLineRoundTrip | analysis/driver_mutations.py:38 | splitting a written line (without its newline) on tabs gives back chr, pos, ref and alt |
| DriverMutations.TabLineRoundTrip | analysis/driver_mutations.py:38 | a tab-joined line splits back into its cells (see also line 162) |
| DriverMutations.ResolveCancerType | analysis/driver_mutations.py:184-191 | succeeds iff the input is an abbreviation or a name of the table; keeps an abbreviation, always yields an abbreviation, and otherwise fails with UnboundLocalError |
| DriverMutations.DriverRowsSpec | analysis/driver_mutations.py:125 | the kept rows are exactly the rows whose prediction starts with "driver", each kept as often as it occurs |
| DriverMutations.DriverRowsPrefix | analysis/driver_mutations.py:121-135 | the rows kept from a prefix are a prefix of the rows kept from the whole |
| DriverMutations.CollectDriverValues | analysis/driver_mutations.py:121-135 | one formatted line per driver row, `gene\tprotein\tREF>ALT\ttype\tchr:pos`, or KeyError iff a driver row lacks a column it reads |
| DriverMutations.AlterationLineRoundTrip | analysis/driver_mutations.py:132-134 | splitting a formatted line on tabs gives back its five cells |
| DriverMutations.DriversFileNameShape | analysis/driver_mutations.py:154-155 | the name ends in "_drivers.txt", preceded by the cancer type with every space replaced by '_' |
| DriverMutations.ProcessAlterationsFile | analysis/driver_mutations.py:115-163 | KeyError iff some driver row lacks a column; otherwise the path in the target directory, and the header followed by one line per driver row, in order |
| DriverJoin.RangePiece | analysis/driver_mutations.py:222-226 | a piece `base:start-end` yields `base:start` and `base:end` |
| DriverJoin.PieceFails | analysis/driver_mutations.py:222-224 | a piece with '-' raises ValueError iff it does not hold exactly one ':' or its part after the ':' does not hold exactly one '-' |
| DriverJoin.CellPositionsOk | analysis/driver_mutations.py:227-228 | pieces without '-' are kept unchanged, in order |
| DriverJoin.RowPositions | analysis/driver_mutations.py:219-228 | the loop over the ';' pieces of the third field computes their positions |
| DriverJoin.CellPositionsErr | analysis/driver_mutations.py:219-228 | once a piece fails, the whole row fails with ValueError |
| DriverJoin.AddAllCounts | analysis/driver_mutations.py:230-236 | each non-empty position gets one copy of the entry per occurrence, after what it held; the empty position is skipped; the keys are the old ones plus the non-empty positions |
| DriverJoin.AddEntries | analysis/driver_mutations.py:230-236 | the loop over the positions computes `AddAll` |
| DriverJoin.ParseRowsAbandons | analysis/driver_mutations.py:209-238 | after an exception the rest of the file is abandoned |
| DriverJoin.AddAllExtends | analysis/driver_mutations.py:234 | lists are only extended: earlier entries are never changed |
| DriverJoin.ParseAllExtends | analysis/driver_mutations.py:208-238 | every earlier file's entries survive later files, failed ones included |
| DriverJoin.ParseAllEntries | analysis/driver_mutations.py:206-239 | no position is empty, and every entry names the prefix of some file |
| DriverJoin.ParseFileEntries | analysis/driver_mutations.py:209-238 | one file adds only entries naming that file, and no empty position |
| DriverJoin.ParseCsvRows | analysis/driver_mutations.py:218-238 | the row loop with its `try`/`except` keeps the entries added before an exception |
| DriverJoin.ParseCsvFiles | analysis/driver_mutations.py:206-239 | the file loop computes `ParseAll`, skipping unreadable files and files with fewer than 3 columns |
| DriverJoin.RangeSummary | analysis/driver_mutations.py:246-254 | for a range token the keys are its start and `base:end`, with `base` everything before the start's last ':' |
| DriverJoin.PlainSummary | analysis/driver_mutations.py:255-256 | a token without '-' maps itself |
| DriverJoin.PutAllValid | analysis/driver_mutations.py:253-256 | writing keys sets each to the gene and keeps the others |
| DriverJoin.DriverLastRowWins | analysis/driver_mutations.py:245-256 | each key maps to the gene of the last row naming it |
| DriverJoin.DriverMapStep | analysis/driver_mutations.py:245-256 | the table is that of all rows but the last, with the last row's keys written in |
| DriverJoin.DriverKeys | analysis/driver_mutations.py:245-256 | the keys are exactly the positions some row names |
| DriverJoin.PutRow | analysis/driver_mutations.py:246-256 | the loop body writes one row's keys |
| DriverJoin.ProcessDriverFile | analysis/driver_mutations.py:242-258 | the row loop computes `DriverMap`, failing at the first malformed range |
| DriverJoin.DriverMapErr | analysis/driver_mutations.py:245-256 | once a row fails, the table fails the same way |
| DriverJoin.PresentKeys | analysis/driver_mutations.py:263-265 | the kept positions are exactly those of `position_to_gene` with data, without duplicates |
| DriverJoin.PresentAll | analysis/driver_mutations.py:263-265 | when every driver position has data nothing is dropped and the order is kept |
| DriverJoin.MatchPositions | analysis/driver_mutations.py:261-274 | the sub-dictionary of `mutation_data` on the positions of `position_to_gene`, in that order, with the values copied unchanged |
| CancerTypes.TableShape | analysis/cancer_dict.py:1-35 | 33 entries, and no name is also an abbreviation |
| CancerTypes.KeyOfFound | analysis/driver_mutations.py:187-189 | inverting finds a pair with the value, and no later pair has it |
| CancerTypes.NameToAbbreviation | analysis/driver_mutations.py:186-189 | a name maps back to the last abbreviation paired with it |
| CancerTypes.AbbreviationSpec | analysis/driver_mutations.py:44-49 | the lookup succeeds iff the input is an abbreviation or a name, keeps an abbreviation, and always yields an abbreviation |
| TreeFunc.ParentsChildren | plot_scripts/tree_func.py:193-194 | the parent and child sets hold exactly the sides of the parsed pairs |
| TreeFunc.EdgePairsSticky | plot_scripts/tree_func.py:186-188 | once a line fails to split into two sides, the whole file fails with ValueError |
| TreeFunc.ScanEdges | plot_scripts/tree_func.py:185-194 | the line loop yields the parents, the children and whether some parent is "Normal", or ValueError for a line that does not split in two |
| TreeFunc.AppendRoots | plot_scripts/tree_func.py:201-214 | one `Normal->r` line per root, each root once, in some order |
| TreeFunc.FindAndAppendRootNode | plot_scripts/tree_func.py:180-215 | ValueError, with nothing appended, iff a "->" line does not split in two; a file with a "Normal" parent is unchanged; otherwise exactly one `Normal->r` line is appended for each r in parents minus children minus "Normal" |
| TreeFunc.ParseRootLine | plot_scripts/tree_func.py:188-190 | an appended root line parses back to (Normal, root) (see also line 214) |
| TreeFunc.EdgePairsConcat | plot_scripts/tree_func.py:186-194 | the pairs of two consecutive parts of a file are those of each part |
| TreeFunc.AppendedRootsParse | plot_scripts/tree_func.py:185-214 | after the appends, a file that is empty or ends with a newline reads back as its old pairs followed by one (Normal, root) pair per appended line |
| TreeFunc.RootCompletionIdempotent | plot_scripts/tree_func.py:191-205 | for a file that is empty or ends with a newline: after an append the file has a "Normal" parent, so a second run changes nothing; a run that appends nothing changes nothing |
| TreeFunc.GluedRootLineFails | plot_scripts/tree_func.py:185-214 | without a final newline completion is not idempotent: for the file "A->B" the appended line is glued onto "A->B", and a second run fails with ValueError |
| TreeFunc.Truncate | plot_scripts/tree_func.py:50-52 | `int()` of a count truncates toward zero |
| TreeFunc.NodeCountsKeys | plot_scripts/tree_func.py:46-55 | the nodes are exactly the branches of rows with a mutation count |
| TreeFunc.NodeCountsLast | plot_scripts/tree_func.py:52 | each node has the truncated count of the last row with its name and a count |
| TreeFunc.AddNodes | plot_scripts/tree_func.py:46-55 | the node loop draws one node per row with a count and builds the node table |
| TreeFunc.TreeLinesSpec | plot_scripts/tree_func.py:57-64 | a line is parsed iff it contains "->", is not a "#Tree" line and follows a "#Tree" line; none are parsed in a file without one |
| TreeFunc.TreeLinesStep | plot_scripts/tree_func.py:59-64 | one more line sets the flag on a "#Tree" line, or adds itself to the parsed lines |
| TreeFunc.KeptEdgesSpec | plot_scripts/tree_func.py:65-74 | an edge is kept iff both ends are nodes or the parent is "Normal" |
| TreeFunc.AddEdges | plot_scripts/tree_func.py:57-75 | the edge loop keeps exactly those edges of the parsed lines, or fails with ValueError on a line that does not split in two |
| TreeFunc.PlotTreeGraph | plot_scripts/tree_func.py:39-75 | the nodes and edges `plot_tree` draws |
| TreeFunc.DebugPrintTreeLines | plot_scripts/tree_func.py:17-29 | the loop prints the stripped lines after the first "#Tree" line, up to the first blank one |
| TreeFunc.DebugLinesSpec | plot_scripts/tree_func.py:22-29 | every printed line is non-blank, stripped, and the stripped text of a non-"#Tree" line after a "#Tree" line |
| TreeFunc.EdgeMidpoint | plot_scripts/tree_func.py:386-404 | None iff the list is empty or an index is outside [0, len); otherwise the midpoint of the two points |
| TreeFunc.EdgeMidpointSymmetric | plot_scripts/tree_func.py:396 | the order of the two indices does not matter, and a point's midpoint with itself is the point |
| MutFunc.TitlePrefix | plot_scripts/mut_func.py:95 | the panel letter is the letter k mod 24 places after 'C' (see also line 117) |
| MutFunc.TitlePrefixCycle | plot_scripts/mut_func.py:95 | two files get the same letter iff their indices agree modulo 24 (see also line 117) |
| MutFunc.Branch | plot_scripts/mut_func.py:118 | the branch is the longest prefix of the file name without '_' |
| MutFunc.PlotFileNameBranch | plot_scripts/mut_func.py:118 | the branch can be read back from the plot file name (see also line 211) |
| MutFunc.PlotFileNamesCollide | plot_scripts/mut_func.py:117-118 | two files get the same plot name iff their branches are equal and their indices agree modulo 24 (see also line 211) |
| MutFunc.CsvNamesSpec | plot_scripts/mut_func.py:94 | the listing keeps exactly the ".csv" names, each as often as listed |
| MutFunc.SubstitutionTypeOf | plot_scripts/mut_func.py:126 | a substitution `pre[t]post` has type t |
| MutFunc.SubstitutionTypeNone | plot_scripts/mut_func.py:126 | there is no type iff there is no '[' followed later by a ']' |
| MutFunc.DriverColourDistinct | plot_scripts/mut_func.py:98-107 | no substitution type has the driver colour |
| MutFunc.UniqueTypesSpec | plot_scripts/mut_func.py:132 | the types, once each, are exactly the types of the rows |
| MutFunc.OfTypeCount | plot_scripts/mut_func.py:138 | the rows of a type are exactly the rows with that type, each as often as it occurs |
| MutFunc.EveryTypedRowOnce | plot_scripts/mut_func.py:137-142 | every row with a type gets exactly one bar and a row without one gets none |
| MutFunc.PlottedPrefix | plot_scripts/mut_func.py:137-142 | plotting more types only adds bars after those already drawn |
| MutFunc.FirstMatch | plot_scripts/mut_func.py:146-158 | the first entry of a position whose file prefix is the branch and whose substitution is the row's, or none iff no entry matches |
| MutFunc.BasePosition | plot_scripts/mut_func.py:154-156 | IndexError iff the position has no ':' |
| MutFunc.BasePositionOf | plot_scripts/mut_func.py:154-156 | a "chr:pos" position is its own base position, and anything after a second ':' is cut off |
| MutFunc.PositionLabel | plot_scripts/mut_func.py:146-160 | a gene a position yields is never empty |
| MutFunc.PositionGene | plot_scripts/mut_func.py:146-159 | the inner loop with `break` computes the position's label |
| MutFunc.GeneFromSpec | plot_scripts/mut_func.py:144-160 | no gene iff no position gives one; otherwise the gene or error of the first position in `matched_positions` order that gives one |
| MutFunc.GeneFromError | plot_scripts/mut_func.py:154-156 | the only error of the gene loops is the IndexError of a position without ':' |
| MutFunc.DecideGene | plot_scripts/mut_func.py:144-160 | the nested loops settle on the gene `GeneFrom` gives |
| MutFunc.RowBarSpec | plot_scripts/mut_func.py:142-184 | a type outside `color_map` raises KeyError before any gene lookup; otherwise the bar has the row's label and count, and it is gold with a gene label iff the loops found a gene |
| MutFunc.DrawBar | plot_scripts/mut_func.py:143-184 | one row's bar, or its error |
| MutFunc.BarsOfSpec | plot_scripts/mut_func.py:137-184 | the plot succeeds iff every row's bar does, with one bar per row in order; otherwise it fails with the first failing row's error |
| MutFunc.TypeBars | plot_scripts/mut_func.py:142-184 | the inner loop adds the bars of one type's rows after the bars already drawn |
| MutFunc.MutationBars | plot_scripts/mut_func.py:137-184 | the bars of one file: the rows of each type, types in order of first appearance |
| MutFunc.PlotsOfSpec | plot_scripts/mut_func.py:115-214 | a successful run has one plot per file at its index; a failed run fails with the first failing file's error |
| MutFunc.MutationPlots | plot_scripts/mut_func.py:94-214 | the file loop makes the plots of the ".csv" names in listing order |
| Cravat.ScanForPlusStrand | driver_mutations_with_cravat.py:16-24 | conversion proceeds iff no line after the first has "+" as its fourth field |
| Cravat.WriteCravatRows | driver_mutations_with_cravat.py:37-49 | the numbered row loop writes `CravatRows` of the data rows |
| Cravat.CravatRowsAppend | driver_mutations_with_cravat.py:38-49 | one more row writes a line numbered one after those written so far, or raises IndexError when it lacks a field |
| Cravat.CravatRowsSticky | driver_mutations_with_cravat.py:38-49 | after IndexError later lines change nothing |
| Cravat.ConvertToOpenCravatFormat | driver_mutations_with_cravat.py:15-51 | the converter writes `CravatOutput` of the input lines |
| Cravat.CravatRowsOutcome | driver_mutations_with_cravat.py:38-49 | IndexError iff some row lacks a field, stopping at the first such row; otherwise one line per row |
| Cravat.CravatRowsLines | driver_mutations_with_cravat.py:37-49 | line i is numbered i + 1 and holds row i's chr, pos, "+", ref and alt |
| Cravat.CravatOutputSpec | driver_mutations_with_cravat.py:16-51 | nothing is written iff a line after the header has "+" as its fourth field; otherwise ValueError, with nothing written, iff the header lacks a column in both spellings |
| Cravat.CravatLineRoundTrip | driver_mutations_with_cravat.py:45-47 | a written line splits back into its number, chr, pos, "+", ref and alt, and `int` of its first cell is the line number |
| Cravat.CravatLinePlus | driver_mutations_with_cravat.py:21-22 | a written line, read by the first pass, has "+" as its fourth field (see also lines 45-47) |
| Cravat.OutputNotReconverted | driver_mutations_with_cravat.py:18-24 | converting the converter's own output (two lines or more) writes nothing (see also lines 45-47) |
| Cravat.ChasmOption | driver_mutations_with_cravat.py:57-73 | "chasmplus_" and the abbreviation for a key or a value of the table; "chasmplus" for none, blank or anything else |
| Cravat.ChasmOptionSpec | driver_mutations_with_cravat.py:57-73 | the option names a cancer type iff the input is a key or a value of the table, and the type it names is a key |
| Cravat.ChasmAgreesWithCgi | driver_mutations_with_cravat.py:57-73 | where the CGI analysis resolves a cancer type the option names the same type; where it fails, the option is pan-cancer |
| Cravat.AnnotatorList | driver_mutations_with_cravat.py:82-86 | the annotators are always "pubmed" then the chasm option |
| Cravat.RunCravat | driver_mutations_with_cravat.py:75-93 | the three commands in order: the base install, the install of vest, pubmed and the chasm option, and the run with that same chasm module and pubmed, on hg38, with Excel output into the output directory |
| Cravat.SignificantSpec | driver_mutations_with_cravat.py:119-122 | the kept rows are exactly those with a p-value below 0.05, each kept as often as it occurs |
| Cravat.SummaryRows | driver_mutations_with_cravat.py:122-150 | one row per kept row, in order |
| Cravat.SummaryTable | driver_mutations_with_cravat.py:114-160 | nothing is written iff there is no workbook, no "P-value" column or one of Ref Base, Alt Base, Chrom and Position is missing; KeyError iff those are present but "Gene" is not; otherwise the table holds exactly the rows with p-value below 0.05 |
| Cravat.MutationSummaryRoundTrip | driver_mutations_with_cravat.py:130-141 | "Chrom:Position Ref>Alt" splits back into its four parts |
| Cravat.CravatDriversPathShape | driver_mutations_with_cravat.py:108-112 | the file is `<input base name without extension>_cravat_drivers.txt`, directly in the output directory |
| PieFunc.IsColorDark | plot_scripts/pie_func.py:14-17 | ValueError iff a channel at characters 1-2, 3-4 or 5-6 is not a hexadecimal number |
| PieFunc.ParseHexByte | plot_scripts/pie_func.py:15 | reading a written channel back gives its value |
| PieFunc.IsColorDarkHex | plot_scripts/pie_func.py:14-17 | for "#rrggbb" the verdict is whether 0.299r + 0.587g + 0.114b is below 128 |
| PieFunc.DarknessOrder | plot_scripts/pie_func.py:14-17 | black is dark, white is not, and darkening a channel keeps a dark colour dark |
| PieFunc.Judged | plot_scripts/pie_func.py:23-24 | each table entry's name with its verdict, in order |
| PieFunc.DarkNamesOk | plot_scripts/pie_func.py:21-29 | the filter fails iff some verdict fails, with that verdict's error |
| PieFunc.DarkNamesLast | plot_scripts/pie_func.py:21-29 | the list keeps the table's order: the last entry is added at the end iff it is dark and passes the name tests |
| PieFunc.DarkColorsSpec | plot_scripts/pie_func.py:21-29 | ValueError iff a table value is malformed; otherwise exactly the dark names without "light", "white" or "gray" that are not "black", each once |
| PieFunc.ColorPairs | plot_scripts/pie_func.py:31-34 | signature i is paired with dark colour i mod the number of dark colours |
| PieFunc.ColorMapSpec | plot_scripts/pie_func.py:20-35 | fails iff the table is malformed, or there is no dark colour and some signature; otherwise the keys are the signatures, each with the colour of its last occurrence taken cyclically |
| PieFunc.ColorIndex | plot_scripts/pie_func.py:31-34 | a repeated signature keeps the colour of its last occurrence |
| PieFunc.ColorMapInjective | plot_scripts/pie_func.py:31-34 | with no more distinct signatures than dark colours, no two signatures share a colour |
| PieFunc.ReadSignaturesNone | plot_scripts/pie_func.py:38-46 | without a "Signature List" line the result is [] |
| PieFunc.ReadSignaturesFirst | plot_scripts/pie_func.py:39-44 | the first "Signature List" line decides the result, and later lines are never read |
| PieFunc.SignatureLineRoundTrip | plot_scripts/pie_func.py:41-44 | writing signatures as a control line and reading the file back gives the signatures |
| Phylo.AllCladesAt | CloneFinder2MeltosIn.py:165 | the clades visited are the single leaves in preorder, then the nonterminal clades |
| Phylo.SortNames | CloneFinder2MeltosIn.py:163-164 | the names in ascending order, each as often as before |
| Phylo.SortedUnique | CloneFinder2MeltosIn.py:164 | the sorted order does not depend on the order the leaves were listed in |
| Phylo.BitStringAt | CloneFinder2MeltosIn.py:171-173 | character i of a clade's bit-string is '1' iff the i-th sorted name lies under the clade, '0' otherwise |
| Phylo.RootBitAllOnes | CloneFinder2MeltosIn.py:171-173 | the whole tree's bit-string is all ones (see also line 227) |
| Phylo.LeafBit | CloneFinder2MeltosIn.py:171-173 | with distinct names, a leaf's bit-string has its only '1' at the position of its name |

## Left out

- File and console I/O: files are modelled as their lines or as the rows pandas reads, writes become returned lines or tables, and `print` messages are dropped. `time.sleep` and the polling loops are left out.
- The Newick reader of Bio.Phylo: trees are the `Tree` datatype. `tree.trace(name, "Normal")` (CloneFinder2MeltosIn.py:178) is a parameter, a map from each leaf name to the clades `trace` returns for it; a name with no entry is one for which `trace` raises. The library is outside this model.
- pandas type inference, `comment="#"` handling and Excel reading: cells are strings, or reals where the code does arithmetic on them. The CRAVAT summary sheet is a parameter, with None standing for a missing workbook.
- `csv.DictReader` rows (analysis/driver_mutations.py:119-131) are maps from the header names present in the row to strings. A row shorter than the header, whose missing cells DictReader fills with None, is not modelled: there the source raises AttributeError or TypeError, or writes the text "None".
- Floating point: VAFs, the halved frequencies, the brightness of a colour, midpoints and p-values are exact `real`s. `str(float)` is a `RealFormat` parameter because Python's shortest-repr rendering is not modelled.
- `int()` and `str.isdigit()` are modelled for ASCII text only. The decimal parsers `Text.ParseInt` and `Text.IsDigits` accept no surrounding whitespace, no underscores and no Unicode digits, although Python's `int()` does. `PieFunc.ParseHex` strips surrounding ASCII whitespace and takes an optional sign and "0x" prefix, as `int(s, 16)` does, but accepts no underscores and no Unicode digits. `str.strip()` removes ASCII whitespace only.
- The structural-variant branch of CloneFinder2MeltosIn.py:62-158 is left out. The script fixes `SV = "NA"`, and line 62 enters the branch only when a file or directory named "NA" exists in the working directory. The model assumes no such path exists.
- HelperCloneFinder.RunCloneFinder: paths are taken as given. `run_clonefinder` changes the working directory to `<target_dir>/CloneFinder` (analysis/helper_clonefinder.py:71-73) before it checks the input file and moves the outputs. Relative `input_file` and `target_dir` are therefore resolved there by the source, so a relative input path may not be found and the outputs go to `<target_dir>/CloneFinder/<target_dir>`. The model reads the paths as absolute, or as already resolved against that directory; the same holds for `HelperCloneFinder.MoveCloneFinderOutputs`.
- Subprocesses: `clone_git_repo`, `create_output_directory` and `run_meltos` (analysis/helper_meltos.py:77) are left out. The CloneFinder run is a parameter (the files it produces). The OpenCRAVAT `oc` commands are modelled as the argument lists handed to `subprocess.run`, not as their effect.
- The Cancer Genome Interpreter web client (analysis/driver_mutations.py:42-112, 166-175): `submit_job`'s HTTP request, `check_job_completed`, `download_results` and `extract_and_process_zip` are network and zip handling. Only the cancer-type resolution of `submit_job` and `run_cgi` is modelled.
- Rendering with graphviz, matplotlib and PIL is left out: image drawing, fonts, PNG files and pixel coordinates. This covers:
  - `plot_tree_with_driver`, `mark_midpoints_on_png`, `mark_midpoints_on_png_driver`, `dot_to_text`, `save_edge_info_to_txt`, `parse_edge_info`, `graphviz_to_png_coordinates`, `load_and_resize_image` and `find_best_midpoint` (plot_scripts/tree_func.py);
  - `signature_pie_plots` and `euclidean_distance` (plot_scripts/pie_func.py);
  - the image grid of `mutation_plots` (plot_scripts/mut_func.py:216-259);
  - `plot_meltos`, `find_most_recent_meltos_file` and the drawing and midpoint helpers of plot_scripts/meltos_plot.py.
  The graph content handed to graphviz (nodes, labels, edges, colours) is modelled.
- `matplotlib.colors.CSS4_COLORS` is a parameter, a map from colour names to hex codes.
- driver_mutations_with_cravat.py:107 computes `formatted_chasm_option` and never uses it, so it is left out. Line 109 builds the workbook path from the global `args.input_file`; the workbook it names is the sheet parameter.
- `check_networkx_version`, `delete_files`, `t_` and `t` (analysis/general_helper.py:34-63) are version checks, file deletion and timing helpers, left out.
- genopath.py, the command-line entry points and the other analysis scripts are not part of this model.
- TreeFunc.AppendRoots: states the appended root lines only up to order (some duplicate-free ordering of the roots), because Python's set iteration order is not specified.
- TreeFunc.FindAndAppendRootNode: the order of the appended lines is stated only existentially, as for `AppendRoots`.
- TreeFunc.RootCompletionIdempotent: holds only for a tree file that is empty or ends with a newline. `append_normal_relationship` (plot_scripts/tree_func.py:213-214) appends in "a" mode, so without a final newline the first root line is glued onto the last line; `GluedRootLineFails` exhibits a file for which a second run then fails.
- MeltosSnv.SiteVafs: each VAF is the exact quotient `alt / (alt + ref)` (0 when both are 0), not its IEEE double rounding.
- PieFunc.IsColorDarkHex: the brightness is an exact real, so a colour whose double-precision brightness rounds across 128 may be classified differently.
- HelperMeltos.OrderVerification: states the column list written and whether it changed, not the cells of the reindexed table (pandas fills columns it has not got with NaN).
- HelperMeltos.LoadSampC: the CHR column is read only for its KeyError; its cells are not used.
