# Guide-RNA library extraction and pipeline command builders, in Dafny

This project models two parts of the jupyter-genomics repository.

**The dual-CRISPR library reader** (`construct_file_extracter.py`) reads a
tab-delimited construct table. It maps three caller-chosen columns onto the roles
construct id, gene-A sequence and gene-B sequence. It then:

- splits every construct id at `__` into an A-name and a B-name;
- pairs each name with its sequence and upper-cases the sequences;
- reduces the pairs to distinct `(sequence, name)` tuples in sorted order;
- checks that names and sequences correspond one to one.

The same validator serves guide files, which are tab-separated lines with `#`
comments. Validated guides can be trimmed.

**The microbiome wrappers' command builders** (`form_*_cmd_list`) cover
trimmomatic, megahit, bowtie2 (index build and alignment), fastqc and metaquast.
Each checks its arguments in a fixed order, raising `ValueError`, and then
assembles the argument list.

Layout:

- `results.dfy`: `Option` and `Result`. `Result` stands for a return value or a
  Python exception.
- `pystrings.dfy`: the Python string operations the code uses, with Python
  semantics. These are `find`, `in`, `split`, `join`, `upper`, `strip` and
  `re.sub(..., 1)` on a literal pattern.
- `posix_path.dfy`: `os.path.split` and `os.path.join` as `posixpath` defines them.
- `guide_order.dfy`: Python's ordering of strings and of 2-tuples, and "distinct,
  then sorted".
- `construct_file_extracter.dfy`: the library reader. The validator, the column
  renaming, the trimming and the guide-file filter are methods with loops over
  maps and sequences. The split, pair, upper-case, dedup and sort stage is made of
  pure functions.
- `command_line.dfy`: the `flag a,b,c` groups the builders emit, and how a tool
  reads them back.
- `exec_trim.dfy`, `exec_megahit.dfy`, `exec_bowtie.dfy`, `exec_fastqc.dfy` and
  `exec_metaquast.dfy`: one file per builder. Each has a function stating what
  the builder returns or raises, with the layout and read-back lemmas proved
  about it. Each builder that appends to its list also has a method that appends
  step by step as the source does, proved equal to that function. The
  bowtie-build command, a literal list in the source, is the function
  `BowtieBuildCmd` alone.

## Model

| member | source | states |
|---|---|---|
| ConstructFileExtracter.SplitConstructId | src/crispr/ccbbucsd/malicrispr/construct_file_extracter.py:19-20 | An id splits at the separator `__` into exactly `[a, b]` iff it is `a + "__" + b`, neither part holds `__`, and `a` does not end in `_`. |
| ConstructFileExtracter.RenameColumns | src/crispr/ccbbucsd/malicrispr/construct_file_extracter.py:37-47 | Succeeds iff every column index is in range and there are at most three. It then relabels through the index-to-role dictionary (a later index overrides an earlier one) and leaves the rows untouched. Otherwise it raises the error of the first index that cannot be processed (`FirstRenameBreak`): out of range, or a fourth index. |
| ConstructFileExtracter.FirstRenameBreak | src/crispr/ccbbucsd/malicrispr/construct_file_extracter.py:41-45 | For column indices that cannot all be processed, the index at which the loop raises: all earlier indices are processed. |
| ConstructFileExtracter.FirstRenameBreakAt | src/crispr/ccbbucsd/malicrispr/construct_file_extracter.py:41-45 | An index that fails after a good prefix makes the renaming fail, and it is the first failing index. |
| ConstructFileExtracter.RenameByPosition | src/crispr/ccbbucsd/malicrispr/construct_file_extracter.py:37-47 | Over distinct labels, the column `column_indices[i]` designates gets the i-th role name unless a later index designates it too. Every column no index designates keeps its label. |
| ConstructFileExtracter.RenameTargetOfLastIndex | src/crispr/ccbbucsd/malicrispr/construct_file_extracter.py:42-45 | The dictionary maps a column's label to the role of the last index that designates it. |
| ConstructFileExtracter.RenameTargetOfUnnamedColumn | src/crispr/ccbbucsd/malicrispr/construct_file_extracter.py:42-47 | A column that no index designates is not in the dictionary. |
| ConstructFileExtracter.ReadInConstructTable | src/crispr/ccbbucsd/malicrispr/construct_file_extracter.py:31-34 | Nothing after the skipped rows raises. Otherwise it succeeds iff the renaming does, and then yields the position-labelled, renamed, rectangular table. A failed renaming gives the error of the first bad column index. |
| ConstructFileExtracter.Column | src/crispr/ccbbucsd/malicrispr/construct_file_extracter.py:56 | A column exists iff some label is its role. It then holds, for every row, the cell under the first such label. |
| ConstructFileExtracter.SplitIds | src/crispr/ccbbucsd/malicrispr/construct_file_extracter.py:56 | One piece list per id. Each list is non-empty, joins back to its id with `__`, and has no piece holding `__`. |
| ConstructFileExtracter.SplitIdsInTwo | src/crispr/ccbbucsd/malicrispr/construct_file_extracter.py:56 | Row i splits into exactly `[a, b]` iff its id is `a + "__" + b`, neither name holds `__`, and `a` does not end in `_`. |
| ConstructFileExtracter.ShortestLength | src/crispr/ccbbucsd/malicrispr/construct_file_extracter.py:55-56 | The number of tuples `zip` yields is at most every list's length and equal to one of them. |
| ConstructFileExtracter.SplitsInTwo | src/crispr/ccbbucsd/malicrispr/construct_file_extracter.py:56 | When `zip` over the split ids yields two tuples, every id has split into at least two pieces. |
| ConstructFileExtracter.GuidePairs | src/crispr/ccbbucsd/malicrispr/construct_file_extracter.py:59-64 | Twice as many pairs as rows. Row i gives `(upper(A-seq), A-name)` at i and `(upper(B-seq), B-name)` at n+i, where the names are the first two pieces of the row's split id. |
| ConstructFileExtracter.GuidePairsUpperCase | src/crispr/ccbbucsd/malicrispr/construct_file_extracter.py:59-64 | Every sequence in the candidate pairs is upper-case. |
| ConstructFileExtracter.ExtractGrnasFromConstructTable | src/crispr/ccbbucsd/malicrispr/construct_file_extracter.py:50-69 | Raises on a missing id column first, then on ids whose `zip` does not yield two columns, then on a missing gene-A sequence column, then on a missing gene-B one. Succeeds iff all three role columns exist and the ids split in two. The result is strictly sorted, upper-case, and has exactly the elements of the A pairs and B pairs. |
| GuideOrder.SortedDistinct | src/crispr/ccbbucsd/malicrispr/construct_file_extracter.py:67-69 | The result is strictly sorted under Python tuple order and has exactly the input's elements. |
| GuideOrder.StrictlySortedUnique | src/crispr/ccbbucsd/malicrispr/construct_file_extracter.py:69 | Two strictly sorted lists with the same elements are equal. |
| GuideOrder.SortedDistinctDeterministic | src/crispr/ccbbucsd/malicrispr/construct_file_extracter.py:69 | The output depends only on the set of pairs, not on row order or repetition. |
| GuideOrder.SortedDistinctIdempotent | src/crispr/ccbbucsd/malicrispr/construct_file_extracter.py:67-69 | Sorting-and-deduplicating twice gives what once gives. |
| GuideOrder.PairLessTransitive | src/crispr/ccbbucsd/malicrispr/construct_file_extracter.py:69 | Python's `(sequence, name)` tuple order is transitive. |
| GuideOrder.PairLessTotal | src/crispr/ccbbucsd/malicrispr/construct_file_extracter.py:69 | Of two different tuples, one is smaller. |
| GuideOrder.StrLessTransitive | src/crispr/ccbbucsd/malicrispr/construct_file_extracter.py:69 | Python's string order is transitive. |
| ConstructFileExtracter.FormatAndCheckGrnasInput | src/crispr/ccbbucsd/malicrispr/construct_file_extracter.py:103-135 | Succeeds iff every record has two fields, all sequences differ and all names differ. On success it returns every record in input order as `(name, sequence)`. Otherwise it returns the error of the first record that breaks consistency (`FirstBreak`), and only that one. |
| ConstructFileExtracter.CheckRecord | src/crispr/ccbbucsd/malicrispr/construct_file_extracter.py:110-128 | One loop pass, given maps that index the earlier records: it passes iff the record keeps the prefix consistent. A failing record gets the error for its first violated check: field count, then repeated sequence, then repeated name. |
| ConstructFileExtracter.FirstBreak | src/crispr/ccbbucsd/malicrispr/construct_file_extracter.py:109-128 | For input that is not consistent throughout, the index of the record that first breaks consistency: every earlier prefix is consistent. |
| ConstructFileExtracter.FirstBreakAt | src/crispr/ccbbucsd/malicrispr/construct_file_extracter.py:109-128 | A record that breaks a consistent prefix makes the whole input inconsistent, and it is the first break. |
| ConstructFileExtracter.SwappedElements | src/crispr/ccbbucsd/malicrispr/construct_file_extracter.py:130-132 | The list the loop builds holds each record, in order, with its two fields exchanged. |
| ConstructFileExtracter.SequenceSeenBefore | src/crispr/ccbbucsd/malicrispr/construct_file_extracter.py:118-122 | A record repeating an earlier sequence, even with the same name, is rejected with a sequence conflict naming the earlier name. |
| ConstructFileExtracter.NameSeenBefore | src/crispr/ccbbucsd/malicrispr/construct_file_extracter.py:124-128 | A record with a new sequence but an earlier name is rejected with a name conflict naming the earlier sequence. The sequence check comes first. |
| ConstructFileExtracter.DistinctPairsValidIffOneToOne | src/crispr/ccbbucsd/malicrispr/construct_file_extracter.py:103-135 | On a strictly sorted list, validation succeeds iff sharing a sequence and sharing a name go together. |
| ConstructFileExtracter.ExtractionValidIffOneToOne | src/crispr/ccbbucsd/malicrispr/construct_file_extracter.py:25-26 | Validating the deduplicated extraction succeeds iff the candidate pairs relate sequences and names one to one. Exact repeats are no conflict. |
| ConstructFileExtracter.Unique | src/crispr/ccbbucsd/malicrispr/construct_file_extracter.py:27 | Same values as the input, each once. |
| ConstructFileExtracter.UniqueKeepsFirstSeenOrder | src/crispr/ccbbucsd/malicrispr/construct_file_extracter.py:27 | The values come in the order of their first occurrence in the input. |
| ConstructFileExtracter.ExtractConstructAndGrnaInfo | src/crispr/ccbbucsd/malicrispr/construct_file_extracter.py:23-28 | Succeeds iff loading, extraction and validation succeed. It returns the unique construct ids in first-seen order and the extracted pairs swapped to `(name, sequence)` in sorted order. No two of those pairs share a name or a sequence. A failure reports the earliest failing stage: an empty file, the first bad column index, the extraction error, or the first record that breaks consistency. |
| ConstructFileExtracter.TrimGrnas | src/crispr/ccbbucsd/malicrispr/construct_file_extracter.py:78-85 | Same length and order, every name kept, and each sequence replaced by `trim_seq(seq, retain_len, False)`. |
| ConstructFileExtracter.GrnaRecords | src/crispr/ccbbucsd/malicrispr/construct_file_extracter.py:93-100 | At most one record per line. Every non-comment line's stripped, tab-split record is present. An all-comment file gives none. |
| ConstructFileExtracter.GrnaRecordsInOrder | src/crispr/ccbbucsd/malicrispr/construct_file_extracter.py:95-99 | One record per non-comment line, in file order: the record of line i follows those of the non-comment lines before it. |
| ConstructFileExtracter.GrnaRecordsFromLines | src/crispr/ccbbucsd/malicrispr/construct_file_extracter.py:96-99 | Every record comes from a non-comment line, stripped and split at tabs. |
| ConstructFileExtracter.ReadGrnasInput | src/crispr/ccbbucsd/malicrispr/construct_file_extracter.py:93-100 | The loop yields exactly `GrnaRecords` of the lines. |
| ConstructFileExtracter.ReadInGrnas | src/crispr/ccbbucsd/malicrispr/construct_file_extracter.py:88-90 | Succeeds iff the file's records are consistent. It then returns them in file order as `(name, sequence)`. Otherwise it reports the first record that breaks consistency. |
| PyStrings.SplitOn | src/crispr/ccbbucsd/malicrispr/construct_file_extracter.py:98 | `str.split(sep)` gives at least one piece. Joining the pieces with `sep` gives the input back, and no piece contains `sep`. Each cut is at the leftmost separator: a piece followed by `sep` first contains `sep` right after the piece. |
| PyStrings.LeftmostSeparator | src/crispr/ccbbucsd/malicrispr/construct_file_extracter.py:98 | The text before the first separator, followed by the separator, first contains the separator at its end. |
| PyStrings.SplitJoin | src/microbiome/exec_megahit.py:49 | Splitting `",".join(files)` at `,` gives back the files when none holds a comma. |
| PyStrings.Upper | src/crispr/ccbbucsd/malicrispr/construct_file_extracter.py:64 | The result has the same length as the input and no lower-case ASCII letter. Each lower-case letter becomes the same letter in capitals, and every other character is kept. |
| PyStrings.UpperIgnoresCase | src/crispr/ccbbucsd/malicrispr/construct_file_extracter.py:64 | Two strings upper-case to the same string iff they differ only in the case of ASCII letters, so `acgt` and `ACGT` give one sequence. |
| PyStrings.Strip | src/crispr/ccbbucsd/malicrispr/construct_file_extracter.py:98 | The result is a slice of the input with only whitespace before and after it, and neither of its ends is whitespace. An input without whitespace at either end is unchanged. |
| PyStrings.ReplaceFirst | src/microbiome/exec_trim.py:65 | Without the pattern the input is unchanged. Otherwise only its first occurrence is replaced. |
| PosixPath.SplitPath | src/microbiome/exec_trim.py:61 | The tail is the whole last component: a slash-free suffix right after the last slash, or the whole path when there is none. The head is a prefix followed only by slashes up to the tail. Its trailing slashes are stripped unless it is made only of slashes, and such a head is kept whole, so `"a//b"` gives `("a", "b")` and `"/b"` gives `("/", "b")`. |
| PosixPath.SplitPathDetermined | src/microbiome/exec_trim.py:61 | Any head and tail meeting the clauses of `SplitPath` are its result: the contract pins the split down for every path. |
| PosixPath.JoinPath | src/microbiome/exec_trim.py:72-75 | An absolute second part wins. Otherwise the result is the first part, then a slash unless the first part is empty or already ends in one, then the second part. |
| PosixPath.JoinSplit | src/microbiome/exec_trim.py:61 | Joining the two parts of a split gives back any path without adjacent slashes. |
| PosixPath.SplitPathInDirectory | src/microbiome/exec_trim.py:61 | `dir + "/" + name` splits into `(dir, name)`. |
| CommandLine.AppendGroup | src/microbiome/exec_megahit.py:47-50 | Appends a flag and the comma-joined files when the list is non-empty, and nothing otherwise. |
| CommandLine.FileGroups | src/microbiome/exec_megahit.py:47-62 | The groups form flag/value pairs, and all-empty lists contribute nothing. |
| CommandLine.FileGroupsReadBack | src/microbiome/exec_megahit.py:47-62 | With distinct flags and comma-free names, reading the groups back gives each flag exactly the list it was given. |
| CommandLine.FlagOutsideGroups | src/microbiome/exec_bowtie.py:67-78 | A flag that none of the groups uses is read from what follows them. |
| ExecTrim.BaseFastqName | src/microbiome/exec_trim.py:63-69 | The first `_R1` is removed, else the first `_R2`, else nothing. Re-inserting the marker where it was found restores the name. |
| PyStrings.RemoveFirstRestores | src/microbiome/exec_trim.py:65 | Removing the first occurrence of a pattern shortens the name by its length, and putting it back where it was found restores the name. |
| ExecTrim.PairedReadsShareBaseName | src/microbiome/exec_trim.py:63-69 | The `_R1` and `_R2` files of a pair give the same base name, the name without the marker. This holds whenever the part before the marker holds neither `_R1` nor `_R2` and the part after it holds no `_R1`, as in `S_S1_L001_R1_001.fastq`. Outside that condition `re.sub` can remove a different occurrence. |
| ExecTrim.BaseOutInDirectory | src/microbiome/exec_trim.py:71-75 | The output base goes in `outdir` when it is given, and otherwise in the first input's directory. A slash separates them unless that directory is empty or already ends in one. |
| ExecTrim.JoinAfter | src/microbiome/exec_trim.py:72-75 | Joining a relative name to a directory gives the directory, the separator it needs, and the name. |
| ExecTrim.PairedBaseOut | src/microbiome/exec_trim.py:60-75 | Both files of a pair in `dir` give `<outdir or dir>/<name without marker>`, under the same condition on the name as `PairedReadsShareBaseName`. No slash is added after an outdir that is empty or ends in a slash. |
| ExecTrim.TrimCmd | src/microbiome/exec_trim.py:36-58 | The six `ValueError`s come in the source's order with its messages. It succeeds iff the path is non-empty, adapters are given and the input count fits the mode. |
| ExecTrim.TrimArgsLayout | src/microbiome/exec_trim.py:46-90 | The list is `java -jar <path> <mode>`, then the inputs in order, then `-baseout <base>` (PE) or `<base>` (SE). Next comes `-trimlog <log>` iff a log is given, and the adapter options come last, unchanged. |
| ExecTrim.FormTrimCmdList | src/microbiome/exec_trim.py:19-90 | The step-by-step builder returns exactly `TrimCmd`. |
| ExecMegahit.MegahitCmd | src/microbiome/exec_megahit.py:30-35 | An empty path raises first, then a missing outdir, then four empty read lists. It succeeds otherwise. |
| ExecMegahit.MegahitCmdLayout | src/microbiome/exec_megahit.py:38-64 | The list starts `<path> -o <outdir>`. Directly after comes `-m <memory>` iff a limit is given, then the read groups. |
| ExecMegahit.MegahitReadsBack | src/microbiome/exec_megahit.py:47-62 | Read as option pairs, `-1`, `-2`, `--12` and `-r` each give back their list when file names hold no comma. |
| ExecMegahit.OptionsReadBack | src/microbiome/exec_megahit.py:38-62 | After `-o <outdir>` and an optional `-m <memory>`, each read option gives back its own list, whatever the output directory and memory limit are. |
| ExecMegahit.FormMegahitCmdList | src/microbiome/exec_megahit.py:13-64 | The step-by-step builder returns exactly `MegahitCmd`. |
| ExecBowtie.BowtieBuildCmd | src/microbiome/exec_bowtie.py:25-35 | An empty builder path raises first, then an empty index, then a missing or empty fasta. On success the list is exactly `[builder, fasta, index]`. |
| ExecBowtie.BuildExecutablePath | src/microbiome/exec_bowtie.py:175 | The builder path is the aligner path followed by `-build`, and it is never empty. |
| ExecBowtie.BowtieCmd | src/microbiome/exec_bowtie.py:54-61 | An empty aligner path raises first, then an empty index, then no reads, then an empty SAM path. It succeeds otherwise. |
| ExecBowtie.BowtieCmdLayout | src/microbiome/exec_bowtie.py:64-82 | The list starts `<path> -x <index>`, then come the read groups `-1`, `-2`, `-U`, and it always ends `-S <sam>`. |
| ExecBowtie.BowtieReadsBack | src/microbiome/exec_bowtie.py:67-78 | Read as option pairs, `-1`, `-2` and `-U` each give back their list when file names hold no comma. |
| ExecBowtie.BuildThenAlign | src/microbiome/exec_bowtie.py:175-181 | With a valid aligner call and a fasta given, the derived build command is valid and writes the index the aligner reads. |
| ExecBowtie.FormBowtieCmdList | src/microbiome/exec_bowtie.py:38-82 | The step-by-step builder returns exactly `BowtieCmd`. |
| ExecFastqc.FastqcCmd | src/microbiome/exec_fastqc.py:29-41 | An empty program raises first, then an empty input. On success the list starts with program and input, has length 4 iff an outdir is given and 2 otherwise, and ends `--outdir <outdir>` in the first case. |
| ExecFastqc.FastqcOutdirReadsBack | src/microbiome/exec_fastqc.py:38-39 | The output directory read back from a valid command is the one given. |
| ExecFastqc.FormFastqcCmdList | src/microbiome/exec_fastqc.py:14-41 | The step-by-step builder returns exactly `FastqcCmd`. |
| ExecMetaquast.MetaquastCmd | src/microbiome/exec_metaquast.py:28-44 | A missing or empty program raises first, then a missing outdir, then no fasta. On success the list is `python2 <path>`, then the fasta files in order, then `-o <outdir>`, with length `len(fasta) + 4`. |
| ExecMetaquast.FormMetaquastCmdList | src/microbiome/exec_metaquast.py:16-44 | The step-by-step builder returns exactly `MetaquastCmd`. |

## Left out

- File and process I/O. This covers reading the construct table (`pandas.read_table`) and opening the guide file, all `run_*` functions, the process calls of `build_run_bowtie`, and every `main`. The table is given as rows of cells and the guide file as a sequence of lines.
- The `.bt2` directory listing in `run_bowtie_build`, because it depends on filesystem state.
- `run_pipeline_trimmomatic`, which is process code.
- `src/crispr/mali_pipeliner_aws_local.py`, which is hard-coded configuration.
- TrimGrnas: `trim_seq` is not part of this model. It is a function parameter, so its effect on each sequence is not pinned down beyond being that call.
- ExtractConstructAndGrnaInfo and ReadInConstructTable: they require the data rows to be of one width. pandas pads a row shorter than the first with NaN, and raises a ParserError on a row longer than the first. Neither path is modelled, and neither are missing cells read as NaN floats.
- Python `is` comparisons with `''`, `'PE'` and `'SE'` are modelled as string equality, since interning is not modelled.
- PyStrings.Upper: only ASCII letters are upper-cased. Python's full Unicode case mapping is not modelled.
- BowtieBuildCmd: the contigs argument is modelled as one optional file name. The source places whatever it is given, a list from `main` included, as one element of the argument list.
- Log calls and log messages.
- ExtractGrnasFromConstructTable: an id without `__` makes the whole extraction fail. Ids with extra `__` pieces are cut to two only when some other id has exactly two pieces; otherwise `zip` yields three or more columns and the extraction fails. Empty sub-names are not rejected.
