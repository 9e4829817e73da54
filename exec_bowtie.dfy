/**
 * The argument lists for bowtie2: building an index from contigs
 * (`form_bowtie_build_cmd_list`) and aligning reads against it
 * (`form_bowtie_cmd_list`), and how `build_run_bowtie` finds the index builder
 * next to the aligner.
 */
module ExecBowtie {
  import opened Results
  import opened PyStrings
  import opened CommandLine

  const EmptyBuildPathError := ValueError("bowtie2_build_path name is empty")
  const EmptyIndexOutputError := ValueError("output file name invalid. index_output_fp is None")
  const NoFastaError := ValueError("no fasta file found")
  const EmptyPathError := ValueError("bowtie2_path is empty")
  const EmptyIndexError := ValueError("index_path is empty")
  const NoInputsError := ValueError("no fastq files specified")
  const EmptySamError := ValueError("output_file_path is empty")

  /** The suffix that turns the aligner's path into the index builder's. */
  const BuildSuffix := "-build"

  /** The options for forward mates, reverse mates and unpaired reads, in that order. */
  const ReadFlags: seq<string> := ["-1", "-2", "-U"]

  /**
   * What `form_bowtie_build_cmd_list` returns or raises: an empty builder path
   * first, then an empty index path, then a missing or empty contigs file. A valid
   * call yields exactly the builder, the contigs and the index path.
   */
  function BowtieBuildCmd(buildFp: string, contigsFasta: Option<string>, indexFp: string): (r: Result<seq<string>, ValueError>)
    ensures buildFp == "" ==> r == Failure(EmptyBuildPathError)
    ensures buildFp != "" && indexFp == "" ==> r == Failure(EmptyIndexOutputError)
    ensures buildFp != "" && indexFp != "" && (contigsFasta.None? || contigsFasta.value == "") ==>
      r == Failure(NoFastaError)
    ensures r.Success? <==> buildFp != "" && indexFp != "" && contigsFasta.Some? && contigsFasta.value != ""
    ensures r.Success? ==> r.value == [buildFp, contigsFasta.value, indexFp]
  {
    if buildFp == "" then Failure(EmptyBuildPathError)
    else if indexFp == "" then Failure(EmptyIndexOutputError)
    else if contigsFasta.None? || contigsFasta.value == "" then Failure(NoFastaError)
    else Success([buildFp, contigsFasta.value, indexFp])
  }

  /** `bowtie_fp + '-build'`: the aligner's path with the suffix appended, never empty. */
  function BuildExecutablePath(bowtieFp: string): (r: string)
    ensures |r| == |bowtieFp| + |BuildSuffix| && r != ""
    ensures r[..|bowtieFp|] == bowtieFp && r[|bowtieFp|..] == BuildSuffix
  {
    bowtieFp + BuildSuffix
  }

  /**
   * What `form_bowtie_cmd_list` returns or raises: an empty aligner path, an empty
   * index, no reads at all and an empty SAM path, checked in that order. A valid call
   * yields `<path> -x <index>`, the read groups and `-S <sam>`.
   */
  function BowtieCmd(bowtieFp: string, indexFp: string, pe1: seq<string>, pe2: seq<string>, u: seq<string>,
                     outputSamFp: string): (r: Result<seq<string>, ValueError>)
    ensures bowtieFp == "" ==> r == Failure(EmptyPathError)
    ensures bowtieFp != "" && indexFp == "" ==> r == Failure(EmptyIndexError)
    ensures bowtieFp != "" && indexFp != "" && pe1 == [] && pe2 == [] && u == [] ==> r == Failure(NoInputsError)
    ensures bowtieFp != "" && indexFp != "" && !(pe1 == [] && pe2 == [] && u == []) && outputSamFp == "" ==>
      r == Failure(EmptySamError)
    ensures r.Success? <==> bowtieFp != "" && indexFp != "" && !(pe1 == [] && pe2 == [] && u == []) && outputSamFp != ""
  {
    if bowtieFp == "" then Failure(EmptyPathError)
    else if indexFp == "" then Failure(EmptyIndexError)
    else if pe1 == [] && pe2 == [] && u == [] then Failure(NoInputsError)
    else if outputSamFp == "" then Failure(EmptySamError)
    else Success([bowtieFp, "-x", indexFp] + FileGroup("-1", pe1) + FileGroup("-2", pe2) + FileGroup("-U", u)
                 + ["-S", outputSamFp])
  }

  /** The three read groups, one after another. */
  lemma ReadGroups(pe1: seq<string>, pe2: seq<string>, u: seq<string>)
    ensures FileGroups(ReadFlags, [pe1, pe2, u]) == FileGroup("-1", pe1) + FileGroup("-2", pe2) + FileGroup("-U", u)
  {
    var lists := [pe1, pe2, u];
    assert ReadFlags[1..] == ["-2", "-U"] && lists[1..] == [pe2, u];
    assert FileGroups(["-U"], [u]) == FileGroup("-U", u) + FileGroups([], []);
    assert FileGroups(["-2", "-U"], [pe2, u]) == FileGroup("-2", pe2) + FileGroups(["-U"], [u]);
  }

  /** A valid aligner command is its head, the read groups and the SAM option. */
  lemma BowtieCmdParts(bowtieFp: string, indexFp: string, pe1: seq<string>, pe2: seq<string>, u: seq<string>,
                       outputSamFp: string)
    requires BowtieCmd(bowtieFp, indexFp, pe1, pe2, u, outputSamFp).Success?
    ensures BowtieCmd(bowtieFp, indexFp, pe1, pe2, u, outputSamFp).value
      == [bowtieFp, "-x", indexFp] + (FileGroups(ReadFlags, [pe1, pe2, u]) + ["-S", outputSamFp])
    ensures BowtieCmd(bowtieFp, indexFp, pe1, pe2, u, outputSamFp).value[1..]
      == ["-x", indexFp] + (FileGroups(ReadFlags, [pe1, pe2, u]) + ["-S", outputSamFp])
  {
    var a, b, c := FileGroup("-1", pe1), FileGroup("-2", pe2), FileGroup("-U", u);
    AppendFour([bowtieFp, "-x", indexFp], a, b, c, ["-S", outputSamFp]);
    ReadGroups(pe1, pe2, u);
    ProgramThenOption(bowtieFp, "-x", indexFp, FileGroups(ReadFlags, [pe1, pe2, u]) + ["-S", outputSamFp]);
  }

  /**
   * The layout of a valid aligner command: `<path> -x <index>` first, then the read
   * groups, and `-S <sam>` always last.
   */
  lemma BowtieCmdLayout(bowtieFp: string, indexFp: string, pe1: seq<string>, pe2: seq<string>, u: seq<string>,
                        outputSamFp: string)
    requires BowtieCmd(bowtieFp, indexFp, pe1, pe2, u, outputSamFp).Success?
    ensures
      var cmd := BowtieCmd(bowtieFp, indexFp, pe1, pe2, u, outputSamFp).value;
      && |cmd| >= 5
      && cmd[..3] == [bowtieFp, "-x", indexFp]
      && cmd[3..|cmd| - 2] == FileGroups(ReadFlags, [pe1, pe2, u])
      && cmd[|cmd| - 2..] == ["-S", outputSamFp]
  {
    BowtieCmdParts(bowtieFp, indexFp, pe1, pe2, u, outputSamFp);
  }

  /**
   * Read as option/value pairs after the aligner's path, a valid command gives back
   * each list of reads under its own option, provided no file name holds a comma.
   */
  lemma {:induction false} BowtieReadsBack(bowtieFp: string, indexFp: string, pe1: seq<string>, pe2: seq<string>,
                                           u: seq<string>, outputSamFp: string, k: nat)
    requires BowtieCmd(bowtieFp, indexFp, pe1, pe2, u, outputSamFp).Success?
    requires CommaFree(pe1) && CommaFree(pe2) && CommaFree(u)
    requires k < 3
    ensures FilesAfter(BowtieCmd(bowtieFp, indexFp, pe1, pe2, u, outputSamFp).value[1..], ReadFlags[k]) == [pe1, pe2, u][k]
  {
    var lists := [pe1, pe2, u];
    var flag := ReadFlags[k];
    var tail := ["-S", outputSamFp];
    SkipOption("-S", outputSamFp, [], flag);
    assert tail + [] == tail;
    FileGroupsReadBack(ReadFlags, lists, tail, k);
    BowtieCmdParts(bowtieFp, indexFp, pe1, pe2, u, outputSamFp);
    SkipOption("-x", indexFp, FileGroups(ReadFlags, lists) + tail, flag);
  }

  /**
   * `build_run_bowtie`: whenever the aligner command is valid and contigs are given,
   * the builder found beside the aligner yields a valid build command, and that
   * command writes the very index the aligner reads.
   */
  lemma BuildThenAlign(bowtieFp: string, contigsFasta: Option<string>, indexFp: string,
                       pe1: seq<string>, pe2: seq<string>, u: seq<string>, outputSamFp: string)
    requires BowtieCmd(bowtieFp, indexFp, pe1, pe2, u, outputSamFp).Success?
    requires contigsFasta.Some? && contigsFasta.value != ""
    ensures var build := BowtieBuildCmd(BuildExecutablePath(bowtieFp), contigsFasta, indexFp);
      var align := BowtieCmd(bowtieFp, indexFp, pe1, pe2, u, outputSamFp);
      && build.Success?
      && build.value[2] == align.value[2] == indexFp
      && build.value[0] == align.value[0] + BuildSuffix
  {
    BowtieCmdLayout(bowtieFp, indexFp, pe1, pe2, u, outputSamFp);
    var align := BowtieCmd(bowtieFp, indexFp, pe1, pe2, u, outputSamFp).value;
    assert align[2] == align[..3][2];
    assert align[0] == align[..3][0];
  }

  /** `form_bowtie_cmd_list`, appending to the list as the source does. */
  method FormBowtieCmdList(bowtieFp: string, indexFp: string, pe1: seq<string>, pe2: seq<string>, u: seq<string>,
                           outputSamFp: string) returns (r: Result<seq<string>, ValueError>)
    ensures r == BowtieCmd(bowtieFp, indexFp, pe1, pe2, u, outputSamFp)
  {
    if bowtieFp == "" {
      return Failure(EmptyPathError);
    }
    if indexFp == "" {
      return Failure(EmptyIndexError);
    }
    if pe1 == [] && pe2 == [] && u == [] {
      return Failure(NoInputsError);
    }
    if outputSamFp == "" {
      return Failure(EmptySamError);
    }
    var callArgsList := [bowtieFp, "-x", indexFp];
    ghost var head := callArgsList;
    callArgsList := AppendGroup(callArgsList, "-1", pe1);
    callArgsList := AppendGroup(callArgsList, "-2", pe2);
    callArgsList := AppendGroup(callArgsList, "-U", u);
    callArgsList := callArgsList + ["-S", outputSamFp];
    assert callArgsList == head + FileGroup("-1", pe1) + FileGroup("-2", pe2) + FileGroup("-U", u) + ["-S", outputSamFp];
    return Success(callArgsList);
  }
}
