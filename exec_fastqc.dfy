/** The argument list for a fastqc quality report (`form_fastqc_cmd_list`). */
module ExecFastqc {
  import opened Results
  import opened CommandLine

  const EmptyProgramError := ValueError("fastqc_fp name is empty")
  const EmptyInputError := ValueError("fastq_fp file name is empty")

  /**
   * What `form_fastqc_cmd_list` returns or raises: an empty program path first,
   * then an empty input path. A valid call yields the program and the input, followed
   * by `--outdir <outdir>` exactly when an output directory is given.
   */
  function FastqcCmd(fastqcFp: string, fastqFp: string, outdir: Option<string>): (r: Result<seq<string>, ValueError>)
    ensures fastqcFp == "" ==> r == Failure(EmptyProgramError)
    ensures fastqcFp != "" && fastqFp == "" ==> r == Failure(EmptyInputError)
    ensures r.Success? <==> fastqcFp != "" && fastqFp != ""
    ensures r.Success? ==> |r.value| == (if outdir.Some? then 4 else 2) && r.value[..2] == [fastqcFp, fastqFp]
    ensures r.Success? && outdir.Some? ==> r.value[2..] == ["--outdir", outdir.value]
  {
    if fastqcFp == "" then Failure(EmptyProgramError)
    else if fastqFp == "" then Failure(EmptyInputError)
    else Success([fastqcFp, fastqFp] + (if outdir.Some? then ["--outdir", outdir.value] else []))
  }

  /**
   * The output directory read back from a valid command: the value after a trailing
   * `--outdir`, if there is one.
   */
  function OutdirOf(cmd: seq<string>): (outdir: Option<string>)
    ensures outdir.Some? <==> |cmd| == 4 && cmd[2] == "--outdir"
  {
    if |cmd| == 4 && cmd[2] == "--outdir" then Some(cmd[3]) else None
  }

  /** A valid command carries exactly the output directory it was asked for. */
  lemma FastqcOutdirReadsBack(fastqcFp: string, fastqFp: string, outdir: Option<string>)
    requires fastqcFp != "" && fastqFp != ""
    ensures OutdirOf(FastqcCmd(fastqcFp, fastqFp, outdir).value) == outdir
  {
    var cmd := FastqcCmd(fastqcFp, fastqFp, outdir).value;
    if outdir.Some? {
      assert cmd[2] == cmd[2..][0];
    }
  }

  /** `form_fastqc_cmd_list`, extending the list as the source does. */
  method FormFastqcCmdList(fastqcFp: string, fastqFp: string, outdir: Option<string>) returns (r: Result<seq<string>, ValueError>)
    ensures r == FastqcCmd(fastqcFp, fastqFp, outdir)
  {
    if fastqcFp == "" {
      return Failure(EmptyProgramError);
    }
    if fastqFp == "" {
      return Failure(EmptyInputError);
    }
    var callArgsList := [fastqcFp, fastqFp];
    if outdir.Some? {
      callArgsList := callArgsList + ["--outdir", outdir.value];
    }
    assert callArgsList == [fastqcFp, fastqFp] + (if outdir.Some? then ["--outdir", outdir.value] else []);
    return Success(callArgsList);
  }
}
