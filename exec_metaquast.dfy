/** The argument list for a metaquast assessment of assembled contigs (`form_metaquast_cmd_list`). */
module ExecMetaquast {
  import opened Results
  import opened CommandLine

  const EmptyProgramError := ValueError("metaquast_path invalid. metaquast_path name is empty")
  const NoOutdirError := ValueError("outdir location invalid. outdir is None")
  const NoFastaError := ValueError("input contigs invalid. no fasta files specified")

  /** The interpreter metaquast is run with. */
  const Interpreter := "python2"

  /**
   * What `form_metaquast_cmd_list` returns or raises: a missing or empty program
   * path first, then a missing output directory, then an empty list of contigs. A
   * valid call yields the interpreter and the program, every contigs file in order,
   * and `-o <outdir>` last.
   */
  function MetaquastCmd(metaquastFp: Option<string>, outdir: Option<string>, inputFasta: seq<string>)
    : (r: Result<seq<string>, ValueError>)
    ensures metaquastFp.None? || metaquastFp.value == "" ==> r == Failure(EmptyProgramError)
    ensures metaquastFp.Some? && metaquastFp.value != "" && outdir.None? ==> r == Failure(NoOutdirError)
    ensures metaquastFp.Some? && metaquastFp.value != "" && outdir.Some? && inputFasta == [] ==> r == Failure(NoFastaError)
    ensures r.Success? <==> metaquastFp.Some? && metaquastFp.value != "" && outdir.Some? && inputFasta != []
    ensures r.Success? ==>
      && |r.value| == |inputFasta| + 4
      && r.value[..2] == [Interpreter, metaquastFp.value]
      && r.value[2..|r.value| - 2] == inputFasta
      && r.value[|r.value| - 2..] == ["-o", outdir.value]
  {
    if metaquastFp.None? || metaquastFp.value == "" then Failure(EmptyProgramError)
    else if outdir.None? then Failure(NoOutdirError)
    else if inputFasta == [] then Failure(NoFastaError)
    else Success([Interpreter, metaquastFp.value] + inputFasta + ["-o", outdir.value])
  }

  /** `form_metaquast_cmd_list`, extending the list as the source does. */
  method FormMetaquastCmdList(metaquastFp: Option<string>, outdir: Option<string>, inputFasta: seq<string>)
    returns (r: Result<seq<string>, ValueError>)
    ensures r == MetaquastCmd(metaquastFp, outdir, inputFasta)
  {
    if metaquastFp.None? || metaquastFp.value == "" {
      return Failure(EmptyProgramError);
    }
    if outdir.None? {
      return Failure(NoOutdirError);
    }
    if inputFasta == [] {
      return Failure(NoFastaError);
    }
    var callArgsList := [Interpreter, metaquastFp.value];
    callArgsList := callArgsList + inputFasta;
    callArgsList := callArgsList + ["-o", outdir.value];
    return Success(callArgsList);
  }
}
