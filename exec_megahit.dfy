/**
 * The argument list for a megahit assembly (`form_megahit_cmd_list`): three guards,
 * the program and its output directory, an optional memory limit, then one
 * `flag a,b,c` group per non-empty list of reads.
 */
module ExecMegahit {
  import opened Results
  import opened PyStrings
  import opened CommandLine

  const EmptyPathError := ValueError("megahit_path name is empty")
  const NoOutdirError := ValueError("outdir location invalid. outdir is None")
  const NoInputsError := ValueError("no fastq files specified")

  /** The options for forward pairs, reverse pairs, interleaved pairs and single reads, in that order. */
  const ReadFlags: seq<string> := ["-1", "-2", "--12", "-r"]

  /**
   * What `form_megahit_cmd_list` returns or raises: an empty program path first, then
   * a missing output directory, then the absence of any reads. A valid call yields
   * `<path> -o <outdir>`, `-m <memory>` when a limit is given, and the read groups.
   */
  function MegahitCmd(megahitFp: string, outdir: Option<string>, maxMemory: Option<string>,
                      pe1: seq<string>, pe2: seq<string>, pe12: seq<string>, se: seq<string>): (r: Result<seq<string>, ValueError>)
    ensures megahitFp == "" ==> r == Failure(EmptyPathError)
    ensures megahitFp != "" && outdir.None? ==> r == Failure(NoOutdirError)
    ensures megahitFp != "" && outdir.Some? && pe1 == [] && pe2 == [] && pe12 == [] && se == [] ==>
      r == Failure(NoInputsError)
    ensures r.Success? <==> megahitFp != "" && outdir.Some? && !(pe1 == [] && pe2 == [] && pe12 == [] && se == [])
  {
    if megahitFp == "" then Failure(EmptyPathError)
    else if outdir.None? then Failure(NoOutdirError)
    else if pe1 == [] && pe2 == [] && pe12 == [] && se == [] then Failure(NoInputsError)
    else
      var memoryArgs := if maxMemory.Some? then ["-m", maxMemory.value] else [];
      Success([megahitFp, "-o", outdir.value] + memoryArgs
              + FileGroup("-1", pe1) + FileGroup("-2", pe2) + FileGroup("--12", pe12) + FileGroup("-r", se))
  }

  /**
   * The layout of a valid megahit command: `<path> -o <outdir>` first, `-m <memory>`
   * right after exactly when a limit is given, and the read groups last.
   */
  lemma MegahitCmdLayout(megahitFp: string, outdir: Option<string>, maxMemory: Option<string>,
                         pe1: seq<string>, pe2: seq<string>, pe12: seq<string>, se: seq<string>)
    requires MegahitCmd(megahitFp, outdir, maxMemory, pe1, pe2, pe12, se).Success?
    ensures
      var cmd := MegahitCmd(megahitFp, outdir, maxMemory, pe1, pe2, pe12, se).value;
      var groups := if maxMemory.Some? then 5 else 3;
      && |cmd| >= groups
      && cmd[..3] == [megahitFp, "-o", outdir.value]
      && (maxMemory.Some? ==> cmd[3..5] == ["-m", maxMemory.value])
      && cmd[groups..] == FileGroups(ReadFlags, [pe1, pe2, pe12, se])
  {
    MegahitCmdParts(megahitFp, outdir, maxMemory, pe1, pe2, pe12, se);
  }

  /** A valid command is its head followed by the read groups. */
  lemma MegahitCmdParts(megahitFp: string, outdir: Option<string>, maxMemory: Option<string>,
                        pe1: seq<string>, pe2: seq<string>, pe12: seq<string>, se: seq<string>)
    requires MegahitCmd(megahitFp, outdir, maxMemory, pe1, pe2, pe12, se).Success?
    ensures MegahitCmd(megahitFp, outdir, maxMemory, pe1, pe2, pe12, se).value
      == [megahitFp, "-o", outdir.value] + (if maxMemory.Some? then ["-m", maxMemory.value] else [])
         + FileGroups(ReadFlags, [pe1, pe2, pe12, se])
    ensures MegahitCmd(megahitFp, outdir, maxMemory, pe1, pe2, pe12, se).value[1..]
      == ["-o", outdir.value] + (if maxMemory.Some? then ["-m", maxMemory.value] else [])
         + FileGroups(ReadFlags, [pe1, pe2, pe12, se])
  {
    var memoryArgs := if maxMemory.Some? then ["-m", maxMemory.value] else [];
    var head := [megahitFp, "-o", outdir.value] + memoryArgs;
    AppendFour(head, FileGroup("-1", pe1), FileGroup("-2", pe2), FileGroup("--12", pe12), FileGroup("-r", se));
    ReadGroups(pe1, pe2, pe12, se);
    DropProgram(megahitFp, ["-o", outdir.value], memoryArgs, FileGroups(ReadFlags, [pe1, pe2, pe12, se]));
    assert [megahitFp, "-o", outdir.value] == [megahitFp] + ["-o", outdir.value];
  }

  /**
   * Read as option/value pairs after the program path, a valid megahit command gives
   * back each list of reads under its own option, provided no file name holds a comma.
   */
  lemma MegahitReadsBack(megahitFp: string, outdir: Option<string>, maxMemory: Option<string>,
                         pe1: seq<string>, pe2: seq<string>, pe12: seq<string>, se: seq<string>, k: nat)
    requires MegahitCmd(megahitFp, outdir, maxMemory, pe1, pe2, pe12, se).Success?
    requires CommaFree(pe1) && CommaFree(pe2) && CommaFree(pe12) && CommaFree(se)
    requires k < 4
    ensures FilesAfter(MegahitCmd(megahitFp, outdir, maxMemory, pe1, pe2, pe12, se).value[1..], ReadFlags[k])
      == [pe1, pe2, pe12, se][k]
  {
    MegahitCmdParts(megahitFp, outdir, maxMemory, pe1, pe2, pe12, se);
    ReadFlagsDistinct();
    OptionsReadBack(outdir.value, if maxMemory.Some? then ["-m", maxMemory.value] else [],
      ReadFlags, [pe1, pe2, pe12, se], k);
  }

  /**
   * The options after the program path, read back: each read option yields its own
   * list, whatever precedes the groups as output directory and memory limit.
   */
  lemma OptionsReadBack(outdir: string, memoryArgs: seq<string>, flags: seq<string>, lists: seq<seq<string>>, k: nat)
    requires |flags| == |lists| && k < |flags|
    requires forall i, j :: 0 <= i < j < |flags| ==> flags[i] != flags[j]
    requires forall i :: 0 <= i < |lists| ==> CommaFree(lists[i])
    requires flags[k] != "-o" && flags[k] != "-m"
    requires memoryArgs == [] || (|memoryArgs| == 2 && memoryArgs[0] == "-m")
    ensures FilesAfter(["-o", outdir] + memoryArgs + FileGroups(flags, lists), flags[k]) == lists[k]
  {
    var groups := FileGroups(flags, lists);
    FileGroupsReadBack(flags, lists, [], k);
    assert groups + [] == groups;
    HeadSkipped(outdir, memoryArgs, groups, flags[k]);
  }

  /** The read options are all different. */
  lemma ReadFlagsDistinct()
    ensures forall i, j :: 0 <= i < j < |ReadFlags| ==> ReadFlags[i] != ReadFlags[j]
  {
  }

  /** Reading any option but `-o` and `-m` skips the output directory and the memory limit. */
  lemma HeadSkipped(outdir: string, memoryArgs: seq<string>, rest: seq<string>, flag: string)
    requires flag != "-o" && flag != "-m"
    requires memoryArgs == [] || (|memoryArgs| == 2 && memoryArgs[0] == "-m")
    ensures FilesAfter(["-o", outdir] + memoryArgs + rest, flag) == FilesAfter(rest, flag)
  {
    if memoryArgs != [] {
      SkipOption("-m", memoryArgs[1], rest, flag);
      assert memoryArgs + rest == ["-m", memoryArgs[1]] + rest;
    }
    assert ["-o", outdir] + memoryArgs + rest == ["-o", outdir] + (memoryArgs + rest);
    SkipOption("-o", outdir, memoryArgs + rest, flag);
  }

  /** The four read groups, one after another. */
  lemma ReadGroups(pe1: seq<string>, pe2: seq<string>, pe12: seq<string>, se: seq<string>)
    ensures FileGroups(ReadFlags, [pe1, pe2, pe12, se])
      == FileGroup("-1", pe1) + FileGroup("-2", pe2) + FileGroup("--12", pe12) + FileGroup("-r", se)
  {
    var lists := [pe1, pe2, pe12, se];
    assert ReadFlags[1..] == ["-2", "--12", "-r"] && lists[1..] == [pe2, pe12, se];
    assert FileGroups(["-r"], [se]) == FileGroup("-r", se) + FileGroups([], []);
    assert FileGroups(["--12", "-r"], [pe12, se]) == FileGroup("--12", pe12) + FileGroups(["-r"], [se]);
    assert FileGroups(["-2", "--12", "-r"], [pe2, pe12, se])
      == FileGroup("-2", pe2) + FileGroups(["--12", "-r"], [pe12, se]);
  }

  /** `form_megahit_cmd_list`, appending to the list as the source does. */
  method FormMegahitCmdList(megahitFp: string, outdir: Option<string>, maxMemory: Option<string>,
                            pe1: seq<string>, pe2: seq<string>, pe12: seq<string>, se: seq<string>)
    returns (r: Result<seq<string>, ValueError>)
    ensures r == MegahitCmd(megahitFp, outdir, maxMemory, pe1, pe2, pe12, se)
  {
    if megahitFp == "" {
      return Failure(EmptyPathError);
    }
    if outdir.None? {
      return Failure(NoOutdirError);
    }
    if pe1 == [] && pe2 == [] && pe12 == [] && se == [] {
      return Failure(NoInputsError);
    }
    var callArgsList := [megahitFp];
    callArgsList := callArgsList + ["-o", outdir.value];
    if maxMemory.Some? {
      callArgsList := callArgsList + ["-m", maxMemory.value];
    }
    ghost var head := callArgsList;
    assert head == [megahitFp, "-o", outdir.value] + (if maxMemory.Some? then ["-m", maxMemory.value] else []);
    callArgsList := AppendGroup(callArgsList, "-1", pe1);
    callArgsList := AppendGroup(callArgsList, "-2", pe2);
    callArgsList := AppendGroup(callArgsList, "--12", pe12);
    callArgsList := AppendGroup(callArgsList, "-r", se);
    assert callArgsList == head + FileGroup("-1", pe1) + FileGroup("-2", pe2) + FileGroup("--12", pe12) + FileGroup("-r", se);
    return Success(callArgsList);
  }
}
