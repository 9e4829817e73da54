/**
 * The argument list for a trimmomatic run (`form_trim_cmd_list`): guard checks in
 * a fixed order, the input files, the output base path derived from the first
 * input (paired-read marker removed, placed in the output directory or beside
 * the input), an optional trim log and the trimming options.
 */
module ExecTrim {
  import opened Results
  import opened PyStrings
  import opened PosixPath
  import opened CommandLine

  const R1Marker := "_R1"
  const R2Marker := "_R2"
  const PairedEnd := "PE"
  const SingleEnd := "SE"

  const EmptyPathError := ValueError("trimmomatic_path name is empty")
  const UnknownModeError := ValueError("unspecified if files are paired or unpaired")
  const NoAdaptersError := ValueError("adapter options not specified")
  const NoInputsError := ValueError("no fastq files specified")
  const PairedCountError := ValueError("wrong number of fastq files for paired end reading")
  const SingleCountError := ValueError("wrong number of fastq files for single end reading")

  /**
   * The input file name with its first `_R1` removed, else its first `_R2`, else
   * unchanged. Putting the removed marker back where it was found restores the name.
   */
  function BaseFastqName(inputFile: string): (base: string)
    ensures Contains(inputFile, R1Marker) ==>
      var i := Find(inputFile, R1Marker);
      |base| == |inputFile| - |R1Marker| && base[..i] + R1Marker + base[i..] == inputFile
    ensures !Contains(inputFile, R1Marker) && Contains(inputFile, R2Marker) ==>
      var i := Find(inputFile, R2Marker);
      |base| == |inputFile| - |R2Marker| && base[..i] + R2Marker + base[i..] == inputFile
    ensures !Contains(inputFile, R1Marker) && !Contains(inputFile, R2Marker) ==> base == inputFile
  {
    if Contains(inputFile, R1Marker) then RemoveFirstRestores(inputFile, R1Marker); ReplaceFirst(inputFile, R1Marker, "")
    else if Contains(inputFile, R2Marker) then RemoveFirstRestores(inputFile, R2Marker); ReplaceFirst(inputFile, R2Marker, "")
    else inputFile
  }

  /** A marker starting with `_` cannot occur where `s` has no `_`. */
  lemma MarkerNeedsUnderscore(s: string, marker: string, j: int)
    requires |marker| > 0 && marker[0] == '_' && 0 <= j < |s| && s[j] != '_'
    ensures !OccursAt(s, marker, j)
  {
    if j + |marker| <= |s| {
      assert s[j..j + |marker|][0] == s[j];
    }
  }

  /**
   * In `front + tag + back`, with no marker in `front` and no `_R1` in `back`, no
   * marker starts before the tag, and no `_R1` starts after its start.
   */
  lemma MarkerOnlyAtTag(front: string, tag: string, back: string, marker: string, j: int)
    requires !Contains(front, R1Marker) && !Contains(front, R2Marker) && !Contains(back, R1Marker)
    requires marker in {R1Marker, R2Marker} && tag in {R1Marker, R2Marker} && 0 <= j && j != |front|
    requires j < |front| || marker == R1Marker
    ensures !OccursAt(front + tag + back, marker, j)
  {
    var n := |front|;
    var s := front + tag + back;
    if j + 3 <= n {
      assert !OccursAt(front, marker, j);
      assert s[j..j + 3] == front[j..j + 3];
    } else if j < n {
      if j + 3 <= |s| {
        assert s[j..j + 3][n - j] == tag[0];
      }
    } else if j < n + 3 {
      assert s[j] == tag[j - n];
      MarkerNeedsUnderscore(s, marker, j);
    } else if j + 3 <= |s| {
      assert !OccursAt(back, R1Marker, j - n - 3);
      assert s[j..j + 3] == back[j - n - 3..j - n];
    }
  }

  /**
   * The two files of a read pair, named alike but for `_R1` and `_R2`, give the same
   * base name: the name with the marker left out. This holds when the part before
   * the marker holds neither marker and the part after it holds no `_R1`, so that
   * the marker at the tag is the one `re.sub` removes.
   */
  lemma {:induction false} PairedReadsShareBaseName(front: string, back: string)
    requires !Contains(front, R1Marker) && !Contains(front, R2Marker) && !Contains(back, R1Marker)
    ensures BaseFastqName(front + R1Marker + back) == front + back
    ensures BaseFastqName(front + R2Marker + back) == front + back
  {
    var n := |front|;
    forall marker, tag: string, j: int | marker in {R1Marker, R2Marker} && tag in {R1Marker, R2Marker} && 0 <= j && j != n && (j < n || marker == R1Marker)
      ensures !OccursAt(front + tag + back, marker, j)
    {
      MarkerOnlyAtTag(front, tag, back, marker, j);
    }
    forall tag | tag in {R1Marker, R2Marker}
      ensures Find(front + tag + back, tag) == n
      ensures var s := front + tag + back; s[..n] == front && s[n + 3..] == back
    {
      var s := front + tag + back;
      assert s[n..n + 3] == tag;
      FindFirstOccurrence(s, tag, n);
    }
    var s2 := front + R2Marker + back;
    assert !OccursAt(s2, R1Marker, n) by {
      assert s2[n..n + 3][2] == '2';
    }
    assert !Contains(s2, R1Marker);
  }

  /**
   * The output base path: the base file name of the first input, inside `outdir`
   * when one is given and otherwise in the directory of the first input.
   */
  function BaseOut(firstInput: string, outdir: Option<string>): string
  {
    var (indir, inputFile) := SplitPath(firstInput);
    JoinPath(if outdir.Some? then outdir.value else indir, BaseFastqName(inputFile))
  }

  /** The separator `os.path.join` puts after `dir`: none when `dir` is empty or already ends in a slash. */
  function SlashAfter(dir: string): string
  {
    if dir == [] || dir[|dir| - 1] == '/' then "" else "/"
  }

  /**
   * An input `<dir>/<name>` gets its output base beside it, or inside `outdir` when
   * one is given, with a slash in between unless `outdir` is empty or ends in one.
   */
  lemma BaseOutInDirectory(dir: string, name: string, outdir: Option<string>)
    requires dir != [] && dir[|dir| - 1] != '/' && '/' !in name
    requires !StartsWith(BaseFastqName(name), "/")
    ensures var target := if outdir.Some? then outdir.value else dir;
      BaseOut(dir + "/" + name, outdir) == target + SlashAfter(target) + BaseFastqName(name)
  {
    SplitPathInDirectory(dir, name);
    var target := if outdir.Some? then outdir.value else dir;
    var base := BaseFastqName(name);
    assert BaseOut(dir + "/" + name, outdir) == JoinPath(target, base);
    JoinAfter(target, base);
  }

  /** `os.path.join(dir, name)` for a relative name is `dir`, the separator it needs, and `name`. */
  lemma JoinAfter(dir: string, name: string)
    requires !StartsWith(name, "/")
    ensures JoinPath(dir, name) == dir + SlashAfter(dir) + name
  {
    if SlashAfter(dir) == "" {
      assert dir + "" == dir;
    }
  }

  /** A name made of slash-free parts holds no slash. */
  lemma NoSlashInParts(front: string, tag: string, back: string)
    requires '/' !in front && '/' !in tag && '/' !in back
    ensures '/' !in front + tag + back && !StartsWith(front + back, "/")
  {
    var s := front + tag + back;
    forall j | 0 <= j < |s| ensures s[j] != '/' {
      if j < |front| {
        assert s[j] == front[j];
      } else if j < |front| + |tag| {
        assert s[j] == tag[j - |front|];
      } else {
        assert s[j] == back[j - |front| - |tag|];
      }
    }
    if |front + back| > 0 {
      assert (front + back)[0] in front || (front + back)[0] in back;
    }
  }

  /**
   * Both files of a read pair, `<dir>/<front>_R1<back>` and `<dir>/<front>_R2<back>`,
   * give the output base `<front><back>`: beside the inputs in `<dir>`, or inside
   * `outdir` when one is given.
   */
  lemma {:induction false} PairedBaseOut(dir: string, front: string, back: string, outdir: Option<string>)
    requires dir != [] && dir[|dir| - 1] != '/'
    requires '/' !in front && '/' !in back
    requires !Contains(front, R1Marker) && !Contains(front, R2Marker) && !Contains(back, R1Marker)
    ensures var target := if outdir.Some? then outdir.value else dir;
      && BaseOut(dir + "/" + (front + R1Marker + back), outdir) == target + SlashAfter(target) + (front + back)
      && BaseOut(dir + "/" + (front + R2Marker + back), outdir) == target + SlashAfter(target) + (front + back)
  {
    PairedReadsShareBaseName(front, back);
    NoSlashInParts(front, R1Marker, back);
    NoSlashInParts(front, R2Marker, back);
    BaseOutInDirectory(dir, front + R1Marker + back, outdir);
    BaseOutInDirectory(dir, front + R2Marker + back, outdir);
  }

  /** The guards pass and the number of inputs fits the mode. */
  predicate TrimArgsValid(trimmomaticFp: string, trimMode: string, inputFastq: seq<string>, adapterOpt: Option<seq<string>>)
  {
    && trimmomaticFp != ""
    && adapterOpt.Some? && adapterOpt.value != []
    && ((trimMode == PairedEnd && |inputFastq| == 2) || (trimMode == SingleEnd && |inputFastq| == 1))
  }

  /**
   * What `form_trim_cmd_list` returns or raises. The checks come in the source's
   * order: empty program path, unknown mode, missing trimming options, no inputs,
   * then an input count that does not fit the mode. A valid call yields
   * `java -jar <path> <mode>`, the inputs in order, the output base (after
   * `-baseout` in paired mode, alone in single mode), `-trimlog <log>` when a log
   * is asked for, and the trimming options last and unchanged.
   */
  function TrimCmd(trimmomaticFp: string, trimMode: string, inputFastq: seq<string>, adapterOpt: Option<seq<string>>,
                   outdir: Option<string>, trimLog: Option<string>): (r: Result<seq<string>, ValueError>)
    ensures trimmomaticFp == "" ==> r == Failure(EmptyPathError)
    ensures trimmomaticFp != "" && trimMode != PairedEnd && trimMode != SingleEnd ==>
      r == Failure(UnknownModeError)
    ensures trimmomaticFp != "" && (trimMode == PairedEnd || trimMode == SingleEnd) && (adapterOpt.None? || adapterOpt.value == []) ==>
      r == Failure(NoAdaptersError)
    ensures (trimmomaticFp != "" && (trimMode == PairedEnd || trimMode == SingleEnd) && adapterOpt.Some?
             && adapterOpt.value != [] && inputFastq == []) ==>
      r == Failure(NoInputsError)
    ensures (trimmomaticFp != "" && trimMode == PairedEnd && adapterOpt.Some? && adapterOpt.value != []
             && inputFastq != [] && |inputFastq| != 2) ==>
      r == Failure(PairedCountError)
    ensures (trimmomaticFp != "" && trimMode == SingleEnd && adapterOpt.Some? && adapterOpt.value != []
             && inputFastq != [] && |inputFastq| != 1) ==>
      r == Failure(SingleCountError)
    ensures r.Success? <==> TrimArgsValid(trimmomaticFp, trimMode, inputFastq, adapterOpt)
    ensures r.Success? ==> r.value == TrimArgs(trimmomaticFp, trimMode, inputFastq, BaseOut(inputFastq[0], outdir), trimLog, adapterOpt.value)
  {
    if trimmomaticFp == "" then Failure(EmptyPathError)
    else if trimMode != PairedEnd && trimMode != SingleEnd then Failure(UnknownModeError)
    else if adapterOpt.None? || adapterOpt.value == [] then Failure(NoAdaptersError)
    else if inputFastq == [] then Failure(NoInputsError)
    else if trimMode == PairedEnd && |inputFastq| != 2 then
      Failure(PairedCountError)
    else if trimMode == SingleEnd && |inputFastq| != 1 then
      Failure(SingleCountError)
    else
      Success(TrimArgs(trimmomaticFp, trimMode, inputFastq, BaseOut(inputFastq[0], outdir), trimLog, adapterOpt.value))
  }

  /** The argument list of a valid call, given its output base. */
  function TrimArgs(trimmomaticFp: string, trimMode: string, inputFastq: seq<string>, baseOut: string,
                    trimLog: Option<string>, adapters: seq<string>): seq<string>
  {
    var outArgs := if trimMode == PairedEnd then ["-baseout", baseOut] else [baseOut];
    var logArgs := if trimLog.Some? then ["-trimlog", trimLog.value] else [];
    ["java", "-jar", trimmomaticFp, trimMode] + inputFastq + outArgs + logArgs + adapters
  }

  /**
   * Where each part sits in the argument list: `java -jar <path> <mode>`, the inputs
   * in order, the output base (after `-baseout` in paired mode, alone otherwise),
   * `-trimlog <log>` exactly when a log is asked for, and the options last, unchanged.
   */
  lemma TrimArgsLayout(trimmomaticFp: string, trimMode: string, inputFastq: seq<string>, baseOut: string,
                       trimLog: Option<string>, adapters: seq<string>)
    ensures
      var cmd := TrimArgs(trimmomaticFp, trimMode, inputFastq, baseOut, trimLog, adapters);
      var out := 4 + |inputFastq|;
      var log := out + (if trimMode == PairedEnd then 2 else 1);
      var opts := log + (if trimLog.Some? then 2 else 0);
      && |cmd| == opts + |adapters|
      && cmd[..4] == ["java", "-jar", trimmomaticFp, trimMode]
      && cmd[4..out] == inputFastq
      && (trimMode == PairedEnd ==> cmd[out..log] == ["-baseout", baseOut])
      && (trimMode != PairedEnd ==> cmd[out..log] == [baseOut])
      && (trimLog.Some? ==> cmd[log..opts] == ["-trimlog", trimLog.value])
      && cmd[opts..] == adapters
  {
    var head := ["java", "-jar", trimmomaticFp, trimMode];
    var outArgs := if trimMode == PairedEnd then ["-baseout", baseOut] else [baseOut];
    var logArgs := if trimLog.Some? then ["-trimlog", trimLog.value] else [];
    ConcatSlices(head, inputFastq, outArgs, logArgs, adapters);
  }

  /** `form_trim_cmd_list`, building the list step by step as the source does. */
  method FormTrimCmdList(trimmomaticFp: string, trimMode: string, inputFastq: seq<string>, adapterOpt: Option<seq<string>>,
                         outdir: Option<string>, trimLog: Option<string>) returns (r: Result<seq<string>, ValueError>)
    ensures r == TrimCmd(trimmomaticFp, trimMode, inputFastq, adapterOpt, outdir, trimLog)
  {
    if trimmomaticFp == "" {
      return Failure(EmptyPathError);
    }
    if trimMode != PairedEnd && trimMode != SingleEnd {
      return Failure(UnknownModeError);
    }
    if adapterOpt.None? || adapterOpt.value == [] {
      return Failure(NoAdaptersError);
    }
    if inputFastq == [] {
      return Failure(NoInputsError);
    }
    var callArgsList := ["java", "-jar", trimmomaticFp, trimMode];
    if trimMode == PairedEnd {
      if |inputFastq| == 2 {
        callArgsList := callArgsList + inputFastq;
      } else {
        return Failure(PairedCountError);
      }
    } else if trimMode == SingleEnd {
      if |inputFastq| == 1 {
        callArgsList := callArgsList + inputFastq;
      } else {
        return Failure(SingleCountError);
      }
    }
    var (indir, inputFile) := SplitPath(inputFastq[0]);
    var baseFq := BaseFastqName(inputFile);
    var baseOut;
    if outdir.Some? {
      baseOut := JoinPath(outdir.value, baseFq);
    } else {
      baseOut := JoinPath(indir, baseFq);
    }
    ghost var withInputs := callArgsList;
    assert withInputs == ["java", "-jar", trimmomaticFp, trimMode] + inputFastq;
    if trimMode == PairedEnd {
      callArgsList := callArgsList + ["-baseout", baseOut];
    } else if trimMode == SingleEnd {
      callArgsList := callArgsList + [baseOut];
    }
    ghost var withOutput := callArgsList;
    if trimLog.Some? {
      callArgsList := callArgsList + ["-trimlog", trimLog.value];
    }
    ghost var withLog := callArgsList;
    callArgsList := callArgsList + adapterOpt.value;
    assert baseOut == BaseOut(inputFastq[0], outdir);
    var outArgs := if trimMode == PairedEnd then ["-baseout", baseOut] else [baseOut];
    var logArgs := if trimLog.Some? then ["-trimlog", trimLog.value] else [];
    assert withOutput == withInputs + outArgs;
    assert withLog == withOutput + logArgs;
    assert callArgsList == TrimArgs(trimmomaticFp, trimMode, inputFastq, baseOut, trimLog, adapterOpt.value);
    return Success(callArgsList);
  }
}
