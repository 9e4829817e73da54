/**
 * Pieces shared by the command-line builders of the microbiome wrappers: the
 * `ValueError` they raise, and the `flag, "a,b,c"` groups with which they pass
 * lists of input files, together with how a tool reads such a group back.
 */
module CommandLine {
  import opened PyStrings

  /** Python's `ValueError` with its message. */
  datatype ValueError = ValueError(message: string)

  /** The separator between the files of one option. */
  const FileSeparator: string := ","

  // The four lemmas below are sequence arithmetic, not behaviour of the wrappers:
  // the layout proofs of the builders call them so that the solver need not
  // rediscover these slicing facts inside larger proofs.

  /** Each of five consecutive parts of an argument list can be sliced out again. */
  lemma ConcatSlices(a: seq<string>, b: seq<string>, c: seq<string>, d: seq<string>, e: seq<string>)
    ensures var s, i, j, k, l := a + b + c + d + e, |a|, |a| + |b|, |a| + |b| + |c|, |a| + |b| + |c| + |d|;
      && |s| == l + |e|
      && s[..i] == a && s[i..j] == b && s[j..k] == c && s[k..l] == d && s[l..] == e
  {
  }

  /** Appending four parts one by one is appending their concatenation. */
  lemma AppendFour(head: seq<string>, a: seq<string>, b: seq<string>, c: seq<string>, d: seq<string>)
    ensures head + a + b + c + d == head + (a + b + c + d)
  {
  }

  /** Dropping the program path from a command leaves its options. */
  lemma DropProgram(program: string, a: seq<string>, b: seq<string>, c: seq<string>)
    ensures ([program] + a + b + c)[1..] == a + b + c
  {
    assert [program] + a + b + c == [program] + (a + b + c);
  }

  /** A command with a program and one option in front: dropping the program leaves the option and the rest. */
  lemma ProgramThenOption(program: string, option: string, value: string, rest: seq<string>)
    ensures ([program, option, value] + rest)[1..] == [option, value] + rest
  {
    assert [program, option, value] + rest == [program] + ([option, value] + rest);
  }

  /** No file name holds the separator, so the joined list can be split again. */
  predicate CommaFree(files: seq<string>)
  {
    forall j :: 0 <= j < |files| ==> FileSeparator[0] !in files[j]
  }

  /**
   * `call_args_list.append(flag); call_args_list.append(",".join(files))` under
   * `if files:` — a non-empty list adds its flag and its joined files, an empty
   * list adds nothing.
   */
  function FileGroup(flag: string, files: seq<string>): (args: seq<string>)
  {
    if files == [] then [] else [flag, Join(FileSeparator, files)]
  }

  /**
   * `if files: args.append(flag); args.append(",".join(files))`, the step every
   * builder repeats for each of its file lists.
   */
  method AppendGroup(args: seq<string>, flag: string, files: seq<string>) returns (r: seq<string>)
    ensures r == args + FileGroup(flag, files)
  {
    r := args;
    if files != [] {
      r := r + [flag];
      var joined := Join(FileSeparator, files);
      r := r + [joined];
    }
  }

  /** The groups of several options, one after another in the given order. */
  function FileGroups(flags: seq<string>, lists: seq<seq<string>>): (args: seq<string>)
    requires |flags| == |lists|
    ensures |args| % 2 == 0
    ensures (forall i :: 0 <= i < |lists| ==> lists[i] == []) ==> args == []
  {
    if flags == [] then [] else FileGroup(flags[0], lists[0]) + FileGroups(flags[1..], lists[1..])
  }

  /**
   * How a tool reads an argument list of `flag value` pairs: the files given to
   * `flag` are its first value split at the separator; a flag that is absent gives
   * no files.
   */
  function FilesAfter(args: seq<string>, flag: string): seq<string>
    decreases |args|
  {
    if |args| < 2 then []
    else if args[0] == flag then SplitOn(args[1], FileSeparator)
    else FilesAfter(args[2..], flag)
  }

  /** An option other than `flag`, with its value, is skipped when reading `flag`. */
  lemma SkipOption(option: string, value: string, rest: seq<string>, flag: string)
    requires option != flag
    ensures FilesAfter([option, value] + rest, flag) == FilesAfter(rest, flag)
  {
    assert ([option, value] + rest)[2..] == rest;
  }

  /** A flag that none of the groups uses is read from what follows them. */
  lemma {:induction false} FlagOutsideGroups(flags: seq<string>, lists: seq<seq<string>>, rest: seq<string>, flag: string)
    requires |flags| == |lists| && flag !in flags
    ensures FilesAfter(FileGroups(flags, lists) + rest, flag) == FilesAfter(rest, flag)
    decreases |flags|
  {
    if flags != [] {
      var tail := FileGroups(flags[1..], lists[1..]) + rest;
      assert FileGroups(flags, lists) + rest == FileGroup(flags[0], lists[0]) + tail;
      FlagOutsideGroups(flags[1..], lists[1..], rest, flag);
      assert flags[0] != flag;
      if lists[0] != [] {
        assert (FileGroup(flags[0], lists[0]) + tail)[2..] == tail;
      } else {
        assert FileGroup(flags[0], lists[0]) + tail == tail;
      }
    } else {
      assert FileGroups(flags, lists) + rest == rest;
    }
  }

  /**
   * The groups read back exactly: with distinct flags and file names free of
   * commas, each flag yields the very list it was given (an empty list yields no
   * files), provided what follows the groups does not use the flag itself.
   */
  lemma {:induction false} FileGroupsReadBack(flags: seq<string>, lists: seq<seq<string>>, rest: seq<string>, k: nat)
    requires |flags| == |lists| && k < |flags|
    requires forall i, j :: 0 <= i < j < |flags| ==> flags[i] != flags[j]
    requires forall i :: 0 <= i < |lists| ==> CommaFree(lists[i])
    requires FilesAfter(rest, flags[k]) == []
    ensures FilesAfter(FileGroups(flags, lists) + rest, flags[k]) == lists[k]
    decreases |flags|
  {
    var tail := FileGroups(flags[1..], lists[1..]) + rest;
    assert FileGroups(flags, lists) + rest == FileGroup(flags[0], lists[0]) + tail;
    if k == 0 {
      if lists[0] == [] {
        assert flags[0] !in flags[1..] by {
          forall i | 0 <= i < |flags| - 1 ensures flags[1..][i] != flags[0] {
            assert flags[0] != flags[i + 1];
          }
        }
        FlagOutsideGroups(flags[1..], lists[1..], rest, flags[0]);
        assert FileGroup(flags[0], lists[0]) + tail == tail;
      } else {
        SplitJoin(FileSeparator, lists[0]);
      }
    } else {
      assert flags[0] != flags[k];
      assert flags[k] == flags[1..][k - 1];
      FileGroupsReadBack(flags[1..], lists[1..], rest, k - 1);
      if lists[0] != [] {
        assert (FileGroup(flags[0], lists[0]) + tail)[2..] == tail;
      } else {
        assert FileGroup(flags[0], lists[0]) + tail == tail;
      }
    }
  }
}
