/**
 * Extraction of the guide-RNA library from a dual-CRISPR construct table: column
 * mapping, splitting of construct ids, pairing of sub-construct names with their
 * sequences, upper-casing, de-duplication and sorting, and the shared validator
 * that keeps names and sequences in one-to-one correspondence. Also the reading
 * of a standalone guide list and the trimming of guide sequences.
 *
 * A table is held as its column labels and rows of cell strings, the way pandas
 * holds what it read; reading the file itself is not part of this model.
 */
module ConstructFileExtracter {
  import opened Results
  import opened PyStrings
  import opened GuideOrder

  const ConstructIdName := "CONSTRUCT_ID"
  const GeneASeqName := "GENE_A_SEQ"
  const GeneBSeqName := "GENE_B_SEQ"

  /** The role names, in the order in which the caller's column indices refer to them. */
  const RoleNames: seq<string> := [ConstructIdName, GeneASeqName, GeneBSeqName]

  /** What the extraction raises. */
  datatype ExtractionError =
    | EmptyData                                   // nothing left to parse after the skipped rows
    | ColumnIndexOutOfRange(index: int)           // `existing_names[i]` raised IndexError
    | TooManyColumnIndices(count: nat)            // `new_names[i]` raised IndexError
    | MissingColumn(name: string)                 // `construct_table[name]` raised KeyError
    | ConstructIdArity(pieces: nat)               // unpacking `zip(*...)` into two columns failed
    | WrongFieldCount(record: seq<string>, count: nat)
    | SequenceConflict(sequence: string, name: string, previousName: string)
    | NameConflict(name: string, sequence: string, previousSequence: string)

  // ---------------------------------------------------------------------------
  // Construct ids
  // ---------------------------------------------------------------------------

  /** The separator between the two sub-construct names of a construct id. */
  function ConstructSeparator(): string
  {
    "__"
  }

  /**
   * A construct id splits into exactly the two names `a` and `b` if and only if it
   * is `a`, the separator and `b`, neither name holds the separator, and `a` does
   * not end in `_` (otherwise the separator would be found one place earlier).
   */
  lemma SplitConstructId(id: string, a: string, b: string)
    ensures SplitOn(id, ConstructSeparator()) == [a, b] <==>
      (id == a + ConstructSeparator() + b
       && !Contains(a, ConstructSeparator()) && !Contains(b, ConstructSeparator())
       && (a == [] || a[|a| - 1] != '_'))
  {
    if SplitOn(id, ConstructSeparator()) == [a, b] {
      SplitConstructIdParts(id, a, b);
    }
    if id == a + ConstructSeparator() + b && !Contains(a, ConstructSeparator())
      && !Contains(b, ConstructSeparator()) && (a == [] || a[|a| - 1] != '_')
    {
      JoinConstructId(a, b);
    }
  }

  lemma SplitConstructIdParts(id: string, a: string, b: string)
    requires SplitOn(id, ConstructSeparator()) == [a, b]
    ensures id == a + ConstructSeparator() + b
    ensures !Contains(a, ConstructSeparator()) && !Contains(b, ConstructSeparator())
    ensures a == [] || a[|a| - 1] != '_'
  {
    var sep := ConstructSeparator();
    assert Join(sep, [a, b]) == a + sep + b;
    SplitFirstPiece(id, sep);
    var i := Find(id, sep);
    assert i == |a|;
    if a != [] {
      // the separator does not start one place before where `find` saw it
      assert !OccursAt(id, sep, |a| - 1);
      assert id[|a| - 1..|a| + 1] == [a[|a| - 1], '_'];
    }
  }

  lemma JoinConstructId(a: string, b: string)
    requires !Contains(a, ConstructSeparator()) && !Contains(b, ConstructSeparator())
    requires a == [] || a[|a| - 1] != '_'
    ensures SplitOn(a + ConstructSeparator() + b, ConstructSeparator()) == [a, b]
  {
    var sep := ConstructSeparator();
    var id := a + sep + b;
    forall j | 0 <= j < |a|
      ensures !OccursAt(id, sep, j)
    {
      if j + 2 <= |a| {
        assert id[j..j + 2] == a[j..j + 2];
        assert !OccursAt(a, sep, j);
      } else {
        assert id[j] == a[|a| - 1];
      }
    }
    SplitTwoPieces(a, sep, b);
  }

  // ---------------------------------------------------------------------------
  // Tables and column mapping
  // ---------------------------------------------------------------------------

  /** A column label: the position pandas gives a column read without a header, or a role name. */
  datatype Label = Position(index: nat) | Role(name: string)

  /** A table: column labels and rows of cells. */
  datatype Table = Table(labels: seq<Label>, rows: seq<seq<string>>)

  /** Every row has one cell per column. */
  predicate Rectangular(t: Table)
  {
    forall i :: 0 <= i < |t.rows| ==> |t.rows[i]| == |t.labels|
  }

  /** The labels pandas gives the columns of a table read with `header=None`. */
  function Positions(width: nat): (labels: seq<Label>)
    ensures |labels| == width && forall p :: 0 <= p < width ==> labels[p] == Position(p)
  {
    seq(width, p requires 0 <= p < width => Position(p))
  }

  /** Python list indexing accepts `-n <= index < n`. */
  predicate InRange(index: int, n: nat)
  {
    -(n as int) <= index < n
  }

  /** The position a Python list index designates; negative indices count from the end. */
  function Resolve(index: int, n: nat): (p: nat)
    requires InRange(index, n)
    ensures p < n
  {
    if index < 0 then n + index else index
  }

  /** The first `k` column indices were processed without an IndexError. */
  predicate RenameOkUpTo(n: nat, indices: seq<int>, k: nat)
    requires k <= |indices|
  {
    k <= |RoleNames| && forall i :: 0 <= i < k ==> InRange(indices[i], n)
  }

  /**
   * The role a column labelled `label` receives: that of the last column index
   * designating a column with that label (a later dictionary entry overwrites an
   * earlier one), or none.
   */
  function RenameTarget(labels: seq<Label>, indices: seq<int>, target: Label): Option<string>
    requires RenameOkUpTo(|labels|, indices, |indices|)
  {
    if indices == [] then None
    else
      var last := |indices| - 1;
      if labels[Resolve(indices[last], |labels|)] == target then Some(RoleNames[last])
      else RenameTarget(labels, indices[..last], target)
  }

  /** The labels after `construct_table.rename(columns=existing_to_new_names)`. */
  function RenamedLabels(labels: seq<Label>, indices: seq<int>): (r: seq<Label>)
    requires RenameOkUpTo(|labels|, indices, |indices|)
    ensures |r| == |labels|
  {
    seq(|labels|, p requires 0 <= p < |labels| =>
      match RenameTarget(labels, indices, labels[p])
      case Some(name) => Role(name)
      case None => labels[p])
  }

  /**
   * For column indices that cannot all be processed, the first one, from `k` on,
   * at which the renaming raises.
   */
  function FirstRenameBreak(n: nat, indices: seq<int>, k: nat): (b: nat)
    requires k <= |indices| && RenameOkUpTo(n, indices, k) && !RenameOkUpTo(n, indices, |indices|)
    ensures k <= b < |indices| && RenameOkUpTo(n, indices, b) && !RenameOkUpTo(n, indices, b + 1)
    decreases |indices| - k
  {
    if !RenameOkUpTo(n, indices, k + 1) then k else FirstRenameBreak(n, indices, k + 1)
  }

  /** An index at which the renaming raises after a good prefix is the first such index. */
  lemma {:induction false} FirstRenameBreakAt(n: nat, indices: seq<int>, k: nat, m: nat)
    requires k <= m < |indices| && RenameOkUpTo(n, indices, m) && !RenameOkUpTo(n, indices, m + 1)
    ensures !RenameOkUpTo(n, indices, |indices|)
    ensures FirstRenameBreak(n, indices, k) == m
    decreases m - k
  {
    if k < m {
      assert RenameOkUpTo(n, indices, k + 1);
      FirstRenameBreakAt(n, indices, k + 1, m);
    }
  }

  /** The error raised at the first column index that cannot be processed. */
  function RenameError(n: nat, indices: seq<int>, k: nat): ExtractionError
    requires k < |indices|
  {
    if InRange(indices[k], n) then TooManyColumnIndices(|indices|) else ColumnIndexOutOfRange(indices[k])
  }

  /**
   * `_rename_columns`: the column that `column_indices[i]` designates is relabelled
   * with the i-th role name; the rows are untouched. An index outside the table, or
   * a fourth index, raises IndexError.
   */
  method RenameColumns(table: Table, columnIndices: seq<int>) returns (r: Result<Table, ExtractionError>)
    ensures r.Success? <==> RenameOkUpTo(|table.labels|, columnIndices, |columnIndices|)
    ensures r.Success? ==> r.value == Table(RenamedLabels(table.labels, columnIndices), table.rows)
    ensures r.Failure? ==>
      r.error == RenameError(|table.labels|, columnIndices, FirstRenameBreak(|table.labels|, columnIndices, 0))
  {
    var newNames := RoleNames;
    var existingNames := table.labels;
    var existingToNewNames: map<Label, string> := map[];
    var i := 0;
    while i < |columnIndices|
      invariant 0 <= i <= |columnIndices|
      invariant RenameOkUpTo(|existingNames|, columnIndices, i)
      invariant forall l ::
                  RenameTarget(existingNames, columnIndices[..i], l)
                  == if l in existingToNewNames then Some(existingToNewNames[l]) else None
    {
      var colIndex := columnIndices[i];
      if !(-|existingNames| <= colIndex < |existingNames|) {
        assert !RenameOkUpTo(|existingNames|, columnIndices, i + 1);
        FirstRenameBreakAt(|existingNames|, columnIndices, 0, i);
        return Failure(ColumnIndexOutOfRange(colIndex));
      }
      var existingName := existingNames[if colIndex < 0 then |existingNames| + colIndex else colIndex];
      if i >= |newNames| {
        assert !RenameOkUpTo(|existingNames|, columnIndices, i + 1);
        FirstRenameBreakAt(|existingNames|, columnIndices, 0, i);
        return Failure(TooManyColumnIndices(|columnIndices|));
      }
      existingToNewNames := existingToNewNames[existingName := newNames[i]];
      assert columnIndices[..i + 1][..i] == columnIndices[..i];
      i := i + 1;
    }
    assert columnIndices[..i] == columnIndices;
    var renamed := seq(|existingNames|, p requires 0 <= p < |existingNames| =>
      if existingNames[p] in existingToNewNames then Role(existingToNewNames[existingNames[p]]) else existingNames[p]);
    return Success(Table(renamed, table.rows));
  }

  /** No label occurs twice (true of the position labels of a freshly read table). */
  predicate DistinctLabels(labels: seq<Label>)
  {
    forall p, q :: 0 <= p < q < |labels| ==> labels[p] != labels[q]
  }

  lemma {:induction false} RenameTargetOfLastIndex(labels: seq<Label>, indices: seq<int>, i: nat)
    requires RenameOkUpTo(|labels|, indices, |indices|) && DistinctLabels(labels)
    requires i < |indices|
    requires forall j :: i < j < |indices| ==> Resolve(indices[j], |labels|) != Resolve(indices[i], |labels|)
    ensures RenameTarget(labels, indices, labels[Resolve(indices[i], |labels|)]) == Some(RoleNames[i])
    decreases |indices|
  {
    var n := |labels|;
    var last := |indices| - 1;
    if i < last {
      var p, q := Resolve(indices[last], n), Resolve(indices[i], n);
      assert labels[p] != labels[q] by {
        if p < q { assert labels[p] != labels[q]; } else { assert labels[q] != labels[p]; }
      }
      var prefix := indices[..last];
      assert forall j :: i < j < |prefix| ==> prefix[j] == indices[j];
      RenameTargetOfLastIndex(labels, prefix, i);
    }
  }

  lemma {:induction false} RenameTargetOfUnnamedColumn(labels: seq<Label>, indices: seq<int>, p: nat)
    requires RenameOkUpTo(|labels|, indices, |indices|) && DistinctLabels(labels)
    requires p < |labels|
    requires forall j :: 0 <= j < |indices| ==> Resolve(indices[j], |labels|) != p
    ensures RenameTarget(labels, indices, labels[p]) == None
    decreases |indices|
  {
    if indices != [] {
      var last := |indices| - 1;
      var q := Resolve(indices[last], |labels|);
      assert labels[q] != labels[p] by {
        if p < q { assert labels[p] != labels[q]; } else { assert labels[q] != labels[p]; }
      }
      RenameTargetOfUnnamedColumn(labels, indices[..last], p);
    }
  }

  /**
   * Over distinct labels the renaming works position by position: the column
   * `column_indices[i]` designates gets the i-th role name (unless a later index
   * designates the same column), and a column no index designates keeps its label.
   */
  lemma RenameByPosition(labels: seq<Label>, indices: seq<int>)
    requires RenameOkUpTo(|labels|, indices, |indices|) && DistinctLabels(labels)
    ensures forall i ::
              0 <= i < |indices|
              && (forall j :: i < j < |indices| ==> Resolve(indices[j], |labels|) != Resolve(indices[i], |labels|))
              ==> RenamedLabels(labels, indices)[Resolve(indices[i], |labels|)] == Role(RoleNames[i])
    ensures forall p ::
              0 <= p < |labels| && (forall j :: 0 <= j < |indices| ==> Resolve(indices[j], |labels|) != p)
              ==> RenamedLabels(labels, indices)[p] == labels[p]
  {
    forall i | 0 <= i < |indices|
      && (forall j :: i < j < |indices| ==> Resolve(indices[j], |labels|) != Resolve(indices[i], |labels|))
      ensures RenamedLabels(labels, indices)[Resolve(indices[i], |labels|)] == Role(RoleNames[i])
    {
      RenameTargetOfLastIndex(labels, indices, i);
    }
    forall p | 0 <= p < |labels| && (forall j :: 0 <= j < |indices| ==> Resolve(indices[j], |labels|) != p)
      ensures RenamedLabels(labels, indices)[p] == labels[p]
    {
      RenameTargetOfUnnamedColumn(labels, indices, p);
    }
  }

  /**
   * `_read_in_construct_table`: skips `rowsToSkip` leading rows, labels the columns
   * by position and renames the three role columns. A file with nothing after the
   * skipped rows is rejected, as pandas rejects it.
   */
  method ReadInConstructTable(lines: seq<seq<string>>, columnIndices: seq<int>, rowsToSkip: nat)
    returns (r: Result<Table, ExtractionError>)
    requires forall i :: rowsToSkip <= i < |lines| ==> |lines[i]| == |lines[|lines| - 1]|
    ensures |lines| <= rowsToSkip ==> r == Failure(EmptyData)
    ensures r.Success? <==> rowsToSkip < |lines| && RenameOkUpTo(|lines[rowsToSkip]|, columnIndices, |columnIndices|)
    ensures r.Success? ==> r.value == LoadedTable(lines, columnIndices, rowsToSkip) && Rectangular(r.value)
    ensures rowsToSkip < |lines| && r.Failure? ==>
      r.error == RenameError(|lines[rowsToSkip]|, columnIndices, FirstRenameBreak(|lines[rowsToSkip]|, columnIndices, 0))
  {
    if |lines| <= rowsToSkip {
      return Failure(EmptyData);
    }
    var rows := lines[rowsToSkip..];
    var table := Table(Positions(|rows[0]|), rows);
    r := RenameColumns(table, columnIndices);
  }

  /** The table `_read_in_construct_table` returns when it succeeds. */
  function LoadedTable(lines: seq<seq<string>>, columnIndices: seq<int>, rowsToSkip: nat): Table
    requires rowsToSkip < |lines| && RenameOkUpTo(|lines[rowsToSkip]|, columnIndices, |columnIndices|)
  {
    Table(RenamedLabels(Positions(|lines[rowsToSkip]|), columnIndices), lines[rowsToSkip..])
  }

  /** The position of the first column labelled with role `name`, or -1. */
  function FindRole(labels: seq<Label>, name: string): (k: int)
    ensures -1 <= k < |labels|
    ensures k >= 0 ==> labels[k] == Role(name)
    ensures k == -1 <==> Role(name) !in labels
  {
    if labels == [] then -1
    else if labels[0] == Role(name) then 0
    else
      var k := FindRole(labels[1..], name);
      assert labels == [labels[0]] + labels[1..];
      if k < 0 then -1 else k + 1
  }

  /** `construct_table[name]`: the cells of the column labelled `name`, or None (KeyError). */
  function Column(t: Table, name: string): (r: Option<seq<string>>)
    requires Rectangular(t)
    ensures r.Some? <==> Role(name) in t.labels
    ensures r.Some? ==>
      && |r.value| == |t.rows|
      && forall i :: 0 <= i < |t.rows| ==> r.value[i] == t.rows[i][FindRole(t.labels, name)]
  {
    var k := FindRole(t.labels, name);
    if k < 0 then None else Some(seq(|t.rows|, i requires 0 <= i < |t.rows| => t.rows[i][k]))
  }

  // ---------------------------------------------------------------------------
  // Extraction of the guide pairs
  // ---------------------------------------------------------------------------

  /**
   * `construct_table[CONSTRUCT_ID].str.split("__").tolist()`: one list of pieces
   * per id, which joined with the separator gives the id back and none of which
   * holds the separator.
   */
  function SplitIds(ids: seq<string>): (pieces: seq<seq<string>>)
    ensures |pieces| == |ids|
    ensures forall i :: 0 <= i < |ids| ==> |pieces[i]| >= 1 && Join(ConstructSeparator(), pieces[i]) == ids[i]
    ensures forall i, k :: 0 <= i < |ids| && 0 <= k < |pieces[i]| ==> !Contains(pieces[i][k], ConstructSeparator())
  {
    seq(|ids|, i requires 0 <= i < |ids| => SplitOn(ids[i], ConstructSeparator()))
  }

  /**
   * Row `i` splits into exactly the names `a` and `b` if and only if its id is
   * `a`, the separator and `b`, with neither name holding the separator and `a`
   * not ending in `_`.
   */
  lemma SplitIdsInTwo(ids: seq<string>, i: nat, a: string, b: string)
    requires i < |ids|
    ensures SplitIds(ids)[i] == [a, b] <==>
      (ids[i] == a + ConstructSeparator() + b
       && !Contains(a, ConstructSeparator()) && !Contains(b, ConstructSeparator())
       && (a == [] || a[|a| - 1] != '_'))
  {
    SplitConstructId(ids[i], a, b);
  }

  /** The length of the shortest list: how many tuples `zip` yields. */
  function ShortestLength(lists: seq<seq<string>>): (m: nat)
    requires |lists| > 0
    ensures forall i :: 0 <= i < |lists| ==> m <= |lists[i]|
    ensures exists i :: 0 <= i < |lists| && m == |lists[i]|
  {
    if |lists| == 1 then |lists[0]|
    else
      var m := ShortestLength(lists[1..]);
      assert forall i :: 1 <= i < |lists| ==> lists[1..][i - 1] == lists[i];
      if |lists[0]| <= m then |lists[0]| else m
  }

  /** The number of tuples `zip(*pieces)` yields: 0 for a table without rows. */
  function ZipCount(ids: seq<string>): nat
  {
    if ids == [] then 0 else ShortestLength(SplitIds(ids))
  }

  /**
   * Assigning `zip(*...)` to the two name columns succeeds exactly when it yields
   * two tuples: every id splits into at least two pieces and some id into exactly
   * two; extra pieces are then dropped.
   */
  predicate SplitsInTwo(ids: seq<string>)
    ensures SplitsInTwo(ids) ==> forall i :: 0 <= i < |ids| ==> |SplitIds(ids)[i]| >= 2
  {
    ZipCount(ids) == 2
  }

  /**
   * The gene-A pairs followed by the gene-B pairs, each as an upper-cased
   * `(sequence, name)` tuple, before de-duplication: row i pairs its A sequence
   * with the first piece of its id and its B sequence with the second.
   */
  function GuidePairs(pieces: seq<seq<string>>, aSeqs: seq<string>, bSeqs: seq<string>): (r: seq<SeqNamePair>)
    requires |aSeqs| == |pieces| && |bSeqs| == |pieces|
    requires forall i :: 0 <= i < |pieces| ==> |pieces[i]| >= 2
    ensures |r| == 2 * |pieces|
    ensures forall i :: 0 <= i < |pieces| ==>
      r[i] == (Upper(aSeqs[i]), pieces[i][0]) && r[|pieces| + i] == (Upper(bSeqs[i]), pieces[i][1])
  {
    var aPairs := HalfPairs(aSeqs, pieces, 0);
    var bPairs := HalfPairs(bSeqs, pieces, 1);
    aPairs + bPairs
  }

  /** Every sequence among the candidate pairs is upper-case. */
  lemma GuidePairsUpperCase(pieces: seq<seq<string>>, aSeqs: seq<string>, bSeqs: seq<string>)
    requires |aSeqs| == |pieces| && |bSeqs| == |pieces|
    requires forall i :: 0 <= i < |pieces| ==> |pieces[i]| >= 2
    ensures forall p :: p in GuidePairs(pieces, aSeqs, bSeqs) ==> IsUpperCase(p.0)
  {
    var pairs := GuidePairs(pieces, aSeqs, bSeqs);
    forall p | p in pairs ensures IsUpperCase(p.0) {
      var k :| 0 <= k < |pairs| && pairs[k] == p;
      if k >= |pieces| {
        assert pairs[|pieces| + (k - |pieces|)] == p;
      }
    }
  }

  /** A list with the same elements as an upper-cased one is upper-cased too. */
  lemma SameElementsUpperCase(xs: seq<SeqNamePair>, ys: seq<SeqNamePair>)
    requires forall p :: p in xs ==> IsUpperCase(p.0)
    requires Elements(ys) == Elements(xs)
    ensures forall p :: p in ys ==> IsUpperCase(p.0)
  {
    assert forall p :: p in ys ==> p in Elements(xs);
  }

  /** Each sequence upper-cased and paired with piece `k` of its row's id. */
  function HalfPairs(seqs: seq<string>, pieces: seq<seq<string>>, k: nat): (r: seq<SeqNamePair>)
    requires |pieces| == |seqs| && forall i :: 0 <= i < |pieces| ==> |pieces[i]| > k
    ensures |r| == |seqs| && forall i :: 0 <= i < |seqs| ==> r[i] == (Upper(seqs[i]), pieces[i][k])
  {
    seq(|seqs|, i requires 0 <= i < |seqs| => (Upper(seqs[i]), pieces[i][k]))
  }

  /**
   * `_extract_grnas_from_construct_table`: the distinct upper-cased
   * `(sequence, name)` pairs of the A and B halves of every row, strictly sorted.
   * Errors come in the order the source meets them: a missing id column, ids that
   * do not split in two, then a missing A or B sequence column.
   */
  function ExtractGrnasFromConstructTable(t: Table): (r: Result<seq<SeqNamePair>, ExtractionError>)
    requires Rectangular(t)
    ensures Column(t, ConstructIdName).None? ==> r == Failure(MissingColumn(ConstructIdName))
    ensures Column(t, ConstructIdName).Some? && !SplitsInTwo(Column(t, ConstructIdName).value) ==>
      r == Failure(ConstructIdArity(ZipCount(Column(t, ConstructIdName).value)))
    ensures (Column(t, ConstructIdName).Some? && SplitsInTwo(Column(t, ConstructIdName).value)
             && Column(t, GeneASeqName).None?) ==> r == Failure(MissingColumn(GeneASeqName))
    ensures (Column(t, ConstructIdName).Some? && SplitsInTwo(Column(t, ConstructIdName).value)
             && Column(t, GeneASeqName).Some? && Column(t, GeneBSeqName).None?) ==> r == Failure(MissingColumn(GeneBSeqName))
    ensures r.Success? <==>
      Column(t, ConstructIdName).Some? && SplitsInTwo(Column(t, ConstructIdName).value)
      && Column(t, GeneASeqName).Some? && Column(t, GeneBSeqName).Some?
    ensures r.Success? ==> StrictlySorted(r.value) && forall p :: p in r.value ==> IsUpperCase(p.0)
    ensures r.Success? ==>
      Elements(r.value) == Elements(GuidePairs(SplitIds(Column(t, ConstructIdName).value),
        Column(t, GeneASeqName).value, Column(t, GeneBSeqName).value))
  {
    match Column(t, ConstructIdName)
    case None => Failure(MissingColumn(ConstructIdName))
    case Some(ids) =>
      if !SplitsInTwo(ids) then Failure(ConstructIdArity(ZipCount(ids)))
      else
        match Column(t, GeneASeqName)
        case None => Failure(MissingColumn(GeneASeqName))
        case Some(aSeqs) =>
          match Column(t, GeneBSeqName)
          case None => Failure(MissingColumn(GeneBSeqName))
          case Some(bSeqs) =>
            var pairs := GuidePairs(SplitIds(ids), aSeqs, bSeqs);
            GuidePairsUpperCase(SplitIds(ids), aSeqs, bSeqs);
            var r := SortedDistinct(pairs);
            SameElementsUpperCase(pairs, r);
            Success(r)
  }

  // ---------------------------------------------------------------------------
  // The shared validator
  // ---------------------------------------------------------------------------

  /**
   * The first `k` records are `(sequence, name)` pairs of exactly two fields, with
   * pairwise distinct sequences and pairwise distinct names.
   */
  predicate ConsistentPrefix(records: seq<seq<string>>, k: nat)
    requires k <= |records|
  {
    (forall i :: 0 <= i < k ==> |records[i]| == 2)
    && forall i, j :: 0 <= i < j < k ==> records[i][0] != records[j][0] && records[i][1] != records[j][1]
  }

  lemma ConsistentPrefixMonotone(records: seq<seq<string>>, k: nat, m: nat)
    requires k <= m <= |records|
    ensures ConsistentPrefix(records, m) ==> ConsistentPrefix(records, k)
  {
  }

  /** The last of the first `k` records whose `field` is `value`, or -1. */
  function EarlierWith(records: seq<seq<string>>, k: nat, field: nat, value: string): (j: int)
    requires k <= |records| && field < 2 && forall i :: 0 <= i < k ==> |records[i]| == 2
    ensures -1 <= j < k
    ensures j >= 0 ==> records[j][field] == value
    ensures j == -1 ==> forall i :: 0 <= i < k ==> records[i][field] != value
  {
    if k == 0 then -1
    else if records[k - 1][field] == value then k - 1
    else EarlierWith(records, k - 1, field, value)
  }

  /**
   * The error the validator raises at record `k` when the records before it are
   * consistent: a wrong field count first, then a sequence seen before (reported
   * with the name it had), then a name seen before (with the sequence it had).
   */
  function ViolationAt(records: seq<seq<string>>, k: nat): ExtractionError
    requires k < |records| && ConsistentPrefix(records, k)
  {
    var rec := records[k];
    if |rec| != 2 then WrongFieldCount(rec, |rec|)
    else
      var j := EarlierWith(records, k, 0, rec[0]);
      if j >= 0 then SequenceConflict(rec[0], rec[1], records[j][1])
      else
        var j' := EarlierWith(records, k, 1, rec[1]);
        if j' >= 0 then NameConflict(rec[1], rec[0], records[j'][0])
        else WrongFieldCount(rec, |rec|)
  }

  /** The values that `field` takes in the first `n` records. */
  function FieldValues(records: seq<seq<string>>, n: nat, field: nat): set<string>
    requires n <= |records| && field < 2 && forall i :: 0 <= i < n ==> |records[i]| == 2
  {
    if n == 0 then {} else FieldValues(records, n - 1, field) + {records[n - 1][field]}
  }

  /** A value in `FieldValues` comes from one of the first `n` records. */
  lemma {:induction false} FieldValueWitness(records: seq<seq<string>>, n: nat, field: nat, value: string) returns (j: nat)
    requires n <= |records| && field < 2 && forall i :: 0 <= i < n ==> |records[i]| == 2
    requires value in FieldValues(records, n, field)
    ensures j < n && records[j][field] == value
  {
    if records[n - 1][field] == value {
      j := n - 1;
    } else {
      j := FieldValueWitness(records, n - 1, field, value);
    }
  }

  /**
   * The first record, from `k` on, after which the records stop being consistent:
   * the record at which the validator raises.
   */
  function FirstBreak(records: seq<seq<string>>, k: nat): (b: nat)
    requires k <= |records| && ConsistentPrefix(records, k) && !ConsistentPrefix(records, |records|)
    ensures k <= b < |records| && ConsistentPrefix(records, b) && !ConsistentPrefix(records, b + 1)
    decreases |records| - k
  {
    if !ConsistentPrefix(records, k + 1) then k else FirstBreak(records, k + 1)
  }

  /** A record after a consistent prefix that breaks consistency is the first break. */
  lemma {:induction false} FirstBreakAt(records: seq<seq<string>>, k: nat, n: nat)
    requires k <= n < |records| && ConsistentPrefix(records, n) && !ConsistentPrefix(records, n + 1)
    ensures !ConsistentPrefix(records, |records|)
    ensures FirstBreak(records, k) == n
    decreases n - k
  {
    ConsistentPrefixMonotone(records, n + 1, |records|);
    ConsistentPrefixMonotone(records, k, n);
    if k < n {
      ConsistentPrefixMonotone(records, k + 1, n);
      FirstBreakAt(records, k + 1, n);
    }
  }

  /** Record `n` repeats the sequence of the earlier record `j`. */
  lemma SequenceSeenBefore(records: seq<seq<string>>, n: nat, j: nat)
    requires n < |records| && ConsistentPrefix(records, n) && |records[n]| == 2
    requires j < n && records[j][0] == records[n][0]
    ensures !ConsistentPrefix(records, n + 1)
    ensures ViolationAt(records, n) == SequenceConflict(records[n][0], records[n][1], records[j][1])
  {
    var e := EarlierWith(records, n, 0, records[n][0]);
    assert e >= 0;
  }

  /** Record `n` has a new sequence but repeats the name of the earlier record `j`. */
  lemma NameSeenBefore(records: seq<seq<string>>, n: nat, j: nat)
    requires n < |records| && ConsistentPrefix(records, n) && |records[n]| == 2
    requires forall i :: 0 <= i < n ==> records[i][0] != records[n][0]
    requires j < n && records[j][1] == records[n][1]
    ensures !ConsistentPrefix(records, n + 1)
    ensures ViolationAt(records, n) == NameConflict(records[n][1], records[n][0], records[j][0])
  {
    var e := EarlierWith(records, n, 1, records[n][1]);
    assert e >= 0;
  }

  /** A two-field record with a new sequence and a new name extends a consistent prefix. */
  lemma ConsistentExtends(records: seq<seq<string>>, n: nat)
    requires n < |records| && ConsistentPrefix(records, n) && |records[n]| == 2
    requires records[n][0] !in FieldValues(records, n, 0) && records[n][1] !in FieldValues(records, n, 1)
    ensures ConsistentPrefix(records, n + 1)
  {
    forall i | 0 <= i < n
      ensures records[i][0] != records[n][0] && records[i][1] != records[n][1]
    {
      FieldValueMember(records, n, i);
    }
  }

  /** Each of the first `n` records contributes its fields to `FieldValues`. */
  lemma {:induction false} FieldValueMember(records: seq<seq<string>>, n: nat, i: nat)
    requires n <= |records| && forall k :: 0 <= k < n ==> |records[k]| == 2
    requires i < n
    ensures records[i][0] in FieldValues(records, n, 0) && records[i][1] in FieldValues(records, n, 1)
  {
    if i < n - 1 {
      FieldValueMember(records, n - 1, i);
    }
  }

  /**
   * The validator's two dictionaries after the first `n` records: each maps the
   * values one field took to the other field of the same record.
   */
  predicate Indexed(records: seq<seq<string>>, n: nat, namesBySeqs: map<string, string>, seqsByNames: map<string, string>)
    requires n <= |records| && ConsistentPrefix(records, n)
  {
    && (forall i :: 0 <= i < n ==> records[i][0] in namesBySeqs && namesBySeqs[records[i][0]] == records[i][1])
    && (forall i :: 0 <= i < n ==> records[i][1] in seqsByNames && seqsByNames[records[i][1]] == records[i][0])
    && namesBySeqs.Keys == FieldValues(records, n, 0)
    && seqsByNames.Keys == FieldValues(records, n, 1)
  }

  /** Recording a consistent record keeps the dictionaries indexed. */
  lemma IndexedExtends(records: seq<seq<string>>, n: nat, namesBySeqs: map<string, string>, seqsByNames: map<string, string>)
    requires n < |records| && ConsistentPrefix(records, n + 1)
    requires Indexed(records, n, namesBySeqs, seqsByNames)
    ensures Indexed(records, n + 1, namesBySeqs[records[n][0] := records[n][1]], seqsByNames[records[n][1] := records[n][0]])
  {
  }

  /** A sequence in the first dictionary came from an earlier record, with the name it maps to. */
  lemma SequenceIndexed(records: seq<seq<string>>, n: nat, namesBySeqs: map<string, string>,
                        seqsByNames: map<string, string>, sequence: string) returns (j: nat)
    requires n <= |records| && ConsistentPrefix(records, n) && Indexed(records, n, namesBySeqs, seqsByNames)
    requires sequence in namesBySeqs
    ensures j < n && records[j][0] == sequence && namesBySeqs[sequence] == records[j][1]
  {
    j := FieldValueWitness(records, n, 0, sequence);
  }

  /** A name in the second dictionary came from an earlier record, with the sequence it maps to. */
  lemma NameIndexed(records: seq<seq<string>>, n: nat, namesBySeqs: map<string, string>,
                    seqsByNames: map<string, string>, name: string) returns (j: nat)
    requires n <= |records| && ConsistentPrefix(records, n) && Indexed(records, n, namesBySeqs, seqsByNames)
    requires name in seqsByNames
    ensures j < n && records[j][1] == name && seqsByNames[name] == records[j][0]
  {
    j := FieldValueWitness(records, n, 1, name);
  }

  /** A sequence missing from the first dictionary is new to the first `n` records. */
  lemma NewSequenceIndexed(records: seq<seq<string>>, n: nat, namesBySeqs: map<string, string>,
                           seqsByNames: map<string, string>, sequence: string)
    requires n <= |records| && ConsistentPrefix(records, n) && Indexed(records, n, namesBySeqs, seqsByNames)
    requires sequence !in namesBySeqs
    ensures forall i :: 0 <= i < n ==> records[i][0] != sequence
  {
  }

  /** The first `n` two-field records, each `(sequence, name)` turned into `(name, sequence)`. */
  function Swapped(records: seq<seq<string>>, n: nat): seq<(string, string)>
    requires n <= |records| && forall i :: 0 <= i < n ==> |records[i]| == 2
  {
    if n == 0 then [] else Swapped(records, n - 1) + [(records[n - 1][1], records[n - 1][0])]
  }

  /** `Swapped` holds each record, in order, with its two fields exchanged. */
  lemma {:induction false} SwappedElements(records: seq<seq<string>>, n: nat)
    requires n <= |records| && forall i :: 0 <= i < n ==> |records[i]| == 2
    ensures |Swapped(records, n)| == n
    ensures forall i :: 0 <= i < n ==> Swapped(records, n)[i] == (records[i][1], records[i][0])
  {
    if n > 0 {
      SwappedElements(records, n - 1);
    }
  }

  /**
   * The checks of `_format_and_check_grnas_input` on one record, against the
   * dictionaries of the records before it: a wrong field count, then a sequence
   * seen before, then a name seen before. It reports the error raised, if any.
   */
  method CheckRecord(records: seq<seq<string>>, n: nat, namesBySeqs: map<string, string>,
                     seqsByNames: map<string, string>) returns (violation: Option<ExtractionError>)
    requires n < |records| && ConsistentPrefix(records, n) && Indexed(records, n, namesBySeqs, seqsByNames)
    ensures violation.None? <==> ConsistentPrefix(records, n + 1)
    ensures violation.None? ==> |records[n]| == 2
    ensures violation.Some? ==> violation.value == ViolationAt(records, n)
  {
    var expectedNumPieces := 2;
    var currSet := records[n];
    if |currSet| != expectedNumPieces {
      return Some(WrongFieldCount(currSet, |currSet|));
    }
    var currSeq := currSet[0];
    var currName := currSet[1];
    if currSeq in namesBySeqs {
      var j := SequenceIndexed(records, n, namesBySeqs, seqsByNames, currSeq);
      SequenceSeenBefore(records, n, j);
      return Some(SequenceConflict(currSeq, currName, namesBySeqs[currSeq]));
    }
    NewSequenceIndexed(records, n, namesBySeqs, seqsByNames, currSeq);
    if currName in seqsByNames {
      var j := NameIndexed(records, n, namesBySeqs, seqsByNames, currName);
      NameSeenBefore(records, n, j);
      return Some(NameConflict(currName, currSeq, seqsByNames[currName]));
    }
    ConsistentExtends(records, n);
    return None;
  }

  /**
   * `_format_and_check_grnas_input`: on success, the records in input order with each
   * `(sequence, name)` turned into `(name, sequence)`, which is exactly when all
   * records have two fields, all sequences differ and all names differ. Otherwise it
   * raises at the first record that breaks this (`FirstBreak`), with the error
   * `ViolationAt` names, and returns nothing. A record repeated verbatim is rejected like any other repeat.
   */
  method FormatAndCheckGrnasInput(records: seq<seq<string>>) returns (r: Result<seq<(string, string)>, ExtractionError>)
    ensures r.Success? <==> ConsistentPrefix(records, |records|)
    ensures r.Success? ==>
      && |r.value| == |records|
      && forall i :: 0 <= i < |records| ==> r.value[i] == (records[i][1], records[i][0])
    ensures r.Failure? ==> r.error == ViolationAt(records, FirstBreak(records, 0))
  {
    var seqsByNames: map<string, string> := map[];
    var namesBySeqs: map<string, string> := map[];
    var result: seq<(string, string)> := [];
    var n := 0;
    while n < |records|
      invariant 0 <= n <= |records|
      invariant ConsistentPrefix(records, n)
      invariant result == Swapped(records, n)
      invariant Indexed(records, n, namesBySeqs, seqsByNames)
    {
      var violation := CheckRecord(records, n, namesBySeqs, seqsByNames);
      if violation.Some? {
        FirstBreakAt(records, 0, n);
        return Failure(violation.value);
      }
      var currSeq, currName := records[n][0], records[n][1];
      IndexedExtends(records, n, namesBySeqs, seqsByNames);
      namesBySeqs := namesBySeqs[currSeq := currName];
      seqsByNames := seqsByNames[currName := currSeq];
      result := result + [(currName, currSeq)];
      n := n + 1;
    }
    assert ConsistentPrefix(records, |records|);
    SwappedElements(records, n);
    return Success(result);
  }

  /** The extraction's tuples as the two-field records the validator receives. */
  function AsRecords(pairs: seq<SeqNamePair>): (records: seq<seq<string>>)
    ensures |records| == |pairs|
    ensures forall i :: 0 <= i < |pairs| ==> records[i] == [pairs[i].0, pairs[i].1]
  {
    seq(|pairs|, i requires 0 <= i < |pairs| => [pairs[i].0, pairs[i].1])
  }

  /**
   * On a de-duplicated list the validator succeeds exactly when sharing a sequence
   * and sharing a name go together: each sequence has one name and each name one
   * sequence.
   */
  lemma {:induction false} DistinctPairsValidIffOneToOne(pairs: seq<SeqNamePair>)
    requires StrictlySorted(pairs)
    ensures ConsistentPrefix(AsRecords(pairs), |pairs|) <==>
      forall p, q :: p in pairs && q in pairs ==> (p.0 == q.0 <==> p.1 == q.1)
  {
    var records := AsRecords(pairs);
    if ConsistentPrefix(records, |pairs|) {
      forall p, q | p in pairs && q in pairs
        ensures p.0 == q.0 <==> p.1 == q.1
      {
        var i :| 0 <= i < |pairs| && pairs[i] == p;
        var j :| 0 <= j < |pairs| && pairs[j] == q;
        if i < j {
          assert records[i][0] != records[j][0] && records[i][1] != records[j][1];
        } else if j < i {
          assert records[j][0] != records[i][0] && records[j][1] != records[i][1];
        }
      }
    }
    if forall p, q :: p in pairs && q in pairs ==> (p.0 == q.0 <==> p.1 == q.1) {
      forall i, j | 0 <= i < j < |pairs|
        ensures records[i][0] != records[j][0] && records[i][1] != records[j][1]
      {
        PairLessAsymmetric(pairs[i], pairs[j]);
        assert pairs[i] in pairs && pairs[j] in pairs;
      }
    }
  }

  /**
   * Validating the extraction's output succeeds exactly when the upper-cased A and
   * B pairs of all rows relate sequences and names one-to-one; a pair that merely
   * repeats (in any letter case) is no conflict, because de-duplication comes first.
   */
  lemma ExtractionValidIffOneToOne(candidates: seq<SeqNamePair>)
    ensures var s := SortedDistinct(candidates);
      ConsistentPrefix(AsRecords(s), |s|) <==>
      forall p, q :: p in candidates && q in candidates ==> (p.0 == q.0 <==> p.1 == q.1)
  {
    var s := SortedDistinct(candidates);
    DistinctPairsValidIffOneToOne(s);
    assert forall p :: p in s <==> p in candidates by {
      forall p ensures p in s <==> p in candidates {
        assert p in s <==> p in Elements(s);
        assert p in candidates <==> p in Elements(candidates);
      }
    }
  }

  // ---------------------------------------------------------------------------
  // The whole extraction
  // ---------------------------------------------------------------------------

  /** The index of the first occurrence of `x` in `xs`. */
  function FirstIndex(xs: seq<string>, x: string): (k: nat)
    requires x in xs
    ensures k < |xs| && xs[k] == x && forall j :: 0 <= j < k ==> xs[j] != x
  {
    if xs[0] == x then 0 else 1 + FirstIndex(xs[1..], x)
  }

  /** Appending an element does not move the first occurrence of a value already present. */
  lemma FirstIndexInPrefix(xs: seq<string>, y: string)
    ensures forall x :: x in xs ==> FirstIndex(xs + [y], x) == FirstIndex(xs, x)
  {
    forall x | x in xs
      ensures FirstIndex(xs + [y], x) == FirstIndex(xs, x)
    {
      var k, k' := FirstIndex(xs, x), FirstIndex(xs + [y], x);
      assert (xs + [y])[k] == x;
    }
  }

  /**
   * `Series.unique()`: each value once, keeping the first occurrence of each.
   */
  function Unique(xs: seq<string>): (r: seq<string>)
    ensures forall x :: x in r <==> x in xs
    ensures forall i, j :: 0 <= i < j < |r| ==> r[i] != r[j]
  {
    if xs == [] then []
    else
      var prefix := xs[..|xs| - 1];
      var last := xs[|xs| - 1];
      var u := Unique(prefix);
      assert xs == prefix + [last];
      if last in u then u else u + [last]
  }

  /** `Series.unique()` lists the values in the order in which they first occur. */
  lemma {:induction false} UniqueKeepsFirstSeenOrder(xs: seq<string>)
    ensures forall i, j :: 0 <= i < j < |Unique(xs)| ==> FirstIndex(xs, Unique(xs)[i]) < FirstIndex(xs, Unique(xs)[j])
  {
    if xs != [] {
      var prefix, last := xs[..|xs| - 1], xs[|xs| - 1];
      var u := Unique(prefix);
      assert xs == prefix + [last];
      UniqueKeepsFirstSeenOrder(prefix);
      FirstIndexInPrefix(prefix, last);
      if last !in u {
        var r := Unique(xs);
        assert r == u + [last];
        assert FirstIndex(xs, last) == |xs| - 1;
        forall i, j | 0 <= i < j < |r| ensures FirstIndex(xs, r[i]) < FirstIndex(xs, r[j]) {
          assert r[i] == u[i] && u[i] in prefix;
          if j < |u| {
            assert r[j] == u[j];
          }
        }
      }
    }
  }

  /**
   * `extract_construct_and_grna_info`: reads the table (skipping one header row),
   * extracts the distinct guide pairs and validates them. On success it returns the
   * construct ids once each in first-seen order, and the guide pairs as
   * `(name, sequence)` in ascending `(sequence, name)` order, with upper-case
   * sequences, no name twice and no sequence twice. It fails exactly when the
   * column mapping, the extraction or the one-to-one check fails, and reports the
   * earliest of these failures.
   */
  method ExtractConstructAndGrnaInfo(lines: seq<seq<string>>, columnIndices: seq<int>)
    returns (r: Result<(seq<string>, seq<(string, string)>), ExtractionError>)
    requires forall i :: 1 <= i < |lines| ==> |lines[i]| == |lines[|lines| - 1]|
    ensures r.Success? <==>
      1 < |lines| && RenameOkUpTo(|lines[1]|, columnIndices, |columnIndices|)
      && var t := LoadedTable(lines, columnIndices, 1);
      && ExtractGrnasFromConstructTable(t).Success?
      && var extracted := ExtractGrnasFromConstructTable(t).value;
      ConsistentPrefix(AsRecords(extracted), |extracted|)
    ensures r.Success? ==>
      var t := LoadedTable(lines, columnIndices, 1);
      var extracted := ExtractGrnasFromConstructTable(t).value;
      var (names, pairs) := r.value;
      names == Unique(Column(t, ConstructIdName).value)
      && |pairs| == |extracted|
      && (forall i :: 0 <= i < |pairs| ==> pairs[i] == (extracted[i].1, extracted[i].0))
      && (forall i, j :: 0 <= i < j < |pairs| ==> pairs[i].0 != pairs[j].0 && pairs[i].1 != pairs[j].1)
    ensures |lines| <= 1 ==> r == Failure(EmptyData)
    ensures 1 < |lines| && !RenameOkUpTo(|lines[1]|, columnIndices, |columnIndices|) ==>
      r == Failure(RenameError(|lines[1]|, columnIndices, FirstRenameBreak(|lines[1]|, columnIndices, 0)))
    ensures 1 < |lines| && RenameOkUpTo(|lines[1]|, columnIndices, |columnIndices|) ==>
      var t := LoadedTable(lines, columnIndices, 1);
      ExtractGrnasFromConstructTable(t).Failure? ==> r == Failure(ExtractGrnasFromConstructTable(t).error)
    ensures 1 < |lines| && RenameOkUpTo(|lines[1]|, columnIndices, |columnIndices|) ==>
      var t := LoadedTable(lines, columnIndices, 1);
      ExtractGrnasFromConstructTable(t).Success? ==>
        var records := AsRecords(ExtractGrnasFromConstructTable(t).value);
        !ConsistentPrefix(records, |records|) ==> r == Failure(ViolationAt(records, FirstBreak(records, 0)))
  {
    var constructTable := ReadInConstructTable(lines, columnIndices, 1);
    if constructTable.Failure? {
      return Failure(constructTable.error);
    }
    var t := constructTable.value;
    var seqNameSets := ExtractGrnasFromConstructTable(t);
    if seqNameSets.Failure? {
      return Failure(seqNameSets.error);
    }
    var records := AsRecords(seqNameSets.value);
    var grnaNameSeqPairs := FormatAndCheckGrnasInput(records);
    if grnaNameSeqPairs.Failure? {
      return Failure(grnaNameSeqPairs.error);
    }
    var constructNames := Unique(Column(t, ConstructIdName).value);
    return Success((constructNames, grnaNameSeqPairs.value));
  }

  // ---------------------------------------------------------------------------
  // Trimming
  // ---------------------------------------------------------------------------

  /**
   * `trim_grnas`: the same pairs in the same order with the same names, each
   * sequence replaced by `trimSeq(sequence, retainLen, false)` (keep the 3' end).
   * `trimSeq` stands for `trim_seq`, which is not part of this model.
   */
  method TrimGrnas(grnas: seq<(string, string)>, retainLen: int, trimSeq: (string, int, bool) -> string)
    returns (result: seq<(string, string)>)
    ensures |result| == |grnas|
    ensures forall i :: 0 <= i < |grnas| ==>
      result[i].0 == grnas[i].0 && result[i].1 == trimSeq(grnas[i].1, retainLen, false)
  {
    result := [];
    var i := 0;
    while i < |grnas|
      invariant 0 <= i <= |grnas|
      invariant |result| == i
      invariant forall k :: 0 <= k < i ==>
        result[k].0 == grnas[k].0 && result[k].1 == trimSeq(grnas[k].1, retainLen, false)
    {
      var grnaName := grnas[i].0;
      var fullSeq := grnas[i].1;
      var trimmedSeq := trimSeq(fullSeq, retainLen, false);
      result := result + [(grnaName, trimmedSeq)];
      i := i + 1;
    }
  }

  // ---------------------------------------------------------------------------
  // The standalone guide list
  // ---------------------------------------------------------------------------

  /**
   * The records of a guide file: for every line not starting with the comment
   * prefix `#`, in file order, the line stripped of surrounding whitespace and split
   * at tabs. Comment lines contribute nothing and every other line contributes one
   * record.
   */
  function GrnaRecords(lines: seq<string>): (records: seq<seq<string>>)
    ensures |records| <= |lines|
    ensures forall l :: l in lines && !StartsWith(l, "#") ==> SplitOn(Strip(l), "\t") in records
    ensures (forall l :: l in lines ==> StartsWith(l, "#")) ==> records == []
  {
    if lines == [] then []
    else
      var prefix := lines[..|lines| - 1];
      var last := lines[|lines| - 1];
      assert lines == prefix + [last];
      GrnaRecords(prefix) + (if StartsWith(last, "#") then [] else [SplitOn(Strip(last), "\t")])
  }

  /** The number of lines that are not comments. */
  function NonCommentCount(lines: seq<string>): (n: nat)
    ensures n <= |lines|
  {
    if lines == [] then 0
    else NonCommentCount(lines[..|lines| - 1]) + (if StartsWith(lines[|lines| - 1], "#") then 0 else 1)
  }

  /**
   * One record per non-comment line, in file order: the line `i` of the file, when
   * it is no comment, gives the record after those of the non-comment lines before it.
   */
  lemma GrnaRecordsInOrder(lines: seq<string>)
    ensures |GrnaRecords(lines)| == NonCommentCount(lines)
    ensures forall i :: 0 <= i < |lines| && !StartsWith(lines[i], "#") ==>
      NonCommentCount(lines[..i]) < |GrnaRecords(lines)|
      && GrnaRecords(lines)[NonCommentCount(lines[..i])] == SplitOn(Strip(lines[i]), "\t")
  {
    GrnaRecordsCount(lines);
    forall i | 0 <= i < |lines| && !StartsWith(lines[i], "#")
      ensures NonCommentCount(lines[..i]) < |GrnaRecords(lines)|
      ensures GrnaRecords(lines)[NonCommentCount(lines[..i])] == SplitOn(Strip(lines[i]), "\t")
    {
      GrnaRecordAt(lines, i);
    }
  }

  /** There are as many records as non-comment lines. */
  lemma {:induction false} GrnaRecordsCount(lines: seq<string>)
    ensures |GrnaRecords(lines)| == NonCommentCount(lines)
  {
    if lines != [] {
      GrnaRecordsCount(lines[..|lines| - 1]);
    }
  }

  /** The record of the non-comment line `i` comes after those of the non-comment lines before it. */
  lemma {:induction false} GrnaRecordAt(lines: seq<string>, i: nat)
    requires i < |lines| && !StartsWith(lines[i], "#")
    ensures NonCommentCount(lines[..i]) < |GrnaRecords(lines)|
    ensures GrnaRecords(lines)[NonCommentCount(lines[..i])] == SplitOn(Strip(lines[i]), "\t")
  {
    var last := |lines| - 1;
    var prefix := lines[..last];
    var earlier := GrnaRecords(prefix);
    GrnaRecordsCount(prefix);
    if i < last {
      GrnaRecordAt(prefix, i);
      assert lines[..i] == prefix[..i] && lines[i] == prefix[i];
    } else {
      assert lines[..i] == prefix;
    }
  }

  /** Every record comes from a line of the file that is not a comment. */
  lemma {:induction false} GrnaRecordsFromLines(lines: seq<string>)
    ensures forall rec :: rec in GrnaRecords(lines) ==>
              exists l :: l in lines && !StartsWith(l, "#") && rec == SplitOn(Strip(l), "\t")
  {
    if lines != [] {
      var prefix := lines[..|lines| - 1];
      var last := lines[|lines| - 1];
      assert lines == prefix + [last];
      GrnaRecordsFromLines(prefix);
      forall rec | rec in GrnaRecords(lines)
        ensures exists l :: l in lines && !StartsWith(l, "#") && rec == SplitOn(Strip(l), "\t")
      {
        if rec in GrnaRecords(prefix) {
          var l :| l in prefix && !StartsWith(l, "#") && rec == SplitOn(Strip(l), "\t");
          assert l in lines;
        } else {
          assert last in lines;
        }
      }
    }
  }

  /** `_read_grnas_input` on the lines of the guide file. */
  method ReadGrnasInput(lines: seq<string>) returns (result: seq<seq<string>>)
    ensures result == GrnaRecords(lines)
  {
    result := [];
    var n := 0;
    while n < |lines|
      invariant 0 <= n <= |lines|
      invariant result == GrnaRecords(lines[..n])
    {
      var line := lines[n];
      assert lines[..n + 1][..n] == lines[..n];
      if !StartsWith(line, "#") {
        var pieces := SplitOn(Strip(line), "\t");
        result := result + [pieces];
      }
      n := n + 1;
    }
    assert lines[..n] == lines;
  }

  /**
   * `_read_in_grnas`: the guide file's records validated; on success the
   * `(name, sequence)` pairs in file order.
   */
  method ReadInGrnas(lines: seq<string>) returns (r: Result<seq<(string, string)>, ExtractionError>)
    ensures var records := GrnaRecords(lines);
      && (r.Success? <==> ConsistentPrefix(records, |records|))
      && (r.Success? ==>
            && |r.value| == |records|
            && forall i :: 0 <= i < |records| ==> r.value[i] == (records[i][1], records[i][0]))
      && (r.Failure? ==> r.error == ViolationAt(records, FirstBreak(records, 0)))
  {
    var listFromFile := ReadGrnasInput(lines);
    r := FormatAndCheckGrnasInput(listFromFile);
  }
}
