/**
 * Python's ordering of strings and of `(sequence, name)` tuples, and the
 * "distinct, then sorted" list that the guide extraction returns
 * (`sorted(groupby(...).groups)`), built by inserting into a strictly sorted list.
 */
module GuideOrder {

  /** A `(sequence, name)` tuple as the extraction produces it. */
  type SeqNamePair = (string, string)

  /** Python's `a < b` on strings: code-point by code-point, a proper prefix first. */
  predicate StrLess(a: string, b: string)
    decreases |a|
  {
    if |b| == 0 then false
    else if |a| == 0 then true
    else if a[0] != b[0] then a[0] < b[0]
    else StrLess(a[1..], b[1..])
  }

  lemma {:induction false} StrLessIrreflexive(a: string)
    ensures !StrLess(a, a)
    decreases |a|
  {
    if |a| > 0 {
      StrLessIrreflexive(a[1..]);
    }
  }

  lemma {:induction false} StrLessTransitive(a: string, b: string, c: string)
    requires StrLess(a, b) && StrLess(b, c)
    ensures StrLess(a, c)
    decreases |a|
  {
    if |a| > 0 && a[0] == b[0] && b[0] == c[0] {
      StrLessTransitive(a[1..], b[1..], c[1..]);
    }
  }

  lemma {:induction false} StrLessTotal(a: string, b: string)
    requires a != b
    ensures StrLess(a, b) || StrLess(b, a)
    decreases |a|
  {
    if |a| > 0 && |b| > 0 && a[0] == b[0] {
      assert a == [a[0]] + a[1..] && b == [b[0]] + b[1..];
      StrLessTotal(a[1..], b[1..]);
    }
  }

  /** Python's `p < q` on two-element tuples: by the first component, then by the second. */
  predicate PairLess(p: SeqNamePair, q: SeqNamePair)
  {
    StrLess(p.0, q.0) || (p.0 == q.0 && StrLess(p.1, q.1))
  }

  lemma PairLessIrreflexive(p: SeqNamePair)
    ensures !PairLess(p, p)
  {
    StrLessIrreflexive(p.0);
    StrLessIrreflexive(p.1);
  }

  lemma PairLessTransitive(p: SeqNamePair, q: SeqNamePair, r: SeqNamePair)
    requires PairLess(p, q) && PairLess(q, r)
    ensures PairLess(p, r)
  {
    if StrLess(p.0, q.0) && StrLess(q.0, r.0) {
      StrLessTransitive(p.0, q.0, r.0);
    } else if p.0 == q.0 && q.0 == r.0 {
      StrLessTransitive(p.1, q.1, r.1);
    }
  }

  lemma PairLessTotal(p: SeqNamePair, q: SeqNamePair)
    requires p != q
    ensures PairLess(p, q) || PairLess(q, p)
  {
    if p.0 != q.0 {
      StrLessTotal(p.0, q.0);
    } else {
      StrLessTotal(p.1, q.1);
    }
  }

  lemma PairLessAsymmetric(p: SeqNamePair, q: SeqNamePair)
    requires PairLess(p, q)
    ensures !PairLess(q, p) && p != q
  {
    PairLessIrreflexive(p);
    if PairLess(q, p) {
      PairLessTransitive(p, q, p);
    }
  }

  /** Every element is smaller than every later one: sorted and free of duplicates. */
  predicate StrictlySorted(s: seq<SeqNamePair>)
  {
    forall i, j :: 0 <= i < j < |s| ==> PairLess(s[i], s[j])
  }

  /** The set of elements of a list. */
  function Elements(s: seq<SeqNamePair>): set<SeqNamePair>
  {
    set p | p in s
  }

  lemma NonEmptyHasElements(s: seq<SeqNamePair>)
    ensures s != [] ==> Elements(s) != {}
  {
    if s != [] {
      assert s[0] in Elements(s);
    }
  }

  /** Adds `x` at its place in a strictly sorted list, unless it is there already. */
  function Insert(x: SeqNamePair, s: seq<SeqNamePair>): (r: seq<SeqNamePair>)
    requires StrictlySorted(s)
    ensures StrictlySorted(r)
    ensures Elements(r) == Elements(s) + {x}
  {
    if s == [] then [x]
    else if x == s[0] then s
    else if PairLess(x, s[0]) then
      assert forall j :: 0 < j < |s| ==> PairLess(x, s[j]) by {
        forall j | 0 < j < |s| ensures PairLess(x, s[j]) {
          PairLessTransitive(x, s[0], s[j]);
        }
      }
      [x] + s
    else
      PairLessTotal(x, s[0]);
      var tail := Insert(x, s[1..]);
      assert Elements(s) == {s[0]} + Elements(s[1..]);
      assert forall y :: y in tail ==> PairLess(s[0], y) by {
        forall y | y in tail ensures PairLess(s[0], y) {
          assert y in Elements(tail);
        }
      }
      assert Elements([s[0]] + tail) == {s[0]} + Elements(tail);
      [s[0]] + tail
  }

  /**
   * The distinct elements of `xs` in ascending order: what
   * `sorted(gene_pairs.groupby([seq, name]).groups)` returns.
   */
  function SortedDistinct(xs: seq<SeqNamePair>): (r: seq<SeqNamePair>)
    ensures StrictlySorted(r)
    ensures Elements(r) == Elements(xs)
  {
    if xs == [] then []
    else
      var prefix := xs[..|xs| - 1];
      assert xs == prefix + [xs[|xs| - 1]];
      assert Elements(xs) == Elements(prefix) + {xs[|xs| - 1]};
      Insert(xs[|xs| - 1], SortedDistinct(prefix))
  }

  /**
   * A set has only one strictly sorted listing: two strictly sorted lists with the
   * same elements are equal.
   */
  lemma {:induction false} StrictlySortedUnique(a: seq<SeqNamePair>, b: seq<SeqNamePair>)
    requires StrictlySorted(a) && StrictlySorted(b)
    requires Elements(a) == Elements(b)
    ensures a == b
    decreases |a|
  {
    if a == [] {
      NonEmptyHasElements(b);
    } else {
      assert a[0] in Elements(b);
      assert b != [];
      assert b[0] in Elements(a);
      if a[0] != b[0] {
        var i :| 0 <= i < |a| && a[i] == b[0];
        var j :| 0 <= j < |b| && b[j] == a[0];
        assert i > 0 && j > 0;
        PairLessAsymmetric(a[0], b[0]);
        assert false;
      }
      assert a == [a[0]] + a[1..] && b == [b[0]] + b[1..];
      forall y | y in Elements(a[1..]) ensures y in Elements(b[1..]) {
        var i :| 1 <= i < |a| && a[i] == y;
        PairLessAsymmetric(a[0], a[i]);
        assert y in Elements(b);
        var k :| 0 <= k < |b| && b[k] == y;
        assert k != 0 && b[1..][k - 1] == y;
      }
      forall y | y in Elements(b[1..]) ensures y in Elements(a[1..]) {
        var i :| 1 <= i < |b| && b[i] == y;
        PairLessAsymmetric(b[0], b[i]);
        assert y in Elements(a);
        var k :| 0 <= k < |a| && a[k] == y;
        assert k != 0 && a[1..][k - 1] == y;
      }
      StrictlySortedUnique(a[1..], b[1..]);
    }
  }

  /**
   * The extraction's output order depends only on which pairs occur, not on the
   * order of the table's rows nor on how often a pair repeats: the reproducible
   * ordering that downstream counting relies on.
   */
  lemma SortedDistinctDeterministic(xs: seq<SeqNamePair>, ys: seq<SeqNamePair>)
    requires Elements(xs) == Elements(ys)
    ensures SortedDistinct(xs) == SortedDistinct(ys)
  {
    StrictlySortedUnique(SortedDistinct(xs), SortedDistinct(ys));
  }

  /** Sorting an already distinct-and-sorted list changes nothing: extraction is idempotent. */
  lemma SortedDistinctIdempotent(xs: seq<SeqNamePair>)
    ensures SortedDistinct(SortedDistinct(xs)) == SortedDistinct(xs)
  {
    var s := SortedDistinct(xs);
    StrictlySortedUnique(SortedDistinct(s), s);
  }
}
