/**
 * Python's ordering of `str` values and the `sorted(set(x))` idiom that the
 * fingerprint key uses to put its tokens in order and drop repeats.
 */
module StringOrder {

  /** Python's `a < b` on strings: compare code point by code point; a proper
      prefix comes first. */
  predicate Less(a: string, b: string)
    decreases |a|
  {
    if a == [] then b != []
    else if b == [] then false
    else if a[0] != b[0] then a[0] < b[0]
    else Less(a[1..], b[1..])
  }

  lemma {:induction false} LessIrreflexive(a: string)
    ensures !Less(a, a)
    decreases |a|
  {
    if a != [] {
      LessIrreflexive(a[1..]);
    }
  }

  lemma {:induction false} LessTransitive(a: string, b: string, c: string)
    requires Less(a, b) && Less(b, c)
    ensures Less(a, c)
    decreases |a|
  {
    if a != [] && a[0] == b[0] && b[0] == c[0] {
      LessTransitive(a[1..], b[1..], c[1..]);
    }
  }

  /** Any two strings are equal or ordered one way round. */
  lemma {:induction false} LessTotal(a: string, b: string)
    ensures a == b || Less(a, b) || Less(b, a)
    decreases |a|
  {
    if a != [] && b != [] && a[0] == b[0] {
      LessTotal(a[1..], b[1..]);
      assert a == [a[0]] + a[1..] && b == [b[0]] + b[1..];
    }
  }

  /** Sorted ascending with no repeats, as `sorted(set(x))` leaves a list. */
  ghost predicate StrictlyAscending(s: seq<string>)
  {
    forall i, j :: 0 <= i < j < |s| ==> Less(s[i], s[j])
  }

  /** The two sequences hold the same strings (their sets are equal). */
  ghost predicate SameElements(xs: seq<string>, ys: seq<string>)
  {
    forall x :: x in xs <==> x in ys
  }

  /** Inserts `x` into its place in an ascending sequence, unless present. */
  function Insert(s: seq<string>, x: string): (r: seq<string>)
    requires StrictlyAscending(s)
    ensures StrictlyAscending(r)
    ensures forall y :: y in r <==> y in s || y == x
    decreases |s|
  {
    if s == [] then [x]
    else if x == s[0] then s
    else if Less(x, s[0]) then
      assert StrictlyAscending([x] + s) by {
        forall j | 0 <= j < |s| ensures Less(x, s[j]) {
          if j > 0 { LessTransitive(x, s[0], s[j]); }
        }
      }
      [x] + s
    else
      var rest := Insert(s[1..], x);
      assert Less(s[0], x) by { LessTotal(x, s[0]); }
      assert StrictlyAscending([s[0]] + rest) by {
        forall j | 0 <= j < |rest| ensures Less(s[0], rest[j]) {
          assert rest[j] in rest;
        }
      }
      [s[0]] + rest
  }

  /** `sorted(set(xs))`: the strings of `xs`, ascending, each once. */
  function SortedUnique(xs: seq<string>): (r: seq<string>)
    ensures StrictlyAscending(r)
    ensures SameElements(r, xs)
    decreases |xs|
  {
    if xs == [] then []
    else
      var r := Insert(SortedUnique(xs[1..]), xs[0]);
      assert forall y :: y in xs <==> y in xs[1..] || y == xs[0] by {
        assert xs == [xs[0]] + xs[1..];
      }
      r
  }

  lemma HeadIsElement(s: seq<string>)
    ensures s != [] ==> s[0] in s
  {
  }

  /** Two ascending repeat-free sequences with the same strings are equal:
      the set determines `sorted(set(x))` completely. */
  lemma {:induction false} AscendingUnique(a: seq<string>, b: seq<string>)
    requires StrictlyAscending(a) && StrictlyAscending(b)
    requires SameElements(a, b)
    ensures a == b
    decreases |a|
  {
    if a == [] {
      HeadIsElement(b);
    } else {
      assert b != [] by { assert a[0] in b; }
      if a[0] != b[0] {
        assert a[0] in b && b[0] in a;
        var i :| 0 <= i < |b| && b[i] == a[0];
        var j :| 0 <= j < |a| && a[j] == b[0];
        assert i > 0 && j > 0;
        LessTransitive(a[0], b[0], a[0]);
        LessIrreflexive(a[0]);
        assert false;
      }
      forall x ensures x in a[1..] <==> x in b[1..] {
        if x in a[1..] {
          var k :| 1 <= k < |a| && a[k] == x;
          LessIrreflexive(x);
          assert x != a[0];
          assert x in b;
        }
        if x in b[1..] {
          var k :| 1 <= k < |b| && b[k] == x;
          LessIrreflexive(x);
          assert x != b[0];
          assert x in a;
        }
      }
      AscendingUnique(a[1..], b[1..]);
      assert a == [a[0]] + a[1..] && b == [b[0]] + b[1..];
    }
  }

  /** `sorted(set(x))` depends only on the set of `x`. */
  lemma SortedUniqueBySet(xs: seq<string>, ys: seq<string>)
    requires SameElements(xs, ys)
    ensures SortedUnique(xs) == SortedUnique(ys)
  {
    AscendingUnique(SortedUnique(xs), SortedUnique(ys));
  }
}
