/**
 The default architecture suffixes of a snapshot test. FBSnapshotTestCaseIs64Bit
 reports whether the test runs as a 64-bit process, a fact of the build that
 the model takes as the boolean `is64Bit`; FBSnapshotTestCaseDefaultSuffixes
 returns an ordered set of strings, chosen by that flag, that are appended to
 the reference-image directory. The strings each architecture contributes
 are a parameter too: the model fixes only the shape
 of the result, an ordered set (insertion order kept, no string twice) built
 from the candidates for the running architecture.
 */
module SnapshotSuffixes {

  /** No element occurs twice. */
  predicate Distinct(s: seq<string>) {
    forall i, j :: 0 <= i < j < |s| ==> s[i] != s[j]
  }

  /** Adding an element to an ordered set: appended at the end unless already present. */
  function Add(s: seq<string>, x: string): seq<string> {
    if x in s then s else s + [x]
  }

  /**
   The ordered set obtained by adding the elements of `xs` one after another
   to an empty ordered set.
   */
  function OrderedSetOf(xs: seq<string>): (r: seq<string>)
    ensures Distinct(r)
    ensures forall x :: x in r <==> x in xs
  {
    if xs == [] then [] else Add(OrderedSetOf(xs[..|xs| - 1]), xs[|xs| - 1])
  }

  /** The position of the first occurrence of `x` in `xs`. */
  function FirstIndex(xs: seq<string>, x: string): (k: nat)
    requires x in xs
    ensures k < |xs| && xs[k] == x && x !in xs[..k]
  {
    if xs[0] == x then 0 else 1 + FirstIndex(xs[1..], x)
  }

  /** Appending at the end does not move the first occurrence of an element already there. */
  lemma FirstIndexAppend(xs: seq<string>, y: string, x: string)
    requires x in xs
    ensures FirstIndex(xs + [y], x) == FirstIndex(xs, x)
  {
    var k := FirstIndex(xs, x);
    assert (xs + [y])[k] == x && (xs + [y])[..k] == xs[..k];
  }

  /**
   The ordered set lists the distinct elements of `xs` in the order of their
   first occurrences.
   */
  lemma {:induction false} OrderedSetOfKeepsFirstOccurrenceOrder(xs: seq<string>)
    ensures forall i, j :: 0 <= i < j < |OrderedSetOf(xs)| ==>
              FirstIndex(xs, OrderedSetOf(xs)[i]) < FirstIndex(xs, OrderedSetOf(xs)[j])
  {
    if xs != [] {
      var init, last := xs[..|xs| - 1], xs[|xs| - 1];
      assert xs == init + [last];
      var prev := OrderedSetOf(init);
      OrderedSetOfKeepsFirstOccurrenceOrder(init);
      var r := OrderedSetOf(xs);
      assert r == prev || (r == prev + [last] && last !in init);
      forall i, j | 0 <= i < j < |r| ensures FirstIndex(xs, r[i]) < FirstIndex(xs, r[j]) {
        assert r[i] == prev[i] && r[i] in init;
        FirstIndexAppend(init, last, r[i]);
        if j < |prev| {
          assert r[j] == prev[j] && r[j] in init;
          FirstIndexAppend(init, last, r[j]);
          assert FirstIndex(init, prev[i]) < FirstIndex(init, prev[j]);
        } else {
          assert r[j] == last && last !in init;
          assert FirstIndex(xs, last) == |init| by {
            assert xs[|init|] == last && xs[..|init|] == init;
          }
        }
      }
    }
  }

  /** Building an ordered set from distinct elements keeps them as they are. */
  lemma {:induction false} OrderedSetOfDistinct(xs: seq<string>)
    requires Distinct(xs)
    ensures OrderedSetOf(xs) == xs
  {
    if xs != [] {
      var init := xs[..|xs| - 1];
      assert Distinct(init);
      OrderedSetOfDistinct(init);
      assert xs[|xs| - 1] !in init;
      assert xs == init + [xs[|xs| - 1]];
    }
  }

  /** The suffix strings each architecture contributes, most specific first. */
  datatype SuffixCandidates = SuffixCandidates(for64Bit: seq<string>, for32Bit: seq<string>)

  /**
   FBSnapshotTestCaseDefaultSuffixes: the ordered set of the candidates for
   the running architecture. No string occurs twice, and the strings are
   exactly the candidates of that architecture.
   */
  function DefaultSuffixes(is64Bit: bool, candidates: SuffixCandidates): (r: seq<string>)
    ensures Distinct(r)
    ensures is64Bit ==> forall s :: s in r <==> s in candidates.for64Bit
    ensures !is64Bit ==> forall s :: s in r <==> s in candidates.for32Bit
  {
    OrderedSetOf(if is64Bit then candidates.for64Bit else candidates.for32Bit)
  }

  /**
   The default suffixes keep the order in which the candidates list them,
   and when the candidates are distinct they are exactly the candidates.
   */
  lemma DefaultSuffixesKeepCandidateOrder(is64Bit: bool, candidates: SuffixCandidates)
    ensures var xs := if is64Bit then candidates.for64Bit else candidates.for32Bit;
            var r := DefaultSuffixes(is64Bit, candidates);
            (forall i, j :: 0 <= i < j < |r| ==> FirstIndex(xs, r[i]) < FirstIndex(xs, r[j]))
            && (Distinct(xs) ==> r == xs)
  {
    var xs := if is64Bit then candidates.for64Bit else candidates.for32Bit;
    OrderedSetOfKeepsFirstOccurrenceOrder(xs);
    if Distinct(xs) {
      OrderedSetOfDistinct(xs);
    }
  }
}
