/**
 The centroid computation of `recalculateAverageEmbedding`: the embeddings
 of a label's sample images are folded into a 768-long zero accumulator with
 `zip(acc, embedding).map(+)`, and every component of the sum is divided by
 the number of embeddings.

 Vision's `embeddingForImage` is the parameter `extract`: `None` stands for
 an extraction that threw, which `try?` turns into a dropped image. The JSON
 write of `avg.faceprint` is left out; what is modelled is the vector
 computed before the write. When that vector holds NaN (no embeddings at
 all), `JSONSerialization` refuses it and the write never happens.
 */
module Averaging {
  import opened Wrappers
  import opened Collections
  import opened VectorMath
  import opened Paths

  /** The length of the zero accumulator the fold starts from. */
  const AccumulatorLength: nat := 768

  function Zeros(n: nat): seq<real> {
    seq(n, _ => 0.0)
  }

  /** `embeddings.reduce(acc) { acc, embedding in zip(acc, embedding).map(+) }`.
      Because `zip` stops at the shorter operand, the result is as long as
      the shortest of `acc` and the embeddings. */
  function SumEmbeddings(acc: seq<real>, embeddings: seq<seq<real>>): (r: seq<real>)
    ensures |r| <= |acc|
    ensures forall k :: 0 <= k < |embeddings| ==> |r| <= |embeddings[k]|
    ensures |r| == |acc| || exists k :: 0 <= k < |embeddings| && |r| == |embeddings[k]|
    decreases |embeddings|
  {
    if embeddings == [] then acc
    else SumEmbeddings(ZipAdd(acc, embeddings[0]), embeddings[1..])
  }

  /** The sum of component `i` over all embeddings, in the mathematical sense. */
  function ComponentSum(embeddings: seq<seq<real>>, i: nat): real
    requires forall k :: 0 <= k < |embeddings| ==> i < |embeddings[k]|
    decreases |embeddings|
  {
    if embeddings == [] then 0.0 else embeddings[0][i] + ComponentSum(embeddings[1..], i)
  }

  /** Each component of the fold is the accumulator's component plus the sum
      of that component over all embeddings. */
  lemma {:induction false} SumEmbeddingsComponents(acc: seq<real>, embeddings: seq<seq<real>>)
    ensures var r := SumEmbeddings(acc, embeddings);
      forall i :: 0 <= i < |r| ==> r[i] == acc[i] + ComponentSum(embeddings, i)
    decreases |embeddings|
  {
    if embeddings != [] {
      var next := ZipAdd(acc, embeddings[0]);
      SumEmbeddingsComponents(next, embeddings[1..]);
      var r := SumEmbeddings(acc, embeddings);
      forall i | 0 <= i < |r| ensures r[i] == acc[i] + ComponentSum(embeddings, i) {
        assert r[i] == next[i] + ComponentSum(embeddings[1..], i);
      }
    }
  }

  /** The average embedding: the zero-started fold, with every component
      divided by the number of embeddings. Its length is the minimum of 768
      and every embedding's length; component `i` is the sum of component
      `i` over the embeddings divided by their number, which with no
      embeddings at all is a division of 0 by 0. */
  function AverageEmbedding(embeddings: seq<seq<real>>): (r: seq<Score>)
    ensures |r| <= AccumulatorLength
    ensures forall k :: 0 <= k < |embeddings| ==> |r| <= |embeddings[k]|
    ensures |r| == AccumulatorLength || exists k :: 0 <= k < |embeddings| && |r| == |embeddings[k]|
    ensures forall i :: 0 <= i < |r| ==> r[i] == Div(ComponentSum(embeddings, i), |embeddings| as real)
  {
    var total := SumEmbeddings(Zeros(AccumulatorLength), embeddings);
    SumEmbeddingsComponents(Zeros(AccumulatorLength), embeddings);
    seq(|total|, i requires 0 <= i < |total| => Div(total[i], |embeddings| as real))
  }

  /** With no embeddings the fold returns the 768 zeros unchanged, and each
      is divided by zero: the result is 768 NaN components. */
  lemma AverageOfNoEmbeddings()
    ensures |AverageEmbedding([])| == AccumulatorLength
    ensures forall i :: 0 <= i < AccumulatorLength ==> AverageEmbedding([])[i] == NaN
  {
  }

  /** With at least one embedding every component is the finite mean of
      that component. */
  lemma AverageIsMean(embeddings: seq<seq<real>>)
    requires embeddings != []
    ensures var r := AverageEmbedding(embeddings);
      forall i :: 0 <= i < |r| ==> r[i] == Finite(ComponentSum(embeddings, i) / (|embeddings| as real))
  {
  }

  /** The embeddings that `recalculateAverageEmbedding` averages: those of
      the sample images whose extraction succeeded, in listing order. */
  function ExtractedEmbeddings(contents: seq<Url>, extract: Url -> Option<seq<real>>): seq<seq<real>> {
    CompactMap(ImagesForLabel(contents), extract)
  }

  /** `recalculateAverageEmbedding`, from the label directory's listing to
      the vector computed before the write to `avg.faceprint`. */
  function RecalculateAverageEmbedding(contents: seq<Url>, extract: Url -> Option<seq<real>>): seq<Score> {
    AverageEmbedding(ExtractedEmbeddings(contents, extract))
  }

  /** When every sample image yields an embedding, the divisor is the number
      of sample images, and the embeddings are theirs in listing order. */
  lemma DivisorCountsSampleImages(contents: seq<Url>, extract: Url -> Option<seq<real>>)
    requires var images := ImagesForLabel(contents);
      forall j :: 0 <= j < |images| ==> extract(images[j]).Some?
    ensures var images := ImagesForLabel(contents);
      var embeddings := ExtractedEmbeddings(contents, extract);
      |embeddings| == |images| &&
      forall j :: 0 <= j < |images| ==> embeddings[j] == extract(images[j]).value
  {
    CompactMapAllPresent(ImagesForLabel(contents), extract);
  }

  /** A divisor below the number of sample images means some extraction
      failed: only successful extractions are counted. */
  lemma DivisorCountsOnlyExtracted(contents: seq<Url>, extract: Url -> Option<seq<real>>)
    ensures |ExtractedEmbeddings(contents, extract)| <= |ImagesForLabel(contents)|
    ensures var images := ImagesForLabel(contents);
      |ExtractedEmbeddings(contents, extract)| < |images| <==>
      exists j :: 0 <= j < |images| && extract(images[j]).None?
  {
    CompactMapLength(ImagesForLabel(contents), extract);
  }

  /** An image whose extraction throws contributes nothing, not even to the
      divisor, wherever it stands in the listing. */
  lemma FailedExtractionIsIgnored(a: seq<Url>, u: Url, b: seq<Url>, extract: Url -> Option<seq<real>>)
    requires extract(u).None?
    ensures RecalculateAverageEmbedding(a + [u] + b, extract) == RecalculateAverageEmbedding(a + b, extract)
  {
    FailedExtractionIsSkipped(a, u, b, extract);
  }

  lemma FailedExtractionIsSkipped(a: seq<Url>, u: Url, b: seq<Url>, extract: Url -> Option<seq<real>>)
    requires extract(u).None?
    ensures ExtractedEmbeddings(a + [u] + b, extract) == ExtractedEmbeddings(a + b, extract)
  {
    FilterCompactMapSkips(a, u, b, IsImage, extract);
  }

  /** An entry that is not a sample image contributes nothing, wherever it
      stands in the listing. */
  lemma NonImageIsIgnored(a: seq<Url>, u: Url, b: seq<Url>, extract: Url -> Option<seq<real>>)
    requires !IsImage(u)
    ensures RecalculateAverageEmbedding(a + [u] + b, extract) == RecalculateAverageEmbedding(a + b, extract)
  {
    FilterSkips(a, u, b, IsImage);
  }

  /** `avg.faceprint`, written into the very directory that is averaged,
      never feeds back into the average. */
  lemma AvgFaceprintIsIgnored(dir: string, a: seq<Url>, b: seq<Url>, extract: Url -> Option<seq<real>>)
    ensures var avg := Child(dir, "avg.faceprint", false);
      RecalculateAverageEmbedding(a + [avg] + b, extract) == RecalculateAverageEmbedding(a + b, extract)
  {
    AvgFaceprintIsNotImage(dir);
    NonImageIsIgnored(a, Child(dir, "avg.faceprint", false), b, extract);
  }

  /** The `<id>.faceprint` file that `add` writes into a label directory
      never enters that label's average either. */
  lemma AddedFaceprintIsIgnored(dir: string, id: string, a: seq<Url>, b: seq<Url>, extract: Url -> Option<seq<real>>)
    requires id != "" && '/' !in id
    ensures var added := Child(dir, id + ".faceprint", false);
      RecalculateAverageEmbedding(a + [added] + b, extract) == RecalculateAverageEmbedding(a + b, extract)
  {
    AddedFaceprintIsNotImage(dir, id);
    NonImageIsIgnored(a, Child(dir, id + ".faceprint", false), b, extract);
  }

  /** The embeddings of a listing are those of its two halves, in order. */
  lemma ExtractedEmbeddingsAppend(a: seq<Url>, b: seq<Url>, extract: Url -> Option<seq<real>>)
    ensures ExtractedEmbeddings(a + b, extract) == ExtractedEmbeddings(a, extract) + ExtractedEmbeddings(b, extract)
  {
    FilterCompactMapAppend(a, b, IsImage, extract);
  }

  /** A sample image whose embedding is extracted contributes that embedding
      at its own place in the listing, wherever it stands. */
  lemma NewSampleIsExtracted(a: seq<Url>, u: Url, b: seq<Url>, e: seq<real>, extract: Url -> Option<seq<real>>)
    requires IsImage(u) && extract(u) == Some(e)
    ensures ExtractedEmbeddings(a + [u] + b, extract) ==
      ExtractedEmbeddings(a, extract) + [e] + ExtractedEmbeddings(b, extract)
  {
    FilterCompactMapInsertOne(a, u, b, IsImage, extract, e);
  }

  /** A sample image whose embedding is extracted, wherever it stands in the
      listing, enters the average as one more embedding among those of the
      other entries, which keep their order (`AverageWithOneMore` says what
      that does to each component). Read backwards, this is what removing
      that image does; the listing read afterwards may come in another
      order, which `ListingOrderIsIrrelevant` shows does not matter. */
  lemma NewSampleEntersAverage(a: seq<Url>, u: Url, b: seq<Url>, e: seq<real>, extract: Url -> Option<seq<real>>)
    requires IsImage(u) && extract(u) == Some(e)
    ensures RecalculateAverageEmbedding(a + [u] + b, extract) ==
      AverageEmbedding(ExtractedEmbeddings(a, extract) + [e] + ExtractedEmbeddings(b, extract))
    ensures ExtractedEmbeddings(a + b, extract) == ExtractedEmbeddings(a, extract) + ExtractedEmbeddings(b, extract)
  {
    NewSampleIsExtracted(a, u, b, e, extract);
    ExtractedEmbeddingsAppend(a, b, extract);
  }

  /** Component sums over `a + [e] + b` are those over `a + b` plus `e`'s. */
  lemma {:induction false} ComponentSumInsert(a: seq<seq<real>>, e: seq<real>, b: seq<seq<real>>, i: nat)
    requires forall k :: 0 <= k < |a| ==> i < |a[k]|
    requires forall k :: 0 <= k < |b| ==> i < |b[k]|
    requires i < |e|
    ensures ComponentSum(a + [e] + b, i) == ComponentSum(a + b, i) + e[i]
    decreases |a|
  {
    if a == [] {
      assert a + [e] + b == [e] + b;
      assert a + b == b;
      assert ([e] + b)[1..] == b;
    } else {
      assert (a + [e] + b)[1..] == a[1..] + [e] + b;
      assert (a + b)[1..] == a[1..] + b;
      ComponentSumInsert(a[1..], e, b, i);
    }
  }

  /** Every component index of the average with `e` inserted is in range
      for each of the other embeddings. */
  lemma OthersHaveComponent(a: seq<seq<real>>, e: seq<real>, b: seq<seq<real>>, i: nat)
    requires forall k :: 0 <= k < |a + [e] + b| ==> i < |(a + [e] + b)[k]|
    ensures forall k :: 0 <= k < |a| ==> i < |a[k]|
    ensures forall k :: 0 <= k < |b| ==> i < |b[k]|
    ensures forall k :: 0 <= k < |a + b| ==> i < |(a + b)[k]|
    ensures i < |e|
  {
    var all := a + [e] + b;
    assert all[|a|] == e;
    forall k | 0 <= k < |a| ensures i < |a[k]| {
      assert all[k] == a[k];
    }
    forall k | 0 <= k < |b| ensures i < |b[k]| {
      assert all[|a| + 1 + k] == b[k];
    }
    forall k | 0 <= k < |a + b| ensures i < |(a + b)[k]| {
      if k < |a| {
        assert (a + b)[k] == a[k];
      } else {
        assert (a + b)[k] == b[k - |a|];
      }
    }
  }

  /** Averaging one more embedding `e`, placed anywhere among the others:
      the component sums grow by `e`'s components and the divisor by one. */
  lemma AverageWithOneMore(a: seq<seq<real>>, e: seq<real>, b: seq<seq<real>>)
    ensures var others := a + b;
      var r := AverageEmbedding(a + [e] + b);
      |r| <= |e| &&
      forall i :: 0 <= i < |r| ==>
        && (forall k :: 0 <= k < |others| ==> i < |others[k]|)
        && r[i] == Div(ComponentSum(others, i) + e[i], (|others| + 1) as real)
  {
    var others, all := a + b, a + [e] + b;
    var r := AverageEmbedding(all);
    assert all[|a|] == e;
    assert |r| <= |e|;
    forall i | 0 <= i < |r|
      ensures forall k :: 0 <= k < |others| ==> i < |others[k]|
      ensures r[i] == Div(ComponentSum(others, i) + e[i], (|others| + 1) as real)
    {
      assert forall k :: 0 <= k < |all| ==> i < |all[k]|;
      OthersHaveComponent(a, e, b, i);
      assert r[i] == Div(ComponentSum(all, i), |all| as real);
      ComponentSumInsert(a, e, b, i);
      assert |all| == |others| + 1;
    }
  }

  /** A component sum does not depend on the order of the embeddings. */
  lemma {:induction false} ComponentSumPermutation(s: seq<seq<real>>, t: seq<seq<real>>, i: nat)
    requires multiset(s) == multiset(t)
    requires forall k :: 0 <= k < |s| ==> i < |s[k]|
    ensures forall k :: 0 <= k < |t| ==> i < |t[k]|
    ensures ComponentSum(s, i) == ComponentSum(t, i)
    decreases |s|
  {
    forall k | 0 <= k < |t| ensures i < |t[k]| {
      assert t[k] in multiset(s);
    }
    if s == [] {
      assert |t| == |multiset(t)| == 0;
    } else {
      var x := s[0];
      assert x in multiset(t);
      var j :| 0 <= j < |t| && t[j] == x;
      var before, after := t[..j], t[j + 1..];
      MultisetRemoveOne(s, t, j);
      assert forall k :: 0 <= k < |s[1..]| ==> i < |s[1..][k]| by {
        forall k | 0 <= k < |s[1..]| ensures i < |s[1..][k]| {
          assert s[1..][k] == s[k + 1];
        }
      }
      ComponentSumPermutation(s[1..], before + after, i);
      OthersHaveComponent(before, x, after, i);
      ComponentSumInsert(before, x, after, i);
    }
  }

  /** The average does not depend on the order of the embeddings. */
  lemma AveragePermutation(s: seq<seq<real>>, t: seq<seq<real>>)
    requires multiset(s) == multiset(t)
    ensures AverageEmbedding(s) == AverageEmbedding(t)
  {
    var r1, r2 := AverageEmbedding(s), AverageEmbedding(t);
    assert |s| == |multiset(s)| == |t|;
    forall k | 0 <= k < |t| ensures |r1| <= |t[k]| {
      assert t[k] in multiset(s);
    }
    forall k | 0 <= k < |s| ensures |r2| <= |s[k]| {
      assert s[k] in multiset(t);
    }
    assert |r1| == |r2|;
    forall i | 0 <= i < |r1| ensures r1[i] == r2[i] {
      ComponentSumPermutation(s, t, i);
    }
  }

  /** `contentsOfDirectory` lists a directory in no defined order; the
      average is the same for every order of the same entries. */
  lemma ListingOrderIsIrrelevant(l1: seq<Url>, l2: seq<Url>, extract: Url -> Option<seq<real>>)
    requires multiset(l1) == multiset(l2)
    ensures RecalculateAverageEmbedding(l1, extract) == RecalculateAverageEmbedding(l2, extract)
  {
    FilterCompactMapPermutation(l1, l2, IsImage, extract);
    AveragePermutation(ExtractedEmbeddings(l1, extract), ExtractedEmbeddings(l2, extract));
  }
}
