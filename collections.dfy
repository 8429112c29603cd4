/** Swift's `filter` and `compactMap` over arrays, as functions on sequences. */
module Collections {
  import opened Wrappers

  /** `s.filter(keep)`: the elements that satisfy `keep`, in order. */
  function Filter<T>(s: seq<T>, keep: T -> bool): seq<T> {
    if s == [] then [] else (if keep(s[0]) then [s[0]] else []) + Filter(s[1..], keep)
  }

  /** `s.compactMap(f)`: the values of `f` that are present, in order. */
  function CompactMap<T, U>(s: seq<T>, f: T -> Option<U>): seq<U> {
    if s == [] then [] else (if f(s[0]).Some? then [f(s[0]).value] else []) + CompactMap(s[1..], f)
  }

  /** `filter` keeps exactly the elements that satisfy the predicate. */
  lemma {:induction false} FilterKeeps<T>(s: seq<T>, keep: T -> bool)
    ensures forall x :: x in Filter(s, keep) <==> x in s && keep(x)
    ensures |Filter(s, keep)| <= |s|
    decreases |s|
  {
    if s != [] {
      FilterKeeps(s[1..], keep);
      assert s == [s[0]] + s[1..];
    }
  }

  /** `filter` works element by element, so it keeps the order of `s`. */
  lemma {:induction false} FilterAppend<T>(a: seq<T>, b: seq<T>, keep: T -> bool)
    ensures Filter(a + b, keep) == Filter(a, keep) + Filter(b, keep)
    decreases |a|
  {
    if a == [] {
      assert a + b == b;
    } else {
      var head := if keep(a[0]) then [a[0]] else [];
      assert (a + b)[0] == a[0];
      assert (a + b)[1..] == a[1..] + b;
      assert Filter(a + b, keep) == head + Filter(a[1..] + b, keep);
      assert Filter(a, keep) == head + Filter(a[1..], keep);
      FilterAppend(a[1..], b, keep);
      assert head + (Filter(a[1..], keep) + Filter(b, keep))
          == (head + Filter(a[1..], keep)) + Filter(b, keep);
    }
  }

  /** A sequence whose every element satisfies the predicate passes whole. */
  lemma {:induction false} FilterAll<T>(s: seq<T>, keep: T -> bool)
    requires forall i :: 0 <= i < |s| ==> keep(s[i])
    ensures Filter(s, keep) == s
    decreases |s|
  {
    if s != [] {
      assert forall i :: 0 <= i < |s[1..]| ==> keep(s[1..][i]) by {
        forall i | 0 <= i < |s[1..]| ensures keep(s[1..][i]) {
          assert s[1..][i] == s[i + 1];
        }
      }
      FilterAll(s[1..], keep);
      assert s == [s[0]] + s[1..];
    }
  }

  /** A single element passes exactly when it satisfies the predicate. */
  lemma FilterSingleton<T>(x: T, keep: T -> bool)
    ensures Filter([x], keep) == if keep(x) then [x] else []
  {
    assert [x][1..] == [];
  }

  /** An element that fails the predicate leaves the result unchanged,
      wherever it stands. */
  lemma FilterSkips<T>(a: seq<T>, x: T, b: seq<T>, keep: T -> bool)
    requires !keep(x)
    ensures Filter(a + [x] + b, keep) == Filter(a + b, keep)
  {
    FilterAppend(a + [x], b, keep);
    FilterAppend(a, [x], keep);
    FilterAppend(a, b, keep);
    assert Filter([x], keep) == [] by {
      assert [x][1..] == [];
    }
  }

  /** `compactMap` works element by element, so it keeps the order of `s`. */
  lemma {:induction false} CompactMapAppend<T, U>(a: seq<T>, b: seq<T>, f: T -> Option<U>)
    ensures CompactMap(a + b, f) == CompactMap(a, f) + CompactMap(b, f)
    decreases |a|
  {
    if a == [] {
      assert a + b == b;
    } else {
      var head := if f(a[0]).Some? then [f(a[0]).value] else [];
      assert (a + b)[0] == a[0];
      assert (a + b)[1..] == a[1..] + b;
      assert CompactMap(a + b, f) == head + CompactMap(a[1..] + b, f);
      assert CompactMap(a, f) == head + CompactMap(a[1..], f);
      CompactMapAppend(a[1..], b, f);
      assert head + (CompactMap(a[1..], f) + CompactMap(b, f))
          == (head + CompactMap(a[1..], f)) + CompactMap(b, f);
    }
  }

  /** A single element yields its value when `f` gives one, and nothing otherwise. */
  lemma CompactMapSingleton<T, U>(x: T, f: T -> Option<U>)
    ensures CompactMap([x], f) == if f(x).Some? then [f(x).value] else []
  {
    assert [x][1..] == [];
  }

  /** An element for which `f` gives nothing leaves the result unchanged,
      wherever it stands. */
  lemma CompactMapSkips<T, U>(a: seq<T>, x: T, b: seq<T>, f: T -> Option<U>)
    requires f(x).None?
    ensures CompactMap(a + [x] + b, f) == CompactMap(a + b, f)
  {
    CompactMapAppend(a + [x], b, f);
    CompactMapAppend(a, [x], f);
    CompactMapAppend(a, b, f);
    assert CompactMap([x], f) == [] by {
      assert [x][1..] == [];
    }
  }

  /** When `f` gives a value for every element, `compactMap` is a plain
      `map`: one value per element, at the same position. */
  lemma {:induction false} CompactMapAllPresent<T, U>(s: seq<T>, f: T -> Option<U>)
    requires forall i :: 0 <= i < |s| ==> f(s[i]).Some?
    ensures |CompactMap(s, f)| == |s|
    ensures forall i :: 0 <= i < |s| ==> CompactMap(s, f)[i] == f(s[i]).value
    decreases |s|
  {
    if s != [] {
      CompactMapAllPresent(s[1..], f);
      forall i | 0 <= i < |s| ensures CompactMap(s, f)[i] == f(s[i]).value {
        if i > 0 {
          assert s[1..][i - 1] == s[i];
        }
      }
    }
  }

  /** `compactMap` never yields more values than there are elements. */
  lemma {:induction false} CompactMapLength<T, U>(s: seq<T>, f: T -> Option<U>)
    ensures |CompactMap(s, f)| <= |s|
    ensures |CompactMap(s, f)| == |s| <==> forall i :: 0 <= i < |s| ==> f(s[i]).Some?
    decreases |s|
  {
    if s != [] {
      CompactMapLength(s[1..], f);
      if |CompactMap(s, f)| == |s| {
        forall i | 0 <= i < |s| ensures f(s[i]).Some? {
          if i > 0 {
            assert s[1..][i - 1] == s[i];
          }
        }
      }
    }
  }

  /** `filter` then `compactMap`: an element for which `f` gives nothing
      leaves the result unchanged, whether or not it passes the filter. */
  lemma FilterCompactMapSkips<T, U>(a: seq<T>, x: T, b: seq<T>, keep: T -> bool, f: T -> Option<U>)
    requires f(x).None?
    ensures CompactMap(Filter(a + [x] + b, keep), f) == CompactMap(Filter(a + b, keep), f)
  {
    var fa, fb := Filter(a, keep), Filter(b, keep);
    FilterAppend(a + [x], b, keep);
    FilterAppend(a, [x], keep);
    FilterAppend(a, b, keep);
    FilterSingleton(x, keep);
    if keep(x) {
      assert Filter(a + [x] + b, keep) == fa + [x] + fb;
      CompactMapSkips(fa, x, fb, f);
    } else {
      assert Filter(a + [x] + b, keep) == fa + fb;
    }
  }

  /** `filter` then `compactMap` over a concatenation: the two halves are
      processed independently and their results concatenated. */
  lemma FilterCompactMapAppend<T, U>(a: seq<T>, b: seq<T>, keep: T -> bool, f: T -> Option<U>)
    ensures CompactMap(Filter(a + b, keep), f) == CompactMap(Filter(a, keep), f) + CompactMap(Filter(b, keep), f)
  {
    FilterAppend(a, b, keep);
    CompactMapAppend(Filter(a, keep), Filter(b, keep), f);
  }

  /** `filter` then `compactMap`: an element anywhere in the sequence that
      passes the filter and has a value contributes that value, between the
      results of the elements before it and after it. */
  lemma FilterCompactMapInsertOne<T, U>(a: seq<T>, x: T, b: seq<T>, keep: T -> bool, f: T -> Option<U>, v: U)
    requires keep(x) && f(x) == Some(v)
    ensures CompactMap(Filter(a + [x] + b, keep), f) ==
      CompactMap(Filter(a, keep), f) + [v] + CompactMap(Filter(b, keep), f)
  {
    FilterCompactMapAppend(a + [x], b, keep, f);
    FilterCompactMapAppend(a, [x], keep, f);
    FilterSingleton(x, keep);
    CompactMapSingleton(x, f);
  }

  /** Taking the first element of `a` out of `b`, where it stands at `j`,
      leaves the same elements as the rest of `a`. */
  lemma MultisetRemoveOne<T>(a: seq<T>, b: seq<T>, j: nat)
    requires multiset(a) == multiset(b) && a != []
    requires j < |b| && b[j] == a[0]
    ensures b == b[..j] + [a[0]] + b[j + 1..]
    ensures multiset(a[1..]) == multiset(b[..j] + b[j + 1..])
  {
    var before, after := b[..j], b[j + 1..];
    assert b == before + [a[0]] + after;
    assert a == [a[0]] + a[1..];
    assert multiset(a[1..]) == multiset(a) - multiset{a[0]};
    assert multiset(b) == multiset{a[0]} + multiset(before + after);
    assert multiset(before + after) == multiset(b) - multiset{a[0]};
  }

  /** Filtering then mapping two listings that hold the same entries, in any
      order, gives the same values, in some order. */
  lemma {:induction false} FilterCompactMapPermutation<T, U>(a: seq<T>, b: seq<T>, keep: T -> bool, f: T -> Option<U>)
    requires multiset(a) == multiset(b)
    ensures multiset(CompactMap(Filter(a, keep), f)) == multiset(CompactMap(Filter(b, keep), f))
    decreases |a|
  {
    if a == [] {
      assert |b| == |multiset(b)| == 0;
    } else {
      var x := a[0];
      assert x in multiset(b);
      var j :| 0 <= j < |b| && b[j] == x;
      var before, after := b[..j], b[j + 1..];
      MultisetRemoveOne(a, b, j);
      assert a == [x] + a[1..];
      FilterCompactMapPermutation(a[1..], before + after, keep, f);
      FilterCompactMapAppend([x], a[1..], keep, f);
      FilterCompactMapAppend(before + [x], after, keep, f);
      FilterCompactMapAppend(before, [x], keep, f);
      FilterCompactMapAppend(before, after, keep, f);
    }
  }
}
