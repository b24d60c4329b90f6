/** Order-preserving selection on sequences. It is the one notion behind the
    boolean-mask row filter of a task subset, the partition of a table into
    groups and the list-comprehension projection of columns. */
module Seqs {

  /** No element occurs twice. */
  predicate Distinct<T(==)>(s: seq<T>) {
    forall i, j :: 0 <= i < j < |s| ==> s[i] != s[j]
  }

  /** The elements of `s` that satisfy `keep`, in their original order
      (what `FilterSelectsInOrder` states precisely). */
  function Filter<T>(s: seq<T>, keep: T -> bool): (r: seq<T>)
    ensures |r| <= |s|
  {
    if s == [] then [] else (if keep(s[0]) then [s[0]] else []) + Filter(s[1..], keep)
  }

  /** The positions of `s`, from `lo` on, whose element satisfies `keep`. */
  ghost function KeptFrom<T>(s: seq<T>, keep: T -> bool, lo: nat): seq<nat>
    requires lo <= |s|
    decreases |s| - lo
  {
    if lo == |s| then [] else (if keep(s[lo]) then [lo] else []) + KeptFrom(s, keep, lo + 1)
  }

  /** The positions of `s` whose element satisfies `keep`. */
  ghost function KeptIndices<T>(s: seq<T>, keep: T -> bool): seq<nat> {
    KeptFrom(s, keep, 0)
  }

  /** `Filter` of the suffix from `lo` reads `s` at the positions of
      `KeptFrom`. */
  lemma {:induction false} KeptFromReads<T>(s: seq<T>, keep: T -> bool, lo: nat)
    requires lo <= |s|
    ensures |KeptFrom(s, keep, lo)| == |Filter(s[lo..], keep)|
    ensures forall k :: 0 <= k < |KeptFrom(s, keep, lo)| ==>
      lo <= KeptFrom(s, keep, lo)[k] < |s| && Filter(s[lo..], keep)[k] == s[KeptFrom(s, keep, lo)[k]]
    decreases |s| - lo
  {
    if lo < |s| {
      KeptFromReads(s, keep, lo + 1);
      assert s[lo..][1..] == s[lo + 1..];
    }
  }

  /** `KeptFrom` is strictly increasing and lists exactly the selected
      positions from `lo` on. */
  lemma {:induction false} KeptFromExact<T>(s: seq<T>, keep: T -> bool, lo: nat)
    requires lo <= |s|
    ensures forall k :: 0 <= k < |KeptFrom(s, keep, lo)| ==> lo <= KeptFrom(s, keep, lo)[k]
    ensures forall k, l :: 0 <= k < l < |KeptFrom(s, keep, lo)| ==> KeptFrom(s, keep, lo)[k] < KeptFrom(s, keep, lo)[l]
    ensures forall i :: lo <= i < |s| ==> (keep(s[i]) <==> i in KeptFrom(s, keep, lo))
    decreases |s| - lo
  {
    if lo < |s| {
      KeptFromExact(s, keep, lo + 1);
      var rest := KeptFrom(s, keep, lo + 1);
      var here := if keep(s[lo]) then [lo] else [];
      var idx := here + rest;
      assert idx == KeptFrom(s, keep, lo);
      forall k, l | 0 <= k < l < |idx| ensures idx[k] < idx[l] {
        if k < |here| {
          assert idx[k] == lo && idx[l] == rest[l - |here|];
        } else {
          assert idx[k] == rest[k - |here|] && idx[l] == rest[l - |here|];
        }
      }
      forall i | lo <= i < |s| ensures keep(s[i]) <==> i in idx {
        if i == lo {
          assert lo !in rest;
        } else {
          assert keep(s[i]) <==> i in rest;
        }
      }
    }
  }

  /** `Filter` keeps exactly the elements that satisfy `keep`, each at its
      own position and in the original order: its result is `s` read at a
      strictly increasing enumeration of exactly the selected positions. */
  lemma {:induction false} FilterSelectsInOrder<T>(s: seq<T>, keep: T -> bool)
    ensures var idx := KeptIndices(s, keep);
      && |idx| == |Filter(s, keep)|
      && (forall k :: 0 <= k < |idx| ==> idx[k] < |s| && Filter(s, keep)[k] == s[idx[k]])
      && (forall k, l :: 0 <= k < l < |idx| ==> idx[k] < idx[l])
      && (forall i :: 0 <= i < |s| ==> (keep(s[i]) <==> i in idx))
  {
    KeptFromReads(s, keep, 0);
    KeptFromExact(s, keep, 0);
    assert s[0..] == s;
  }

  /** Consequences of `FilterSelectsInOrder` stated on elements: what `Filter`
      keeps comes from `s` and satisfies `keep`, and every element of `s` that
      satisfies `keep` is kept. */
  lemma {:induction false} FilterMembers<T>(s: seq<T>, keep: T -> bool)
    ensures forall k :: 0 <= k < |Filter(s, keep)| ==> Filter(s, keep)[k] in s && keep(Filter(s, keep)[k])
    ensures forall i :: 0 <= i < |s| && keep(s[i]) ==> s[i] in Filter(s, keep)
  {
    FilterSelectsInOrder(s, keep);
    var idx := KeptIndices(s, keep);
    forall i | 0 <= i < |s| && keep(s[i]) ensures s[i] in Filter(s, keep) {
      assert i in idx;
      var k :| 0 <= k < |idx| && idx[k] == i;
      assert Filter(s, keep)[k] == s[i];
    }
  }

  /** Filtering a sequence without repetitions gives one without repetitions. */
  lemma {:induction false} FilterDistinct<T>(s: seq<T>, keep: T -> bool)
    requires Distinct(s)
    ensures Distinct(Filter(s, keep))
  {
    FilterSelectsInOrder(s, keep);
  }

  /** Filtering one more element at the end extends the result by that
      element exactly when it is kept. */
  lemma {:induction false} FilterAppend<T>(s: seq<T>, x: T, keep: T -> bool)
    ensures Filter(s + [x], keep) == Filter(s, keep) + (if keep(x) then [x] else [])
  {
    if s == [] {
      assert s + [x] == [x];
    } else {
      assert (s + [x])[0] == s[0];
      assert (s + [x])[1..] == s[1..] + [x];
      FilterAppend(s[1..], x, keep);
      var head := if keep(s[0]) then [s[0]] else [];
      var tail := if keep(x) then [x] else [];
      calc {
        Filter(s + [x], keep);
        head + Filter(s[1..] + [x], keep);
        head + (Filter(s[1..], keep) + tail);
        (head + Filter(s[1..], keep)) + tail;
        Filter(s, keep) + tail;
      }
    }
  }
}
