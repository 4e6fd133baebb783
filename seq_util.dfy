/** Sequence helpers shared by the hazard model: index selection (numpy's
    fancy indexing), boolean masks turned into index lists, first-occurrence
    lookup and order facts. */
module SeqUtil {

  datatype Option<T> = None | Some(value: T)

  /** No value occurs twice. */
  predicate Distinct<T(==)>(s: seq<T>)
  {
    forall i, j :: 0 <= i < j < |s| ==> s[i] != s[j]
  }

  /** Every index is a valid position of a sequence of length n. */
  predicate InBounds(idx: seq<nat>, n: nat)
  {
    forall k :: 0 <= k < |idx| ==> idx[k] < n
  }

  /** Strictly increasing, so the positions keep their original order. */
  predicate Increasing(idx: seq<nat>)
  {
    forall a, b :: 0 <= a < b < |idx| ==> idx[a] < idx[b]
  }

  /** The elements of s at the positions idx, in the order idx lists them,
      repetitions included (s[idx] in numpy). */
  function Pick<T>(s: seq<T>, idx: seq<nat>): (r: seq<T>)
    requires InBounds(idx, |s|)
    ensures |r| == |idx|
    ensures forall k :: 0 <= k < |idx| ==> r[k] == s[idx[k]]
  {
    seq(|idx|, k requires 0 <= k < |idx| => s[idx[k]])
  }

  /** 0, 1, ..., n - 1. */
  function Indices(n: nat): (r: seq<nat>)
    ensures |r| == n && InBounds(r, n) && Increasing(r)
    ensures forall k :: 0 <= k < n ==> r[k] == k
  {
    seq(n, k => k)
  }

  /** off, off + 1, ..., off + n - 1, as positions. */
  function Span(off: nat, n: nat): (r: seq<nat>)
    ensures |r| == n && InBounds(r, off + n) && Increasing(r)
    ensures forall k :: 0 <= k < n ==> r[k] == off + k
  {
    seq(n, k => off + k)
  }

  /** lo, lo + 1, ..., lo + n - 1 (numpy's arange(lo, lo + n)). */
  function Count(lo: int, n: nat): (r: seq<int>)
    ensures |r| == n
    ensures forall k :: 0 <= k < n ==> r[k] == lo + k
  {
    seq(n, k => lo + k)
  }

  /** Position of the first occurrence of x in s, or |s| when x is absent. */
  function IndexOf<T(==)>(s: seq<T>, x: T): (r: nat)
    ensures r <= |s|
    ensures r < |s| <==> x in s
    ensures r < |s| ==> s[r] == x
    ensures forall j :: 0 <= j < r ==> s[j] != x
  {
    if s == [] then 0
    else if s[0] == x then 0
    else 1 + IndexOf(s[1..], x)
  }

  /** The first occurrence of a value found at a position of a sequence
      without repetitions is that position. */
  lemma IndexOfDistinct<T>(s: seq<T>, p: nat)
    requires Distinct(s) && p < |s|
    ensures IndexOf(s, s[p]) == p
  {
  }

  /** The positions i >= from where m[i] holds, ascending. */
  function WhereFrom(m: seq<bool>, from: nat): (r: seq<nat>)
    requires from <= |m|
    ensures InBounds(r, |m|) && Increasing(r)
    ensures forall k :: 0 <= k < |r| ==> from <= r[k] && m[r[k]]
    ensures forall i :: from <= i < |m| && m[i] ==> i in r
    decreases |m| - from
  {
    if from == |m| then []
    else if m[from] then [from] + WhereFrom(m, from + 1)
    else WhereFrom(m, from + 1)
  }

  /** The positions where the mask holds, ascending (numpy's argwhere). */
  function Where(m: seq<bool>): (r: seq<nat>)
    ensures InBounds(r, |m|) && Increasing(r)
    ensures forall k :: 0 <= k < |r| ==> m[r[k]]
    ensures forall i :: 0 <= i < |m| && m[i] ==> i in r
  {
    WhereFrom(m, 0)
  }

  /** An increasing index list has no repetitions. */
  lemma IncreasingDistinct(idx: seq<nat>)
    requires Increasing(idx)
    ensures Distinct(idx)
  {
  }

  /** A mask that holds on exactly the first n positions selects from .. n - 1. */
  lemma {:induction false} WhereFromPrefix(m: seq<bool>, n: nat, from: nat)
    requires from <= n <= |m|
    requires forall i :: 0 <= i < |m| ==> (m[i] <==> i < n)
    ensures WhereFrom(m, from) == Span(from, n - from)
    decreases |m| - from
  {
    if from < n {
      assert m[from];
      WhereFromPrefix(m, n, from + 1);
      assert WhereFrom(m, from) == [from] + Span(from + 1, n - from - 1);
      SpanCons(from, n - from - 1);
    } else {
      WhereFromAllFalse(m, from);
    }
  }

  /** A position in front of the run after it extends the run. */
  lemma SpanCons(off: nat, n: nat)
    ensures [off] + Span(off + 1, n) == Span(off, n + 1)
  {
    var tail := Span(off + 1, n);
    var r := [off] + tail;
    forall k | 0 <= k < n + 1 ensures r[k] == off + k {
      if k > 0 { assert r[k] == tail[k - 1]; }
    }
  }

  lemma {:induction false} WhereFromAllFalse(m: seq<bool>, from: nat)
    requires from <= |m|
    requires forall i :: from <= i < |m| ==> !m[i]
    ensures WhereFrom(m, from) == []
    decreases |m| - from
  {
    if from < |m| {
      WhereFromAllFalse(m, from + 1);
    }
  }

  /** A mask true on exactly its first n positions selects Indices(n). */
  lemma WherePrefix(m: seq<bool>, n: nat)
    requires n <= |m|
    requires forall i :: 0 <= i < |m| ==> (m[i] <==> i < n)
    ensures Where(m) == Indices(n)
  {
    WhereFromPrefix(m, n, 0);
    assert Span(0, n) == Indices(n);
  }

  /** Keeping the first |x| positions of x + y gives back x. */
  lemma PickPrefix<T>(x: seq<T>, y: seq<T>)
    ensures InBounds(Indices(|x|), |x + y|)
    ensures Pick(x + y, Indices(|x|)) == x
  {
  }

  /** Picking along a concatenation of index lists concatenates the picks. */
  lemma PickConcat<T>(s: seq<T>, x: seq<nat>, y: seq<nat>)
    requires InBounds(x, |s|) && InBounds(y, |s|)
    ensures InBounds(x + y, |s|)
    ensures Pick(s, x + y) == Pick(s, x) + Pick(s, y)
  {
  }

  /** The positions where a value occurs for the first time, ascending. */
  function FirstOccurrences<T(==)>(ks: seq<T>): (sel: seq<nat>)
    ensures InBounds(sel, |ks|) && Increasing(sel)
    ensures forall i :: 0 <= i < |ks| ==> (i in sel <==> ks[i] !in ks[..i])
  {
    Where(seq(|ks|, i requires 0 <= i < |ks| => ks[i] !in ks[..i]))
  }

  /** The first occurrences hold every value once. */
  lemma FirstOccurrencesKeepEach<T>(ks: seq<T>)
    ensures Distinct(Pick(ks, FirstOccurrences(ks)))
    ensures forall i :: 0 <= i < |ks| ==> ks[i] in Pick(ks, FirstOccurrences(ks))
  {
    var sel := FirstOccurrences(ks);
    var kept := Pick(ks, sel);
    forall a, b | 0 <= a < b < |kept|
      ensures kept[a] != kept[b]
    {
      assert sel[a] < sel[b];
      assert ks[sel[a]] == ks[..sel[b]][sel[a]];
    }
    forall i | 0 <= i < |ks|
      ensures ks[i] in kept
    {
      var first := IndexOf(ks, ks[i]);
      assert ks[first] !in ks[..first];
      var k :| 0 <= k < |sel| && sel[k] == first;
      assert kept[k] == ks[i];
    }
  }

  /** Values without repetitions followed by values among them: the first
      occurrences are the first part. */
  lemma FirstOccurrencesRepeated<T>(x: seq<T>, y: seq<T>)
    requires Distinct(x)
    requires forall j :: 0 <= j < |y| ==> y[j] in x
    ensures FirstOccurrences(x + y) == Indices(|x|)
  {
    var ks := x + y;
    var m := seq(|ks|, i requires 0 <= i < |ks| => ks[i] !in ks[..i]);
    forall i | 0 <= i < |ks|
      ensures m[i] <==> i < |x|
    {
      if i < |x| {
        assert ks[..i] == x[..i];
        assert x[i] !in x[..i];
      } else {
        var p :| 0 <= p < |x| && x[p] == y[i - |x|];
        assert ks[..i][p] == ks[i];
      }
    }
    WherePrefix(m, |x|);
  }

  /** Smallest element of a non-empty sequence. */
  function Min(s: seq<real>): (r: real)
    requires s != []
    ensures r in s
    ensures forall k :: 0 <= k < |s| ==> r <= s[k]
  {
    if |s| == 1 then s[0]
    else var m := Min(s[1..]); if s[0] <= m then s[0] else m
  }

  /** Largest element of a non-empty sequence. */
  function Max(s: seq<real>): (r: real)
    requires s != []
    ensures r in s
    ensures forall k :: 0 <= k < |s| ==> s[k] <= r
  {
    if |s| == 1 then s[0]
    else var m := Max(s[1..]); if m <= s[0] then s[0] else m
  }
}
