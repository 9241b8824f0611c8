/** Small shared vocabulary: an optional value, duplicate-free sequences, `filter` and `map`. */
module Common {

  /** A value that may be absent: JavaScript's `null`/`undefined` or a missing key. */
  datatype Option<+T> = None | Some(value: T) {

    /** The wrapped value, or `default` when absent (JavaScript's `x || default` on objects). */
    function GetOr(default: T): T {
      match this
      case Some(v) => v
      case None => default
    }
  }

  /** No element occurs twice. */
  predicate NoDuplicates<T(==)>(s: seq<T>) {
    forall i, j :: 0 <= i < j < |s| ==> s[i] != s[j]
  }

  /** The test of `s.filter(y => y !== x)`. */
  function Other<T(==)>(x: T): T -> bool {
    y => y != x
  }

  /**
    `s.filter(keep)`: the elements `keep` accepts, in their order. Only
    accepted elements come out, and a test that accepts everything changes
    nothing; `FilterCount` gives the exact counts.
  */
  function Filter<T(!new)>(s: seq<T>, keep: T -> bool): (r: seq<T>)
    ensures |r| <= |s|
    ensures forall i :: 0 <= i < |r| ==> keep(r[i])
    ensures (forall i :: 0 <= i < |s| ==> keep(s[i])) ==> r == s
  {
    if |s| == 0 then []
    else
      var rest := Filter(s[1..], keep);
      assert forall i :: 0 <= i < |s| - 1 ==> s[1..][i] == s[i + 1];
      if keep(s[0]) then
        var r := [s[0]] + rest;
        assert forall i :: 1 <= i < |r| ==> r[i] == rest[i - 1];
        r
      else rest
  }

  /** An accepted element keeps its count; a rejected one is gone. */
  lemma {:induction false} FilterCount<T(!new)>(s: seq<T>, keep: T -> bool, x: T)
    ensures multiset(Filter(s, keep))[x] == if keep(x) then multiset(s)[x] else 0
  {
    if |s| > 0 {
      assert s == [s[0]] + s[1..];
      FilterCount(s[1..], keep, x);
    }
  }

  /** Everything kept comes from the input, and every accepted element of the input is kept. */
  lemma FilterMembers<T(!new)>(s: seq<T>, keep: T -> bool, x: T)
    ensures x in Filter(s, keep) <==> x in s && keep(x)
  {
    FilterCount(s, keep, x);
    assert x in Filter(s, keep) <==> multiset(Filter(s, keep))[x] > 0;
    assert x in s <==> multiset(s)[x] > 0;
  }

  /** The filter keeps nothing exactly when it accepts no element. */
  lemma FilterEmpty<T(!new)>(s: seq<T>, keep: T -> bool)
    ensures Filter(s, keep) == [] <==> forall i :: 0 <= i < |s| ==> !keep(s[i])
  {
    var r := Filter(s, keep);
    if r != [] {
      FilterMembers(s, keep, r[0]);
    }
    if exists i :: 0 <= i < |s| && keep(s[i]) {
      var i :| 0 <= i < |s| && keep(s[i]);
      FilterMembers(s, keep, s[i]);
    }
  }

  /** Filtering distributes over concatenation, so the survivors keep their relative order. */
  lemma {:induction false} FilterAppend<T(!new)>(a: seq<T>, b: seq<T>, keep: T -> bool)
    ensures Filter(a + b, keep) == Filter(a, keep) + Filter(b, keep)
  {
    if |a| == 0 {
      assert a + b == b;
    } else {
      assert (a + b)[1..] == a[1..] + b;
      FilterAppend(a[1..], b, keep);
    }
  }

  /** A filter that rejects exactly the element at `k` removes it and nothing else. */
  lemma {:induction false} FilterAt<T(!new)>(s: seq<T>, keep: T -> bool, k: nat)
    requires k < |s| && !keep(s[k])
    requires forall i :: 0 <= i < |s| && i != k ==> keep(s[i])
    ensures Filter(s, keep) == s[..k] + s[k + 1..]
  {
    var tail := s[1..];
    assert forall i :: 0 <= i < |tail| ==> tail[i] == s[i + 1];
    if k > 0 {
      FilterAt(tail, keep, k - 1);
      assert Filter(s, keep) == [s[0]] + Filter(tail, keep);
      assert s[..k] == [s[0]] + tail[..k - 1];
      assert s[k + 1..] == tail[k..];
    }
  }

  /** Filtering keeps a duplicate-free sequence duplicate-free. */
  lemma FilterNoDuplicates<T(!new)>(s: seq<T>, keep: T -> bool)
    requires NoDuplicates(s)
    ensures NoDuplicates(Filter(s, keep))
  {
    var r := Filter(s, keep);
    forall i, j | 0 <= i < j < |r|
      ensures r[i] != r[j]
    {
      if r[i] == r[j] {
        MultisetAtLeastTwo(r, i, j);
        FilterCount(s, keep, r[i]);
        MultisetCountOne(s, r[i]);
      }
    }
  }

  /** `s.map(f)` */
  function Map<A, B>(s: seq<A>, f: A -> B): (r: seq<B>)
    ensures |r| == |s|
    ensures forall i :: 0 <= i < |s| ==> r[i] == f(s[i])
  {
    if |s| == 0 then []
    else
      var rest := Map(s[1..], f);
      var r := [f(s[0])] + rest;
      assert forall i :: 1 <= i < |s| ==> r[i] == rest[i - 1] && s[i] == s[1..][i - 1];
      r
  }

  /** Mapping distributes over concatenation. */
  lemma {:induction false} MapAppend<A, B>(a: seq<A>, b: seq<A>, f: A -> B)
    ensures Map(a + b, f) == Map(a, f) + Map(b, f)
  {
    if |a| == 0 {
      assert a + b == b;
    } else {
      assert (a + b)[1..] == a[1..] + b;
      MapAppend(a[1..], b, f);
    }
  }

  /** A non-empty sequence is its first element followed by the rest. */
  lemma HeadTail<T>(s: seq<T>)
    requires |s| >= 1
    ensures s == [s[0]] + s[1..]
  {
  }

  /** An element at two positions is counted at least twice. */
  lemma MultisetAtLeastTwo<T>(s: seq<T>, i: int, j: int)
    requires 0 <= i < j < |s| && s[i] == s[j]
    ensures multiset(s)[s[i]] >= 2
  {
    assert s == s[..i] + [s[i]] + s[i + 1..j] + [s[j]] + s[j + 1..];
  }

  /** In a duplicate-free sequence every element is counted at most once. */
  lemma {:induction false} MultisetCountOne<T>(s: seq<T>, y: T)
    requires NoDuplicates(s)
    ensures multiset(s)[y] <= 1
  {
    if |s| > 0 {
      assert s == [s[0]] + s[1..];
      MultisetCountOne(s[1..], y);
      if s[0] == y {
        assert y !in s[1..];
      }
    }
  }
}
