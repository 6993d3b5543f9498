/**
  Generic sequence operations that stand for the table primitives the
  registration queries are built from: a boolean row mask (`Where`), a
  column (`Project`), order-preserving de-duplication (`Distinct`, the
  behaviour of `unique`) and string joining (`Join`).
 */
module Sequences {

  /** No element occurs twice. */
  predicate NoDuplicates<T(==)>(s: seq<T>) {
    forall i, j :: 0 <= i < j < |s| ==> s[i] != s[j]
  }

  /** Position of the first occurrence of `x` in `s`. */
  function FirstIndex<T(==)>(s: seq<T>, x: T): (k: nat)
    requires x in s
    ensures k < |s| && s[k] == x
    ensures x !in s[..k]
  {
    if s[0] == x then 0 else 1 + FirstIndex(s[1..], x)
  }

  /** The rows of `s` that the mask `keep` selects, in their original order. */
  function Where<T(!new)>(s: seq<T>, keep: T -> bool): (r: seq<T>)
    ensures |r| <= |s|
    ensures forall x :: x in r <==> x in s && keep(x)
  {
    if s == [] then []
    else if keep(s[0]) then [s[0]] + Where(s[1..], keep)
    else Where(s[1..], keep)
  }

  /** Every selected row is kept as often as it occurs; no other row is kept. */
  lemma {:induction false} WhereCounts<T(!new)>(s: seq<T>, keep: T -> bool, x: T)
    ensures multiset(Where(s, keep))[x] == if keep(x) then multiset(s)[x] else 0
  {
    if s != [] {
      assert s == [s[0]] + s[1..];
      WhereCounts(s[1..], keep, x);
    }
  }

  /**
    Masking a concatenation masks each part: the kept rows keep their
    relative order.
   */
  lemma {:induction false} WhereAppend<T(!new)>(s: seq<T>, t: seq<T>, keep: T -> bool)
    ensures Where(s + t, keep) == Where(s, keep) + Where(t, keep)
  {
    if s == [] {
      assert s + t == t;
    } else {
      assert (s + t)[0] == s[0] && (s + t)[1..] == s[1..] + t;
      WhereAppend(s[1..], t, keep);
    }
  }

  /** A mask that selects every row leaves the rows as they are. */
  lemma {:induction false} WhereAll<T(!new)>(s: seq<T>, keep: T -> bool)
    requires forall x :: x in s ==> keep(x)
    ensures Where(s, keep) == s
  {
    if s != [] {
      assert s[0] in s;
      assert forall x :: x in s[1..] ==> x in s;
      WhereAll(s[1..], keep);
      assert [s[0]] + s[1..] == s;
    }
  }

  /** The column of values `f` picks out of each row. */
  function Project<T(!new), U(!new)>(s: seq<T>, f: T -> U): (r: seq<U>)
    ensures |r| == |s|
    ensures forall i :: 0 <= i < |s| ==> r[i] == f(s[i])
    ensures forall y :: y in r <==> exists x :: x in s && f(x) == y
  {
    if s == [] then []
    else
      var rest := Project(s[1..], f);
      assert forall x :: x in s <==> x == s[0] || x in s[1..];
      [f(s[0])] + rest
  }

  /**
    The distinct values of `s` in order of first appearance: the value at
    the end of `s` is appended unless it was seen before.
   */
  function Distinct<T(==,!new)>(s: seq<T>): (r: seq<T>)
    ensures forall x :: x in r <==> x in s
    ensures NoDuplicates(r)
  {
    if s == [] then []
    else
      var init := s[..|s| - 1];
      var d := Distinct(init);
      assert forall x :: x in s <==> x in init || x == s[|s| - 1] by {
        assert s == init + [s[|s| - 1]];
      }
      if s[|s| - 1] in d then d else d + [s[|s| - 1]]
  }

  /** Appending a value does not move the first occurrence of an earlier one. */
  lemma {:induction false} FirstIndexAppend<T>(s: seq<T>, y: T, x: T)
    requires x in s
    ensures x in s + [y] && FirstIndex(s + [y], x) == FirstIndex(s, x)
  {
    if s[0] != x {
      assert (s + [y])[1..] == s[1..] + [y];
      FirstIndexAppend(s[1..], y, x);
    }
  }

  /** A value absent from `s` first occurs in `s + [y]` at position `|s|`. */
  lemma FirstIndexOfNew<T>(s: seq<T>, y: T)
    requires y !in s
    ensures y in s + [y] && FirstIndex(s + [y], y) == |s|
  {
  }

  /**
    `Distinct` keeps order of first appearance: an earlier distinct value
    first occurs strictly earlier in the input.
   */
  lemma {:induction false} DistinctKeepsFirstAppearanceOrder<T(!new)>(s: seq<T>, i: nat, j: nat)
    requires i < j < |Distinct(s)|
    ensures Distinct(s)[i] in s && Distinct(s)[j] in s
    ensures FirstIndex(s, Distinct(s)[i]) < FirstIndex(s, Distinct(s)[j])
  {
    var r := Distinct(s);
    assert r[i] in r && r[j] in r;
    var init := s[..|s| - 1];
    var last := s[|s| - 1];
    var d := Distinct(init);
    assert s == init + [last];
    if j < |d| {
      assert r[i] == d[i] && r[j] == d[j];
      DistinctKeepsFirstAppearanceOrder(init, i, j);
      FirstIndexAppend(init, last, d[i]);
      FirstIndexAppend(init, last, d[j]);
    } else {
      assert r == d + [last] && r[j] == last && r[i] == d[i];
      assert d[i] in d;
      assert last !in init;
      FirstIndexOfNew(init, last);
      FirstIndexAppend(init, last, d[i]);
    }
  }

  /** The strings of `parts` with `sep` between neighbours. */
  function Join(sep: string, parts: seq<string>): string
  {
    if parts == [] then ""
    else if |parts| == 1 then parts[0]
    else parts[0] + sep + Join(sep, parts[1..])
  }

  /** Joining from position `k` on: the part at `k`, then the separator and the rest. */
  lemma JoinFrom(sep: string, parts: seq<string>, k: nat)
    requires k < |parts|
    ensures Join(sep, parts[k..])
         == if k + 1 == |parts| then parts[k] else parts[k] + sep + Join(sep, parts[k + 1..])
  {
    assert parts[k..][0] == parts[k];
    if k + 1 < |parts| {
      assert parts[k..][1..] == parts[k + 1..];
    } else {
      assert parts[k..] == [parts[k]];
    }
  }

  /** Joining two non-empty runs of parts puts one separator between them. */
  lemma {:induction false} JoinConcat(sep: string, p: seq<string>, q: seq<string>)
    requires p != [] && q != []
    ensures Join(sep, p + q) == Join(sep, p) + sep + Join(sep, q)
  {
    assert (p + q)[0] == p[0] && (p + q)[1..] == p[1..] + q;
    if |p| > 1 {
      JoinConcat(sep, p[1..], q);
    }
  }
}
