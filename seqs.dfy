/** Small facts about sequences and strings used throughout the model. */
module Seqs {

  /** No element occurs twice: the first is not among the rest, and the
      rest are distinct too. */
  predicate Distinct<T(==)>(s: seq<T>) {
    s == [] || (s[0] !in s[1..] && Distinct(s[1..]))
  }

  /** Elements at two different positions of a distinct sequence differ. */
  lemma {:induction false} DistinctAt<T>(s: seq<T>, i: nat, j: nat)
    requires Distinct(s) && i < j < |s|
    ensures s[i] != s[j]
  {
    if i == 0 {
      assert s[j] == s[1..][j - 1];
    } else {
      DistinctAt(s[1..], i - 1, j - 1);
    }
  }

  /** Elements at any two different positions differ: the sequence is
      distinct. */
  lemma {:induction false} DistinctPairs<T>(s: seq<T>)
    requires forall i, j :: 0 <= i < j < |s| ==> s[i] != s[j]
    ensures Distinct(s)
  {
    if s != [] {
      forall k | 0 <= k < |s[1..]| ensures s[1..][k] != s[0] {
        assert s[1..][k] == s[k + 1];
      }
      forall i, j | 0 <= i < j < |s[1..]| ensures s[1..][i] != s[1..][j] {
        assert s[1..][i] == s[i + 1] && s[1..][j] == s[j + 1];
      }
      DistinctPairs(s[1..]);
    }
  }

  /** A prefix stays distinct with the next element when that element is
      not in it. */
  lemma DistinctNext<T>(s: seq<T>, i: nat)
    requires i < |s| && Distinct(s[..i]) && s[i] !in s[..i]
    ensures Distinct(s[..i + 1])
  {
    DistinctSnoc(s[..i], s[i]);
    assert s[..i + 1] == s[..i] + [s[i]];
  }

  /** An element that occurs earlier too makes the sequence not distinct. */
  lemma Repeated<T>(s: seq<T>, i: nat)
    requires i < |s| && s[i] in s[..i]
    ensures !Distinct(s)
  {
    var j :| 0 <= j < i && s[..i][j] == s[i];
    if Distinct(s) {
      DistinctAt(s, j, i);
    }
  }

  /** Appending an element not yet present keeps a sequence distinct. */
  lemma {:induction false} DistinctSnoc<T>(s: seq<T>, x: T)
    requires Distinct(s) && x !in s
    ensures Distinct(s + [x])
  {
    if s != [] {
      assert (s + [x])[1..] == s[1..] + [x];
      DistinctSnoc(s[1..], x);
    }
  }

  /** Python's `s.startswith(p)`. */
  predicate StartsWith(s: string, p: string) {
    p <= s
  }

  /** `[x for x in s if x != y]`. */
  function Without(s: seq<string>, y: string): (r: seq<string>)
    ensures forall x :: x in r <==> x in s && x != y
    ensures |r| <= |s|
  {
    if s == [] then []
    else if s[0] == y then Without(s[1..], y)
    else [s[0]] + Without(s[1..], y)
  }

  lemma {:induction false} WithoutDistinct(s: seq<string>, y: string)
    requires Distinct(s)
    ensures Distinct(Without(s, y))
  {
    if s != [] {
      WithoutDistinct(s[1..], y);
      if s[0] != y {
        assert ([s[0]] + Without(s[1..], y))[1..] == Without(s[1..], y);
      }
    }
  }

  /** Removing an element keeps the elements at any two positions apart. */
  lemma WithoutApart(s: seq<string>, y: string)
    requires forall i, j :: 0 <= i < j < |s| ==> s[i] != s[j]
    ensures forall i, j :: 0 <= i < j < |Without(s, y)| ==> Without(s, y)[i] != Without(s, y)[j]
  {
    DistinctPairs(s);
    WithoutDistinct(s, y);
    forall i, j | 0 <= i < j < |Without(s, y)| ensures Without(s, y)[i] != Without(s, y)[j] {
      DistinctAt(Without(s, y), i, j);
    }
  }

  /** How often `x` occurs in `s`. */
  function Count<T(==)>(s: seq<T>, x: T): nat {
    if s == [] then 0 else (if s[0] == x then 1 else 0) + Count(s[1..], x)
  }

  /** Python's `sep.join(parts)`. */
  function Join(sep: string, parts: seq<string>): string {
    if parts == [] then ""
    else if |parts| == 1 then parts[0]
    else parts[0] + sep + Join(sep, parts[1..])
  }

  /** The position of the first `c` in `s`, or `|s|` when there is none. */
  function FirstIndex(s: string, c: char): (i: nat)
    ensures i <= |s|
    ensures i < |s| ==> s[i] == c
    ensures forall k :: 0 <= k < i ==> s[k] != c
  {
    if s == [] || s[0] == c then 0 else 1 + FirstIndex(s[1..], c)
  }

  /** The position of the last `c` in `s`, or -1 when there is none. */
  function LastIndex(s: string, c: char): (j: int)
    ensures -1 <= j < |s|
    ensures j >= 0 ==> s[j] == c
    ensures forall k :: j < k < |s| ==> s[k] != c
  {
    if s == [] then -1
    else if s[|s| - 1] == c then |s| - 1
    else LastIndex(s[..|s| - 1], c)
  }

  /** `s` after removing every element of `us`, one after the other. */
  function Removed(s: seq<string>, us: seq<string>): seq<string> {
    if us == [] then s else Without(Removed(s, us[..|us| - 1]), us[|us| - 1])
  }

  lemma {:induction false} RemovedMembers(s: seq<string>, us: seq<string>)
    ensures forall x :: x in Removed(s, us) <==> x in s && x !in us
  {
    if us != [] {
      var init := us[..|us| - 1];
      RemovedMembers(s, init);
      assert us == init + [us[|us| - 1]];
    }
  }

  lemma ElementIn(s: seq<string>, i: nat)
    requires i < |s|
    ensures s[i] in s
  {
  }

  /** A sequence without elements is empty. */
  lemma NoElements(s: seq<string>)
    requires forall x :: x !in s
    ensures s == []
  {
    if s != [] {
      ElementIn(s, 0);
    }
  }
}
