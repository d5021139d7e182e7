/** Boolean-mask selection (`frame.loc[mask]` on one axis) and sums of counts. */
module Sequences {

  function CountTrue(m: seq<bool>): nat
  {
    if m == [] then 0 else (if m[0] then 1 else 0) + CountTrue(m[1..])
  }

  /** The elements of `s` whose mask entry is true, in their original order. */
  function Select<T>(s: seq<T>, m: seq<bool>): (r: seq<T>)
    requires |s| == |m|
    ensures |r| == CountTrue(m)
    ensures forall x :: x in r ==> x in s
  {
    if s == [] then [] else (if m[0] then [s[0]] else []) + Select(s[1..], m[1..])
  }

  /** The position of the `j`-th true entry of `m`. */
  function Nth(m: seq<bool>, j: nat): (k: nat)
    requires j < CountTrue(m)
    ensures k < |m| && m[k]
  {
    if m[0] then (if j == 0 then 0 else 1 + Nth(m[1..], j - 1))
    else 1 + Nth(m[1..], j)
  }

  /** The `j`-th selected element is the element at the `j`-th true position. */
  lemma {:induction false} SelectAt<T>(s: seq<T>, m: seq<bool>, j: nat)
    requires |s| == |m| && j < CountTrue(m)
    ensures Select(s, m)[j] == s[Nth(m, j)]
  {
    if m[0] {
      if j > 0 {
        SelectAt(s[1..], m[1..], j - 1);
      }
    } else {
      SelectAt(s[1..], m[1..], j);
    }
  }

  /** Every element whose mask entry is true survives the selection. */
  lemma {:induction false} SelectKeeps<T>(s: seq<T>, m: seq<bool>, k: nat)
    requires |s| == |m| && k < |s| && m[k]
    ensures s[k] in Select(s, m)
  {
    if k > 0 {
      SelectKeeps(s[1..], m[1..], k - 1);
    }
  }

  /** The true positions are enumerated in increasing order, so a selection
      keeps the original order of the elements. */
  lemma {:induction false} NthIncreasing(m: seq<bool>, i: nat, j: nat)
    requires i < j < CountTrue(m)
    ensures Nth(m, i) < Nth(m, j)
  {
    if m[0] {
      if i > 0 {
        NthIncreasing(m[1..], i - 1, j - 1);
      }
    } else {
      NthIncreasing(m[1..], i, j);
    }
  }

  /** Every true position is enumerated: position `k` is the `j`-th true
      entry for some `j`, so `s[k]` sits at index `j` of the selection. */
  lemma {:induction false} Rank(m: seq<bool>, k: nat) returns (j: nat)
    requires k < |m| && m[k]
    ensures j < CountTrue(m) && Nth(m, j) == k
  {
    if k == 0 {
      j := 0;
    } else {
      var j' := Rank(m[1..], k - 1);
      j := if m[0] then j' + 1 else j';
    }
  }

  /** An all-true mask selects everything. */
  lemma {:induction false} SelectAll<T>(s: seq<T>, m: seq<bool>)
    requires |s| == |m| && forall k :: 0 <= k < |m| ==> m[k]
    ensures Select(s, m) == s
  {
    if s != [] {
      SelectAll(s[1..], m[1..]);
    }
  }

  /** A selection that keeps everything had an all-true mask. */
  lemma {:induction false} SelectAllOnly<T>(s: seq<T>, m: seq<bool>)
    requires |s| == |m| && Select(s, m) == s
    ensures forall k :: 0 <= k < |m| ==> m[k]
  {
    if s != [] {
      CountTrueBound(m[1..]);
      assert m[0];
      SelectAllOnly(s[1..], m[1..]);
    }
  }

  lemma {:induction false} CountTrueBound(m: seq<bool>)
    ensures CountTrue(m) <= |m|
  {
    if m != [] {
      CountTrueBound(m[1..]);
    }
  }

  function Sum(s: seq<nat>): nat
  {
    if s == [] then 0 else s[0] + Sum(s[1..])
  }

  /** A sum is zero exactly when every term is zero. */
  lemma {:induction false} SumZero(s: seq<nat>)
    ensures Sum(s) == 0 <==> forall k :: 0 <= k < |s| ==> s[k] == 0
  {
    if s != [] {
      SumZero(s[1..]);
      if Sum(s) == 0 {
        forall k | 0 <= k < |s| ensures s[k] == 0 {
          if k > 0 {
            assert s[k] == s[1..][k - 1];
          }
        }
      }
    }
  }

  /** Dropping only zero terms leaves the sum unchanged. */
  lemma {:induction false} SelectSum(s: seq<nat>, m: seq<bool>)
    requires |s| == |m| && forall k :: 0 <= k < |m| && !m[k] ==> s[k] == 0
    ensures Sum(Select(s, m)) == Sum(s)
  {
    if s != [] {
      SelectSum(s[1..], m[1..]);
      var rest := Select(s[1..], m[1..]);
      if m[0] {
        assert ([s[0]] + rest)[1..] == rest;
      } else {
        assert [] + rest == rest;
      }
    }
  }
}
