/** Concatenation of a sequence of sequences, and where its elements sit. */
module Seqs {
  /** The concatenation of `parts`, in order. */
  function Concat<T>(parts: seq<seq<T>>): seq<T>
  {
    if parts == [] then [] else Concat(parts[..|parts| - 1]) + parts[|parts| - 1]
  }

  /** One more part appends itself to the concatenation of the parts before it. */
  lemma ConcatSnoc<T>(parts: seq<seq<T>>, i: nat)
    requires i < |parts|
    ensures Concat(parts[..i + 1]) == Concat(parts[..i]) + parts[i]
  {
    assert parts[..i + 1][..i] == parts[..i];
  }

  /** The `j`-th element of part `i` sits right after the parts before it, however many parts follow. */
  lemma {:induction false} ConcatSlice<T>(parts: seq<seq<T>>, i: nat, n: nat, j: nat)
    requires i < n <= |parts| && j < |parts[i]|
    ensures |Concat(parts[..i])| + j < |Concat(parts[..n])|
    ensures Concat(parts[..n])[|Concat(parts[..i])| + j] == parts[i][j]
    decreases n
  {
    ConcatSnoc(parts, n - 1);
    if n == i + 1 {
      AppendRight(Concat(parts[..i]), parts[i], j);
    } else {
      ConcatSlice(parts, i, n - 1, j);
      AppendLeft(Concat(parts[..n - 1]), parts[n - 1], |Concat(parts[..i])| + j);
    }
  }

  /** More parts keep every element of the concatenation at its index. */
  lemma {:induction false} ConcatKeeps<T>(parts: seq<seq<T>>, n: nat, m: nat, k: nat)
    requires n <= m <= |parts| && k < |Concat(parts[..n])|
    ensures k < |Concat(parts[..m])| && Concat(parts[..m])[k] == Concat(parts[..n])[k]
    decreases m
  {
    if n < m {
      ConcatKeeps(parts, n, m - 1, k);
      ConcatSnoc(parts, m - 1);
      AppendLeft(Concat(parts[..m - 1]), parts[m - 1], k);
    }
  }

  /** The same holds with a fixed `head` ahead of the concatenation. */
  lemma HeadConcatKeeps<T>(head: seq<T>, parts: seq<seq<T>>, n: nat, m: nat, k: nat)
    requires n <= m <= |parts| && k < |head + Concat(parts[..n])|
    ensures k < |head + Concat(parts[..m])| && (head + Concat(parts[..m]))[k] == (head + Concat(parts[..n]))[k]
  {
    if k < |head| {
      AppendLeft(head, Concat(parts[..n]), k);
      AppendLeft(head, Concat(parts[..m]), k);
    } else {
      var j := k - |head|;
      ConcatKeeps(parts, n, m, j);
      AppendRight(head, Concat(parts[..n]), j);
      AppendRight(head, Concat(parts[..m]), j);
    }
  }

  lemma AppendLeft<T>(a: seq<T>, b: seq<T>, k: nat)
    requires k < |a|
    ensures (a + b)[k] == a[k]
  {
  }

  lemma AppendRight<T>(a: seq<T>, b: seq<T>, k: nat)
    requires k < |b|
    ensures |a| + k < |a + b| && (a + b)[|a| + k] == b[k]
  {
  }
}
