/**
 * Facts about cutting lists, stated for any element type. Stating them once, generically,
 * spares the proofs about lists of strings and of nodes from comparing the elements
 * themselves.
 */
module Seqs {
  /** Any list is what comes before position `k`, the element there, and what follows. */
  lemma SplitAt<T>(s: seq<T>, k: nat)
    requires k < |s|
    ensures s == s[..k] + [s[k]] + s[k + 1..]
  {
  }

  /** The part of a list after position `i`, split at a later position `j`. */
  lemma TailAround<T>(s: seq<T>, i: nat, j: nat)
    requires i < j < |s|
    ensures s[i + 1..][j - i - 1] == s[j]
    ensures s[i + 1..][..j - i - 1] == s[i + 1..j]
    ensures s[i + 1..][j - i..] == s[j + 1..]
  {
  }

  /** One element longer prefix. */
  lemma PrefixStep<T>(s: seq<T>, i: nat)
    requires i < |s|
    ensures s[..i + 1] == s[..i] + [s[i]]
  {
  }

  lemma PrefixAll<T>(s: seq<T>)
    ensures s[..|s|] == s
  {
  }

  /** The prefix up to `j`, split at an earlier position `i`. */
  lemma PrefixSplit<T>(s: seq<T>, i: nat, j: nat)
    requires i < j <= |s|
    ensures s[..j] == s[..i] + [s[i]] + s[i + 1..j]
  {
  }

  /** Regrouping a concatenation of five lists. */
  lemma AppendFive<T>(a: seq<T>, b: seq<T>, c: seq<T>, d: seq<T>, e: seq<T>)
    ensures a + b + (c + d + e) == a + b + c + d + e
  {
  }

  /** A non-empty list is its first element followed by the rest. */
  lemma HeadTail<T>(s: seq<T>)
    requires s != []
    ensures s == [s[0]] + s[1..]
  {
  }

  /** The first element and the rest of a concatenation whose left part is not empty. */
  lemma ConsAppend<T>(a: seq<T>, b: seq<T>)
    requires a != []
    ensures (a + b)[0] == a[0] && (a + b)[1..] == a[1..] + b
  {
  }

  lemma EmptyAppend<T>(a: seq<T>, b: seq<T>)
    requires a == []
    ensures a + b == b
  {
  }

  lemma SingletonTail<T>(x: T)
    ensures [x][1..] == []
  {
  }

  /** A prefix one longer than a prefix of the tail. */
  lemma PrefixOfTail<T>(s: seq<T>, j: nat)
    requires j < |s|
    ensures s[..j + 1] == [s[0]] + s[1..][..j]
  {
  }

  /** A list split at two positions `i < j`. */
  lemma SplitTwo<T>(s: seq<T>, i: nat, j: nat)
    requires i < j < |s|
    ensures s == s[..i] + [s[i]] + s[i + 1..j] + [s[j]] + s[j + 1..]
    ensures s[..j] == s[..i] + [s[i]] + s[i + 1..j]
  {
  }

  /** Grouping the middle of five parts, the second and fourth single elements. */
  lemma GroupMiddle<T>(a: seq<T>, x: T, m: seq<T>, y: T, c: seq<T>)
    ensures a + [x] + m + [y] + c == a + ([x] + m + [y]) + c
  {
  }

  /** A list between two single elements: its ends and its inside. */
  lemma Bracketed<T>(x: T, m: seq<T>, y: T)
    ensures ([x] + m + [y])[0] == x
    ensures ([x] + m + [y])[|m| + 1] == y
    ensures ([x] + m + [y])[1..|m| + 1] == m
  {
  }

  /** The suffix from `i` is the element at `i` followed by the suffix from `i + 1`. */
  lemma SuffixStep<T>(s: seq<T>, i: nat)
    requires i < |s|
    ensures s[i..] == [s[i]] + s[i + 1..]
  {
  }

  /** Cutting a concatenation of three lists after the first. */
  lemma CutAfterFirst<T>(a: seq<T>, b: seq<T>, c: seq<T>)
    ensures (a + b + c)[..|a|] == a && (a + b + c)[|a|..] == b + c
  {
  }

  /** Cutting a concatenation of four lists after the first. */
  lemma CutAfterFirstOfFour<T>(a: seq<T>, b: seq<T>, c: seq<T>, d: seq<T>)
    ensures (a + b + c + d)[..|a|] == a && (a + b + c + d)[|a|..] == b + c + d
  {
  }

  /** Grouping the middle two of four lists. */
  lemma GroupInner<T>(a: seq<T>, b: seq<T>, c: seq<T>, d: seq<T>)
    ensures a + b + c + d == a + (b + c) + d
  {
  }

  /** A list is its prefix up to `k` followed by the rest. */
  lemma JoinAt<T>(s: seq<T>, k: nat)
    requires k <= |s|
    ensures s[0..k] + s[k..] == s
  {
  }

  /** Regrouping a concatenation of four lists to the right. */
  lemma AppendFour<T>(a: seq<T>, b: seq<T>, c: seq<T>, d: seq<T>)
    ensures a + b + c + d == a + (b + c + d)
  {
  }

  /** A slice of the suffix from `k` is a slice of the whole list, moved by `k`. */
  lemma SliceOfTail<T>(s: seq<T>, k: nat, a: nat, b: nat)
    requires k + a <= k + b <= |s|
    ensures s[k + a..k + b] == s[k..][a..b]
  {
  }

  /** Swapping the middle of a sequence for one with an element fewer. */
  lemma MultisetSwapMiddle<T>(a: seq<T>, x: seq<T>, y: seq<T>, c: seq<T>, e: T)
    requires multiset(x) == multiset(y) + multiset{e}
    ensures multiset(a + x + c) == multiset(a + y + c) + multiset{e}
  {
  }

  lemma MultisetAdd<T>(a: seq<T>, e: T, c: seq<T>)
    ensures multiset(a + [e] + c) == multiset(a + c) + multiset{e}
  {
  }

  lemma MultisetInsert<T>(a: seq<T>, e: T, m: seq<T>, c: seq<T>)
    ensures multiset(a + [e] + m + c) == multiset(a + m + c) + multiset{e}
  {
  }
}
