/**
  Shape facts about sequences, stated once for any element type so that the proofs
  about syntax trees and scans can cite them instead of rediscovering them.
 */
module Sequences {

  lemma AppendEmpty<T>(a: seq<T>, b: seq<T>)
    requires |b| == 0
    ensures a + b == a
  {
  }

  lemma DropLastOfAppend<T>(a: seq<T>, b: seq<T>)
    requires |b| > 0
    ensures (a + b)[..|a + b| - 1] == a + b[..|b| - 1]
  {
  }

  lemma SnocParts<T>(a: seq<T>, t: T)
    ensures (a + [t])[..|a|] == a && (a + [t])[|a|] == t
    ensures |a + [t]| - 1 == |a|
  {
  }

  lemma HeadTail<T>(s: seq<T>)
    requires |s| > 0
    ensures s == [s[0]] + s[1..]
  {
  }

  lemma ConsAppend<T>(a: seq<T>, b: seq<T>)
    requires |a| > 0
    ensures (a + b)[0] == a[0] && (a + b)[1..] == a[1..] + b
  {
  }

  lemma EmptyAppend<T>(a: seq<T>, b: seq<T>)
    requires |a| == 0
    ensures a + b == b
  {
  }

  lemma DropCons<T>(x: T, s: seq<T>)
    ensures ([x] + s)[0] == x && ([x] + s)[1..] == s
  {
  }

  lemma SplitAt<T>(s: seq<T>, k: nat)
    requires k <= |s|
    ensures s == s[..k] + s[k..]
  {
  }

  lemma PrefixSnoc<T>(a: seq<T>, b: seq<T>, j: nat)
    requires j < |b|
    ensures b[..j + 1] == b[..j] + [b[j]]
    ensures a + b[..j + 1] == (a + b[..j]) + [b[j]]
  {
  }

  lemma PrefixEmpty<T>(a: seq<T>, b: seq<T>)
    ensures a + b[..0] == a
  {
  }

  lemma PrefixWhole<T>(b: seq<T>)
    ensures b[..|b|] == b
  {
  }

  lemma IndexInAppend<T>(a: seq<T>, b: seq<T>, k: nat)
    ensures k < |a| ==> (a + b)[k] == a[k]
    ensures k < |b| ==> (a + b)[|a| + k] == b[k]
  {
  }

  lemma Assoc<T>(a: seq<T>, b: seq<T>, c: seq<T>)
    ensures (a + b) + c == a + (b + c)
  {
  }

  lemma Regroup5<T>(a: seq<T>, b: seq<T>, c: seq<T>, d: seq<T>, e: seq<T>)
    ensures a + b + c + d + e == a + (b + c) + (d + e)
  {
  }
}
