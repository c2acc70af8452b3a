/** Generic sequence helpers: positional access, prefixes, flattening. */
module Seqs {
  import opened Wrappers

  /** The element at position i, or None past the end. */
  function Nth<T>(s: seq<T>, i: nat): (r: Option<T>) {
    if i < |s| then Some(s[i]) else None
  }

  /** The first n elements, or all of s when it is shorter. */
  function Take<T>(s: seq<T>, n: nat): (r: seq<T>) {
    if |s| <= n then s else s[..n]
  }

  function Flatten<T>(ss: seq<seq<T>>): (r: seq<T>) {
    if |ss| == 0 then [] else ss[0] + Flatten(ss[1..])
  }

  /** Re-brackets a concatenation of three sequences. */
  lemma AppendAssoc<T>(a: seq<T>, b: seq<T>, c: seq<T>)
    ensures a + (b + c) == (a + b) + c
  {
  }

  /** Slicing a suffix is slicing the whole. */
  lemma SliceOfSuffix<T>(s: seq<T>, a: nat, k: nat)
    requires a + k <= |s|
    ensures s[a..][..k] == s[a..a + k]
    ensures s[a..][k..] == s[a + k..]
  {
  }

  lemma {:induction false} FlattenAppend<T>(a: seq<seq<T>>, b: seq<seq<T>>)
    ensures Flatten(a + b) == Flatten(a) + Flatten(b)
  {
    if |a| > 0 {
      assert (a + b)[1..] == a[1..] + b;
      FlattenAppend(a[1..], b);
    } else {
      assert a + b == b;
    }
  }

  /** Flattening non-empty parts yields at least one element per part. */
  lemma {:induction false} FlattenLength<T>(ss: seq<seq<T>>)
    requires forall i :: 0 <= i < |ss| ==> |ss[i]| > 0
    ensures |ss| <= |Flatten(ss)|
    ensures |Flatten(ss)| == 0 <==> |ss| == 0
  {
    if |ss| > 0 {
      FlattenLength(ss[1..]);
    }
  }

  /** Every element of a flattened sequence lies in one of the parts. */
  lemma {:induction false} FlattenMember<T>(ss: seq<seq<T>>, x: T)
    requires x in Flatten(ss)
    ensures exists i :: 0 <= i < |ss| && x in ss[i]
  {
    if x in ss[0] {
      assert x in ss[0];
    } else {
      FlattenMember(ss[1..], x);
      var i :| 0 <= i < |ss[1..]| && x in ss[1..][i];
      assert x in ss[i + 1];
    }
  }

  /** Every element of every part is in the flattened sequence. */
  lemma {:induction false} MemberFlatten<T>(ss: seq<seq<T>>, i: int, x: T)
    requires 0 <= i < |ss| && x in ss[i]
    ensures x in Flatten(ss)
  {
    if i > 0 {
      MemberFlatten(ss[1..], i - 1, x);
    }
  }
}
