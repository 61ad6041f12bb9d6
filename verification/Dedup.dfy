/** First-occurrence deduplication, the specification of the in-place loops that remove
    repeated numbers (mdCore/mdCommon.h, mdSignatureList.go). */
module Dedup {
  /** The elements of the first k in order, each only where it occurs first. */
  function FirstOccurrences(s: seq<int>, k: nat): (r: seq<int>)
    requires k <= |s|
    ensures |r| <= k
  {
    if k == 0 then []
    else if s[k - 1] in FirstOccurrences(s, k - 1) then FirstOccurrences(s, k - 1)
    else FirstOccurrences(s, k - 1) + [s[k - 1]]
  }

  predicate NoRepeats(s: seq<int>) {
    forall i, j :: 0 <= i < j < |s| ==> s[i] != s[j]
  }

  /** The elements whose position is the first one of their value, in order. */
  function AtFirstPosition(s: seq<int>, k: nat): seq<int>
    requires k <= |s|
  {
    if k == 0 then []
    else AtFirstPosition(s, k - 1) + (if s[k - 1] in s[..k - 1] then [] else [s[k - 1]])
  }

  lemma {:induction false} SameElements(s: seq<int>, k: nat, x: int)
    requires k <= |s|
    ensures x in FirstOccurrences(s, k) <==> x in s[..k]
  {
    if k != 0 {
      SameElements(s, k - 1, x);
      assert s[..k] == s[..k - 1] + [s[k - 1]];
    }
  }

  /** The result has the same elements, none twice, each in the place of its first occurrence. */
  lemma {:induction false} FirstOccurrencesProperties(s: seq<int>, k: nat)
    requires k <= |s|
    ensures NoRepeats(FirstOccurrences(s, k))
    ensures forall x :: x in FirstOccurrences(s, k) <==> x in s[..k]
    ensures FirstOccurrences(s, k) == AtFirstPosition(s, k)
  {
    forall x
      ensures x in FirstOccurrences(s, k) <==> x in s[..k]
    {
      SameElements(s, k, x);
    }
    if k != 0 {
      FirstOccurrencesProperties(s, k - 1);
      SameElements(s, k - 1, s[k - 1]);
    }
  }

  /** Deduplicating a list without repeats changes nothing. */
  lemma {:induction false} NoRepeatsUnchanged(s: seq<int>, k: nat)
    requires NoRepeats(s) && k <= |s|
    ensures FirstOccurrences(s, k) == s[..k]
  {
    if k != 0 {
      NoRepeatsUnchanged(s, k - 1);
      assert s[..k] == s[..k - 1] + [s[k - 1]];
    }
  }
}
