/** The free-block and free-inode flags (true = free): first-fit search and counting. */
module Bitmap {

  /** The lowest index in [from, |s|) whose flag is set, or -1 when there is none. */
  function FirstFree(s: seq<bool>, from: nat): (r: int)
    decreases |s| - from
    ensures r == -1 || (from <= r < |s| && s[r])
    ensures r == -1 ==> forall j :: from <= j < |s| ==> !s[j]
    ensures r != -1 ==> forall j :: from <= j < r ==> !s[j]
  {
    if from >= |s| then -1
    else if s[from] then from
    else FirstFree(s, from + 1)
  }

  /** Number of set flags in [lo, hi). */
  function CountFree(s: seq<bool>, lo: nat, hi: nat): (n: nat)
    requires lo <= hi <= |s|
    decreases hi - lo
    ensures n <= hi - lo
  {
    if lo == hi then 0 else CountFree(s, lo, hi - 1) + (if s[hi - 1] then 1 else 0)
  }

  /** Changing one flag changes the count by at most one, and only inside the range. */
  lemma {:induction false} CountFreeUpdate(s: seq<bool>, lo: nat, hi: nat, p: nat, v: bool)
    requires lo <= hi <= |s| && p < |s|
    ensures CountFree(s[p := v], lo, hi)
         == CountFree(s, lo, hi)
            - (if lo <= p < hi && s[p] then 1 else 0)
            + (if lo <= p < hi && v then 1 else 0)
    decreases hi - lo
  {
    if lo < hi {
      CountFreeUpdate(s, lo, hi - 1, p, v);
    }
  }

  /** The count is positive exactly when some flag in the range is set. */
  lemma {:induction false} CountFreePositive(s: seq<bool>, lo: nat, hi: nat)
    requires lo <= hi <= |s|
    ensures CountFree(s, lo, hi) > 0 <==> exists j :: lo <= j < hi && s[j]
    decreases hi - lo
  {
    if lo < hi {
      CountFreePositive(s, lo, hi - 1);
    }
  }

  /** With every flag set, the count is the length of the range. */
  lemma {:induction false} CountFreeAll(s: seq<bool>, lo: nat, hi: nat)
    requires lo <= hi <= |s|
    requires forall j :: lo <= j < hi ==> s[j]
    ensures CountFree(s, lo, hi) == hi - lo
    decreases hi - lo
  {
    if lo < hi {
      CountFreeAll(s, lo, hi - 1);
    }
  }

  /** The count depends only on the flags inside the range. */
  lemma {:induction false} CountFreeSame(s: seq<bool>, t: seq<bool>, lo: nat, hi: nat)
    requires lo <= hi <= |s| && hi <= |t|
    requires forall j :: lo <= j < hi ==> s[j] == t[j]
    ensures CountFree(s, lo, hi) == CountFree(t, lo, hi)
    decreases hi - lo
  {
    if lo < hi {
      CountFreeSame(s, t, lo, hi - 1);
    }
  }
}
