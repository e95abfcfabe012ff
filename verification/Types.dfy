/** Identifiers and result types shared by the modules. */
module Types {
  /** `PartitionId`, a 32-bit identifier. */
  type PartitionId = x: nat | x <= 0xFFFF_FFFF

  const U64_MAX: nat := 0xFFFF_FFFF_FFFF_FFFF

  type u64 = x: nat | x <= 0xFFFF_FFFF_FFFF_FFFF

  /** `saturating_sub(1)` of a counter. */
  function DropOne(n: nat): (r: nat)
    ensures r + 1 == n || r == n == 0
  {
    if n == 0 then 0 else n - 1
  }

  datatype Option<+T> = None | Some(value: T)

  datatype Result<+T, +E> = Ok(value: T) | Err(error: E)

  /** The numbers below `n`. */
  ghost function Below(n: nat): (r: set<nat>)
    ensures forall i: nat :: i in r <==> i < n
  {
    if n == 0 then {} else Below(n - 1) + {n - 1}
  }

  lemma {:induction false} BelowSize(n: nat)
    ensures |Below(n)| == n
  {
    if n > 0 { BelowSize(n - 1); }
  }

  lemma SubsetSize<T>(a: set<T>, b: set<T>)
    requires a <= b
    ensures |a| <= |b|
  {
    assert b == a + (b - a);
  }

  lemma SameSizeSubset<T>(a: set<T>, b: set<T>)
    requires a <= b && |a| == |b|
    ensures a == b
  {
    assert b == a + (b - a);
  }

  ghost predicate NoRepeats<T(!new)>(s: seq<T>) {
    forall j, k :: 0 <= j < k < |s| ==> s[j] != s[k]
  }

  /** Distinct elements drawn from `all` are at most as many as `all`. */
  lemma {:induction false} DistinctSize<T(!new)>(s: seq<T>, all: set<T>)
    requires NoRepeats(s) && forall k :: 0 <= k < |s| ==> s[k] in all
    ensures |s| <= |all|
  {
    if s != [] {
      DistinctSize(s[1..], all - {s[0]});
    }
  }
}
