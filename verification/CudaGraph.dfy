/**
  The table that pads a batch size to a captured CUDA-graph size: its in-place construction
  (`init_with_cudagraph_sizes`), its lookup and the default lists of capture sizes.
 */
module CudaGraph {
  import opened Wrappers
  import opened OrderedKeys

  ghost predicate Descending(s: seq<nat>) {
    forall i, j :: 0 <= i < j < |s| ==> s[i] >= s[j]
  }

  /** A graph size to pad to: a captured size, or 0 for the empty batch. */
  ghost predicate GraphSize(sizes: seq<nat>, s: nat) {
    s == 0 || s in sizes
  }

  /** `r` is the least graph size that is at least `b`. */
  ghost predicate IsPad(sizes: seq<nat>, b: nat, r: nat) {
    GraphSize(sizes, r) && b <= r && forall s: nat :: GraphSize(sizes, s) && b <= s ==> r <= s
  }

  function InsertDescending(s: seq<nat>, x: nat): (r: seq<nat>)
    ensures multiset(r) == multiset(s) + multiset{x}
  {
    if s == [] || x >= s[0] then [x] + s
    else
      assert s == [s[0]] + s[1..];
      [s[0]] + InsertDescending(s[1..], x)
  }

  lemma {:induction false} InsertDescendingSorted(s: seq<nat>, x: nat)
    requires Descending(s)
    ensures Descending(InsertDescending(s, x))
  {
    if s != [] && x < s[0] {
      InsertDescendingSorted(s[1..], x);
      var rest := InsertDescending(s[1..], x);
      forall i | 0 <= i < |rest|
        ensures s[0] >= rest[i]
      {
        assert rest[i] in multiset(rest);
        assert rest[i] == x || rest[i] in multiset(s[1..]);
      }
    }
  }

  /** `list.sort(reverse=True)`. */
  method SortDescending(s: seq<nat>) returns (r: seq<nat>)
    ensures Descending(r) && multiset(r) == multiset(s)
  {
    r := [];
    for k := 0 to |s|
      invariant Descending(r) && multiset(r) == multiset(s[..k])
    {
      InsertDescendingSorted(r, s[k]);
      r := InsertDescending(r, s[k]);
      assert s[..k + 1] == s[..k] + [s[k]];
    }
    assert s[..|s|] == s;
  }

  /** `list(set(s))`: each element once. */
  method Deduplicate(s: seq<nat>) returns (r: seq<nat>)
    ensures Distinct(r) && Elems(r) == Elems(s)
  {
    r := [];
    for k := 0 to |s|
      invariant Distinct(r) && Elems(r) == Elems(s[..k])
    {
      assert s[..k + 1] == s[..k] + [s[k]];
      ElemsConcat(s[..k], [s[k]]);
      ElemsConcat(r, [s[k]]);
      if s[k] !in r {
        r := r + [s[k]];
      } else {
        assert s[k] in Elems(r);
      }
    }
    assert s[..|s|] == s;
  }

  class CompilationConfig {
    var captureSizes: Option<seq<nat>>
    var maxCaptureSize: nat
    var table: array<nat>

    constructor (configured: Option<seq<nat>>)
      ensures captureSizes == configured && fresh(table)
    {
      captureSizes := configured;
      maxCaptureSize := 0;
      table := new nat[0];
    }

    /** The table answers every batch size up to the largest captured one. */
    ghost predicate Ready()
      reads this, table
    {
      && captureSizes.Some? && Descending(captureSizes.value)
      && maxCaptureSize == (if captureSizes.value == [] then 0 else captureSizes.value[0])
      && table.Length == maxCaptureSize + 1
      && forall b :: 0 <= b <= maxCaptureSize ==> IsPad(captureSizes.value, b, table[b])
    }

    /** The smallest size of the `j`-th pair of neighbouring sizes, closed off by 0. */
    static function Start(sizes: seq<nat>, j: nat): nat {
      if j < |sizes| then sizes[j] else 0
    }

    static lemma PadInGap(sizes: seq<nat>, j: nat, b: nat)
      requires Descending(sizes) && j < |sizes| && Start(sizes, j + 1) <= b < sizes[j]
      ensures IsPad(sizes, b, if b == Start(sizes, j + 1) then b else sizes[j])
    {
    }

    /**
      Sizes from the configuration, without duplicates, override the given ones; the table then
      holds, for every batch size up to the largest, the least graph size not below it.
     */
    method InitWithCudagraphSizes(given: seq<nat>)
      modifies this
      ensures Ready() && fresh(table)
      ensures Elems(captureSizes.value) == Elems(if old(captureSizes).Some? then old(captureSizes).value else given)
      ensures if old(captureSizes).Some? then Distinct(captureSizes.value) else multiset(captureSizes.value) == multiset(given)
    {
      var sizes := given;
      if captureSizes.Some? {
        sizes := Deduplicate(captureSizes.value);
      }
      ghost var unsorted := sizes;
      sizes := SortDescending(sizes);
      MultisetElems(sizes, unsorted);
      if captureSizes.Some? {
        SameMultisetDistinct(unsorted, sizes);
      }
      captureSizes := Some(sizes);
      maxCaptureSize := if sizes != [] then sizes[0] else 0;
      table := new nat[maxCaptureSize + 1](_ => 0);
      for j := 0 to |sizes|
        invariant captureSizes == Some(sizes) && maxCaptureSize == Start(sizes, 0)
        invariant fresh(table) && table.Length == maxCaptureSize + 1
        invariant forall b :: Start(sizes, j) <= b < maxCaptureSize ==> IsPad(sizes, b, table[b])
      {
        var end, start := sizes[j], Start(sizes, j + 1);
        assert end <= maxCaptureSize;
        for bs := start to end
          invariant captureSizes == Some(sizes) && maxCaptureSize == Start(sizes, 0)
          invariant fresh(table) && table.Length == maxCaptureSize + 1
          invariant forall b :: start <= b < bs ==> IsPad(sizes, b, table[b])
          invariant forall b :: end <= b < maxCaptureSize ==> IsPad(sizes, b, table[b])
        {
          PadInGap(sizes, j, bs);
          table[bs] := if bs == start then start else end;
        }
      }
      table[maxCaptureSize] := maxCaptureSize;
      forall s: nat | GraphSize(sizes, s) && maxCaptureSize <= s
        ensures maxCaptureSize <= s
      {
      }
    }

    /** `pad_for_cudagraph`; None stands for the IndexError above the largest captured size. */
    method PadForCudagraph(batchSize: nat) returns (r: Option<nat>)
      requires Ready()
      ensures r.Some? <==> batchSize <= maxCaptureSize
      ensures r.Some? ==> IsPad(captureSizes.value, batchSize, r.value)
    {
      r := if batchSize < table.Length then Some(table[batchSize]) else None;
    }
  }

  lemma MultisetElems(a: seq<nat>, b: seq<nat>)
    requires multiset(a) == multiset(b)
    ensures Elems(a) == Elems(b)
  {
    forall x: nat
      ensures x in a <==> x in b
    {
      assert x in a <==> x in multiset(a);
      assert x in b <==> x in multiset(b);
    }
  }

  /** Padding is monotone, and padding a padded size changes nothing. */
  lemma PadMonotoneIdempotent(sizes: seq<nat>, b: nat, c: nat, rb: nat, rc: nat)
    requires IsPad(sizes, b, rb) && IsPad(sizes, c, rc)
    ensures b <= c ==> rb <= rc
    ensures forall r :: IsPad(sizes, rb, r) ==> r == rb
    ensures IsPad(sizes, rb, rb)
  {
  }

  // ---------------------------------------------------------------------------------------
  // The default capture sizes
  // ---------------------------------------------------------------------------------------

  function MultiplesOf8(n: nat): (r: seq<nat>)
    ensures |r| == n && forall i :: 0 <= i < n ==> r[i] == 8 * (i + 1)
  {
    if n == 0 then [] else MultiplesOf8(n - 1) + [8 * n]
  }

  /** `[1, 2, 4] + [8 * i for i in range(1, 1025)]`. */
  function PossibleSizes(): seq<nat> {
    [1, 2, 4] + MultiplesOf8(1024)
  }

  function AtLeast(s: seq<nat>, m: int): (r: seq<nat>)
    ensures forall x :: x in r <==> x in s && x >= m
  {
    if s == [] then [] else (if s[0] >= m then [s[0]] else []) + AtLeast(s[1..], m)
  }

  function AtMost(s: seq<nat>, m: int): (r: seq<nat>)
    ensures forall x :: x in r <==> x in s && x <= m
  {
    if s == [] then [] else (if s[0] <= m then [s[0]] else []) + AtMost(s[1..], m)
  }

  /** The default list of the first-generation engine. */
  function V0Sizes(enforceEager: bool, maxNumSeqs: int): (r: seq<nat>) {
    if enforceEager then []
    else
      var possible := PossibleSizes();
      var larger := AtLeast(possible, maxNumSeqs);
      var largest := if larger != [] then larger[0] else possible[|possible| - 1];
      AtMost(possible, largest)
  }

  /** The default list of the second-generation engine: `[1, 2, 4] + range(8, 513, 8)`. */
  function V1Sizes(enforceEager: bool): (r: seq<nat>) {
    if enforceEager then [] else [1, 2, 4] + MultiplesOf8(64)
  }

  ghost predicate Allowed(s: nat) {
    s == 1 || s == 2 || s == 4 || (s > 0 && s % 8 == 0)
  }

  lemma InPossible(n: nat, s: nat)
    ensures s in [1, 2, 4] + MultiplesOf8(n) <==> Allowed(s) && (s <= 4 || s <= 8 * n)
  {
  }

  lemma {:induction false} FirstAtLeast(s: seq<nat>, m: int)
    requires forall i, j :: 0 <= i < j < |s| ==> s[i] <= s[j]
    requires AtLeast(s, m) != []
    ensures AtLeast(s, m)[0] in s && AtLeast(s, m)[0] >= m
    ensures forall x :: x in s && x >= m ==> AtLeast(s, m)[0] <= x
  {
    if s[0] < m {
      FirstAtLeast(s[1..], m);
    }
  }

  lemma {:induction false} NoneAtLeast(s: seq<nat>, m: int)
    requires forall i :: 0 <= i < |s| ==> s[i] < m
    ensures AtLeast(s, m) == []
  {
    if s != [] {
      NoneAtLeast(s[1..], m);
    }
  }

  /** The least allowed size not below the limit on sequences, or 8192 when there is none. */
  function LargestDefault(maxNumSeqs: int): (r: nat)
    ensures Allowed(r) && r <= 8192
    ensures if maxNumSeqs <= 8192 then maxNumSeqs <= r && forall x: nat :: Allowed(x) && maxNumSeqs <= x ==> r <= x
            else r == 8192
  {
    if maxNumSeqs <= 1 then 1
    else if maxNumSeqs <= 2 then 2
    else if maxNumSeqs <= 4 then 4
    else if maxNumSeqs <= 8192 then (maxNumSeqs + 7) / 8 * 8
    else 8192
  }

  /** The first-generation default is every allowed size up to the first one not below the limit on sequences. */
  lemma V0Members(maxNumSeqs: int, s: nat)
    ensures s in V0Sizes(false, maxNumSeqs) <==> Allowed(s) && s <= LargestDefault(maxNumSeqs)
  {
    var possible, largest := PossibleSizes(), LargestDefault(maxNumSeqs);
    var larger := AtLeast(possible, maxNumSeqs);
    InPossible(1024, s);
    InPossible(1024, largest);
    if maxNumSeqs <= 8192 {
      assert largest in larger;
      FirstAtLeast(possible, maxNumSeqs);
      InPossible(1024, larger[0]);
      assert larger[0] == largest;
    } else {
      forall i | 0 <= i < |possible|
        ensures possible[i] < maxNumSeqs
      {
        InPossible(1024, possible[i]);
      }
      NoneAtLeast(possible, maxNumSeqs);
      assert possible[|possible| - 1] == 8192;
    }
  }

  /** Some allowed size lies within 7 of any positive batch size. */
  lemma AllowedNearby(b: nat, largest: nat) returns (s: nat)
    requires 1 <= b <= largest && Allowed(largest)
    ensures Allowed(s) && b <= s <= b + 7 && s <= largest
  {
    if b <= 2 {
      s := b;
    } else if b <= 4 {
      s := 4;
    } else {
      s := (b + 7) / 8 * 8;
      assert s % 8 == 0;
    }
  }

  /**
    With the first-generation default and any limit on sequences, exactly the batches up to the
    largest size can be padded, these include all up to the limit as long as it is at most 8192, and
    no padding wastes more than 7 slots.
   */
  lemma V0Covers(maxNumSeqs: int, b: nat)
    ensures (exists r: nat :: IsPad(V0Sizes(false, maxNumSeqs), b, r)) <==> b <= LargestDefault(maxNumSeqs)
    ensures maxNumSeqs <= LargestDefault(maxNumSeqs) <==> maxNumSeqs <= 8192
    ensures forall r: nat :: IsPad(V0Sizes(false, maxNumSeqs), b, r) ==> r <= b + 7
  {
    var sizes, largest := V0Sizes(false, maxNumSeqs), LargestDefault(maxNumSeqs);
    forall s: nat
      ensures s in sizes <==> Allowed(s) && s <= largest
    {
      V0Members(maxNumSeqs, s);
    }
    if 1 <= b <= largest {
      var s := AllowedNearby(b, largest);
      assert GraphSize(sizes, s);
      var r := LeastPad(sizes, b, s);
    } else if b == 0 {
      assert IsPad(sizes, 0, 0);
    }
  }

  /** Below some graph size there is a least one. */
  lemma {:induction false} LeastPad(sizes: seq<nat>, b: nat, bound: nat) returns (r: nat)
    requires GraphSize(sizes, bound) && b <= bound
    ensures IsPad(sizes, b, r)
    decreases bound
  {
    if s: nat :| GraphSize(sizes, s) && b <= s < bound {
      r := LeastPad(sizes, b, s);
    } else {
      r := bound;
    }
  }

  /** The second-generation default pads exactly the batches up to 512 and wastes at most 7 slots on each. */
  lemma V1Covers(b: nat)
    ensures (exists r: nat :: IsPad(V1Sizes(false), b, r)) <==> b <= 512
    ensures forall r: nat :: IsPad(V1Sizes(false), b, r) ==> r <= b + 7
  {
    var sizes := V1Sizes(false);
    forall s: nat
      ensures s in sizes <==> Allowed(s) && s <= 512
    {
      InPossible(64, s);
    }
    if 1 <= b <= 512 {
      var s := AllowedNearby(b, 512);
      assert GraphSize(sizes, s);
      var r := LeastPad(sizes, b, s);
    } else if b == 0 {
      assert IsPad(sizes, 0, 0);
    }
  }

  /** In eager mode no graph is captured, and only the empty batch has a padding. */
  lemma EagerCapturesNothing(maxNumSeqs: int, b: nat)
    ensures V0Sizes(true, maxNumSeqs) == V1Sizes(true) == []
    ensures (exists r: nat :: IsPad([], b, r)) <==> b == 0
  {
    assert IsPad([], 0, 0);
  }
}
