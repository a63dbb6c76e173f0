/** Building rules: slice layout (`proxy/router/rule.go`), numeric ranges (`proxy/router/numkey.go`), the
    hash and mod shards (`proxy/router/shard.go`) and the 1024-slot table (`proxy/router/shard_mycat.go`). */
module ShardTables {
  import opened Arithmetic
  import opened Lists
  import opened Rules

  /** Two's complement wrap-around of a 64-bit signed integer. */
  function Wrap64(x: int): (r: int)
    ensures IsInt64(r)
    ensures IsInt64(x) ==> r == x
  {
    var m := x % TWO_64;
    if m < TWO_63 then m else m - TWO_64
  }

  ghost predicate NonNegative(s: seq<int>) {
    forall i :: 0 <= i < |s| ==> s[i] >= 0
  }

  lemma SumStep(s: seq<int>, i: nat)
    requires i < |s|
    ensures Sum(s[..i + 1]) == Sum(s[..i]) + s[i]
  {
    assert s[..i + 1][..i] == s[..i];
  }

  lemma {:induction false} SumMonotone(s: seq<int>, i: nat, j: nat)
    requires NonNegative(s) && i <= j <= |s|
    ensures Sum(s[..i]) <= Sum(s[..j])
    decreases j
  {
    if i < j {
      SumStep(s, j - 1);
      SumMonotone(s, i, j - 1);
    }
  }

  // ---------------------------------------------------------------- slices

  /** Table j belongs to slice i exactly when i's cumulative bounds contain j. */
  ghost predicate SliceLayout(locations: seq<int>, n: nat, indexes: seq<int>, tableToSlice: map<int, int>)
    requires n <= |locations|
  {
    && indexes == MakeList(0, Sum(locations[..n]))
    && (forall j :: j in tableToSlice <==> 0 <= j < Sum(locations[..n]))
    && (forall j :: j in tableToSlice ==> 0 <= tableToSlice[j] < n)
    && (forall j :: j in tableToSlice ==>
          Sum(locations[..tableToSlice[j]]) <= j < Sum(locations[..tableToSlice[j] + 1]))
  }

  lemma MakeListAppend(n: nat)
    ensures MakeList(0, n) + [n] == MakeList(0, n + 1)
  {
    IncreasingUnique(MakeList(0, n) + [n], MakeList(0, n + 1)) by {
      forall i | 0 <= i < |MakeList(0, n)| ensures MakeList(0, n)[i] < n {
        assert MakeList(0, n)[i] in MakeList(0, n);
      }
    }
  }

  /** parseHashRuleSliceInfos: tables are numbered consecutively, slice after slice. */
  method ParseHashRuleSliceInfos(locations: seq<int>, slices: seq<string>)
    returns (r: Result<(seq<int>, map<int, int>)>)
    ensures r.Ok? <==> |locations| == |slices|
    ensures r.Ok? && NonNegative(locations) ==> SliceLayout(locations, |locations|, r.value.0, r.value.1)
  {
    if |locations| != |slices| {
      return Rejected;
    }
    var sumTables, subTableIndexes, tableToSlice := 0, [], map[];
    ghost var ok := NonNegative(locations);
    for i := 0 to |locations|
      invariant sumTables == Sum(locations[..i]) && (ok ==> sumTables >= 0)
      invariant ok ==> SliceLayout(locations, i, subTableIndexes, tableToSlice)
    {
      SumStep(locations, i);
      var j := 0;
      while j < locations[i]
        invariant 0 <= j && (ok ==> j <= locations[i])
        invariant ok ==> subTableIndexes == MakeList(0, sumTables + j)
        invariant ok ==> forall t :: t in tableToSlice <==> 0 <= t < sumTables + j
        invariant ok ==> forall t :: t in tableToSlice ==> 0 <= tableToSlice[t] <= i
        invariant ok ==> forall t :: t in tableToSlice ==>
                    Sum(locations[..tableToSlice[t]]) <= t < Sum(locations[..tableToSlice[t] + 1])
      {
        if ok { MakeListAppend(sumTables + j); }
        subTableIndexes := subTableIndexes + [j + sumTables];
        tableToSlice := tableToSlice[j + sumTables := i];
        j := j + 1;
      }
      sumTables := sumTables + locations[i];
    }
    assert locations[..|locations|] == locations;
    r := Ok((subTableIndexes, tableToSlice));
  }

  /** The slice of a table is the only one whose bounds contain it. */
  lemma SliceUnique(locations: seq<int>, i: nat, k: nat, j: int)
    requires NonNegative(locations) && i < |locations| && k < |locations|
    requires Sum(locations[..i]) <= j < Sum(locations[..i + 1]) && Sum(locations[..k]) <= j < Sum(locations[..k + 1])
    ensures i == k
  {
    if i < k {
      SumMonotone(locations, i + 1, k);
    } else if k < i {
      SumMonotone(locations, k + 1, i);
    }
  }

  // ---------------------------------------------------------------- shard functions

  /** HashShard on an integer key: the key as uint64, modulo the table count. */
  function HashFind(n: nat): int -> Result<int> {
    k => if n == 0 || !IsInt64(k) then Rejected else Ok((k % TWO_64) % n)
  }

  /** hack.Abs: leaves the least int64 negative. */
  function Abs64(k: int): int {
    if k < 0 then Wrap64(-k) else k
  }

  /** Go's `%`, which truncates toward zero. */
  function GoMod(a: int, n: int): int
    requires n > 0
  {
    if a >= 0 then a % n else -((-a) % n)
  }

  /** ModShard (also the mycat mod shard). */
  function ModFind(n: nat): int -> Result<int> {
    k => if n == 0 || !IsInt64(k) then Rejected else Ok(GoMod(Abs64(k), n))
  }

  ghost predicate Laid(rule: Rule, locations: seq<int>) {
    && NonNegative(locations) && |rule.slices| == |locations| && Sum(locations) > 0
    && locations[..|locations|] == locations
    && SliceLayout(locations, |locations|, rule.indexes, rule.tableToSlice)
  }

  lemma HashRuleValid(rule: Rule, locations: seq<int>)
    requires Laid(rule, locations) && rule.shard == Hashed(HashFind(Sum(locations)))
    ensures ValidRule(rule)
  {
    assert 0 in rule.indexes;
  }

  /** A mod rule sends every key to one of its tables exactly when the table count divides 2^63: otherwise
      the least int64, whose absolute value overflows, gets a negative index. */
  lemma ModRuleValidIff(rule: Rule, locations: seq<int>)
    requires Laid(rule, locations) && rule.shard == Hashed(ModFind(Sum(locations)))
    ensures ValidRule(rule) <==> TWO_63 % Sum(locations) == 0
  {
    var n := Sum(locations);
    assert 0 in rule.indexes;
    assert FindForKey(rule.shard, -TWO_63) == Ok(-(TWO_63 % n));
    if TWO_63 % n != 0 {
      assert -(TWO_63 % n) !in rule.indexes;
    } else {
      forall k | FindForKey(rule.shard, k).Ok? ensures FindForKey(rule.shard, k).value in rule.indexes {
        if k != -TWO_63 { assert Abs64(k) >= 0; }
      }
    }
  }

  // ---------------------------------------------------------------- numeric ranges

  /** ParseNumSharding: consecutive ranges of `limit` keys; 64-bit products wrap. */
  method ParseNumSharding(locations: seq<int>, limit: int) returns (ranges: seq<NumKeyRange>)
    requires Sum(locations) >= 0
    ensures |ranges| == Sum(locations)
    ensures forall i :: 0 <= i < |ranges| ==> ranges[i] == NumKeyRange(Wrap64(i * limit), Wrap64((i + 1) * limit))
  {
    var tableCount := 0;
    for i := 0 to |locations|
      invariant tableCount == Sum(locations[..i])
    {
      SumStep(locations, i);
      tableCount := tableCount + locations[i];
    }
    assert locations[..|locations|] == locations;
    ranges := [];
    for i := 0 to tableCount
      invariant |ranges| == i
      invariant forall k :: 0 <= k < i ==> ranges[k] == NumKeyRange(Wrap64(k * limit), Wrap64((k + 1) * limit))
    {
      ranges := ranges + [NumKeyRange(Wrap64(i * limit), Wrap64((i + 1) * limit))];
    }
  }

  ghost predicate ParsedRanges(ranges: seq<NumKeyRange>, limit: int) {
    && limit >= 1 && |ranges| * limit <= MAX_NUM_KEY
    && forall i :: 0 <= i < |ranges| ==> ranges[i] == NumKeyRange(Wrap64(i * limit), Wrap64((i + 1) * limit))
  }

  lemma RangeAt(ranges: seq<NumKeyRange>, limit: int, i: nat)
    requires ParsedRanges(ranges, limit) && i < |ranges|
    ensures ranges[i] == NumKeyRange(i * limit, (i + 1) * limit)
    ensures (i + 1) * limit <= MAX_NUM_KEY && i * limit < (i + 1) * limit
  {
    MulLe(i + 1, |ranges|, limit);
    assert i * limit + limit == (i + 1) * limit;
  }

  lemma MulLe(a: int, b: int, c: int)
    requires a <= b && c >= 0
    ensures a * c <= b * c
  {
  }

  lemma ParsedRangesOrdered(ranges: seq<NumKeyRange>, limit: int)
    requires ParsedRanges(ranges, limit)
    ensures OrderedRanges(ranges)
  {
    forall i | 0 <= i < |ranges| ensures ranges[i].start < ranges[i].end <= MAX_NUM_KEY {
      RangeAt(ranges, limit, i);
    }
    forall i, j | 0 <= i < j < |ranges| ensures ranges[i].end <= ranges[j].start {
      RangeAt(ranges, limit, i);
      RangeAt(ranges, limit, j);
      MulLe(i + 1, j, limit);
    }
  }

  /** The scan is division by the row limit on the configured span; off the span it fails, except that a
      span ending at the greatest key also takes that key. */
  lemma ScanIsDivision(ranges: seq<NumKeyRange>, limit: int, v: int)
    requires ParsedRanges(ranges, limit)
    ensures 0 <= v < |ranges| * limit ==> 0 <= v / limit < |ranges| && Scan(ranges, v, 0) == Ok(v / limit)
    ensures v < 0 || (v >= |ranges| * limit && |ranges| * limit < MAX_NUM_KEY) ==> Scan(ranges, v, 0).Rejected?
    ensures |ranges| > 0 && v >= |ranges| * limit == MAX_NUM_KEY ==> Scan(ranges, v, 0) == Ok(|ranges| - 1)
  {
    ParsedRangesOrdered(ranges, limit);
    ScanFinds(ranges, v, 0);
    if 0 <= v < |ranges| * limit {
      QuotientBounds(v, limit, |ranges|);
      RangeAt(ranges, limit, v / limit);
    } else if |ranges| > 0 && v >= |ranges| * limit == MAX_NUM_KEY {
      RangeAt(ranges, limit, |ranges| - 1);
    } else if Scan(ranges, v, 0).Ok? {
      var i := Scan(ranges, v, 0).value;
      RangeAt(ranges, limit, i);
      MulLe(i + 1, |ranges|, limit);
      MulLe(0, i, limit);
      assert false;
    }
  }

  lemma QuotientBounds(v: int, limit: int, n: nat)
    requires 0 <= v < n * limit && limit >= 1
    ensures 0 <= v / limit < n
    ensures v / limit * limit <= v < (v / limit + 1) * limit
  {
    var q := v / limit;
    assert v == q * limit + v % limit;
    assert (q + 1) * limit == q * limit + limit;
    if q >= n {
      MulLe(n, q, limit);
    }
  }

  const TWO_62: int := 0x4000_0000_0000_0000

  /** The bounds grow exactly as long as the products do not wrap. */
  lemma {:induction false} BoundsGrow(ranges: seq<NumKeyRange>, limit: int, i: nat)
    requires IsInt64(limit) && OrderedRanges(ranges) && i < |ranges|
    requires forall k :: 0 <= k < |ranges| ==> ranges[k] == NumKeyRange(Wrap64(k * limit), Wrap64((k + 1) * limit))
    ensures limit >= 1 && (i + 1) * limit <= MAX_NUM_KEY
  {
    assert ranges[i].start < ranges[i].end;
    if i == 0 {
      assert ranges[0] == NumKeyRange(0, limit);
    } else {
      BoundsGrow(ranges, limit, i - 1);
      assert i * limit + limit == (i + 1) * limit;
      MulLe(0, i, limit);
    }
  }

  /** A parsed range rule is in order, so that it sends every key it accepts to one of its tables, exactly when the
      row limit is positive and the last bound does not overflow. */
  lemma RangeRuleValidIff(rule: Rule, locations: seq<int>, limit: int)
    requires Laid(rule, locations) && rule.shard.NumRange? && |rule.shard.shards| == Sum(locations) && IsInt64(limit)
    requires forall k :: 0 <= k < |rule.shard.shards| ==>
               rule.shard.shards[k] == NumKeyRange(Wrap64(k * limit), Wrap64((k + 1) * limit))
    ensures ValidRule(rule) <==> limit >= 1 && Sum(locations) * limit <= MAX_NUM_KEY
  {
    var ranges := rule.shard.shards;
    assert 0 in rule.indexes;
    if limit >= 1 && Sum(locations) * limit <= MAX_NUM_KEY {
      ParsedRangesOrdered(ranges, limit);
      forall k | FindForKey(rule.shard, k).Ok? ensures FindForKey(rule.shard, k).value in rule.indexes {
        ScanFinds(ranges, k, 0);
      }
    } else if OrderedRanges(ranges) {
      BoundsGrow(ranges, limit, |ranges| - 1);
    }
  }

  /** Two tables of 2^62 rows: the last bound wraps to the least integer, and the second table gets no key. */
  lemma LastRangeWraps(rule: Rule)
    requires rule == Rule("id", [0, 1], map[0 := 0, 1 := 0], ["s"], map[],
                          NumRange([NumKeyRange(0, TWO_62), NumKeyRange(TWO_62, -TWO_63)]))
    ensures Laid(rule, [2]) && Wrap64(2 * TWO_62) == -TWO_63
    ensures FindForKey(rule.shard, TWO_62).Rejected? && !ValidRule(rule)
  {
    assert [2][..1] == [2] && [2][..0] == [];
    assert Sum([2]) == 2;
    assert MakeList(2, 2) == [] && MakeList(1, 2) == [1] && MakeList(0, 2) == [0, 1];
    var shards := rule.shard.shards;
    assert Scan(shards, TWO_62, 2).Rejected?;
    assert Scan(shards, TWO_62, 1).Rejected?;
    assert Scan(shards, TWO_62, 0).Rejected?;
    RangeRuleValidIff(rule, [2], TWO_62);
  }

  /** Three tables by `mod`: the least 64-bit key gets index -2, which is no table. */
  lemma ModLeastKey(rule: Rule)
    requires rule == Rule("id", [0, 1, 2], map[0 := 0, 1 := 0, 2 := 0], ["s"], map[], Hashed(ModFind(3)))
    ensures Laid(rule, [3]) && FindForKey(rule.shard, -TWO_63) == Ok(-2) && !ValidRule(rule)
  {
    assert [3][..1] == [3] && [3][..0] == [];
    assert Sum([3]) == 3;
    assert MakeList(3, 3) == [] && MakeList(2, 3) == [2] && MakeList(1, 3) == [1, 2] && MakeList(0, 3) == [0, 1, 2];
    assert TWO_63 % 3 == 2;
    assert FindForKey(rule.shard, -TWO_63) == Ok(-2);
  }
}
