/** MycatPartitionLongShard of `proxy/router/shard_mycat.go`: partition counts and lengths become a
    1024-slot table, and a key is looked up by its low ten bits. */
module SegmentTable {
  import opened Arithmetic
  import opened Lists
  import opened Rules
  import opened ShardTables

  const PARTITION_LENGTH: int := 1024

  /** The length of every partition: lengths[i] repeated counts[i] times. */
  function Expand(counts: seq<int>, lengths: seq<int>): (parts: seq<int>)
    requires |counts| == |lengths| && NonNegative(counts)
    ensures |parts| == Sum(counts)
    ensures NonNegative(lengths) ==> NonNegative(parts)
  {
    if counts == [] then []
    else
      var n := |counts| - 1;
      Expand(counts[..n], lengths[..n]) + Repeat(lengths[n], counts[n])
  }

  lemma {:induction false} ExpandAt(counts: seq<int>, lengths: seq<int>, i: nat, j: nat)
    requires |counts| == |lengths| && NonNegative(counts) && i < |counts| && j < counts[i]
    ensures 0 <= Sum(counts[..i]) + j < Sum(counts)
    ensures Expand(counts, lengths)[Sum(counts[..i]) + j] == lengths[i]
  {
    var n := |counts| - 1;
    SumMonotone(counts, 0, i);
    if i < n {
      ExpandAt(counts[..n], lengths[..n], i, j);
      assert counts[..n][..i] == counts[..i];
    }
  }

  /** Slot j lies within the cumulative bounds of partition i. */
  ghost predicate Owns(parts: seq<int>, i: int, j: int) {
    0 <= i < |parts| && Sum(parts[..i]) <= j < Sum(parts[..i + 1])
  }

  /** The last of the first n partitions that slot j lies within; with negative lengths there can be several. */
  ghost predicate LastOwner(parts: seq<int>, n: nat, i: int, j: int) {
    i < n && Owns(parts, i, j) && forall k :: i < k < n ==> !Owns(parts, k, j)
  }

  /** A partition with slots that the table does not have. */
  ghost predicate Spills(parts: seq<int>, i: int) {
    && 0 <= i < |parts| && Sum(parts[..i]) < Sum(parts[..i + 1])
    && (Sum(parts[..i]) < 0 || Sum(parts[..i + 1]) > PARTITION_LENGTH)
  }

  /** Every slot below the last bound is crossed upwards by some partition. */
  lemma {:induction false} Crossed(parts: seq<int>, n: nat, j: int) returns (i: int)
    requires n <= |parts| && 0 <= j < Sum(parts[..n])
    ensures i < n && Owns(parts, i, j)
    decreases n
  {
    assert parts[..0] == [];
    if j < Sum(parts[..n - 1]) {
      i := Crossed(parts, n - 1, j);
    } else {
      i := n - 1;
    }
  }

  /** A loop over a negative count runs no rounds. */
  function Clip(counts: seq<int>): (r: seq<int>)
    ensures |r| == |counts| && NonNegative(r)
  {
    seq(|counts|, i requires 0 <= i < |counts| => if counts[i] < 0 then 0 else counts[i])
  }

  lemma {:induction false} ClipSum(counts: seq<int>)
    ensures Sum(Clip(counts)) >= Sum(counts)
    ensures Sum(Clip(counts)) == Sum(counts) <==> NonNegative(counts)
  {
    if counts != [] {
      var n := |counts| - 1;
      ClipSum(counts[..n]);
      assert Clip(counts)[..n] == Clip(counts[..n]);
      assert NonNegative(counts) <==> NonNegative(counts[..n]) && counts[n] >= 0;
    }
  }

  lemma ClipSame(counts: seq<int>)
    requires NonNegative(counts)
    ensures Clip(counts) == counts
  {
  }

  /** The inner loop of Init: one start per round; a write beyond the end of the array panics. */
  method NextStarts(ai: array<int>, index: nat, count: int, length: int, ghost parts: seq<int>)
    returns (ok: bool, next: nat)
    requires var rounds := if count < 0 then 0 else count;
             index + rounds <= |parts| && forall k :: index <= k < index + rounds ==> parts[k] == length
    requires index < ai.Length && forall k :: 0 <= k <= index ==> ai[k] == Sum(parts[..k])
    modifies ai
    ensures next == index + if count < 0 then 0 else count
    ensures ok <==> next < ai.Length
    ensures ok ==> forall k :: 0 <= k <= next ==> ai[k] == Sum(parts[..k])
  {
    var j := 0;
    next := index;
    while j < count
      invariant 0 <= j && (j <= count || j == 0) && next == index + j < ai.Length
      invariant forall k :: 0 <= k <= next ==> ai[k] == Sum(parts[..k])
    {
      if next + 1 >= ai.Length { return false, index + count; }
      SumStep(parts, next);
      ai[next + 1] := ai[next] + length;
      next := next + 1;
      j := j + 1;
    }
    ok := true;
  }

  lemma RoundsAt(counts: seq<int>, lengths: seq<int>, i: nat)
    requires |counts| == |lengths| && NonNegative(counts) && i < |counts|
    ensures 0 <= Sum(counts[..i]) && Sum(counts[..i]) + counts[i] == Sum(counts[..i + 1]) <= Sum(counts)
    ensures forall k :: Sum(counts[..i]) <= k < Sum(counts[..i + 1]) ==> Expand(counts, lengths)[k] == lengths[i]
  {
    SumStep(counts, i);
    SumMonotone(counts, 0, i);
    assert counts[..0] == [];
    SumMonotone(counts, i + 1, |counts|);
    assert counts[..|counts|] == counts;
    forall k | Sum(counts[..i]) <= k < Sum(counts[..i + 1]) ensures Expand(counts, lengths)[k] == lengths[i] {
      ExpandAt(counts, lengths, i, k - Sum(counts[..i]));
    }
  }

  /** Cumulative starts, the `ai` array of Init. */
  method CumulativeStarts(counts: seq<int>, lengths: seq<int>, n: int) returns (ok: bool, ai: array<int>)
    requires |counts| == |lengths| && n == Sum(counts)
    ensures ok <==> NonNegative(counts)
    ensures ok ==> fresh(ai) && ai.Length == n + 1
    ensures ok ==> forall k :: 0 <= k <= n ==> ai[k] == Sum(Expand(counts, lengths)[..k])
  {
    ghost var rounds := Clip(counts);
    ghost var parts := Expand(rounds, lengths);
    ClipSum(counts);
    assert rounds[..|rounds|] == rounds;
    if n < 0 {
      SumMonotone(rounds, 0, |rounds|);
      assert rounds[..0] == [];
      return false, new int[0];
    }
    ai := new int[n + 1](_ => 0);
    var index := 0;
    ok := true;
    for i := 0 to |counts|
      invariant index == Sum(rounds[..i]) <= n && ok && fresh(ai) && ai.Length == n + 1
      invariant forall k :: 0 <= k <= index ==> ai[k] == Sum(parts[..k])
    {
      RoundsAt(rounds, lengths, i);
      ok, index := NextStarts(ai, index, counts[i], lengths[i], parts);
      if !ok { return; }
    }
    ClipSame(counts);
  }

  datatype Outcome = Built(segment: seq<int>) | Refused | Panicked

  /** Init, for any integers. Refused when the lists disagree, the counts do not add up to the shard count, or the
      lengths not to 1024. A negative count makes it write beyond its starts; a negative length may make it write
      outside the table. Otherwise each slot names the last partition it lies within. */
  method Init(shardNum: int, counts: seq<int>, lengths: seq<int>) returns (r: Outcome)
    ensures r.Refused? <==> |counts| != |lengths| || Sum(counts) != shardNum
                            || (NonNegative(counts) && Sum(Expand(counts, lengths)) != PARTITION_LENGTH)
    ensures r.Panicked? <==> |counts| == |lengths| && Sum(counts) == shardNum
                             && (NonNegative(counts) ==> Sum(Expand(counts, lengths)) == PARTITION_LENGTH
                                                         && exists i :: Spills(Expand(counts, lengths), i))
    ensures r.Built? ==> |r.segment| == PARTITION_LENGTH && |counts| == |lengths| && NonNegative(counts)
    ensures r.Built? ==> forall j, i :: 0 <= j < PARTITION_LENGTH ==>
              (r.segment[j] == i <==> LastOwner(Expand(counts, lengths), |Expand(counts, lengths)|, i, j))
  {
    if |counts| != |lengths| {
      return Refused;
    }
    var segmentLength := 0;
    for i := 0 to |counts|
      invariant segmentLength == Sum(counts[..i])
    {
      SumStep(counts, i);
      segmentLength := segmentLength + counts[i];
    }
    assert counts[..|counts|] == counts;
    if segmentLength != shardNum {
      return Refused;
    }
    var ok, ai := CumulativeStarts(counts, lengths, segmentLength);
    if !ok {
      return Panicked;
    }
    ghost var parts := Expand(counts, lengths);
    assert parts[..|parts|] == parts;
    if ai[ai.Length - 1] != PARTITION_LENGTH {
      return Refused;
    }
    r := FillSegment(ai, parts);
  }

  method FillSegment(ai: array<int>, ghost parts: seq<int>) returns (r: Outcome)
    requires ai.Length == |parts| + 1
    requires forall k :: 0 <= k <= |parts| ==> ai[k] == Sum(parts[..k])
    requires ai[|parts|] == PARTITION_LENGTH
    ensures !r.Refused? && (r.Panicked? <==> exists i :: Spills(parts, i))
    ensures r.Built? ==> |r.segment| == PARTITION_LENGTH
    ensures r.Built? ==> forall j, i :: 0 <= j < PARTITION_LENGTH ==>
              (r.segment[j] == i <==> LastOwner(parts, |parts|, i, j))
  {
    var segment := new int[PARTITION_LENGTH](_ => 0);
    for i := 1 to ai.Length
      invariant forall k :: 0 <= k < i - 1 ==> !Spills(parts, k)
      invariant forall t :: 0 <= t < PARTITION_LENGTH ==> Filled(parts, i - 1, t, segment[t])
    {
      var j := ai[i - 1];
      while j < ai[i]
        invariant ai[i - 1] <= j && (j <= ai[i] || j == ai[i - 1])
        invariant ai[i - 1] < j ==> 0 <= ai[i - 1] && j <= PARTITION_LENGTH
        invariant forall t :: 0 <= t < PARTITION_LENGTH ==>
                    if ai[i - 1] <= t < j then segment[t] == i - 1 else Filled(parts, i - 1, t, segment[t])
      {
        if j < 0 || j >= PARTITION_LENGTH {
          assert Spills(parts, i - 1);
          return Panicked;
        }
        segment[j] := i - 1;
        j := j + 1;
      }
      assert !Spills(parts, i - 1);
      forall t | 0 <= t < PARTITION_LENGTH ensures Filled(parts, i, t, segment[t]) {
        FilledStep(parts, i - 1, t, segment[t]);
      }
    }
    r := Built(segment[..]);
    forall j, i | 0 <= j < PARTITION_LENGTH ensures segment[j] == i <==> LastOwner(parts, |parts|, i, j) {
      assert parts[..|parts|] == parts;
      var k := Crossed(parts, |parts|, j);
      assert Filled(parts, |parts|, j, segment[j]);
    }
  }

  /** What slot t holds after the first n partitions: its last owner, if it has one. */
  ghost predicate Filled(parts: seq<int>, n: nat, t: int, held: int) {
    (exists i :: i < n && Owns(parts, i, t)) ==> LastOwner(parts, n, held, t)
  }

  lemma FilledStep(parts: seq<int>, n: nat, t: int, held: int)
    requires n < |parts|
    requires if Owns(parts, n, t) then held == n else Filled(parts, n, t, held)
    ensures Filled(parts, n + 1, t, held)
  {
  }

  // ---------------------------------------------------------------- lookup

  const AND_VALUE: nat := 1023

  /** `a & b`, bit by bit from the lowest. */
  function BitAnd(a: nat, b: nat): nat {
    if a == 0 || b == 0 then 0
    else (if a % 2 == 1 && b % 2 == 1 then 1 else 0) + 2 * BitAnd(a / 2, b / 2)
  }

  function Ones(n: nat): nat { if n == 0 then 0 else 1 + 2 * Ones(n - 1) }

  /** The remainder by the n-th power of two, bit by bit. */
  function LowBits(a: nat, n: nat): nat
    decreases n
  {
    if n == 0 then 0 else a % 2 + 2 * LowBits(a / 2, n - 1)
  }

  lemma {:induction false} MaskIsLowBits(a: nat, n: nat)
    ensures BitAnd(a, Ones(n)) == LowBits(a, n)
    decreases n
  {
    if n > 0 && a > 0 {
      MaskIsLowBits(a / 2, n - 1);
      MaskStep(a, n);
    } else if n > 0 {
      MaskIsLowBits(0, n - 1);
      assert BitAnd(0, Ones(n - 1)) == 0;
    }
  }

  lemma {:induction false} LowBitsIsRemainder(a: nat, n: nat)
    ensures LowBits(a, n) == a % (Ones(n) + 1)
    decreases n
  {
    if n > 0 {
      LowBitsIsRemainder(a / 2, n - 1);
      HalfRemainder(a, Ones(n - 1) + 1, LowBits(a / 2, n - 1));
      assert Ones(n) + 1 == 2 * (Ones(n - 1) + 1);
    }
  }

  /** Masking with n ones is the remainder by the n-th power of two. */
  lemma MaskIsRemainder(a: nat, n: nat)
    ensures BitAnd(a, Ones(n)) == a % (Ones(n) + 1)
  {
    MaskIsLowBits(a, n);
    LowBitsIsRemainder(a, n);
  }

  lemma MaskStep(a: nat, n: nat)
    requires n > 0 && a > 0
    ensures BitAnd(a, Ones(n)) == a % 2 + 2 * BitAnd(a / 2, Ones(n - 1))
  {
    assert Ones(n) % 2 == 1 && Ones(n) / 2 == Ones(n - 1);
  }

  lemma HalfRemainder(a: nat, m: nat, h: nat)
    requires m > 0 && h == a / 2 % m
    ensures a % (2 * m) == a % 2 + 2 * h
  {
    var q := a / 2 / m;
    assert 2 * m * q == 2 * (m * q);
    Remainder(a, 2 * m, q, 2 * h + a % 2);
  }

  /** The bit pattern of a 64-bit integer. */
  function Pattern(k: int): nat { k % TWO_64 }

  /** FindForKey: the low ten bits of the key's two's complement select the slot. */
  function FindLong(segment: seq<int>): int -> Result<int>
    requires |segment| == PARTITION_LENGTH
  {
    k => if !IsInt64(k) || BitAnd(Pattern(k), AND_VALUE) >= |segment| then Rejected
         else Ok(segment[BitAnd(Pattern(k), AND_VALUE)])
  }

  /** For every 64-bit key, negative ones included, the mask is the remainder modulo 1024, so the lookup succeeds. */
  lemma MaskedSlot(k: int)
    requires IsInt64(k)
    ensures BitAnd(Pattern(k), AND_VALUE) == k % PARTITION_LENGTH && 0 <= k % PARTITION_LENGTH < PARTITION_LENGTH
  {
    TenOnes();
    MaskIsRemainder(Pattern(k), 10);
    PatternRemainder(k);
  }

  lemma TenOnes()
    ensures Ones(10) == AND_VALUE
  {
    assert Ones(5) == 31;
  }

  lemma PatternRemainder(k: int)
    requires IsInt64(k)
    ensures Pattern(k) % PARTITION_LENGTH == k % PARTITION_LENGTH
  {
    assert Pattern(k) == if k < 0 then k + TWO_64 else k;
  }

  /** Every key, negative ones included, lands in one of the rule's tables. */
  lemma LongRuleValid(rule: Rule, locations: seq<int>, parts: seq<int>, segment: seq<int>)
    requires Laid(rule, locations) && |parts| == Sum(locations) && |segment| == PARTITION_LENGTH
    requires forall j :: 0 <= j < PARTITION_LENGTH ==> Owns(parts, segment[j], j)
    requires rule.shard == Hashed(FindLong(segment))
    ensures ValidRule(rule)
    ensures forall k :: IsInt64(k) ==> FindForKey(rule.shard, k) == Ok(segment[k % PARTITION_LENGTH])
  {
    assert 0 in rule.indexes;
    forall k | IsInt64(k) ensures FindForKey(rule.shard, k) == Ok(segment[k % PARTITION_LENGTH]) { MaskedSlot(k); }
    forall k | FindForKey(rule.shard, k).Ok? ensures FindForKey(rule.shard, k).value in rule.indexes {
      assert Owns(parts, segment[k % PARTITION_LENGTH], k % PARTITION_LENGTH);
    }
  }
}
