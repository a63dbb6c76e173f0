/** Sharding rules: shard functions of `proxy/router/shard.go`, range tables of
    `proxy/router/numkey.go` and rule parsing of `proxy/router/rule.go`. */
module Rules {
  import opened Arithmetic
  import opened Lists

  datatype Result<+T> = Ok(value: T) | Rejected {
    predicate IsFailure() { Rejected? }
    function PropagateFailure<U>(): Result<U> requires Rejected? { Rejected }
    function Extract(): T requires Ok? { value }
  }

  const MAX_NUM_KEY: int := 0x7fff_ffff_ffff_ffff

  /** A key range `[start, end)`; an `end` of MAX_NUM_KEY means unbounded. */
  datatype NumKeyRange = NumKeyRange(start: int, end: int) {
    predicate Contains(i: int) {
      start <= i && (end == MAX_NUM_KEY || i < end)
    }
  }

  /** A shard function. `Hashed` stands for every shard that is no RangeShard (hash, mod, mycat);
      a key it cannot map aborts planning. */
  datatype Shard =
    | Hashed(find: int -> Result<int>)
    | NumRange(shards: seq<NumKeyRange>)

  /** A literal or a column value. */
  datatype Value = Null | Int(v: int)

  datatype Rule = Rule(
    column: string,               // sharding column
    indexes: seq<int>,            // subTableIndexes
    tableToSlice: map<int, int>,
    slices: seq<string>,
    databases: map<int, string>,  // physical database of each table
    shard: Shard)

  /** NumRangeShard.FindForKey: the first range that contains the key, from position `i` on. */
  function Scan(shards: seq<NumKeyRange>, v: int, i: nat): Result<int>
    requires i <= |shards|
    decreases |shards| - i
  {
    if i == |shards| then Rejected
    else if shards[i].Contains(v) then Ok(i)
    else Scan(shards, v, i + 1)
  }

  function FindForKey(shard: Shard, key: int): Result<int> {
    match shard
    case Hashed(find) => find(key)
    case NumRange(shards) => Scan(shards, key, 0)
  }

  /** A NULL key has no table: the shard functions abort on it. */
  function FindTableIndex(rule: Rule, value: Value): Result<int> {
    if value.Null? then Rejected else FindForKey(rule.shard, value.v)
  }

  /** EqualStart of NumRangeShard. */
  predicate EqualStart(shards: seq<NumKeyRange>, key: int, index: int)
    requires 0 <= index < |shards|
  {
    shards[index].start == key
  }

  ghost predicate OrderedRanges(shards: seq<NumKeyRange>) {
    && (forall i :: 0 <= i < |shards| ==> -TWO_63 <= shards[i].start < shards[i].end <= MAX_NUM_KEY)
    && (forall i, j :: 0 <= i < j < |shards| ==> shards[i].end <= shards[j].start)
  }

  /** What rule parsing establishes. */
  ghost predicate ValidRule(rule: Rule) {
    && rule.indexes != [] && Increasing(rule.indexes)
    && (forall k :: FindForKey(rule.shard, k).Ok? ==> FindForKey(rule.shard, k).value in rule.indexes)
    && (forall i :: i in rule.indexes ==> i in rule.tableToSlice && 0 <= rule.tableToSlice[i] < |rule.slices|)
    && (rule.shard.NumRange? ==>
          OrderedRanges(rule.shard.shards) && rule.indexes == MakeList(0, |rule.shard.shards|))
  }

  lemma {:induction false} ScanFinds(shards: seq<NumKeyRange>, v: int, i: nat)
    requires OrderedRanges(shards) && i <= |shards|
    ensures Scan(shards, v, i).Ok? ==>
              i <= Scan(shards, v, i).value < |shards| && shards[Scan(shards, v, i).value].Contains(v)
    ensures Scan(shards, v, i).Rejected? ==> forall j :: i <= j < |shards| ==> !shards[j].Contains(v)
    ensures forall j :: i <= j < |shards| && shards[j].Contains(v) ==> Scan(shards, v, i) == Ok(j)
    decreases |shards| - i
  {
    if i < |shards| {
      ScanFinds(shards, v, i + 1);
    }
  }
}
