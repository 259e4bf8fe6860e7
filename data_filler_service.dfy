/**
 * The fill engine (DataFiller/Services/DataFillerService.cs): for every
 * configured table, synthesise rows from a sample of the existing ones and
 * bulk-insert them in batches until the target count has been added.
 *
 * The data store and the random-number and GUID generators are parameters:
 * a `Gateway` answers the store's questions and a `Draws` value supplies the
 * random choices one batch consumes.
 */
module DataFillerService {
  import opened Integers
  import opened Text
  import opened Models
  import opened Linq

  /** `_random.Next(1000000)` draws identity offsets from [0, OffsetBound). */
  const OffsetBound: int := 1000000

  // ---------------------------------------------------------------------
  // Identity columns and their rewrite
  // ---------------------------------------------------------------------

  /** The name test applied to every column: its lower-cased name contains "id" or is "key". */
  predicate IsIdColumn(column: string) {
    var lower := ToLower(column);
    Contains(lower, "id") || lower == "key"
  }

  predicate IsLowerHex(c: char) {
    '0' <= c <= '9' || 'a' <= c <= 'f'
  }

  /**
   * What Guid.NewGuid().ToString() returns: 32 lower-case hex digits grouped
   * 8-4-4-4-12 by hyphens, with the version digit of a version-4 GUID ('4')
   * and its variant digit (one of '8', '9', 'a', 'b').
   */
  predicate IsGuidString(s: string) {
    && |s| == 36
    && (forall i :: 0 <= i < 36 ==>
          if i == 8 || i == 13 || i == 18 || i == 23 then s[i] == '-' else IsLowerHex(s[i]))
    && s[14] == '4'
    && (s[19] == '8' || s[19] == '9' || s[19] == 'a' || s[19] == 'b')
  }

  /**
   * The random choices one call of GenerateBatchData makes, indexed by the
   * row number `i` of the batch being built and by column name:
   * `pick(i)` is `_random.Next(sourceData.Count)`, `offset(i, k)` is
   * `_random.Next(1000000)`, `guid(i, k)` is `Guid.NewGuid().ToString()`,
   * and `sortKey(i)` is the `_random.Next()` that OrderBy computes for row `i`.
   */
  datatype Draws = Draws(
    pick: nat -> int,
    offset: (nat, string) -> int,
    guid: (nat, string) -> string,
    sortKey: nat -> int)

  /** What Random.Next and Guid.NewGuid promise about the values used in rewrites. */
  ghost predicate ValidRewrites(d: Draws) {
    && (forall i: nat, k: string :: 0 <= d.offset(i, k) < OffsetBound)
    && (forall i: nat, k: string :: IsGuidString(d.guid(i, k)))
  }

  /** All the draws of one batch over a sample of `poolSize` rows are in range. */
  ghost predicate ValidDraws(d: Draws, poolSize: nat) {
    && ValidRewrites(d)
    && (forall i: nat :: 0 <= d.pick(i) < poolSize)
    && (forall i: nat :: 0 <= d.sortKey(i) < INT32_MAX)
  }

  /** The new value of one column of a copied row. */
  function RewriteValue(column: string, v: Value, offset: int, guid: string): Value
    requires 0 <= offset < OffsetBound
  {
    if !IsIdColumn(column) then v
    else match v
      case Int(x) => Int(AddInt32(x, offset))
      case Long(x) => Long(AddInt64(x, offset))
      case Str(_) => Str(guid)
      case Other(_, _) => v
  }

  /** The copy of `src` made for row `i` of a batch, with its identity columns rewritten. */
  function RewriteRow(src: Row, i: nat, d: Draws): Row
    requires ValidRewrites(d)
  {
    map k | k in src :: RewriteValue(k, src[k], d.offset(i, k), d.guid(i, k))
  }

  /**
   * The rewrite rule stated as a relation between an original value and its
   * copy: non-identity columns and identity columns of any other type are
   * copied verbatim; an int or long moves forward, with wrap-around, by less
   * than OffsetBound; a string becomes a GUID string.
   */
  ghost predicate IsRewriteOf(column: string, src: Value, out: Value) {
    if !IsIdColumn(column) then out == src
    else match src
      case Int(x) => out.Int? && (out.i - x) % 0x1_0000_0000 < OffsetBound
      case Long(x) => out.Long? && (out.l - x) % 0x1_0000_0000_0000_0000 < OffsetBound
      case Str(_) => out.Str? && IsGuidString(out.s)
      case Other(_, _) => out == src
  }

  /** `out` has the columns of `src`, each rewritten by the rule. */
  ghost predicate IsSynthesizedFrom(src: Row, out: Row) {
    out.Keys == src.Keys && forall k :: k in src ==> IsRewriteOf(k, src[k], out[k])
  }

  /** Every copy satisfies the rewrite relation. */
  lemma RewriteRowSynthesizes(src: Row, i: nat, d: Draws)
    requires ValidRewrites(d)
    ensures IsSynthesizedFrom(src, RewriteRow(src, i, d))
  {
    var out := RewriteRow(src, i, d);
    forall k | k in src
      ensures IsRewriteOf(k, src[k], out[k])
    {
      var off := d.offset(i, k);
      assert 0 <= off < OffsetBound;
      if IsIdColumn(k) {
        match src[k]
        case Int(x) => AddInt32Difference(x, off);
        case Long(x) => AddInt64Difference(x, off);
        case Str(_) => assert IsGuidString(d.guid(i, k));
        case Other(_, _) =>
      }
    }
  }

  /** A fixed well-formed version-4 GUID string. */
  const SomeGuid: string := "00000000-0000-4000-8000-000000000000"

  /** The offset in [0, OffsetBound) that turns `src` into `out`, or 0 when there is none. */
  function OffsetFor(src: Value, out: Value): (off: int)
    ensures 0 <= off < OffsetBound
  {
    var diff := match (src, out)
      case (Int(x), Int(y)) => (y - x) % 0x1_0000_0000
      case (Long(x), Long(y)) => (y - x) % 0x1_0000_0000_0000_0000
      case _ => 0;
    if 0 <= diff < OffsetBound then diff else 0
  }

  /** The GUID string `out` holds, or a fixed one when it holds none. */
  function GuidFor(out: Value): (g: string)
    ensures IsGuidString(g)
  {
    if out.Str? && IsGuidString(out.s) then out.s
    else
      assert IsGuidString(SomeGuid);
      SomeGuid
  }

  /** The rewrite of `src` with the offset and GUID read off `out` gives back `out`. */
  lemma RewriteValueReaches(column: string, src: Value, out: Value)
    requires IsRewriteOf(column, src, out)
    ensures RewriteValue(column, src, OffsetFor(src, out), GuidFor(out)) == out
  {
    if IsIdColumn(column) {
      match src
      case Int(x) => IntRewriteReaches(column, x, out.i, GuidFor(out));
      case Long(x) => LongRewriteReaches(column, x, out.l, GuidFor(out));
      case Str(_) =>
      case Other(_, _) =>
    }
  }

  lemma IntRewriteReaches(column: string, x: int32, y: int32, g: string)
    requires IsIdColumn(column) && (y - x) % 0x1_0000_0000 < OffsetBound
    ensures RewriteValue(column, Int(x), OffsetFor(Int(x), Int(y)), g) == Int(y)
  {
    assert OffsetFor(Int(x), Int(y)) == (y - x) % 0x1_0000_0000;
    AddInt32Reaches(x, y);
  }

  lemma LongRewriteReaches(column: string, x: int64, y: int64, g: string)
    requires IsIdColumn(column) && (y - x) % 0x1_0000_0000_0000_0000 < OffsetBound
    ensures RewriteValue(column, Long(x), OffsetFor(Long(x), Long(y)), g) == Long(y)
  {
    assert OffsetFor(Long(x), Long(y)) == (y - x) % 0x1_0000_0000_0000_0000;
    AddInt64Reaches(x, y);
  }

  /** Draws whose offsets and GUIDs turn `src` into `out` wherever the relation allows it. */
  function ReachingDraws(src: Row, out: Row): (d: Draws)
    ensures ValidRewrites(d)
    ensures forall k :: k in src && k in out ==>
      d.offset(0, k) == OffsetFor(src[k], out[k]) && d.guid(0, k) == GuidFor(out[k])
  {
    Draws(
      (i: nat) => 0,
      (i: nat, k: string) => if k in src && k in out then OffsetFor(src[k], out[k]) else 0,
      (i: nat, k: string) => if k in out then GuidFor(out[k]) else GuidFor(Str("")),
      (i: nat) => 0)
  }

  /** Two rows with the same columns and the same value in each are equal. */
  lemma RewriteRowEquals(src: Row, i: nat, d: Draws, out: Row)
    requires ValidRewrites(d)
    requires out.Keys == src.Keys
    requires forall k :: k in src ==> RewriteValue(k, src[k], d.offset(i, k), d.guid(i, k)) == out[k]
    ensures RewriteRow(src, i, d) == out
  {
  }

  /**
   * The relation is exact: every row related to `src` is the copy some
   * choice of offsets and GUIDs produces.
   */
  lemma SynthesizedRowsAreReachable(src: Row, out: Row)
    requires IsSynthesizedFrom(src, out)
    ensures exists d :: ValidRewrites(d) && RewriteRow(src, 0, d) == out
  {
    var d := ReachingDraws(src, out);
    forall k | k in src
      ensures RewriteValue(k, src[k], d.offset(0, k), d.guid(0, k)) == out[k]
    {
      RewriteValueReaches(k, src[k], out[k]);
    }
    RewriteRowEquals(src, 0, d, out);
  }

  /**
   * The rewrite does not promise a different value: an offset of 0 leaves an
   * integer identity unchanged.
   */
  lemma ZeroOffsetKeepsIdentity(x: int32, g: string)
    ensures RewriteValue("Id", Int(x), 0, g) == Int(x)
  {
    assert ToLower("Id") == "id";
    assert Contains("id", "id");
  }

  /** "id" cannot occur in a string without 'd'. */
  lemma NoDNoOccurrence(s: string, i: int)
    requires 'd' !in s
    ensures !OccursAt(s, "id", i)
  {
    if 0 <= i <= |s| - 2 {
      assert s[i..i + 2][1] == s[i + 1];
      assert s[i + 1] in s;
    }
  }

  /** A name without 'd' or 'D' of a length other than 3 is not an identity column. */
  lemma NoDNotIdColumn(column: string)
    requires forall k :: 0 <= k < |column| ==> column[k] != 'd' && column[k] != 'D'
    requires |column| != 3
    ensures !IsIdColumn(column)
  {
    var lower := ToLower(column);
    assert 'd' !in lower;
    ContainsIffOccurs(lower, "id");
    forall i
      ensures !OccursAt(lower, "id", i)
    {
      NoDNoOccurrence(lower, i);
    }
  }

  /** The name test ignores case: a name and its lower-cased form are tested alike. */
  lemma IdColumnIgnoresCase(column: string)
    ensures IsIdColumn(ToLower(column)) == IsIdColumn(column)
  {
    ToLowerLowers(column);
  }

  /** The name test is a substring test: "Id", "UserID" and "KEY" are identity columns. */
  lemma KeyNamesAreIdColumns()
    ensures IsIdColumn("Id") && IsIdColumn("UserID") && IsIdColumn("KEY")
  {
    assert ToLower("Id") == "id";
    assert Contains("id", "id");
    assert ToLower("UserID") == "userid";
    ContainsIffOccurs("userid", "id");
    assert OccursAt("userid", "id", 4);
    assert ToLower("KEY") == "key";
  }

  /** Ordinary columns whose names contain "id", such as "width" and "paid", are rewritten too. */
  lemma SubstringNamesAreIdColumns()
    ensures IsIdColumn("width") && IsIdColumn("paid")
  {
    assert ToLower("width") == "width";
    ContainsIffOccurs("width", "id");
    assert OccursAt("width", "id", 1);
    assert ToLower("paid") == "paid";
    ContainsIffOccurs("paid", "id");
    assert OccursAt("paid", "id", 2);
  }

  /** "primary_key" and "keys" are neither "key" nor contain "id", so they are copied verbatim. */
  lemma OtherNamesAreNotIdColumns()
    ensures !IsIdColumn("name") && !IsIdColumn("primary_key") && !IsIdColumn("keys")
  {
    NoDNotIdColumn("name");
    NoDNotIdColumn("primary_key");
    NoDNotIdColumn("keys");
  }
  // ---------------------------------------------------------------------
  // GenerateBatchData
  // ---------------------------------------------------------------------

  /** Row `i` of a batch before the shuffle: a rewritten copy of the sample row `pick(i)` selects. */
  function DrawnRow(sourceData: seq<Row>, i: nat, d: Draws): Row
    requires ValidDraws(d, |sourceData|)
  {
    RewriteRow(sourceData[d.pick(i)], i, d)
  }

  /** The first `n` rows of a batch, in the order they were drawn. */
  function DrawnRows(sourceData: seq<Row>, n: nat, d: Draws): (rows: seq<Row>)
    requires ValidDraws(d, |sourceData|)
    ensures |rows| == n
  {
    seq(n, i requires 0 <= i < n => DrawnRow(sourceData, i, d))
  }

  /** The keys OrderBy computes for the first `n` rows. */
  function SortKeys(n: nat, d: Draws): (keys: seq<int>)
    ensures |keys| == n
  {
    seq(n, i requires 0 <= i < n => d.sortKey(i))
  }

  /** The batch GenerateBatchData returns: `batchSize` drawn rows (none if it is not positive), shuffled. */
  function SynthesizedBatch(sourceData: seq<Row>, batchSize: int, d: Draws): seq<Row>
    requires ValidDraws(d, |sourceData|)
  {
    var n := if batchSize > 0 then batchSize else 0;
    OrderBy(DrawnRows(sourceData, n, d), SortKeys(n, d))
  }

  /**
   * A batch has exactly the requested number of rows, is a rearrangement of
   * the rows drawn before the shuffle, and every row in it is a rewritten
   * copy of one row of the sample.
   */
  lemma SynthesizedBatchShape(sourceData: seq<Row>, batchSize: int, d: Draws)
    requires ValidDraws(d, |sourceData|)
    ensures |SynthesizedBatch(sourceData, batchSize, d)| == if batchSize > 0 then batchSize else 0
    ensures var n := if batchSize > 0 then batchSize else 0;
      multiset(SynthesizedBatch(sourceData, batchSize, d)) == multiset(DrawnRows(sourceData, n, d))
    ensures forall r :: r in SynthesizedBatch(sourceData, batchSize, d) ==>
      exists j :: 0 <= j < |sourceData| && IsSynthesizedFrom(sourceData[j], r)
  {
    var n := if batchSize > 0 then batchSize else 0;
    var drawn := DrawnRows(sourceData, n, d);
    var batch := SynthesizedBatch(sourceData, batchSize, d);
    OrderByPermutes(drawn, SortKeys(n, d));
    DrawnRowsSynthesized(sourceData, n, d);
    forall r | r in batch
      ensures r in drawn
    {
      assert r in multiset(batch);
    }
  }

  /** Every drawn row is a rewritten copy of one row of the sample. */
  lemma DrawnRowsSynthesized(sourceData: seq<Row>, n: nat, d: Draws)
    requires ValidDraws(d, |sourceData|)
    ensures forall r :: r in DrawnRows(sourceData, n, d) ==>
      exists j :: 0 <= j < |sourceData| && IsSynthesizedFrom(sourceData[j], r)
  {
    var drawn := DrawnRows(sourceData, n, d);
    forall r | r in drawn
      ensures exists j :: 0 <= j < |sourceData| && IsSynthesizedFrom(sourceData[j], r)
    {
      var i :| 0 <= i < n && drawn[i] == r;
      RewriteRowSynthesizes(sourceData[d.pick(i)], i, d);
    }
  }

  /**
   * GenerateBatchData: draw `batchSize` rows from the sample, copy each one
   * and rewrite its identity columns in place, then shuffle the batch.
   */
  method GenerateBatchData(sourceData: seq<Row>, batchSize: int, d: Draws) returns (result: seq<Row>)
    requires ValidDraws(d, |sourceData|)
    ensures result == SynthesizedBatch(sourceData, batchSize, d)
    ensures |result| == if batchSize > 0 then batchSize else 0
    ensures forall r :: r in result ==> exists j :: 0 <= j < |sourceData| && IsSynthesizedFrom(sourceData[j], r)
  {
    result := [];
    var i := 0;
    while i < batchSize
      invariant 0 <= i <= if batchSize > 0 then batchSize else 0
      invariant |result| == i
      invariant forall j :: 0 <= j < i ==> result[j] == DrawnRow(sourceData, j, d)
    {
      var randomIndex := d.pick(i);
      var newRow := sourceData[randomIndex];
      var keys := newRow.Keys;
      while keys != {}
        invariant keys <= sourceData[randomIndex].Keys
        invariant newRow.Keys == sourceData[randomIndex].Keys
        invariant forall k :: k in newRow ==>
          (newRow[k] == if k in keys then sourceData[randomIndex][k]
                        else RewriteValue(k, sourceData[randomIndex][k], d.offset(i, k), d.guid(i, k)))
        decreases keys
      {
        var key :| key in keys;
        if IsIdColumn(key) {
          match newRow[key]
          case Int(x) => newRow := newRow[key := Int(AddInt32(x, d.offset(i, key)))];
          case Long(x) => newRow := newRow[key := Long(AddInt64(x, d.offset(i, key)))];
          case Str(_) => newRow := newRow[key := Str(d.guid(i, key))];
          case Other(_, _) =>
        }
        keys := keys - {key};
      }
      assert newRow == DrawnRow(sourceData, i, d);
      result := result + [newRow];
      i := i + 1;
    }
    var n := if batchSize > 0 then batchSize else 0;
    assert result == DrawnRows(sourceData, n, d);
    result := OrderBy(result, SortKeys(|result|, d));
    SynthesizedBatchShape(sourceData, batchSize, d);
  }

  // ---------------------------------------------------------------------
  // The batch loop of FillDataAsync
  // ---------------------------------------------------------------------

  function Min(a: int, b: int): int {
    if a <= b then a else b
  }

  function Sum(s: seq<int>): int {
    if s == [] then 0 else s[0] + Sum(s[1..])
  }

  lemma {:induction false} SumSnoc(s: seq<int>, x: int)
    ensures Sum(s + [x]) == Sum(s) + x
  {
    if s != [] {
      assert (s + [x])[1..] == s[1..] + [x];
      SumSnoc(s[1..], x);
    }
  }

  lemma SumPrefix(s: seq<int>, k: nat)
    requires k < |s|
    ensures Sum(s[..k + 1]) == Sum(s[..k]) + s[k]
  {
    assert s[..k + 1] == s[..k] + [s[k]];
    SumSnoc(s[..k], s[k]);
  }

  /**
   * The sizes of the batches the loop cuts `remaining` rows into:
   * `min(remaining, batchSize)` each, until nothing remains.
   */
  function BatchPlan(remaining: int, batchSize: int): (plan: seq<int>)
    requires batchSize > 0
    ensures forall j :: 0 <= j < |plan| ==> 1 <= plan[j] <= batchSize
    decreases remaining
  {
    if remaining <= 0 then []
    else
      var size := Min(remaining, batchSize);
      [size] + BatchPlan(remaining - size, batchSize)
  }

  /** The batches add up to the target (nothing for a target that is not positive). */
  lemma {:induction false} BatchPlanSum(remaining: int, batchSize: int)
    requires batchSize > 0
    ensures Sum(BatchPlan(remaining, batchSize)) == if remaining > 0 then remaining else 0
    decreases remaining
  {
    if remaining > 0 {
      var size := Min(remaining, batchSize);
      BatchPlanSum(remaining - size, batchSize);
      assert BatchPlan(remaining, batchSize)[1..] == BatchPlan(remaining - size, batchSize);
    }
  }

  /** Every batch but the last is a full one. */
  lemma {:induction false} BatchPlanFull(remaining: int, batchSize: int)
    requires batchSize > 0
    ensures var plan := BatchPlan(remaining, batchSize);
      forall j :: 0 <= j < |plan| - 1 ==> plan[j] == batchSize
    decreases remaining
  {
    if remaining > batchSize {
      BatchPlanFull(remaining - batchSize, batchSize);
      var plan := BatchPlan(remaining, batchSize);
      assert plan[1..] == BatchPlan(remaining - batchSize, batchSize);
      forall j | 1 <= j < |plan| - 1
        ensures plan[j] == batchSize
      {
        assert plan[j] == plan[1..][j - 1];
      }
    }
  }

  /** The number of batches is the target divided by the batch size, rounded up. */
  lemma {:induction false} BatchPlanLength(remaining: int, batchSize: int)
    requires batchSize > 0
    ensures var n := |BatchPlan(remaining, batchSize)|;
      if remaining <= 0 then n == 0 else (n - 1) * batchSize < remaining <= n * batchSize
    decreases remaining
  {
    if remaining > batchSize {
      BatchPlanLength(remaining - batchSize, batchSize);
      var m := |BatchPlan(remaining - batchSize, batchSize)|;
      assert |BatchPlan(remaining, batchSize)| == m + 1;
      assert (m + 1) * batchSize == m * batchSize + batchSize;
      assert m * batchSize == (m - 1) * batchSize + batchSize;
    }
  }

  /** Before the last batch, `k` batches hold `k` full batches' worth of rows. */
  lemma BatchPlanPrefixSum(remaining: int, batchSize: int, k: nat)
    requires batchSize > 0
    requires k < |BatchPlan(remaining, batchSize)|
    ensures Sum(BatchPlan(remaining, batchSize)[..k]) == k * batchSize
  {
    var plan := BatchPlan(remaining, batchSize);
    BatchPlanFull(remaining, batchSize);
    var j := 0;
    while j < k
      invariant 0 <= j <= k
      invariant Sum(plan[..j]) == j * batchSize
    {
      SumPrefix(plan, j);
      j := j + 1;
    }
  }

  /** 2500 rows in batches of 1000: 1000, 1000, 500. */
  lemma BatchPlanExample()
    ensures BatchPlan(2500, 1000) == [1000, 1000, 500]
  {
    assert BatchPlan(500, 1000) == [500];
    assert BatchPlan(1500, 1000) == [1000, 500];
  }
  // ---------------------------------------------------------------------
  // FillDataAsync
  // ---------------------------------------------------------------------

  /**
   * The data store as the engine sees it: whether a table exists, the sample
   * GetTableDataAsync returns for it, and whether the `c`-th BulkInsertAsync
   * call for a table returns rather than throws.
   */
  datatype Gateway = Gateway(
    tableExists: string -> bool,
    tableData: string -> seq<Row>,
    insertSucceeds: (string, nat) -> bool)

  /** The draws for batch `c` of `table` are in range for that table's sample. */
  ghost predicate ValidRandomness(db: Gateway, rng: (string, nat) -> Draws, table: string) {
    forall c: nat :: ValidDraws(rng(table, c), |db.tableData(table)|)
  }

  /** How the processing of one table ended. */
  datatype TableOutcome =
    | TableMissing
    | NoSourceData
      /** `batches` went to BulkInsertAsync in this order; `inserted` is the progress credited. */
    | Filled(batches: seq<seq<Row>>, inserted: int, failed: bool)

  /**
   * What processing `table` with target `targetCount` produces: nothing for a
   * missing table or an empty sample; otherwise the batches of the plan, in
   * order, up to and including the first one whose insert throws, with the
   * rows of every earlier batch credited and none of the failing one.
   */
  ghost predicate IsFillOf(table: string, targetCount: int, batchSize: int, db: Gateway,
                           rng: (string, nat) -> Draws, o: TableOutcome)
    requires batchSize > 0
    requires db.tableData(table) != [] ==> ValidRandomness(db, rng, table)
  {
    if !db.tableExists(table) then o == TableMissing
    else if db.tableData(table) == [] then o == NoSourceData
    else
      var plan := BatchPlan(targetCount, batchSize);
      o.Filled? &&
      var n := |o.batches|;
      && n <= |plan|
      && (forall c :: 0 <= c < n ==>
            o.batches[c] == SynthesizedBatch(db.tableData(table), plan[c], rng(table, c)))
      && (forall c :: 0 <= c < n - 1 ==> db.insertSucceeds(table, c))
      && (o.failed <==> n > 0 && !db.insertSucceeds(table, n - 1))
      && (!o.failed ==> n == |plan|)
      && o.inserted == Sum(plan[..if o.failed then n - 1 else n])
  }

  /** The processing of one table: the body of the `foreach` in FillDataAsync. */
  method FillTable(table: string, targetCount: int, batchSize: int, db: Gateway,
                   rng: (string, nat) -> Draws) returns (outcome: TableOutcome)
    requires batchSize > 0
    requires db.tableData(table) != [] ==> ValidRandomness(db, rng, table)
    ensures IsFillOf(table, targetCount, batchSize, db, rng, outcome)
    ensures outcome.Filled? && !outcome.failed ==>
      outcome.inserted == if targetCount > 0 then targetCount else 0
  {
    if !db.tableExists(table) {
      return TableMissing;
    }
    var sourceData := db.tableData(table);
    if sourceData == [] {
      return NoSourceData;
    }
    var remainingCount := targetCount;
    var batches: seq<seq<Row>> := [];
    while remainingCount > 0
      invariant FillProgress(table, targetCount, batchSize, db, rng, remainingCount, batches)
      decreases remainingCount
    {
      var c := |batches|;
      var batchSize' := Min(remainingCount, batchSize);
      assert ValidDraws(rng(table, c), |sourceData|);
      var batchData := GenerateBatchData(sourceData, batchSize', rng(table, c));
      if db.insertSucceeds(table, c) {
        FillProgressStep(table, targetCount, batchSize, db, rng, remainingCount, batches, batchData);
        batches := batches + [batchData];
        remainingCount := remainingCount - batchSize';
      } else {
        outcome := Filled(batches + [batchData], targetCount - remainingCount, true);
        FailedIsFillOf(table, targetCount, batchSize, db, rng, remainingCount, batches, outcome);
        return;
      }
    }
    outcome := Filled(batches, targetCount - remainingCount, false);
    CompletedIsFillOf(table, targetCount, batchSize, db, rng, remainingCount, outcome);
  }

  /**
   * The loop invariant of FillTable: `batches` are the first batches of the
   * plan, synthesised in order and all inserted, and `remaining` rows are
   * still owed, which the rest of the plan covers.
   */
  ghost predicate FillProgress(table: string, targetCount: int, batchSize: int, db: Gateway,
                               rng: (string, nat) -> Draws, remaining: int, batches: seq<seq<Row>>)
    requires batchSize > 0
    requires ValidRandomness(db, rng, table)
  {
    var plan := BatchPlan(targetCount, batchSize);
    && |batches| <= |plan|
    && plan[|batches|..] == BatchPlan(remaining, batchSize)
    && targetCount - remaining == Sum(plan[..|batches|])
    && (forall c :: 0 <= c < |batches| ==>
          batches[c] == SynthesizedBatch(db.tableData(table), plan[c], rng(table, c)))
    && (forall c :: 0 <= c < |batches| ==> db.insertSucceeds(table, c))
  }

  /** An inserted batch of `min(remaining, batchSize)` rows advances the plan by one. */
  lemma FillProgressStep(table: string, targetCount: int, batchSize: int, db: Gateway,
                         rng: (string, nat) -> Draws, remaining: int, batches: seq<seq<Row>>,
                         next: seq<Row>)
    requires batchSize > 0 && remaining > 0
    requires ValidRandomness(db, rng, table)
    requires FillProgress(table, targetCount, batchSize, db, rng, remaining, batches)
    requires next == SynthesizedBatch(db.tableData(table), Min(remaining, batchSize), rng(table, |batches|))
    requires db.insertSucceeds(table, |batches|)
    ensures FillProgress(table, targetCount, batchSize, db, rng,
                         remaining - Min(remaining, batchSize), batches + [next])
  {
    var plan := BatchPlan(targetCount, batchSize);
    var c := |batches|;
    var batches' := batches + [next];
    BatchPlanStep(plan, c, remaining, batchSize);
    assert |batches'| == c + 1;
    forall k | 0 <= k < |batches'|
      ensures batches'[k] == SynthesizedBatch(db.tableData(table), plan[k], rng(table, k))
    {
      if k < c {
        assert batches'[k] == batches[k];
      }
    }
    forall k | 0 <= k < |batches'|
      ensures db.insertSucceeds(table, k)
    {
    }
  }

  /** One turn of the loop takes the next batch of the plan. */
  lemma BatchPlanStep(plan: seq<int>, c: nat, remaining: int, batchSize: int)
    requires batchSize > 0 && remaining > 0
    requires c <= |plan| && plan[c..] == BatchPlan(remaining, batchSize)
    ensures c < |plan| && plan[c] == Min(remaining, batchSize)
    ensures plan[c + 1..] == BatchPlan(remaining - Min(remaining, batchSize), batchSize)
    ensures Sum(plan[..c + 1]) == Sum(plan[..c]) + plan[c]
  {
    assert plan[c..][1..] == plan[c + 1..];
    SumPrefix(plan, c);
  }

  /** The loop ran out of rows to owe: the whole plan was inserted. */
  lemma CompletedIsFillOf(table: string, targetCount: int, batchSize: int, db: Gateway,
                          rng: (string, nat) -> Draws, remaining: int, o: TableOutcome)
    requires batchSize > 0 && remaining <= 0
    requires db.tableExists(table) && db.tableData(table) != [] && ValidRandomness(db, rng, table)
    requires o.Filled? && !o.failed && o.inserted == targetCount - remaining
    requires FillProgress(table, targetCount, batchSize, db, rng, remaining, o.batches)
    ensures IsFillOf(table, targetCount, batchSize, db, rng, o)
    ensures o.inserted == if targetCount > 0 then targetCount else 0
  {
    var plan := BatchPlan(targetCount, batchSize);
    assert plan[..|o.batches|] == plan;
    BatchPlanSum(targetCount, batchSize);
  }

  /** The insert of the batch after `batches` threw: that batch ends the table. */
  lemma FailedIsFillOf(table: string, targetCount: int, batchSize: int, db: Gateway,
                       rng: (string, nat) -> Draws, remaining: int, batches: seq<seq<Row>>,
                       o: TableOutcome)
    requires batchSize > 0 && remaining > 0
    requires db.tableExists(table) && db.tableData(table) != [] && ValidRandomness(db, rng, table)
    requires FillProgress(table, targetCount, batchSize, db, rng, remaining, batches)
    requires !db.insertSucceeds(table, |batches|)
    requires o == Filled(batches + [SynthesizedBatch(db.tableData(table), Min(remaining, batchSize),
                                                     rng(table, |batches|))],
                         targetCount - remaining, true)
    ensures IsFillOf(table, targetCount, batchSize, db, rng, o)
  {
    var plan := BatchPlan(targetCount, batchSize);
    var c := |batches|;
    BatchPlanStep(plan, c, remaining, batchSize);
    assert o.batches[c] == SynthesizedBatch(db.tableData(table), plan[c], rng(table, c));
    assert o.batches[..c] == batches;
  }

  /**
   * FillDataAsync: every configured table is processed once, missing tables
   * and tables without sample rows are skipped, and a failed insert ends
   * only its own table.
   */
  method FillData(config: Configuration, db: Gateway, rng: (string, nat) -> Draws)
    returns (report: map<string, TableOutcome>)
    requires config.batchSize > 0
    requires forall t :: db.tableData(t) != [] ==> ValidRandomness(db, rng, t)
    ensures report.Keys == config.tableMappings.Keys
    ensures forall t :: t in report ==>
      IsFillOf(t, config.tableMappings[t], config.batchSize, db, rng, report[t])
  {
    report := map[];
    var pending := config.tableMappings.Keys;
    while pending != {}
      invariant pending <= config.tableMappings.Keys
      invariant report.Keys == config.tableMappings.Keys - pending
      invariant forall t :: t in report ==>
        IsFillOf(t, config.tableMappings[t], config.batchSize, db, rng, report[t])
      decreases pending
    {
      var tableName :| tableName in pending;
      var outcome := FillTable(tableName, config.tableMappings[tableName], config.batchSize, db, rng);
      report := report[tableName := outcome];
      pending := pending - {tableName};
    }
  }

  // ---------------------------------------------------------------------
  // Properties of a table's processing
  // ---------------------------------------------------------------------

  /**
   * Each batch sent to the store holds between 1 and `batchSize` rows: the
   * plan's `min(remaining, batchSize)`.
   */
  lemma FillBatchSizes(table: string, targetCount: int, batchSize: int, db: Gateway,
                       rng: (string, nat) -> Draws, o: TableOutcome)
    requires batchSize > 0
    requires db.tableData(table) != [] ==> ValidRandomness(db, rng, table)
    requires IsFillOf(table, targetCount, batchSize, db, rng, o)
    requires o.Filled?
    ensures forall c :: 0 <= c < |o.batches| ==>
      |o.batches[c]| == BatchPlan(targetCount, batchSize)[c] && 1 <= |o.batches[c]| <= batchSize
  {
    var plan := BatchPlan(targetCount, batchSize);
    forall c | 0 <= c < |o.batches|
      ensures |o.batches[c]| == plan[c]
    {
      SynthesizedBatchShape(db.tableData(table), plan[c], rng(table, c));
    }
  }

  /** When every insert succeeds, exactly `targetCount` rows are added, in full batches but the last. */
  lemma FillWithoutFailures(table: string, targetCount: int, batchSize: int, db: Gateway,
                            rng: (string, nat) -> Draws, o: TableOutcome)
    requires batchSize > 0
    requires db.tableData(table) != [] ==> ValidRandomness(db, rng, table)
    requires IsFillOf(table, targetCount, batchSize, db, rng, o)
    requires db.tableExists(table) && db.tableData(table) != []
    requires forall c: nat :: db.insertSucceeds(table, c)
    ensures o.Filled? && !o.failed
    ensures o.inserted == if targetCount > 0 then targetCount else 0
    ensures forall c :: 0 <= c < |o.batches| - 1 ==> |o.batches[c]| == batchSize
  {
    var plan := BatchPlan(targetCount, batchSize);
    assert plan[..|o.batches|] == plan;
    BatchPlanSum(targetCount, batchSize);
    BatchPlanFull(targetCount, batchSize);
    FillBatchSizes(table, targetCount, batchSize, db, rng, o);
  }

  /**
   * The first failed insert ends the table: the failing batch is the last
   * one sent, it is not retried and not credited, and the credit is that of
   * the full batches before it.
   */
  lemma FillWithFailure(table: string, targetCount: int, batchSize: int, db: Gateway,
                        rng: (string, nat) -> Draws, o: TableOutcome)
    requires batchSize > 0
    requires db.tableData(table) != [] ==> ValidRandomness(db, rng, table)
    requires IsFillOf(table, targetCount, batchSize, db, rng, o)
    requires o.Filled? && o.failed
    ensures |o.batches| >= 1 && !db.insertSucceeds(table, |o.batches| - 1)
    ensures o.inserted == (|o.batches| - 1) * batchSize
    ensures 0 <= o.inserted < targetCount
  {
    var plan := BatchPlan(targetCount, batchSize);
    var n := |o.batches|;
    assert 1 <= n <= |plan| && o.inserted == Sum(plan[..n - 1]);
    BatchPlanPrefixSum(targetCount, batchSize, n - 1);
    BatchPlanLength(targetCount, batchSize);
    MulMonotone(n - 1, |plan| - 1, batchSize);
  }

  /** Arithmetic helper for FillWithFailure. */
  lemma MulMonotone(a: int, b: int, k: nat)
    requires a <= b
    ensures a * k <= b * k
  {
    assert b * k - a * k == (b - a) * k;
  }

  /**
   * How much a table is credited and how many batches it sends depend only on
   * the target, the batch size and the insert outcomes: not on how many rows
   * the sample (or the table) already holds.
   */
  lemma FillIgnoresSampleSize(table: string, targetCount: int, batchSize: int,
                              db1: Gateway, rng1: (string, nat) -> Draws, o1: TableOutcome,
                              db2: Gateway, rng2: (string, nat) -> Draws, o2: TableOutcome)
    requires batchSize > 0
    requires db1.tableData(table) != [] ==> ValidRandomness(db1, rng1, table)
    requires db2.tableData(table) != [] ==> ValidRandomness(db2, rng2, table)
    requires IsFillOf(table, targetCount, batchSize, db1, rng1, o1)
    requires IsFillOf(table, targetCount, batchSize, db2, rng2, o2)
    requires db1.tableExists(table) && db1.tableData(table) != []
    requires db2.tableExists(table) && db2.tableData(table) != []
    requires forall c: nat :: db1.insertSucceeds(table, c) == db2.insertSucceeds(table, c)
    ensures o1.Filled? && o2.Filled?
    ensures |o1.batches| == |o2.batches| && o1.inserted == o2.inserted && o1.failed == o2.failed
  {

  }

  /** Target 5000 in batches of 1000, second insert failing: two batches sent, 1000 rows credited. */
  lemma FailureOnSecondBatch(table: string, db: Gateway, rng: (string, nat) -> Draws, o: TableOutcome)
    requires db.tableData(table) != [] ==> ValidRandomness(db, rng, table)
    requires IsFillOf(table, 5000, 1000, db, rng, o)
    requires db.tableExists(table) && db.tableData(table) != []
    requires db.insertSucceeds(table, 0) && !db.insertSucceeds(table, 1)
    ensures o.Filled? && o.failed && |o.batches| == 2 && o.inserted == 1000
  {
    var plan := BatchPlan(5000, 1000);
    BatchPlanLength(5000, 1000);
    FillWithFailure(table, 5000, 1000, db, rng, o);
  }
}
