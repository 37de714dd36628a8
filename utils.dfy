/**
 * The three data-shaping helpers of the API layer: the integer range
 * aggregate behind the `numbersInRange` query, the stripping of a column-name
 * prefix from a database row, and the indexing of a list of records by id.
 */
module Utils {
  import opened Wrappers
  import opened JsStrings

  // ---------------------------------------------------------------------------
  // numbersInRangeObject
  // ---------------------------------------------------------------------------

  /** The object `{ sum, count }` returned for a valid range. */
  datatype RangeStats = RangeStats(sum: int, count: int)

  /** The plain `Error` thrown when `end < begin`; its message reads "Invalid range because <end> < <begin>". */
  datatype InvalidRangeError = InvalidRange(begin: int, end: int)

  /** The sum of the integers `lo, lo + 1, ..., hi - 1` (zero when `hi <= lo`). */
  function SumBetween(lo: int, hi: int): int
    decreases hi - lo
  {
    if hi <= lo then 0 else SumBetween(lo, hi - 1) + (hi - 1)
  }

  /** Gauss's closed form for the sum of a run of consecutive integers. */
  lemma {:induction false} SumBetweenClosedForm(lo: int, hi: int)
    requires lo <= hi
    ensures 2 * SumBetween(lo, hi) == (lo + hi - 1) * (hi - lo)
    decreases hi - lo
  {
    if hi > lo {
      SumBetweenClosedForm(lo, hi - 1);
      assert (lo + hi - 1) * (hi - lo) == (lo + hi - 2) * (hi - 1 - lo) + 2 * (hi - 1);
    }
  }

  /**
   * Rejects an inverted range, otherwise adds up every integer from `begin`
   * to `end` inclusive and counts them.
   */
  method NumbersInRangeObject(begin: int, end: int) returns (r: Result<RangeStats, InvalidRangeError>)
    ensures r.Failure? <==> end < begin
    ensures r.Failure? ==> r.error == InvalidRange(begin, end)
    ensures r.Success? ==> r.value.count == end - begin + 1
    ensures r.Success? ==> r.value.sum == SumBetween(begin, end + 1)
    ensures r.Success? ==> r.value.sum == (begin + end) * (end - begin + 1) / 2
  {
    if end < begin {
      return Failure(InvalidRange(begin, end));
    }
    var sum := 0;
    var count := 0;
    var i := begin;
    while i <= end
      invariant begin <= i <= end + 1
      invariant sum == SumBetween(begin, i)
      invariant count == i - begin
    {
      sum := sum + i;
      count := count + 1;
      i := i + 1;
    }
    SumBetweenClosedForm(begin, end + 1);
    return Success(RangeStats(sum, count));
  }

  // ---------------------------------------------------------------------------
  // extractPrefixedColumns
  // ---------------------------------------------------------------------------

  /**
   * `key.match(new RegExp("^" + prefix + "_(.*)"))`, with `prefix` read as
   * literal text: the first capture group when the key starts with
   * `prefix_`, nothing otherwise.
   */
  function StripPrefix(key: string, prefix: string): (m: Option<string>)
    ensures m.Some? <==> prefix + "_" <= key
    ensures m.Some? ==> prefix + "_" + m.value <= key
    ensures m.Some? ==> forall i :: 0 <= i < |m.value| ==> !IsLineTerminator(m.value[i])
    ensures m.Some? ==> key == prefix + "_" + m.value || IsLineTerminator(key[|prefix| + 1 + |m.value|])
  {
    var p := prefix + "_";
    if p <= key then
      var rest := key[|p|..];
      var captured := LeadingLine(rest);
      assert key == p + rest;
      assert p + captured <= p + rest;
      assert captured != rest ==> rest[|captured|] == key[|p| + |captured|];
      Some(captured)
    else None
  }

  /**
   * The accumulator after the reduce callback has run over `entries`, the
   * row's `Object.entries` in order, starting from `{}`.
   */
  function Extracted<V>(entries: seq<(string, V)>, prefix: string): map<string, V>
  {
    if entries == [] then map[]
    else
      var acc := Extracted(entries[..|entries| - 1], prefix);
      var (key, value) := entries[|entries| - 1];
      match StripPrefix(key, prefix)
      case None => acc
      case Some(column) => acc[column := value]
  }

  /** Keeps only the entries whose key starts with `prefix_`, re-keyed without that prefix. */
  method ExtractPrefixedColumns<V>(entries: seq<(string, V)>, prefix: string) returns (acc: map<string, V>)
    ensures acc == Extracted(entries, prefix)
    ensures forall k :: k in acc <==> exists j :: 0 <= j < |entries| && StripPrefix(entries[j].0, prefix) == Some(k)
    ensures |acc| <= |entries|
  {
    acc := map[];
    for i := 0 to |entries|
      invariant acc == Extracted(entries[..i], prefix)
    {
      assert entries[..i + 1][..i] == entries[..i];
      var (key, value) := entries[i];
      var matched := StripPrefix(key, prefix);
      if matched.Some? {
        acc := acc[matched.value := value];
      }
    }
    assert entries[..|entries|] == entries;
    ExtractedKeys(entries, prefix);
    ExtractedSize(entries, prefix);
  }

  /** An output column exists exactly when some input key strips to it. */
  lemma {:induction false} ExtractedKeys<V>(entries: seq<(string, V)>, prefix: string)
    ensures forall k :: k in Extracted(entries, prefix) <==>
      exists j :: 0 <= j < |entries| && StripPrefix(entries[j].0, prefix) == Some(k)
  {
    if entries != [] {
      var init := entries[..|entries| - 1];
      ExtractedKeys(init, prefix);
      forall k
        ensures k in Extracted(entries, prefix) <==>
          exists j :: 0 <= j < |entries| && StripPrefix(entries[j].0, prefix) == Some(k)
      {
        if k in Extracted(entries, prefix) && StripPrefix(entries[|entries| - 1].0, prefix) != Some(k) {
          var j :| 0 <= j < |init| && StripPrefix(init[j].0, prefix) == Some(k);
          assert entries[j] == init[j];
        }
        if exists j :: 0 <= j < |entries| && StripPrefix(entries[j].0, prefix) == Some(k) {
          var j :| 0 <= j < |entries| && StripPrefix(entries[j].0, prefix) == Some(k);
          if j < |init| {
            assert init[j] == entries[j];
          }
        }
      }
    }
  }

  /** An output column holds the value of the LAST input entry that strips to it. */
  lemma {:induction false} ExtractedValue<V>(entries: seq<(string, V)>, prefix: string, j: int, k: string)
    requires 0 <= j < |entries| && StripPrefix(entries[j].0, prefix) == Some(k)
    requires forall j' :: j < j' < |entries| ==> StripPrefix(entries[j'].0, prefix) != Some(k)
    ensures k in Extracted(entries, prefix) && Extracted(entries, prefix)[k] == entries[j].1
  {
    var init := entries[..|entries| - 1];
    if j < |entries| - 1 {
      assert init[j] == entries[j];
      forall j' | j < j' < |init| ensures StripPrefix(init[j'].0, prefix) != Some(k) {
        assert init[j'] == entries[j'];
      }
      ExtractedValue(init, prefix, j, k);
    }
  }

  /** The output never has more entries than the input. */
  lemma {:induction false} ExtractedSize<V>(entries: seq<(string, V)>, prefix: string)
    ensures |Extracted(entries, prefix)| <= |entries|
  {
    if entries != [] {
      var init := entries[..|entries| - 1];
      ExtractedSize(init, prefix);
      var acc := Extracted(init, prefix);
      var (key, value) := entries[|entries| - 1];
      if StripPrefix(key, prefix).Some? {
        var column := StripPrefix(key, prefix).value;
        assert acc[column := value].Keys == acc.Keys + {column};
        assert |acc.Keys + {column}| <= |acc.Keys| + 1;
      }
    }
  }

  /** The keys of a JavaScript object are distinct, so are those of its entries. */
  ghost predicate DistinctKeys<V>(entries: seq<(string, V)>)
  {
    forall i, j :: 0 <= i < j < |entries| ==> entries[i].0 != entries[j].0
  }

  /** No key contains a character at which `(.*)` would stop. */
  ghost predicate LineTerminatorFree<V>(entries: seq<(string, V)>)
  {
    forall j, n :: 0 <= j < |entries| && 0 <= n < |entries[j].0| ==> !IsLineTerminator(entries[j].0[n])
  }

  /** On a key without line terminators, `(.*)` captures everything after `prefix_`. */
  lemma StripPrefixWhole(key: string, prefix: string)
    requires forall n :: 0 <= n < |key| ==> !IsLineTerminator(key[n])
    ensures StripPrefix(key, prefix) == if prefix + "_" <= key then Some(key[|prefix| + 1..]) else None
    ensures prefix + "_" <= key ==> key == prefix + "_" + key[|prefix| + 1..]
  {
    if prefix + "_" <= key {
      var rest := key[|prefix| + 1..];
      forall n | 0 <= n < |rest| ensures !IsLineTerminator(rest[n]) {
        assert rest[n] == key[|prefix| + 1 + n];
      }
      LeadingLineWhole(rest);
    }
  }

  /**
   * For the entries of an object whose keys hold no line terminator: the
   * output has column `k` exactly when the input has key `prefix_k`.
   */
  lemma ExtractedRowKeys<V>(entries: seq<(string, V)>, prefix: string)
    requires LineTerminatorFree(entries)
    ensures forall k :: k in Extracted(entries, prefix) <==>
      exists j :: 0 <= j < |entries| && entries[j].0 == prefix + "_" + k
  {
    ExtractedKeys(entries, prefix);
    forall k ensures (exists j :: 0 <= j < |entries| && StripPrefix(entries[j].0, prefix) == Some(k)) <==>
      exists j :: 0 <= j < |entries| && entries[j].0 == prefix + "_" + k
    {
      forall j | 0 <= j < |entries|
        ensures StripPrefix(entries[j].0, prefix) == Some(k) <==> entries[j].0 == prefix + "_" + k
      {
        StripPrefixWhole(entries[j].0, prefix);
        if entries[j].0 == prefix + "_" + k {
          assert entries[j].0[|prefix| + 1..] == k;
        }
      }
    }
  }

  /**
   * For the entries of an object whose keys hold no line terminator: each key
   * `prefix_k` leaves its value under column `k`; only the leading `prefix_`
   * is removed.
   */
  lemma ExtractedRowValues<V>(entries: seq<(string, V)>, prefix: string, j: int)
    requires DistinctKeys(entries) && LineTerminatorFree(entries)
    requires 0 <= j < |entries| && prefix + "_" <= entries[j].0
    ensures var column := entries[j].0[|prefix| + 1..];
      column in Extracted(entries, prefix) && Extracted(entries, prefix)[column] == entries[j].1
  {
    var column := entries[j].0[|prefix| + 1..];
    StripPrefixWhole(entries[j].0, prefix);
    forall j' | j < j' < |entries| ensures StripPrefix(entries[j'].0, prefix) != Some(column) {
      StripPrefixWhole(entries[j'].0, prefix);
      assert entries[j'].0 != entries[j].0;
    }
    ExtractedValue(entries, prefix, j, column);
  }

  /** The two edge cases of prefix stripping: a repeated prefix is removed once, and `prefix_` itself gives the empty column. */
  lemma StripPrefixExamples()
    ensures StripPrefix("task_task_id", "task") == Some("task_id")
    ensures StripPrefix("task_", "task") == Some("")
    ensures StripPrefix("taskid", "task") == None
  {
    StripPrefixWhole("task_task_id", "task");
    StripPrefixWhole("task_", "task");
    assert "task" + "_" == "task_";
    assert "task_" <= "task_task_id";
    assert "task_task_id"[5..] == "task_id";
    assert "task_" <= "task_";
    assert "task_"[5..] == "";
  }

  // ---------------------------------------------------------------------------
  // convertArrayToObjectById
  // ---------------------------------------------------------------------------

  /**
   * The accumulator after `acc[item.id] = item` has run over `items` in order,
   * starting from `{}`; `idOf` gives the property key an item's `id` becomes.
   */
  function IndexedById<T, K>(items: seq<T>, idOf: T -> K): map<K, T>
  {
    if items == [] then map[]
    else IndexedById(items[..|items| - 1], idOf)[idOf(items[|items| - 1]) := items[|items| - 1]]
  }

  /** The ids carried by `items`. */
  function Ids<T, K>(items: seq<T>, idOf: T -> K): set<K>
  {
    set i | 0 <= i < |items| :: idOf(items[i])
  }

  /** Indexes `items` by id; a later item overwrites an earlier one with the same id. */
  method ConvertArrayToObjectById<T, K>(items: seq<T>, idOf: T -> K) returns (acc: map<K, T>)
    ensures acc == IndexedById(items, idOf)
    ensures acc.Keys == Ids(items, idOf)
    ensures forall k :: k in acc ==> idOf(acc[k]) == k
    ensures |acc| <= |items|
  {
    acc := map[];
    for i := 0 to |items|
      invariant acc == IndexedById(items[..i], idOf)
    {
      assert items[..i + 1][..i] == items[..i];
      acc := acc[idOf(items[i]) := items[i]];
    }
    assert items[..|items|] == items;
    IndexedKeys(items, idOf);
    IndexedSize(items, idOf);
  }

  /** The key set of the index is exactly the set of ids, and each entry is filed under its own id. */
  lemma {:induction false} IndexedKeys<T, K>(items: seq<T>, idOf: T -> K)
    ensures IndexedById(items, idOf).Keys == Ids(items, idOf)
    ensures forall k :: k in IndexedById(items, idOf) ==> idOf(IndexedById(items, idOf)[k]) == k
  {
    if items != [] {
      var init := items[..|items| - 1];
      IndexedKeys(init, idOf);
      assert Ids(items, idOf) == Ids(init, idOf) + {idOf(items[|items| - 1])} by {
        forall k | k in Ids(items, idOf) ensures k in Ids(init, idOf) + {idOf(items[|items| - 1])} {
          var i :| 0 <= i < |items| && idOf(items[i]) == k;
          if i < |init| { assert init[i] == items[i]; }
        }
        forall k | k in Ids(init, idOf) ensures k in Ids(items, idOf) {
          var i :| 0 <= i < |init| && idOf(init[i]) == k;
          assert items[i] == init[i];
        }
      }
    }
  }

  /** Each id maps to the LAST item carrying it. */
  lemma {:induction false} IndexedLastWins<T, K>(items: seq<T>, idOf: T -> K, j: int)
    requires 0 <= j < |items|
    requires forall j' :: j < j' < |items| ==> idOf(items[j']) != idOf(items[j])
    ensures idOf(items[j]) in IndexedById(items, idOf)
    ensures IndexedById(items, idOf)[idOf(items[j])] == items[j]
  {
    var init := items[..|items| - 1];
    if j < |items| - 1 {
      assert init[j] == items[j];
      forall j' | j < j' < |init| ensures idOf(init[j']) != idOf(init[j]) {
        assert init[j'] == items[j'];
      }
      IndexedLastWins(init, idOf, j);
    }
  }

  /** All ids are different. */
  ghost predicate DistinctIds<T, K>(items: seq<T>, idOf: T -> K)
  {
    forall i, j :: 0 <= i < j < |items| ==> idOf(items[i]) != idOf(items[j])
  }

  /** The index has at most one entry per item, and exactly one when the ids are distinct. */
  lemma {:induction false} IndexedSize<T, K>(items: seq<T>, idOf: T -> K)
    ensures |IndexedById(items, idOf)| <= |items|
    ensures DistinctIds(items, idOf) ==> |IndexedById(items, idOf)| == |items|
  {
    if items != [] {
      var init := items[..|items| - 1];
      var last := items[|items| - 1];
      IndexedSize(init, idOf);
      IndexedKeys(init, idOf);
      var acc := IndexedById(init, idOf);
      assert acc[idOf(last) := last].Keys == acc.Keys + {idOf(last)};
      assert |acc.Keys + {idOf(last)}| <= |acc.Keys| + 1;
      if DistinctIds(items, idOf) {
        assert DistinctIds(init, idOf) by {
          forall i, j | 0 <= i < j < |init| ensures idOf(init[i]) != idOf(init[j]) {
            assert init[i] == items[i] && init[j] == items[j];
          }
        }
        assert idOf(last) !in acc.Keys by {
          forall i | 0 <= i < |init| ensures idOf(init[i]) != idOf(last) {
            assert init[i] == items[i];
          }
        }
      }
    }
  }
}
