/**
  The idempotent upsert of hourly air-quality measurements into the
  warehouse table `raw.air_quality_hourly` (src/aqw/warehouse.py).

  Each incoming record (a dict) is flattened into a fixed nine-column row;
  the rows are submitted in pages of 1000 to one
  `INSERT ... ON CONFLICT (sensor_id, ts_utc) DO UPDATE SET value = EXCLUDED.value`
  inside one transaction. The table is a map from the natural key
  `(sensor_id, ts_utc)` to the stored row.
*/
module Warehouse {
  import opened Wrappers

  /** A column value as it reaches the database: SQL NULL (Python `None`),
      an integer, text, or a double carried as its IEEE-754 bit pattern
      (the model never computes on it). */
  datatype Scalar = Null | Int(i: int) | Text(s: string) | Double(bits: bv64)

  /** One incoming record: a dict from column name to value. */
  type Record = map<string, Scalar>

  /** One row of `raw.air_quality_hourly`, in the table's column order. */
  datatype Tuple = Tuple(
    sensorId: Scalar, locationId: Scalar, locationName: Scalar,
    parameter: Scalar, units: Scalar, latitude: Scalar, longitude: Scalar,
    tsUtc: Scalar, value: Scalar)

  /** The conflict target `(sensor_id, ts_utc)`. */
  datatype Key = Key(sensorId: Scalar, tsUtc: Scalar)

  /** The column list of the INSERT statement, in order. */
  const Columns: seq<string> :=
    ["sensor_id", "location_id", "location_name", "parameter", "units",
     "latitude", "longitude", "ts_utc", "value"]

  /** The columns read with `r[...]`, in the order the tuple reads them;
      every other column is read with `r.get(...)`. */
  const Required: seq<string> := ["sensor_id", "parameter", "ts_utc"]

  /** The `page_size` given to `execute_values`. */
  const PageSize: nat := 1000

  /** The fields of a row, in column order. */
  function Fields(t: Tuple): (fs: seq<Scalar>)
    ensures |fs| == |Columns|
  {
    [t.sensorId, t.locationId, t.locationName, t.parameter, t.units,
     t.latitude, t.longitude, t.tsUtc, t.value]
  }

  /** `r.get(name)`: the value, or `None` when the key is absent. */
  function Get(r: Record, name: string): Scalar
  {
    if name in r then r[name] else Null
  }

  function KeyOf(t: Tuple): Key
  {
    Key(t.sensorId, t.tsUtc)
  }

  // ---------------------------------------------------------------------
  // Flattening (the list comprehension)
  // ---------------------------------------------------------------------

  /** The tuple built from one record. A missing required column raises
      `KeyError` naming the first one missing in evaluation order; a
      missing optional column becomes NULL. */
  function FlattenRow(r: Record): (res: Result<Tuple, string>)
    ensures res.Err? <==> exists c :: c in Required && c !in r
    ensures res.Err? ==>
      exists i :: 0 <= i < |Required| && res.error == Required[i] && Required[i] !in r &&
        forall j :: 0 <= j < i ==> Required[j] in r
    ensures res.Ok? ==>
      forall i :: 0 <= i < |Columns| ==> Fields(res.value)[i] == Get(r, Columns[i])
  {
    if "sensor_id" !in r then
      assert Required[0] == "sensor_id";
      Err("sensor_id")
    else if "parameter" !in r then
      assert Required[0] == "sensor_id" && Required[1] == "parameter";
      Err("parameter")
    else if "ts_utc" !in r then
      assert Required[0] == "sensor_id" && Required[1] == "parameter" && Required[2] == "ts_utc";
      Err("ts_utc")
    else
      Ok(Tuple(r["sensor_id"], Get(r, "location_id"), Get(r, "location_name"),
               r["parameter"], Get(r, "units"), Get(r, "latitude"), Get(r, "longitude"),
               r["ts_utc"], Get(r, "value")))
  }

  /** The values list: one tuple per record, in input order, or the
      `KeyError` of the first record that cannot be flattened. */
  function Flatten(rows: seq<Record>): (res: Result<seq<Tuple>, string>)
    ensures res.Ok? <==> forall i :: 0 <= i < |rows| ==> FlattenRow(rows[i]).Ok?
    ensures res.Ok? ==>
      |res.value| == |rows| &&
      forall i :: 0 <= i < |rows| ==> FlattenRow(rows[i]) == Ok(res.value[i])
    ensures res.Err? ==>
      exists i :: 0 <= i < |rows| && FlattenRow(rows[i]) == Err(res.error) &&
        forall j :: 0 <= j < i ==> FlattenRow(rows[j]).Ok?
    decreases |rows|
  {
    if rows == [] then Ok([])
    else
      match FlattenRow(rows[0])
      case Err(e) => Err(e)
      case Ok(t) =>
        var rest := Flatten(rows[1..]);
        assert forall i :: 1 <= i < |rows| ==> rows[i] == rows[1..][i - 1];
        match rest
        case Err(e) =>
          assert exists i ::
            (1 <= i < |rows| && FlattenRow(rows[i]) == Err(e) &&
             forall j :: 0 <= j < i ==> FlattenRow(rows[j]).Ok?);
          Err(e)
        case Ok(ts) => Ok([t] + ts)
  }

  // ---------------------------------------------------------------------
  // Paging
  // ---------------------------------------------------------------------

  function Concat<T>(ps: seq<seq<T>>): seq<T>
    decreases |ps|
  {
    if ps == [] then [] else ps[0] + Concat(ps[1..])
  }

  lemma {:induction false} ConcatSnoc<T>(ps: seq<seq<T>>, p: seq<T>)
    ensures Concat(ps + [p]) == Concat(ps) + p
    decreases |ps|
  {
    if ps == [] {
      assert [p][1..] == [];
    } else {
      assert (ps + [p])[1..] == ps[1..] + [p];
      ConcatSnoc(ps[1..], p);
    }
  }

  /** The pages `execute_values` submits: full pages of `size` tuples and
      a shorter last page; their concatenation is the whole values list. */
  function Pages<T>(vs: seq<T>, size: nat): (ps: seq<seq<T>>)
    requires size > 0
    ensures Concat(ps) == vs
    ensures forall i :: 0 <= i < |ps| ==> 0 < |ps[i]| <= size
    ensures forall i :: 0 <= i < |ps| - 1 ==> |ps[i]| == size
    decreases |vs|
  {
    if vs == [] then []
    else if |vs| <= size then
      assert Concat([vs]) == vs + Concat([vs][1..]);
      [vs]
    else
      var rest := Pages(vs[size..], size);
      assert ([vs[..size]] + rest)[1..] == rest;
      assert vs == vs[..size] + vs[size..];
      [vs[..size]] + rest
  }

  // ---------------------------------------------------------------------
  // ON CONFLICT semantics
  // ---------------------------------------------------------------------

  /** Every stored row sits under its own key: at most one row per
      `(sensor_id, ts_utc)`. */
  ghost predicate Keyed(t: map<Key, Tuple>)
  {
    forall k :: k in t ==> KeyOf(t[k]) == k
  }

  /** The keys of a batch. */
  function BatchKeys(xs: seq<Tuple>): set<Key>
  {
    set i | 0 <= i < |xs| :: KeyOf(xs[i])
  }

  /** No two rows of the batch share a key. */
  predicate DistinctKeys(xs: seq<Tuple>)
  {
    forall i, j :: 0 <= i < j < |xs| ==> KeyOf(xs[i]) != KeyOf(xs[j])
  }

  /** No row has a NULL key column, so every row can conflict with a
      stored one under its key. */
  predicate NonNullKeys(xs: seq<Tuple>)
  {
    forall i :: 0 <= i < |xs| ==> xs[i].sensorId != Null && xs[i].tsUtc != Null
  }

  /** Appending a row keeps the keys distinct exactly when its key is new. */
  lemma DistinctSnoc(xs: seq<Tuple>, x: Tuple)
    ensures BatchKeys(xs + [x]) == BatchKeys(xs) + {KeyOf(x)}
    ensures DistinctKeys(xs + [x]) <==> DistinctKeys(xs) && KeyOf(x) !in BatchKeys(xs)
  {
    var ys := xs + [x];
    assert forall i :: 0 <= i < |xs| ==> ys[i] == xs[i];
    assert ys[|xs|] == x;
    if KeyOf(x) in BatchKeys(xs) {
      var a :| 0 <= a < |xs| && KeyOf(xs[a]) == KeyOf(x);
      assert KeyOf(ys[a]) == KeyOf(ys[|xs|]);
    }
  }

  /** The parts of a batch with distinct keys have distinct keys. */
  lemma DistinctAppend(xs: seq<Tuple>, ys: seq<Tuple>)
    requires DistinctKeys(xs + ys)
    ensures DistinctKeys(xs) && DistinctKeys(ys)
  {
    var zs := xs + ys;
    forall i, j | 0 <= i < j < |ys| ensures KeyOf(ys[i]) != KeyOf(ys[j]) {
      assert zs[|xs| + i] == ys[i] && zs[|xs| + j] == ys[j];
    }
    forall i, j | 0 <= i < j < |xs| ensures KeyOf(xs[i]) != KeyOf(xs[j]) {
      assert zs[i] == xs[i] && zs[j] == xs[j];
    }
  }

  /** One row through `INSERT ... ON CONFLICT DO UPDATE SET value = EXCLUDED.value`:
      a new key inserts the whole row; an existing key takes the incoming
      value and keeps every other stored column. */
  function Absorb(t: map<Key, Tuple>, x: Tuple): (u: map<Key, Tuple>)
    ensures u.Keys == t.Keys + {KeyOf(x)}
    ensures forall k :: k in t && k != KeyOf(x) ==> u[k] == t[k]
    ensures u[KeyOf(x)].value == x.value
    ensures KeyOf(x) in t ==> u[KeyOf(x)] == t[KeyOf(x)].(value := x.value)
    ensures KeyOf(x) !in t ==> u[KeyOf(x)] == x
    ensures Keyed(t) ==> Keyed(u)
  {
    var k := KeyOf(x);
    if k in t then t[k := t[k].(value := x.value)] else t[k := x]
  }

  /** The table after the rows of `xs`, in order. */
  function Merge(t: map<Key, Tuple>, xs: seq<Tuple>): map<Key, Tuple>
    decreases |xs|
  {
    if xs == [] then t else Absorb(Merge(t, xs[..|xs| - 1]), xs[|xs| - 1])
  }

  lemma MergeSnoc(t: map<Key, Tuple>, xs: seq<Tuple>, x: Tuple)
    ensures Merge(t, xs + [x]) == Absorb(Merge(t, xs), x)
  {
    assert (xs + [x])[..|xs|] == xs;
  }

  /** Merging keeps one row per key. */
  lemma {:induction false} MergeKeyed(t: map<Key, Tuple>, xs: seq<Tuple>)
    requires Keyed(t)
    ensures Keyed(Merge(t, xs))
    decreases |xs|
  {
    if xs != [] {
      MergeKeyed(t, xs[..|xs| - 1]);
    }
  }

  /** A key the batch does not mention keeps its row, or stays absent. */
  lemma {:induction false} MergeOutside(t: map<Key, Tuple>, xs: seq<Tuple>, k: Key)
    requires k !in BatchKeys(xs)
    ensures k in Merge(t, xs) <==> k in t
    ensures k in t ==> Merge(t, xs)[k] == t[k]
    decreases |xs|
  {
    if xs != [] {
      var n := |xs| - 1;
      assert KeyOf(xs[n]) in BatchKeys(xs);
      assert BatchKeys(xs[..n]) <= BatchKeys(xs) by {
        forall k' | k' in BatchKeys(xs[..n]) ensures k' in BatchKeys(xs) {
          var i :| 0 <= i < n && KeyOf(xs[..n][i]) == k';
          assert xs[..n][i] == xs[i];
        }
      }
      MergeOutside(t, xs[..n], k);
    }
  }

  /** A batch row with a key already stored replaces only `value`; one with a
      new key is stored in full (keys distinct within the batch). */
  lemma {:induction false} MergeInside(t: map<Key, Tuple>, xs: seq<Tuple>, i: nat)
    requires DistinctKeys(xs) && i < |xs|
    ensures KeyOf(xs[i]) in Merge(t, xs)
    ensures Merge(t, xs)[KeyOf(xs[i])] ==
      if KeyOf(xs[i]) in t then t[KeyOf(xs[i])].(value := xs[i].value) else xs[i]
    decreases |xs|
  {
    var n := |xs| - 1;
    var ys := xs[..n];
    var k := KeyOf(xs[i]);
    assert ys + [xs[n]] == xs;
    DistinctSnoc(ys, xs[n]);
    if i == n {
      MergeOutside(t, ys, k);
    } else {
      assert ys[i] == xs[i];
      MergeInside(t, ys, i);
    }
  }

  /** Conflict resolution for a batch with distinct keys: the stored keys are
      the old keys plus the batch keys; a key outside the batch keeps its row;
      a batch row whose key was stored replaces only `value`; a batch row
      whose key was absent is stored in full. */
  lemma MergeCharacterised(t: map<Key, Tuple>, xs: seq<Tuple>)
    requires DistinctKeys(xs)
    ensures Merge(t, xs).Keys == t.Keys + BatchKeys(xs)
    ensures forall k :: k in t && k !in BatchKeys(xs) ==> Merge(t, xs)[k] == t[k]
    ensures forall i :: 0 <= i < |xs| && KeyOf(xs[i]) in t ==>
      Merge(t, xs)[KeyOf(xs[i])] == t[KeyOf(xs[i])].(value := xs[i].value)
    ensures forall i :: 0 <= i < |xs| && KeyOf(xs[i]) !in t ==>
      Merge(t, xs)[KeyOf(xs[i])] == xs[i]
  {
    var u := Merge(t, xs);
    forall k | k !in BatchKeys(xs)
      ensures (k in u <==> k in t) && (k in t ==> u[k] == t[k])
    {
      MergeOutside(t, xs, k);
    }
    forall i | 0 <= i < |xs|
      ensures KeyOf(xs[i]) in u
      ensures u[KeyOf(xs[i])] ==
        if KeyOf(xs[i]) in t then t[KeyOf(xs[i])].(value := xs[i].value) else xs[i]
    {
      MergeInside(t, xs, i);
    }
  }

  /** The value of the last row of `xs` with key `k` (NULL when none has it). */
  function LastValue(xs: seq<Tuple>, k: Key): Scalar
    decreases |xs|
  {
    if xs == [] then Null
    else if KeyOf(xs[|xs| - 1]) == k then xs[|xs| - 1].value
    else LastValue(xs[..|xs| - 1], k)
  }

  /** Whatever the batch, repeated keys included, a batch key ends up stored
      with the value of the last batch row that has it. */
  lemma {:induction false} MergeLastValue(t: map<Key, Tuple>, xs: seq<Tuple>, k: Key)
    requires k in BatchKeys(xs)
    ensures k in Merge(t, xs) && Merge(t, xs)[k].value == LastValue(xs, k)
    decreases |xs|
  {
    var n := |xs| - 1;
    if KeyOf(xs[n]) != k {
      var i :| 0 <= i < |xs| && KeyOf(xs[i]) == k;
      assert xs[..n][i] == xs[i];
      MergeLastValue(t, xs[..n], k);
    }
  }

  /** Whatever the batch, a stored row stays stored and no column of it but
      `value` ever changes. */
  lemma {:induction false} MergeStored(t: map<Key, Tuple>, xs: seq<Tuple>, k: Key)
    requires k in t
    ensures k in Merge(t, xs)
    ensures Merge(t, xs)[k] == t[k].(value := Merge(t, xs)[k].value)
    decreases |xs|
  {
    if xs != [] {
      MergeStored(t, xs[..|xs| - 1], k);
    }
  }

  /** Re-running the same batch, with or without repeated keys, leaves the
      table exactly as one run did: no new rows and identical stored values. */
  lemma MergeIdempotent(t: map<Key, Tuple>, xs: seq<Tuple>)
    ensures Merge(Merge(t, xs), xs) == Merge(t, xs)
  {
    var u := Merge(t, xs);
    var v := Merge(u, xs);
    forall k | k in u
      ensures k in v && v[k] == u[k]
    {
      MergeStored(u, xs, k);
      if k in BatchKeys(xs) {
        MergeLastValue(t, xs, k);
        MergeLastValue(u, xs, k);
      } else {
        MergeOutside(u, xs, k);
      }
    }
    forall k | k in v
      ensures k in u
    {
      if k in BatchKeys(xs) {
        MergeLastValue(t, xs, k);
      } else {
        MergeOutside(u, xs, k);
      }
    }
    assert v.Keys == u.Keys;
  }

  /** The key-conflict scenario: a stored row and an incoming row with the
      same key leave exactly one row for the key, holding the incoming value
      and the other columns as first stored. */
  lemma ConflictScenario(t: map<Key, Tuple>, stored: Tuple, incoming: Tuple)
    requires KeyOf(stored) in t && t[KeyOf(stored)] == stored
    requires KeyOf(incoming) == KeyOf(stored)
    ensures |Merge(t, [incoming])| == |t|
    ensures Merge(t, [incoming])[KeyOf(stored)] == stored.(value := incoming.value)
  {
    assert [incoming][..0] == [];
    assert Merge(t, [incoming]).Keys == t.Keys;
  }

  /** Merging two batches one after the other is merging their concatenation. */
  lemma {:induction false} MergeAppend(t: map<Key, Tuple>, xs: seq<Tuple>, ys: seq<Tuple>)
    ensures Merge(t, xs + ys) == Merge(Merge(t, xs), ys)
    decreases |ys|
  {
    if ys == [] {
      assert xs + ys == xs;
    } else {
      var n := |ys| - 1;
      assert (xs + ys)[..|xs + ys| - 1] == xs + ys[..n];
      MergeAppend(t, xs, ys[..n]);
    }
  }

  /** The error PostgreSQL raises when one ON CONFLICT DO UPDATE statement
      would touch the same row twice. */
  const CardinalityViolation: string := "CardinalityViolation"

  /** Every page `execute_values` submits has distinct keys, so none of its
      statements touches a row twice. A key may repeat across pages. */
  predicate PagesDistinct(values: seq<Tuple>)
  {
    AllDistinct(Pages(values, PageSize))
  }

  /** Every one of the pages has distinct keys. */
  predicate AllDistinct(ps: seq<seq<Tuple>>)
  {
    forall i :: 0 <= i < |ps| ==> DistinctKeys(ps[i])
  }

  /** One more page keeps the pages distinct exactly when it is distinct itself. */
  lemma AllDistinctSnoc(ps: seq<seq<Tuple>>, p: nat)
    requires p < |ps|
    ensures AllDistinct(ps[..p + 1]) <==> AllDistinct(ps[..p]) && DistinctKeys(ps[p])
  {
    assert forall i :: 0 <= i < p ==> ps[..p + 1][i] == ps[..p][i];
    assert ps[..p + 1][p] == ps[p];
  }

  /** Pages of a list with distinct keys have distinct keys. */
  lemma {:induction false} DistinctConcat(ps: seq<seq<Tuple>>)
    requires DistinctKeys(Concat(ps))
    ensures forall i :: 0 <= i < |ps| ==> DistinctKeys(ps[i])
    decreases |ps|
  {
    if ps != [] {
      DistinctAppend(ps[0], Concat(ps[1..]));
      DistinctConcat(ps[1..]);
      assert forall i :: 1 <= i < |ps| ==> ps[i] == ps[1..][i - 1];
    }
  }

  /** A batch with distinct keys never trips the cardinality check. */
  lemma DistinctBatchAccepted(values: seq<Tuple>)
    requires DistinctKeys(values)
    ensures PagesDistinct(values)
  {
    DistinctConcat(Pages(values, PageSize));
  }

  /** A batch that fits in one page is accepted exactly when its keys are
      distinct. */
  lemma SinglePageAccepted(values: seq<Tuple>)
    requires 0 < |values| <= PageSize
    ensures PagesDistinct(values) <==> DistinctKeys(values)
  {
    assert Pages(values, PageSize) == [values];
  }

  /** Distinct keys per page is weaker than distinct keys per batch: the
      same key on the first and the last row of a 1001-row batch lands in
      two pages and is accepted, the later page updating the earlier one. */
  lemma RepeatAcrossPagesAccepted()
    ensures exists vs :: NonNullKeys(vs) && !DistinctKeys(vs) && PagesDistinct(vs)
  {
    var vs := seq(PageSize + 1, i => Tuple(Int(i % PageSize), Null, Null, Null, Null, Null, Null, Int(0), Null));
    assert KeyOf(vs[0]) == KeyOf(vs[PageSize]);
    var ps := Pages(vs, PageSize);
    assert Pages(vs[PageSize..], PageSize) == [vs[PageSize..]];
    assert ps == [vs[..PageSize], vs[PageSize..]];
    assert DistinctKeys(vs[..PageSize]) by {
      forall i, j | 0 <= i < j < PageSize
        ensures KeyOf(vs[..PageSize][i]) != KeyOf(vs[..PageSize][j])
      {
        assert vs[..PageSize][i] == vs[i] && vs[..PageSize][j] == vs[j];
      }
    }
    assert NonNullKeys(vs) && !DistinctKeys(vs) && PagesDistinct(vs);
  }

  /** One page through the ON CONFLICT statement, row by row. A row whose key
      an earlier row of the same statement already touched aborts the
      statement (`ok` false); otherwise the page is merged into the table. */
  method ExecutePage(t: map<Key, Tuple>, page: seq<Tuple>) returns (staged: map<Key, Tuple>, ok: bool)
    ensures ok <==> DistinctKeys(page)
    ensures ok ==> staged == Merge(t, page)
  {
    staged := t;
    var touched: set<Key> := {};
    var j := 0;
    while j < |page|
      invariant 0 <= j <= |page|
      invariant touched == BatchKeys(page[..j])
      invariant DistinctKeys(page[..j])
      invariant staged == Merge(t, page[..j])
    {
      assert page[..j + 1] == page[..j] + [page[j]];
      DistinctSnoc(page[..j], page[j]);
      if KeyOf(page[j]) in touched {
        var a :| 0 <= a < j && KeyOf(page[..j][a]) == KeyOf(page[j]);
        assert page[..j][a] == page[a];
        return staged, false;
      }
      MergeSnoc(t, page[..j], page[j]);
      staged := Absorb(staged, page[j]);
      touched := touched + {KeyOf(page[j])};
      j := j + 1;
    }
    assert page[..j] == page;
    ok := true;
  }

  /** Merging the first `p + 1` pages is merging page `p` after the first `p`. */
  lemma MergeNextPage(t: map<Key, Tuple>, pages: seq<seq<Tuple>>, p: nat)
    requires p < |pages|
    ensures Merge(t, Concat(pages[..p + 1])) == Merge(Merge(t, Concat(pages[..p])), pages[p])
  {
    assert pages[..p + 1] == pages[..p] + [pages[p]];
    ConcatSnoc(pages[..p], pages[p]);
    MergeAppend(t, Concat(pages[..p]), pages[p]);
  }

  /** `execute_values(cur, sql, values, page_size=1000)` inside the open
      transaction: the pages in turn go through the ON CONFLICT statement.
      It fails (`ok` false) exactly when some page repeats a key; otherwise
      the result is the batch merged in order, so paging neither drops nor
      repeats a row. */
  method ExecuteValues(t: map<Key, Tuple>, values: seq<Tuple>) returns (staged: map<Key, Tuple>, ok: bool)
    ensures ok <==> PagesDistinct(values)
    ensures ok ==> staged == Merge(t, values)
  {
    staged := t;
    var pages := Pages(values, PageSize);
    var p := 0;
    while p < |pages|
      invariant 0 <= p <= |pages|
      invariant AllDistinct(pages[..p])
      invariant staged == Merge(t, Concat(pages[..p]))
    {
      var pageOk;
      staged, pageOk := ExecutePage(staged, pages[p]);
      if !pageOk {
        assert !AllDistinct(pages);
        return staged, false;
      }
      AllDistinctSnoc(pages, p);
      MergeNextPage(t, pages, p);
      p := p + 1;
    }
    assert pages[..p] == pages;
    ok := true;
  }

  // ---------------------------------------------------------------------
  // The table and upsert_air_quality
  // ---------------------------------------------------------------------

  /** `raw.air_quality_hourly` as the warehouse holds it. */
  class AirQualityTable {
    /** The committed rows, by natural key. */
    var rows: map<Key, Tuple>
    /** How many warehouse connections `conn()` has opened. */
    var connections: nat

    ghost predicate Valid()
      reads this
    {
      Keyed(rows)
    }

    constructor ()
      ensures Valid() && rows == map[] && connections == 0
    {
      rows := map[];
      connections := 0;
    }

    /** `upsert_air_quality(batch)`: an empty batch returns 0 without
        connecting; a record missing a required column raises `KeyError`
        before connecting; a page that repeats a key raises
        `CardinalityViolation` and the transaction rolls back; otherwise all
        pages are merged in one transaction and the number of rows submitted
        is returned. */
    method UpsertAirQuality(batch: seq<Record>) returns (res: Result<nat, string>)
      requires Valid()
      requires Flatten(batch).Ok? ==> NonNullKeys(Flatten(batch).value)
      modifies this
      ensures Valid()
      ensures batch == [] ==>
        res == Ok(0) && rows == old(rows) && connections == old(connections)
      ensures batch != [] && Flatten(batch).Err? ==>
        res == Err(Flatten(batch).error) && rows == old(rows) && connections == old(connections)
      ensures batch != [] && Flatten(batch).Ok? && !PagesDistinct(Flatten(batch).value) ==>
        && res == Err(CardinalityViolation)
        && rows == old(rows)
        && connections == old(connections) + 1
      ensures batch != [] && Flatten(batch).Ok? && PagesDistinct(Flatten(batch).value) ==>
        && res == Ok(|batch|)
        && rows == Merge(old(rows), Flatten(batch).value)
        && connections == old(connections) + 1
    {
      if batch == [] {
        return Ok(0);
      }
      var flat := Flatten(batch);
      if flat.Err? {
        return Err(flat.error);
      }
      var values := flat.value;
      connections := connections + 1;
      // The transaction: nothing is visible until the commit below.
      var staged, ok := ExecuteValues(rows, values);
      if !ok {
        // The exception leaves the `with` block, which rolls back.
        return Err(CardinalityViolation);
      }
      MergeKeyed(rows, values);
      rows := staged;
      res := Ok(|values|);
    }
  }
}
