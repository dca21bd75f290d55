# Air-quality warehouse upsert and setup-notebook names, in Dafny

This project models two pieces of an air-quality ingestion pipeline.

- **`upsert_air_quality`** (`src/aqw/warehouse.py`), module `Warehouse` in
  `warehouse.dfy`. It flattens each incoming record into the nine columns of
  `raw.air_quality_hourly`. Then it submits the rows in pages of 1000 to one
  `INSERT ... ON CONFLICT (sensor_id, ts_utc) DO UPDATE SET value = EXCLUDED.value`,
  inside one transaction, and returns the number of rows submitted.
  - The table is the class `AirQualityTable`. Its field `rows` maps the natural
    key `(sensor_id, ts_utc)` to the stored row. Its field `connections` counts
    the connections `conn()` has opened.
  - The upsert is the method `UpsertAirQuality`. It merges the batch into a
    staged copy of the table (the open transaction) and assigns `rows` once,
    at commit.
  - The method is specified by the function `Merge`, a fold of `Absorb` over
    the batch. `Absorb` inserts a new key in full; for a stored key it
    replaces only `value`.
- **The configuration names of `notebooks/00_setup.py`**, module `Setup` in
  `setup.dfy`. This covers `_to_bool` (strip, lower-case, then a true set, a
  false set, or `None`) and `supports_unity_catalog` with the `SHOW CATALOGS`
  probe as a boolean input. It also covers `CATALOG`, `PREFIX`,
  `STORAGE_BASE`, the three schema names, the three storage paths and
  `fqtn`.

`wrappers.dfy` holds the `Option` and `Result` types. `Result` carries the
`KeyError` that the flattening raises, or the `CardinalityViolation` of a page
that repeats a key.

Behaviour of `upsert_air_quality` the model keeps:
- A record missing `sensor_id`, `parameter` or `ts_utc` raises `KeyError`
  before any connection is opened, so the whole call fails. No record is
  skipped while the rest of the batch goes on.
- Each page of 1000 rows is one INSERT statement. A key repeated within one
  page makes PostgreSQL raise `CardinalityViolation`, since one ON CONFLICT
  DO UPDATE statement may not touch a row twice. A key repeated across two
  pages is accepted: the later page updates the row the earlier one wrote.
- All pages share one transaction. An error in any page rolls all of them
  back; otherwise they are committed together.
- There are no retries and no backoff.

## Model

| member | source | states |
|---|---|---|
| `Warehouse.FlattenRow` | src/aqw/warehouse.py:29-36 | A record missing `sensor_id`, `parameter` or `ts_utc` gives `KeyError`, exactly when one of them is missing. The error names the first one missing, in tuple order. Otherwise the nine fields, in the order `sensor_id, location_id, location_name, parameter, units, latitude, longitude, ts_utc, value`, are the record's values. An absent optional column becomes NULL, so the row is kept. |
| `Warehouse.Flatten` | src/aqw/warehouse.py:29-36 | The result is `KeyError` exactly when some record fails, and then it is the error of the first failing record. Otherwise there is one tuple per record, in input order, and the count is preserved. |
| `Warehouse.Pages` | src/aqw/warehouse.py:38 | Pages are non-empty and hold at most 1000 rows. All pages but the last are full. Their concatenation is the whole values list, so paging drops and repeats no row. |
| `Warehouse.Absorb` | src/aqw/warehouse.py:22-28 | One row through the ON CONFLICT statement. The key set gains the row's key. Other keys keep their rows. On a conflict the stored row keeps every column but `value`, which becomes the incoming value. A new key stores the incoming row in full. One row per key is preserved. |
| `Warehouse.Merge` | src/aqw/warehouse.py:22-28 | The fold of `Absorb` over the batch, in order. It has no contract of its own. `MergeKeyed`, `MergeOutside`, `MergeInside`, `MergeCharacterised`, `MergeLastValue`, `MergeStored`, `MergeIdempotent` and `MergeAppend` state its properties. |
| `Warehouse.MergeKeyed` | src/aqw/warehouse.py:26 | After any batch, every stored row sits under its own `(sensor_id, ts_utc)` key, so there is exactly one row per key. |
| `Warehouse.MergeOutside` | src/aqw/warehouse.py:23-27 | A key that is not in the batch keeps its row, or stays absent. |
| `Warehouse.MergeInside` | src/aqw/warehouse.py:23-27 | For a batch with distinct keys, a batch row whose key is stored changes only `value`, and every other column stays as stored. A batch row whose key is absent is inserted in full. |
| `Warehouse.MergeCharacterised` | src/aqw/warehouse.py:22-28 | For a batch with distinct keys, the keys afterwards are the old keys plus the batch keys. Rows outside the batch are unchanged. Conflicting rows take the incoming value only. New keys hold the incoming row. |
| `Warehouse.MergeLastValue` | src/aqw/warehouse.py:26-27 | For any batch, repeated keys included, each batch key is stored with the value of the last batch row that has it. |
| `Warehouse.MergeStored` | src/aqw/warehouse.py:26-27 | For any batch, a stored row stays stored and no column of it except `value` changes. |
| `Warehouse.MergeIdempotent` | src/aqw/warehouse.py:18-27 | For any batch, repeated keys included, upserting it twice leaves the same table as upserting it once. |
| `Warehouse.ConflictScenario` | src/aqw/warehouse.py:26-27 | A stored row and an incoming row with the same key leave the row count unchanged. The key's row then has the incoming value and its other columns as first stored. |
| `Warehouse.MergeAppend` | src/aqw/warehouse.py:38 | Merging two consecutive chunks one after the other equals merging their concatenation, so splitting into pages does not change the result. |
| `Warehouse.DistinctBatchAccepted` | src/aqw/warehouse.py:38 | A batch whose keys are all distinct has distinct keys in every page, so no statement fails. |
| `Warehouse.SinglePageAccepted` | src/aqw/warehouse.py:38 | A batch of at most 1000 rows is accepted exactly when its keys are distinct. |
| `Warehouse.RepeatAcrossPagesAccepted` | src/aqw/warehouse.py:38 | Some batch with non-NULL keys repeats a key and is still accepted, because the repeat falls in two different pages. |
| `Warehouse.ExecutePage` | src/aqw/warehouse.py:38 | One page's statement, row by row, fails exactly when the page repeats a key. Otherwise it yields the page merged into the table. |
| `Warehouse.ExecuteValues` | src/aqw/warehouse.py:37-38 | Submitting the values page by page fails exactly when some page repeats a key. Otherwise it yields exactly the batch merged in order. |
| `Warehouse.AirQualityTable.UpsertAirQuality` | src/aqw/warehouse.py:15-39 | An empty batch returns 0, opens no connection and leaves the table unchanged. A `KeyError` returns the error, opens no connection and leaves the table unchanged. A page that repeats a key opens one connection, returns `CardinalityViolation` and rolls the table back unchanged. Otherwise the call opens one connection, commits the batch merged into the old table, returns the number of records, and keeps one row per key. |
| `Setup.Strip` | notebooks/00_setup.py:20 | A stripped string neither starts nor ends with a character for which `str.isspace()` holds. |
| `Setup.StripRemovesSpaceOnly` | notebooks/00_setup.py:28-29 | `strip()` keeps a contiguous middle of its input and removes only whitespace before and after it. This is what `CATALOG` and `PREFIX` are. |
| `Setup.LStripRemovesSpaceOnly` | notebooks/00_setup.py:20 | The leading part that `lstrip` removes is all whitespace. |
| `Setup.RStripRemovesSpaceOnly` | notebooks/00_setup.py:20 | The trailing part that `rstrip` removes is all whitespace. |
| `Setup.Lower` | notebooks/00_setup.py:20 | `lower()` on the ASCII letters. Its contract keeps the length; `LowerAt`, `LowerIdempotent` and the `Setup.Lower` line under Left out say the rest. |
| `Setup.LowerAt` | notebooks/00_setup.py:20 | `lower()` maps each character on its own. |
| `Setup.LowerIdempotent` | notebooks/00_setup.py:20 | Lower-casing twice equals lower-casing once. |
| `Setup.Normalize` | notebooks/00_setup.py:20 | `s.strip().lower()`. It has no contract of its own. `NormalizeIdempotent` and `ToBoolInsensitive` state its properties, and `StripRemovesSpaceOnly` and `LowerAt` state those of its two steps. |
| `Setup.NormalizeIdempotent` | notebooks/00_setup.py:20 | Stripping then lower-casing is idempotent. |
| `Setup.Classify` | notebooks/00_setup.py:21-25 | The result is `True` exactly for `true`, `1`, `yes` and `y`. It is `False` exactly for `false`, `0`, `no` and `n`. It is `None` exactly for every other text. |
| `Setup.ToBool` | notebooks/00_setup.py:17-25 | `None` maps to `None`. A string maps to `True` exactly when its stripped, lower-cased form is `true`, `1`, `yes` or `y`; to `False` exactly when that form is `false`, `0`, `no` or `n`; and to `None` exactly when it is neither. |
| `Setup.WordsDisjoint` | notebooks/00_setup.py:21-24 | The true and false spellings share no word, so `_to_bool` is well defined. |
| `Setup.ToBoolInsensitive` | notebooks/00_setup.py:20 | `_to_bool(s) == _to_bool(s.strip().lower())`, so case and surrounding whitespace do not matter. |
| `Setup.BlankIsAuto` | notebooks/00_setup.py:14-25 | The blank or whitespace-only widget value (the "auto" setting) maps to `None`. |
| `Setup.ConfText` | notebooks/00_setup.py:82 | `str(USE_UC).lower()`. It has no contract of its own. `ConfTextRoundTrip` states that it parses back to the same flag. |
| `Setup.ConfTextRoundTrip` | notebooks/00_setup.py:82 | The published text `str(USE_UC).lower()` parses back through `_to_bool` to the same flag. |
| `Setup.SupportsUnityCatalog` | notebooks/00_setup.py:34-45 | A forced `True` or `False` is returned as is. The probe result is used only when nothing is forced. |
| `Setup.Derive` | notebooks/00_setup.py:28-52 | `CATALOG`, `PREFIX`, `STORAGE_BASE`, `USE_UC`, the schema names and the storage paths. It has no contract of its own. `StripRemovesSpaceOnly`, `StorageBase`, `SupportsUnityCatalog`, `ProbeDecidesOnlyWhenAuto`, `SchemaNames` and `StoragePaths` state their properties. |
| `Setup.ProbeDecidesOnlyWhenAuto` | notebooks/00_setup.py:31-48 | `USE_UC` depends on the probe exactly when the widget's normalized text is in neither accepted set. In that case `USE_UC` equals the probe result. |
| `Setup.StorageBase` | notebooks/00_setup.py:30 | `STORAGE_BASE` is a prefix of the widget value. Everything removed is `/`, and the result does not end in `/`. |
| `Setup.RStripCharRemovesOnly` | notebooks/00_setup.py:30 | `rstrip("/")` removes only `/` characters. |
| `Setup.SchemaNames` | notebooks/00_setup.py:50-52 | Each schema name is `PREFIX` followed by `_bronze`, `_silver` or `_gold`. The three are pairwise distinct for every prefix. |
| `Setup.StoragePaths` | notebooks/00_setup.py:73-75 | Each path is `STORAGE_BASE`, then `/`, then `raw`, `bad_records` or `checkpoints`. The three are pairwise distinct and none ends in `/`. |
| `Setup.Fqtn` | notebooks/00_setup.py:55-57 | `fqtn(schema, table)`. It has no contract of its own. `FqtnParts` and `FqtnInjective` state its split round-trip and its injectivity. |
| `Setup.FqtnParts` | notebooks/00_setup.py:55-57 | With dot-free names (the catalog only under Unity Catalog), splitting `fqtn(schema, table)` on `.` gives `[CATALOG, schema, table]` under Unity Catalog and `[schema, table]` otherwise. |
| `Setup.FqtnInjective` | notebooks/00_setup.py:55-57 | With dot-free names, two `(schema, table)` pairs that `fqtn` maps to the same name are the same pair. |

## Left out

- `src/aqw/openaq_client.py` and `src/aqw/openmeteo_client.py`: they are HTTP GETs followed by JSON lookups, with no logic beyond the network call.
- `conn()` (`src/aqw/warehouse.py:6-13`): it reads environment variables and opens a psycopg2 connection. The model keeps only a count of connections opened.
- psycopg2's SQL text generation and cursors are not modelled. Database failures other than the cardinality violation of a page that repeats a key are not modelled either: a failed connection, a value the column type rejects, or another constraint.
- `Warehouse.AirQualityTable.UpsertAirQuality`: requires that no flattened row has a NULL `sensor_id` or `ts_utc`. The table's definition is not part of this model, and PostgreSQL handles such a row in one of three ways, depending on that definition. A primary key or NOT NULL column rejects the row. A plain unique constraint stores it and never lets it conflict, which the model's map cannot express. A `UNIQUE NULLS NOT DISTINCT` constraint (PostgreSQL 15 and later) lets NULL keys conflict as the map does.
- Key values are compared as submitted. PostgreSQL converts the rendered literals to the column types before checking the conflict, so `5` and `'5'`, or two spellings of the same instant in `ts_utc`, are one row there but two keys here. The model assumes one representation per key value and stores values as submitted, not as converted by the column types.
- Floating-point columns (`latitude`, `longitude`, `value`) are carried as 64-bit patterns and never computed on.
- `Setup.Lower`: lower-cases ASCII `A`–`Z` only, one character for one, so its length-preserving contract and `LowerAt` hold of this ASCII model and not of Python's `lower()`. Python's `lower()` also folds non-ASCII letters and can change a string's length. For example, U+0130 (İ) becomes `i` followed by U+0307, two characters, and `Σ` lowers differently at the end of a word. Only two non-ASCII characters lower to something containing an ASCII letter: U+212A KELVIN SIGN (to `k`) and U+0130 (to `i` plus U+0307). No accepted word contains `k` or U+0307, so `_to_bool`'s result is the same either way.
- `Setup.Derive` carries no contract of its own. It only assembles `Strip`, `StorageBase`, `SupportsUnityCatalog`, `SchemaNames` and `StoragePaths`, and their contracts state the properties.
- The widget defaults and widget creation (`notebooks/00_setup.py:11-14`) are left out. The model takes the four widget values as inputs.
- The `SHOW CATALOGS` probe (`notebooks/00_setup.py:42`) becomes the boolean parameter `probeSucceeds`.
- `CREATE SCHEMA` and `CREATE DATABASE` (lines 61-69), `mkdirs` (lines 77-78), `spark.conf.set` (lines 82-90) and `display` (lines 92-106) are Spark side effects and are left out. Only the text published for `USE_UC` is modelled, by `ConfText`.
