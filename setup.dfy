/**
  The configuration names derived by the setup notebook
  (notebooks/00_setup.py): the tri-state parsing of the Unity-Catalog
  widget, the choice between Unity Catalog and the legacy metastore, the
  qualified table names, and the schema and storage-path names.
  The Spark probe (`SHOW CATALOGS`) is a boolean input.
*/
module Setup {
  import opened Wrappers

  // ---------------------------------------------------------------------
  // Python string primitives
  // ---------------------------------------------------------------------

  /** The characters for which Python's `str.isspace()` holds; `str.strip()`
      with no argument removes exactly these. */
  predicate IsSpace(c: char)
  {
    || c == ' ' || '\t' <= c <= '\r' || '\U{1C}' <= c <= '\U{1F}'
    || c == '\U{85}' || c == '\U{A0}' || c == '\U{1680}'
    || '\U{2000}' <= c <= '\U{200A}'
    || c == '\U{2028}' || c == '\U{2029}' || c == '\U{202F}' || c == '\U{205F}' || c == '\U{3000}'
  }

  /** Every character of `s` is whitespace. */
  predicate AllSpace(s: string)
  {
    forall i :: 0 <= i < |s| ==> IsSpace(s[i])
  }

  /** `s.lstrip()`: the longest suffix of `s` that does not start with
      whitespace. */
  function LStrip(s: string): (r: string)
    ensures |r| <= |s| && r == s[|s| - |r|..]
    ensures r != [] ==> !IsSpace(r[0])
    decreases |s|
  {
    if s != [] && IsSpace(s[0]) then LStrip(s[1..]) else s
  }

  /** `lstrip` removes whitespace only. */
  lemma {:induction false} LStripRemovesSpaceOnly(s: string)
    ensures AllSpace(s[..|s| - |LStrip(s)|])
    decreases |s|
  {
    if s != [] && IsSpace(s[0]) {
      LStripRemovesSpaceOnly(s[1..]);
      var n := |s| - |LStrip(s)|;
      assert forall i :: 1 <= i < n ==> s[..n][i] == s[1..][..n - 1][i - 1];
    }
  }

  /** `s.rstrip()`: the longest prefix of `s` that does not end with
      whitespace. */
  function RStrip(s: string): (r: string)
    ensures |r| <= |s| && r == s[..|r|]
    ensures r != [] ==> !IsSpace(r[|r| - 1])
    decreases |s|
  {
    if s != [] && IsSpace(s[|s| - 1]) then RStrip(s[..|s| - 1]) else s
  }

  /** `rstrip` removes whitespace only. */
  lemma {:induction false} RStripRemovesSpaceOnly(s: string)
    ensures AllSpace(s[|RStrip(s)|..])
    decreases |s|
  {
    if s != [] && IsSpace(s[|s| - 1]) {
      var m := |RStrip(s)|;
      RStripRemovesSpaceOnly(s[..|s| - 1]);
      assert forall i :: 0 <= i < |s| - 1 - m ==> s[m..][i] == s[..|s| - 1][m..][i];
      assert s[m..][|s| - 1 - m] == s[|s| - 1];
    }
  }

  /** `s.rstrip(c)` for a single character `c`: the longest prefix of `s`
      that does not end with `c`. */
  function RStripChar(s: string, c: char): (r: string)
    ensures |r| <= |s| && r == s[..|r|]
    ensures r != [] ==> r[|r| - 1] != c
    decreases |s|
  {
    if s != [] && s[|s| - 1] == c then RStripChar(s[..|s| - 1], c) else s
  }

  /** `rstrip(c)` removes copies of `c` only. */
  lemma {:induction false} RStripCharRemovesOnly(s: string, c: char)
    ensures forall i :: |RStripChar(s, c)| <= i < |s| ==> s[i] == c
    decreases |s|
  {
    if s != [] && s[|s| - 1] == c {
      RStripCharRemovesOnly(s[..|s| - 1], c);
    }
  }

  /** `s.strip()`. */
  function Strip(s: string): (r: string)
    ensures r != [] ==> !IsSpace(r[0]) && !IsSpace(r[|r| - 1])
  {
    RStrip(LStrip(s))
  }

  /** `strip` keeps a contiguous middle of `s`, from index `i` on, and
      removes whitespace only. */
  lemma StripRemovesSpaceOnly(s: string) returns (i: nat)
    ensures i + |Strip(s)| <= |s| && Strip(s) == s[i..i + |Strip(s)|]
    ensures AllSpace(s[..i])
    ensures AllSpace(s[i + |Strip(s)|..])
  {
    var u := LStrip(s);
    var r := RStrip(u);
    i := |s| - |u|;
    LStripRemovesSpaceOnly(s);
    RStripRemovesSpaceOnly(u);
    SuffixPrefix(s, u, r);
  }

  /** A prefix `r` of a suffix `u` of `s` is a middle slice of `s`, and what
      follows `r` in `u` is what follows it in `s`. */
  lemma SuffixPrefix<T>(s: seq<T>, u: seq<T>, r: seq<T>)
    requires |u| <= |s| && u == s[|s| - |u|..]
    requires |r| <= |u| && r == u[..|r|]
    ensures r == s[|s| - |u|..|s| - |u| + |r|]
    ensures s[|s| - |u| + |r|..] == u[|r|..]
  {
  }

  /** A string with no surrounding whitespace is its own strip. */
  lemma StripTrimmed(s: string)
    requires s != [] ==> !IsSpace(s[0]) && !IsSpace(s[|s| - 1])
    ensures Strip(s) == s
  {
  }

  /** Lower-casing of one character (ASCII letters only). */
  function LowerChar(c: char): char
  {
    if 'A' <= c <= 'Z' then (c as int + 32) as char else c
  }

  /** `s.lower()`, for the ASCII letters. */
  function Lower(s: string): (r: string)
    ensures |r| == |s|
    decreases |s|
  {
    if s == [] then [] else [LowerChar(s[0])] + Lower(s[1..])
  }

  /** `lower` works character by character. */
  lemma {:induction false} LowerAt(s: string, i: nat)
    requires i < |s|
    ensures Lower(s)[i] == LowerChar(s[i])
    decreases |s|
  {
    if i > 0 {
      LowerAt(s[1..], i - 1);
    }
  }

  /** A string without upper-case ASCII letters is its own lower case. */
  lemma {:induction false} LowerNoUpper(s: string)
    requires forall i :: 0 <= i < |s| ==> !('A' <= s[i] <= 'Z')
    ensures Lower(s) == s
    decreases |s|
  {
    if s != [] {
      LowerNoUpper(s[1..]);
    }
  }

  /** Lower-casing twice is lower-casing once. */
  lemma {:induction false} LowerIdempotent(s: string)
    ensures Lower(Lower(s)) == Lower(s)
    decreases |s|
  {
    if s != [] {
      LowerIdempotent(s[1..]);
    }
  }

  /** The form `_to_bool` compares: stripped, then lower-cased. */
  function Normalize(s: string): string
  {
    Lower(Strip(s))
  }

  /** Normalizing twice is normalizing once: lower-casing neither creates
      nor removes whitespace, so the lower-cased stripped string is already
      stripped, and lower-casing is idempotent. */
  lemma NormalizeIdempotent(s: string)
    ensures Normalize(Normalize(s)) == Normalize(s)
  {
    var u := Strip(s);
    var l := Lower(u);
    if l != [] {
      LowerAt(u, 0);
      LowerAt(u, |u| - 1);
    }
    StripTrimmed(l);
    LowerIdempotent(u);
  }

  // ---------------------------------------------------------------------
  // _to_bool and supports_unity_catalog
  // ---------------------------------------------------------------------

  /** The spellings `_to_bool` accepts for `True`. */
  const TrueWords: set<string> := {"true", "1", "yes", "y"}

  /** The spellings `_to_bool` accepts for `False`. */
  const FalseWords: set<string> := {"false", "0", "no", "n"}

  /** The decision on an already normalized text: `True`, `False`, or `None`
      for anything else; the two sets are disjoint, so exactly one holds. */
  function Classify(t: string): (r: Option<bool>)
    ensures r == Some(true) <==> t in TrueWords
    ensures r == Some(false) <==> t in FalseWords
    ensures r == None <==> t !in TrueWords + FalseWords
  {
    if t in TrueWords then Some(true)
    else if t in FalseWords then Some(false)
    else None
  }

  /** `_to_bool(s)`: `None` for `None`; otherwise the stripped, lower-cased
      text decides. */
  function ToBool(s: Option<string>): (r: Option<bool>)
    ensures s.None? ==> r == None
    ensures s.Some? ==>
      && (r == Some(true) <==> Normalize(s.value) in TrueWords)
      && (r == Some(false) <==> Normalize(s.value) in FalseWords)
      && (r == None <==> Normalize(s.value) !in TrueWords + FalseWords)
  {
    match s
    case None => None
    case Some(text) => Classify(Normalize(text))
  }

  /** The two accepted sets share no spelling, so no text is both. */
  lemma WordsDisjoint()
    ensures TrueWords !! FalseWords
  {
  }

  /** `_to_bool` ignores case and surrounding whitespace. */
  lemma ToBoolInsensitive(s: string)
    ensures ToBool(Some(s)) == ToBool(Some(Normalize(s)))
  {
    NormalizeIdempotent(s);
  }

  /** A blank or whitespace-only widget means "auto". */
  lemma BlankIsAuto(s: string)
    requires forall i :: 0 <= i < |s| ==> IsSpace(s[i])
    ensures ToBool(Some(s)) == None
  {
    LStripAllSpace(s);
    assert Strip(s) == RStrip([]) == [];
    assert Normalize(s) == Lower([]) == [];
    assert [] !in TrueWords + FalseWords;
  }

  /** `lstrip` of an all-whitespace string is empty. */
  lemma {:induction false} LStripAllSpace(s: string)
    requires forall i :: 0 <= i < |s| ==> IsSpace(s[i])
    ensures LStrip(s) == []
    decreases |s|
  {
    if s != [] {
      assert forall i :: 0 <= i < |s| - 1 ==> s[1..][i] == s[i + 1];
      LStripAllSpace(s[1..]);
    }
  }

  /** `str(b).lower()`, the text under which the notebook publishes `USE_UC`. */
  function ConfText(b: bool): string
  {
    if b then "true" else "false"
  }

  /** The published text is already in normal form. */
  lemma ConfTextNormal(b: bool)
    ensures Normalize(ConfText(b)) == ConfText(b)
  {
    StripTrimmed(ConfText(b));
    LowerNoUpper(ConfText(b));
  }

  /** The published text parses back to the same flag. */
  lemma ConfTextRoundTrip(b: bool)
    ensures ToBool(Some(ConfText(b))) == Some(b)
  {
    ConfTextNormal(b);
  }

  /** `supports_unity_catalog()` with the outcome of the `SHOW CATALOGS`
      probe as `probeSucceeds`: a forced answer wins, the probe decides
      only when there is none. */
  function SupportsUnityCatalog(forced: Option<bool>, probeSucceeds: bool): (r: bool)
    ensures forced.Some? ==> r == forced.value
    ensures forced.None? ==> r == probeSucceeds
  {
    if forced.Some? then forced.value else probeSucceeds
  }

  // ---------------------------------------------------------------------
  // Widgets and the names derived from them
  // ---------------------------------------------------------------------

  /** The four widget values as `dbutils.widgets.get` returns them. */
  datatype Widgets = Widgets(
    catalog: string, schemaPrefix: string, storageBase: string, useUnityCatalog: string)

  /** `BRONZE_SCHEMA`, `SILVER_SCHEMA`, `GOLD_SCHEMA`. */
  datatype Schemas = Schemas(bronze: string, silver: string, gold: string)

  /** `RAW_BASE`, `BAD_RECORDS_BASE`, `CHECKPOINT_BASE`. */
  datatype Paths = Paths(raw: string, badRecords: string, checkpoints: string)

  /** Everything the notebook derives and publishes. */
  datatype Settings = Settings(
    useUc: bool, catalog: string, prefix: string, schemas: Schemas,
    storageBase: string, paths: Paths)

  /** The layer schemas: the prefix followed by a layer suffix; pairwise
      distinct whatever the prefix. */
  function SchemaNames(prefix: string): (n: Schemas)
    ensures |n.bronze| == |prefix| + 7 && |n.silver| == |prefix| + 7 && |n.gold| == |prefix| + 5
    ensures n.bronze[..|prefix|] == prefix && n.bronze[|prefix|..] == "_bronze"
    ensures n.silver[..|prefix|] == prefix && n.silver[|prefix|..] == "_silver"
    ensures n.gold[..|prefix|] == prefix && n.gold[|prefix|..] == "_gold"
    ensures n.bronze != n.silver && n.silver != n.gold && n.bronze != n.gold
  {
    var n := Schemas(prefix + "_bronze", prefix + "_silver", prefix + "_gold");
    assert n.bronze[|prefix| + 1] == 'b' && n.silver[|prefix| + 1] == 's';
    n
  }

  /** The storage locations: the base, a `/`, and a sub-directory; pairwise
      distinct and none ending in `/`. */
  function StoragePaths(base: string): (p: Paths)
    ensures |p.raw| == |base| + 4 && |p.badRecords| == |base| + 12 && |p.checkpoints| == |base| + 12
    ensures p.raw[..|base| + 1] == base + "/" && p.raw[|base| + 1..] == "raw"
    ensures p.badRecords[..|base| + 1] == base + "/" && p.badRecords[|base| + 1..] == "bad_records"
    ensures p.checkpoints[..|base| + 1] == base + "/" && p.checkpoints[|base| + 1..] == "checkpoints"
    ensures p.raw != p.badRecords && p.badRecords != p.checkpoints && p.raw != p.checkpoints
    ensures p.raw[|p.raw| - 1] != '/' && p.badRecords[|p.badRecords| - 1] != '/'
    ensures p.checkpoints[|p.checkpoints| - 1] != '/'
  {
    var p := Paths(base + "/raw", base + "/bad_records", base + "/checkpoints");
    assert p.raw[|base| + 1..] == "raw";
    assert p.badRecords[|base| + 1..] == "bad_records";
    assert p.checkpoints[|base| + 1..] == "checkpoints";
    p
  }

  /** `STORAGE_BASE`: the widget value with every trailing `/` removed. */
  function StorageBase(text: string): (b: string)
    ensures |b| <= |text| && b == text[..|b|]
    ensures forall i :: |b| <= i < |text| ==> text[i] == '/'
    ensures b != [] ==> b[|b| - 1] != '/'
  {
    RStripCharRemovesOnly(text, '/');
    RStripChar(text, '/')
  }

  /** `CATALOG` and `PREFIX` (the stripped widget values), `STORAGE_BASE`,
      `USE_UC`, and the schema and path names built from them. */
  function Derive(w: Widgets, probeSucceeds: bool): Settings
  {
    var prefix := Strip(w.schemaPrefix);
    var storageBase := StorageBase(w.storageBase);
    Settings(
      SupportsUnityCatalog(ToBool(Some(w.useUnityCatalog)), probeSucceeds),
      Strip(w.catalog), prefix, SchemaNames(prefix),
      storageBase, StoragePaths(storageBase))
  }

  /** The probe matters exactly when the widget forces nothing. */
  lemma ProbeDecidesOnlyWhenAuto(w: Widgets)
    ensures Derive(w, true).useUc == Derive(w, false).useUc
        <==> Normalize(w.useUnityCatalog) in TrueWords + FalseWords
    ensures Normalize(w.useUnityCatalog) !in TrueWords + FalseWords ==>
      forall probe :: Derive(w, probe).useUc == probe
  {
  }

  // ---------------------------------------------------------------------
  // Fully-qualified table names
  // ---------------------------------------------------------------------

  /** `fqtn(schema, table)`: three parts under Unity Catalog, two otherwise. */
  function Fqtn(s: Settings, schema: string, table: string): string
  {
    if s.useUc then s.catalog + "." + schema + "." + table else schema + "." + table
  }

  /** Python's `text.split(sep)`. */
  function Split(text: string, sep: char): (parts: seq<string>)
    ensures |parts| >= 1
    decreases |text|
  {
    if text == [] then [[]]
    else
      var rest := Split(text[1..], sep);
      if text[0] == sep then [[]] + rest else [[text[0]] + rest[0]] + rest[1..]
  }

  /** A part without the separator splits to itself; one followed by the
      separator comes off as the first part. */
  lemma {:induction false} SplitPart(a: string, sep: char, b: string)
    requires sep !in a
    ensures Split(a, sep) == [a]
    ensures Split(a + [sep] + b, sep) == [a] + Split(b, sep)
    decreases |a|
  {
    if a == [] {
      assert [sep] + b == a + [sep] + b;
      assert ([sep] + b)[1..] == b;
    } else {
      assert (a + [sep] + b)[1..] == a[1..] + [sep] + b;
      assert a == [a[0]] + a[1..];
      SplitPart(a[1..], sep, b);
    }
  }

  /** With dot-free names, splitting a qualified table name on `.` gives
      back its parts. */
  lemma FqtnParts(s: Settings, schema: string, table: string)
    requires s.useUc ==> '.' !in s.catalog
    requires '.' !in schema && '.' !in table
    ensures Split(Fqtn(s, schema, table), '.') ==
      if s.useUc then [s.catalog, schema, table] else [schema, table]
  {
    SplitPart(table, '.', []);
    SplitPart(schema, '.', table);
    if s.useUc {
      SplitPart(s.catalog, '.', schema + "." + table);
      assert s.catalog + "." + schema + "." + table == s.catalog + ['.'] + (schema + "." + table);
    }
    assert schema + "." + table == schema + ['.'] + table;
  }

  /** Distinct dot-free (schema, table) pairs get distinct qualified names. */
  lemma FqtnInjective(s: Settings, schema: string, table: string, schema': string, table': string)
    requires s.useUc ==> '.' !in s.catalog
    requires '.' !in schema && '.' !in table
    requires '.' !in schema' && '.' !in table'
    requires Fqtn(s, schema, table) == Fqtn(s, schema', table')
    ensures schema == schema' && table == table'
  {
    FqtnParts(s, schema, table);
    FqtnParts(s, schema', table');
    if s.useUc {
      assert [s.catalog, schema, table][1] == [s.catalog, schema', table'][1];
      assert [s.catalog, schema, table][2] == [s.catalog, schema', table'][2];
    } else {
      assert [schema, table][0] == [schema', table'][0];
      assert [schema, table][1] == [schema', table'][1];
    }
  }
}
