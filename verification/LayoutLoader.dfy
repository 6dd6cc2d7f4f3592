/**
 The loader of a field table: it accepts exactly the sound tables, says truly what is wrong with
 the others, and gives each version to the first bucket whose pattern matches it.
 */
module LayoutLoader {
  import opened Wrappers
  import opened Text
  import opened LayoutTables

  // ----- Versions -----

  /** The first bucket whose pattern matches the version. */
  function FirstMatch(patterns: seq<Pattern>, v: Version): (b: Option<nat>)
    ensures b.Some? ==> b.value < |patterns| && patterns[b.value].matches(v)
                        && forall a | 0 <= a < b.value :: !patterns[a].matches(v)
    ensures b.None? ==> forall a | 0 <= a < |patterns| :: !patterns[a].matches(v)
  {
    if patterns == [] then None
    else if patterns[0].matches(v) then Some(0)
    else
      match FirstMatch(patterns[1..], v)
      case None => None
      case Some(b) => assert forall a | 0 < a < |patterns| :: patterns[a] == patterns[1..][a - 1]; Some(b + 1)
  }

  /** The versions of the universe that bucket `b` gets. */
  function VersionsOf(universe: seq<Version>, patterns: seq<Pattern>, b: nat): seq<Version> {
    if universe == [] then []
    else
      var n := |universe| - 1;
      VersionsOf(universe[..n], patterns, b)
      + if FirstMatch(patterns, universe[n]) == Some(b) then [universe[n]] else []
  }

  lemma {:induction false} VersionsAreFirstMatches(universe: seq<Version>, patterns: seq<Pattern>, b: nat, v: Version)
    ensures v in VersionsOf(universe, patterns, b) <==> v in universe && FirstMatch(patterns, v) == Some(b)
    decreases |universe|
  {
    if universe != [] {
      var n := |universe| - 1;
      VersionsAreFirstMatches(universe[..n], patterns, b, v);
      assert universe == universe[..n] + [universe[n]];
    }
  }

  method ClaimVersions(universe: seq<Version>, patterns: seq<Pattern>, b: nat, claimed: set<Version>)
    returns (versions: seq<Version>)
    requires b < |patterns|
    requires forall v | v in universe :: v in claimed <==> FirstMatch(patterns, v).Some? && FirstMatch(patterns, v).value < b
    ensures versions == VersionsOf(universe, patterns, b)
  {
    versions := [];
    for i := 0 to |universe|
      invariant versions == VersionsOf(universe[..i], patterns, b)
    {
      var v := universe[i];
      assert universe[..i + 1][..i] == universe[..i];
      assert v in universe;
      if v !in claimed && patterns[b].matches(v) {
        versions := versions + [v];
      }
    }
    assert universe[..|universe|] == universe;
  }

  function TableOf(rows: seq<CsvRow>, patterns: seq<Pattern>, universe: seq<Version>): TableDef {
    TableDef(PlacedFields(FieldNames(rows), AllColumns(rows, patterns)), BucketsOf(rows, patterns, universe, |patterns|))
  }

  function BucketsOf(rows: seq<CsvRow>, patterns: seq<Pattern>, universe: seq<Version>, n: nat): (buckets: seq<Bucket>)
    requires n <= |patterns|
    ensures |buckets| == n
  {
    seq(n, b requires 0 <= b < n => Bucket(VersionsOf(universe, patterns, b), ColumnsOf(rows, patterns[b])))
  }

  predicate HasColumn(columns: seq<Columns>, name: string) {
    exists b | 0 <= b < |columns| :: name in columns[b]
  }

  /** The fields with a column in some bucket. */
  function PlacedFields(fields: seq<string>, columns: seq<Columns>): seq<string> {
    if fields == [] then []
    else
      var n := |fields| - 1;
      PlacedFields(fields[..n], columns) + if HasColumn(columns, fields[n]) then [fields[n]] else []
  }

  // ----- Reading the rows -----

  /** One row's cell in one bucket. */
  method PlaceIn(rows: seq<CsvRow>, n: nat, patterns: seq<Pattern>, b: nat, name: string, kept: Columns)
    returns (r: Result<Columns, LoadError>)
    requires n < |rows| && b < |patterns| && NameOf(rows[n]) == Some(name) && kept == ColumnsOf(rows[..n], patterns[b])
    ensures r.Ok? ==> IsPlaced(r.value, kept, rows[n], patterns[b])
    ensures r.Err? ==> IsTrue(r.error, rows, patterns)
  {
    match PositionIn(rows[n], patterns[b]) {
      case Absent =>
        return Ok(kept);
      case Invalid =>
        return Err(BadPosition(name, b));
      case At(position) =>
        if position > MAX_COLUMN {
          return Err(Overflow(name, b));
        }
        if name !in kept {
          return Ok(kept[name := position - 1]);
        }
        if kept[name] != position - 1 {
          MovedIsTrue(rows, n, patterns, b, name);
          return Err(TwoColumns(name, b));
        }
        return Ok(kept);
    }
  }

  lemma MovedIsTrue(rows: seq<CsvRow>, n: nat, patterns: seq<Pattern>, b: nat, name: string)
    requires n < |rows| && b < |patterns| && NameOf(rows[n]) == Some(name)
    requires PositionIn(rows[n], patterns[b]).At?
    requires !IsCompatible(ColumnsOf(rows[..n], patterns[b]), rows[n], patterns[b])
    ensures IsTrue(TwoColumns(name, b), rows, patterns)
  {
    var kept := ColumnsOf(rows[..n], patterns[b]);
    ColumnsArePlaced(rows[..n], patterns[b], name);
    var i :| 0 <= i < n && Places(rows[..n][i], patterns[b], name, kept[name]);
    var d := PositionIn(rows[n], patterns[b]).column - 1;
    assert Places(rows[i], patterns[b], name, kept[name]) && Places(rows[n], patterns[b], name, d);
  }

  /** One row's cells, bucket by bucket. */
  method PlaceRow(rows: seq<CsvRow>, n: nat, patterns: seq<Pattern>, name: string, columns: seq<Columns>)
    returns (r: Result<seq<Columns>, LoadError>)
    requires n < |rows| && NameOf(rows[n]) == Some(name) && columns == AllColumns(rows[..n], patterns)
    ensures r.Ok? ==>
              && r.value == AllColumns(rows[..n + 1], patterns)
              && forall b | 0 <= b < |patterns| :: CellIsReadable(rows[n], patterns[b]) && IsCompatible(columns[b], rows[n], patterns[b])
    ensures r.Err? ==> IsTrue(r.error, rows, patterns)
  {
    var placed := [];
    for b := 0 to |patterns|
      invariant |placed| == b
      invariant forall a | 0 <= a < b :: IsPlaced(placed[a], columns[a], rows[n], patterns[a])
    {
      var cell := PlaceIn(rows, n, patterns, b, name, columns[b]);
      if cell.Err? {
        return Err(cell.error);
      }
      placed := placed + [cell.value];
    }
    AllPlaced(rows, n, patterns, columns, placed);
    return Ok(placed);
  }

  /** The row's cell was read, moved no field, and gave these columns. */
  predicate IsPlaced(placed: Columns, kept: Columns, row: CsvRow, p: Pattern) {
    placed == PlaceCell(kept, row, p) && CellIsReadable(row, p) && IsCompatible(kept, row, p)
  }

  lemma AllPlaced(rows: seq<CsvRow>, n: nat, patterns: seq<Pattern>, columns: seq<Columns>, placed: seq<Columns>)
    requires n < |rows| && columns == AllColumns(rows[..n], patterns) && |placed| == |patterns|
    requires forall b | 0 <= b < |patterns| :: placed[b] == PlaceCell(columns[b], rows[n], patterns[b])
    ensures placed == AllColumns(rows[..n + 1], patterns)
  {
    assert rows[..n + 1][..n] == rows[..n];
    forall b | 0 <= b < |patterns|
      ensures placed[b] == ColumnsOf(rows[..n + 1], patterns[b])
    {
      assert columns[b] == ColumnsOf(rows[..n], patterns[b]);
    }
  }

  lemma UnnamedPlacesNothing(rows: seq<CsvRow>, n: nat, patterns: seq<Pattern>)
    requires n < |rows| && NameOf(rows[n]).None?
    ensures AllColumns(rows[..n + 1], patterns) == AllColumns(rows[..n], patterns)
    ensures FieldNames(rows[..n + 1]) == FieldNames(rows[..n])
    ensures forall b | 0 <= b < |patterns| :: IsCompatible(AllColumns(rows[..n], patterns)[b], rows[n], patterns[b])
  {
    assert rows[..n + 1][..n] == rows[..n];
  }

  /** The rows read so far are sound as far as one row at a time can tell. */
  ghost predicate ReadSoFar(rows: seq<CsvRow>, patterns: seq<Pattern>) {
    && (forall i | 0 <= i < |rows| :: RowIsReadable(rows[i], patterns))
    && (forall b | 0 <= b < |patterns| :: FirstWins(rows, patterns[b]))
  }

  lemma ReadOneMore(rows: seq<CsvRow>, n: nat, patterns: seq<Pattern>)
    requires n < |rows| && ReadSoFar(rows[..n], patterns) && RowIsReadable(rows[n], patterns)
    requires forall b | 0 <= b < |patterns| :: IsCompatible(AllColumns(rows[..n], patterns)[b], rows[n], patterns[b])
    ensures ReadSoFar(rows[..n + 1], patterns)
  {
    assert rows[..n + 1] == rows[..n] + [rows[n]];
    forall b | 0 <= b < |patterns|
      ensures FirstWins(rows[..n + 1], patterns[b])
    {
      assert AllColumns(rows[..n], patterns)[b] == ColumnsOf(rows[..n], patterns[b]);
      FirstWinsGrows(rows[..n], rows[n], patterns[b]);
    }
  }

  method ReadRows(rows: seq<CsvRow>, patterns: seq<Pattern>)
    returns (r: Result<(seq<string>, seq<Columns>), LoadError>)
    ensures r.Ok? ==> ReadSoFar(rows, patterns) && r.value == (FieldNames(rows), AllColumns(rows, patterns))
    ensures r.Err? ==> IsTrue(r.error, rows, patterns)
  {
    var fields: seq<string> := [];
    var columns := seq(|patterns|, _ => map[]);
    assert columns == AllColumns(rows[..0], patterns);
    for n := 0 to |rows|
      invariant fields == FieldNames(rows[..n]) && columns == AllColumns(rows[..n], patterns)
      invariant ReadSoFar(rows[..n], patterns)
    {
      var name := NameOf(rows[n]);
      if name.None? {
        UnnamedPlacesNothing(rows, n, patterns);
        ReadOneMore(rows, n, patterns);
        continue;
      }
      if !IsSnakeIdent(name.value) {
        return Err(BadName(name.value));
      }
      var placed := PlaceRow(rows, n, patterns, name.value, columns);
      if placed.Err? {
        return Err(placed.error);
      }
      assert rows[..n + 1][..n] == rows[..n];
      ReadOneMore(rows, n, patterns);
      fields := if name.value !in fields then fields + [name.value] else fields;
      columns := placed.value;
    }
    assert rows[..|rows|] == rows;
    return Ok((fields, columns));
  }

  /** Two fields with the same column, if there are any. */
  method FindShared(columns: Columns) returns (r: Option<(string, string)>)
    ensures r.None? ==> IsInjective(columns)
    ensures r.Some? ==> r.value.0 in columns && r.value.1 in columns && r.value.0 != r.value.1
                        && columns[r.value.0] == columns[r.value.1]
  {
    var left := columns.Keys;
    var seen: map<nat, string> := map[];
    while left != {}
      invariant left <= columns.Keys
      invariant forall c | c in seen :: seen[c] in columns.Keys - left && columns[seen[c]] == c
      invariant forall n | n in columns.Keys - left :: columns[n] in seen && seen[columns[n]] == n
      decreases |left|
    {
      assert (forall n :: n !in left) ==> left == {};
      var name :| name in left;
      var column := columns[name];
      if column in seen {
        return Some((seen[column], name));
      }
      seen := seen[column := name];
      left := left - {name};
    }
    return None;
  }

  method LoadTable(rows: seq<CsvRow>, patterns: seq<Pattern>, universe: seq<Version>)
    returns (r: Result<TableDef, LoadError>)
    ensures r.Ok? <==> IsSound(rows, patterns)
    ensures r.Ok? ==> r.value == TableOf(rows, patterns, universe)
    ensures r.Err? ==> IsTrue(r.error, rows, patterns)
  {
    var read := ReadRows(rows, patterns);
    if read.Err? {
      ErrorsAreDefects(read.error, rows, patterns);
      return Err(read.error);
    }
    var (fields, columns) := read.value;
    var shared := CheckColumns(rows, patterns, columns);
    if shared.Some? {
      ErrorsAreDefects(shared.value, rows, patterns);
      return Err(shared.value);
    }
    var buckets := MakeBuckets(rows, patterns, universe, columns);
    return Ok(TableDef(PlacedFields(fields, columns), buckets));
  }

  method CheckColumns(rows: seq<CsvRow>, patterns: seq<Pattern>, columns: seq<Columns>) returns (r: Option<LoadError>)
    requires ReadSoFar(rows, patterns) && columns == AllColumns(rows, patterns)
    ensures r.None? ==> IsSound(rows, patterns)
    ensures r.Some? ==> IsTrue(r.value, rows, patterns)
  {
    for b := 0 to |patterns|
      invariant forall a | 0 <= a < b :: IsInjective(columns[a])
    {
      var shared := FindShared(columns[b]);
      if shared.Some? {
        var e := SharedColumn(shared.value.0, shared.value.1, b);
        SharedIsTrue(rows, patterns, e);
        return Some(e);
      }
    }
    SoundFromColumns(rows, patterns, columns);
    return None;
  }

  lemma SoundFromColumns(rows: seq<CsvRow>, patterns: seq<Pattern>, columns: seq<Columns>)
    requires ReadSoFar(rows, patterns) && columns == AllColumns(rows, patterns)
    requires forall b | 0 <= b < |patterns| :: IsInjective(columns[b])
    ensures IsSound(rows, patterns)
  {
    forall b | 0 <= b < |patterns|
      ensures IsOneToOne(rows, patterns[b])
    {
      assert FirstWins(rows, patterns[b]) && IsInjective(columns[b]);
      OneToOne(rows, patterns[b], columns[b]);
    }
  }

  lemma OneToOne(rows: seq<CsvRow>, p: Pattern, columns: Columns)
    requires FirstWins(rows, p) && IsInjective(columns) && columns == ColumnsOf(rows, p)
    ensures IsOneToOne(rows, p)
  {
    OneToOneIs(rows, p);
  }

  lemma SharedIsTrue(rows: seq<CsvRow>, patterns: seq<Pattern>, e: LoadError)
    requires e.SharedColumn? && e.bucket < |patterns| && e.name != e.other
    requires var columns := ColumnsOf(rows, patterns[e.bucket]);
             e.name in columns && e.other in columns && columns[e.name] == columns[e.other]
    ensures IsTrue(e, rows, patterns)
  {
    ColumnsArePlaced(rows, patterns[e.bucket], e.name);
    ColumnsArePlaced(rows, patterns[e.bucket], e.other);
  }

  method MakeBuckets(rows: seq<CsvRow>, patterns: seq<Pattern>, universe: seq<Version>, columns: seq<Columns>)
    returns (buckets: seq<Bucket>)
    requires columns == AllColumns(rows, patterns)
    ensures buckets == BucketsOf(rows, patterns, universe, |patterns|)
  {
    var claimed: set<Version> := {};
    buckets := [];
    for b := 0 to |patterns|
      invariant buckets == BucketsOf(rows, patterns, universe, b)
      invariant forall v | v in universe :: v in claimed <==> FirstMatch(patterns, v).Some? && FirstMatch(patterns, v).value < b
    {
      var versions := ClaimVersions(universe, patterns, b, claimed);
      forall v | v in universe
        ensures v in versions <==> FirstMatch(patterns, v) == Some(b)
      {
        VersionsAreFirstMatches(universe, patterns, b, v);
      }
      claimed := claimed + set v | v in versions;
      buckets := buckets + [Bucket(versions, columns[b])];
    }
  }

  // ----- What a loaded table says -----

  /** No version is in two buckets, and the one bucket it is in is the first that matches. */
  lemma VersionsAreDisjoint(rows: seq<CsvRow>, patterns: seq<Pattern>, universe: seq<Version>, v: Version, b: nat)
    requires b < |patterns|
    ensures v in TableOf(rows, patterns, universe).buckets[b].versions <==>
            && v in universe && patterns[b].matches(v) && forall a | 0 <= a < b :: !patterns[a].matches(v)
  {
    VersionsAreFirstMatches(universe, patterns, b, v);
  }

  /** The bucket found for a version by looking for it in the buckets' version lists. */
  function LayoutOf(buckets: seq<Bucket>, v: Version): Option<nat> {
    if buckets == [] then None
    else if v in buckets[0].versions then Some(0)
    else
      match LayoutOf(buckets[1..], v)
      case None => None
      case Some(b) => Some(b + 1)
  }

  lemma {:induction false} LayoutIsIndex(buckets: seq<Bucket>, v: Version)
    ensures match LayoutOf(buckets, v)
            case None => forall b | 0 <= b < |buckets| :: v !in buckets[b].versions
            case Some(b) => b < |buckets| && v in buckets[b].versions
  {
    if buckets != [] && v !in buckets[0].versions {
      LayoutIsIndex(buckets[1..], v);
      assert forall b | 0 < b < |buckets| :: buckets[b] == buckets[1..][b - 1];
    }
  }

  /** Looking a version up in the compiled lists is matching it against the patterns in order. */
  lemma LookupIsFirstMatch(rows: seq<CsvRow>, patterns: seq<Pattern>, universe: seq<Version>, v: Version)
    requires v in universe
    ensures LayoutOf(TableOf(rows, patterns, universe).buckets, v) == FirstMatch(patterns, v)
  {
    var buckets := TableOf(rows, patterns, universe).buckets;
    LayoutIsIndex(buckets, v);
    forall b | 0 <= b < |patterns|
      ensures v in buckets[b].versions <==> FirstMatch(patterns, v) == Some(b)
    {
      VersionsAreFirstMatches(universe, patterns, b, v);
    }
  }

  lemma {:induction false} FieldNamesAreNames(rows: seq<CsvRow>, name: string)
    ensures name in FieldNames(rows) <==> exists i | 0 <= i < |rows| :: NameOf(rows[i]) == Some(name)
    ensures forall i, j | 0 <= i < j < |FieldNames(rows)| :: FieldNames(rows)[i] != FieldNames(rows)[j]
    decreases |rows|
  {
    if rows != [] {
      var n := |rows| - 1;
      FieldNamesAreNames(rows[..n], name);
      assert forall i | 0 <= i < n :: rows[..n][i] == rows[i];
      if NameOf(rows[n]) == Some(name) {
        assert name in FieldNames(rows);
      }
      if name in FieldNames(rows[..n]) {
        var i :| 0 <= i < n && NameOf(rows[..n][i]) == Some(name);
        assert NameOf(rows[i]) == Some(name);
      }
    }
  }

  lemma {:induction false} PlacedFieldsAre(fields: seq<string>, columns: seq<Columns>, name: string)
    requires forall i, j | 0 <= i < j < |fields| :: fields[i] != fields[j]
    ensures name in PlacedFields(fields, columns) <==> name in fields && HasColumn(columns, name)
    ensures forall i, j | 0 <= i < j < |PlacedFields(fields, columns)| ::
              PlacedFields(fields, columns)[i] != PlacedFields(fields, columns)[j]
    decreases |fields|
  {
    if fields != [] {
      var n := |fields| - 1;
      PlacedFieldsAre(fields[..n], columns, name);
      PlacedFieldsAre(fields[..n], columns, fields[n]);
      assert fields == fields[..n] + [fields[n]];
    }
  }

  /** The fields of a loaded table are those some bucket has a column for, each listed once. */
  lemma FieldsAreExact(rows: seq<CsvRow>, patterns: seq<Pattern>, universe: seq<Version>, name: string)
    requires IsSound(rows, patterns)
    ensures name in TableOf(rows, patterns, universe).fields <==>
            exists b, i, c | 0 <= b < |patterns| && 0 <= i < |rows| :: Places(rows[i], patterns[b], name, c)
    ensures var fields := TableOf(rows, patterns, universe).fields;
            forall i, j | 0 <= i < j < |fields| :: fields[i] != fields[j]
  {
    var columns := AllColumns(rows, patterns);
    FieldNamesAreNames(rows, name);
    PlacedFieldsAre(FieldNames(rows), columns, name);
    if HasColumn(columns, name) {
      var b :| 0 <= b < |columns| && name in columns[b];
      ColumnsArePlaced(rows, patterns[b], name);
      var i :| 0 <= i < |rows| && Places(rows[i], patterns[b], name, ColumnsOf(rows, patterns[b])[name]);
      assert NameOf(rows[i]) == Some(name);
    }
    if b, i, c :| 0 <= b < |patterns| && 0 <= i < |rows| && Places(rows[i], patterns[b], name, c) {
      PlacedAreColumns(rows, patterns[b], i, name, c);
      assert name in columns[b];
    }
  }
}
