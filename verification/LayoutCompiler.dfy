/** From a field table to its compiled layouts, end to end. */
module LayoutCompiler {
  import opened Wrappers
  import opened LayoutTables
  import opened LayoutLoader
  import opened Layouts

  function LayoutIn(table: TableDef, b: nat): Layout
    requires b < |table.buckets|
  {
    Compile(table.fields, table.buckets[b].columns)
  }

  lemma PresentExactly(fields: seq<string>, columns: Columns, name: string, column: nat)
    ensures FieldDef(name, column) in Present(fields, columns) <==> name in fields && name in columns && columns[name] == column
  {
    var present := Present(fields, columns);
    if FieldDef(name, column) in present {
      var i :| 0 <= i < |present| && present[i] == FieldDef(name, column);
      PresentHave(fields, columns, i);
    }
    if name in fields && name in columns && columns[name] == column {
      var k :| 0 <= k < |fields| && fields[k] == name;
      PresentHasAll(fields, columns, k);
    }
  }

  lemma CompiledIsLayoutIn(rows: seq<CsvRow>, patterns: seq<Pattern>, universe: seq<Version>, b: nat)
    requires IsSound(rows, patterns) && b < |patterns|
    ensures IsLayout(LayoutIn(TableOf(rows, patterns, universe), b))
  {
    var table := TableOf(rows, patterns, universe);
    var columns := table.buckets[b].columns;
    FieldsAreExact(rows, patterns, universe, "");
    assert IsOneToOne(rows, patterns[b]);
    OneToOneIs(rows, patterns[b]);
    CompiledIsLayout(table.fields, columns);
  }

  lemma PlacedIsField(rows: seq<CsvRow>, patterns: seq<Pattern>, universe: seq<Version>, b: nat, i: nat,
                      name: string, column: nat)
    requires IsSound(rows, patterns) && b < |patterns| && i < |rows| && Places(rows[i], patterns[b], name, column)
    ensures name in TableOf(rows, patterns, universe).fields
  {
    FieldsAreExact(rows, patterns, universe, name);
  }

  /** Every bucket of a sound table compiles to a layout that has a field at a column exactly when
      some row of the table gives it that column. */
  lemma CompiledFieldsAreExact(rows: seq<CsvRow>, patterns: seq<Pattern>, universe: seq<Version>, b: nat,
                               name: string, column: nat)
    requires IsSound(rows, patterns) && b < |patterns|
    ensures var l := LayoutIn(TableOf(rows, patterns, universe), b);
            && IsLayout(l)
            && (FieldDef(name, column) in l.fields <==> exists i | 0 <= i < |rows| :: Places(rows[i], patterns[b], name, column))
  {
    var table := TableOf(rows, patterns, universe);
    CompiledIsLayoutIn(rows, patterns, universe, b);
    PresentExactly(table.fields, table.buckets[b].columns, name, column);
    assert IsOneToOne(rows, patterns[b]);
    ColumnsAreExact(rows, patterns[b], name, column);
    if i :| 0 <= i < |rows| && Places(rows[i], patterns[b], name, column) {
      PlacedIsField(rows, patterns, universe, b, i, name, column);
    }
  }

  /** For every version of the universe: its layout is that of the first bucket matching it, and
      the field the name index finds there has the column the table gives the name in that bucket. */
  lemma VersionFindsItsColumn(rows: seq<CsvRow>, patterns: seq<Pattern>, universe: seq<Version>, v: Version,
                              name: string, column: nat)
    requires IsSound(rows, patterns) && v in universe && FirstMatch(patterns, v).Some?
    ensures var b := FirstMatch(patterns, v).value;
            var table := TableOf(rows, patterns, universe);
            && LayoutOf(table.buckets, v) == Some(b)
            && var l := LayoutIn(table, b);
               var found := LinearIndexOf(l.fields, name);
               (found.Some? && l.fields[found.value].column == column
                <==> exists i | 0 <= i < |rows| :: Places(rows[i], patterns[b], name, column))
  {
    var b := FirstMatch(patterns, v).value;
    var l := LayoutIn(TableOf(rows, patterns, universe), b);
    LookupIsFirstMatch(rows, patterns, universe, v);
    CompiledFieldsAreExact(rows, patterns, universe, b, name, column);
    if FieldDef(name, column) in l.fields {
      var k :| 0 <= k < |l.fields| && l.fields[k] == FieldDef(name, column);
      OnlyIndex(l, k, name);
    }
    var found := LinearIndexOf(l.fields, name);
    if found.Some? && l.fields[found.value].column == column {
      assert l.fields[found.value] == FieldDef(name, column);
    }
  }
}
