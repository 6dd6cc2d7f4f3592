/**
 A compiled layout: fields with their columns, a width, and an index of the fields by name. The
 index finds what a search of all fields finds, and a record written to its columns reads back.
 */
module Layouts {
  import opened Wrappers
  import opened LayoutTables

  datatype FieldDef = FieldDef(name: string, column: nat)

  datatype Layout = Layout(fields: seq<FieldDef>, width: nat, byName: seq<nat>)

  // ----- The order of names -----

  predicate Less(a: string, b: string) {
    b != "" && (a == "" || a[0] < b[0] || (a[0] == b[0] && Less(a[1..], b[1..])))
  }

  lemma {:induction false} LessIsTotal(a: string, b: string)
    ensures (Less(a, b) || Less(b, a)) <==> a != b
    ensures !(Less(a, b) && Less(b, a))
  {
    if a != "" && b != "" {
      LessIsTotal(a[1..], b[1..]);
      assert a == [a[0]] + a[1..] && b == [b[0]] + b[1..];
    }
  }

  lemma {:induction false} LessIsTransitive(a: string, b: string, c: string)
    requires Less(a, b) && Less(b, c)
    ensures Less(a, c)
  {
    if a != "" && a[0] == b[0] && b[0] == c[0] {
      LessIsTransitive(a[1..], b[1..], c[1..]);
    }
  }

  // ----- Compiling -----

  /** The table's fields that the bucket has, in table order. */
  function Present(fields: seq<string>, columns: Columns): seq<FieldDef> {
    if fields == [] then []
    else
      var n := |fields| - 1;
      Present(fields[..n], columns) + if fields[n] in columns then [FieldDef(fields[n], columns[fields[n]])] else []
  }

  /** One more than the highest column. */
  function Width(fields: seq<FieldDef>): nat {
    if fields == [] then 0
    else
      var n := |fields| - 1;
      var before, here := Width(fields[..n]), fields[n].column + 1;
      if here > before then here else before
  }

  /** An index put where its name belongs. */
  function InsertByName(fields: seq<FieldDef>, index: seq<nat>, i: nat): seq<nat>
    requires i < |fields| && forall k | 0 <= k < |index| :: index[k] < |fields|
  {
    if index == [] || Less(fields[i].name, fields[index[0]].name) then [i] + index
    else [index[0]] + InsertByName(fields, index[1..], i)
  }

  /** The indexes below `n`, sorted by name. */
  function SortByName(fields: seq<FieldDef>, n: nat): (index: seq<nat>)
    requires n <= |fields|
    ensures forall k | 0 <= k < |index| :: index[k] < |fields|
  {
    if n == 0 then [] else InsertSorted(fields, SortByName(fields, n - 1), n - 1)
  }

  function InsertSorted(fields: seq<FieldDef>, index: seq<nat>, i: nat): (r: seq<nat>)
    requires i < |fields| && forall k | 0 <= k < |index| :: index[k] < |fields|
    ensures forall k | 0 <= k < |r| :: r[k] < |fields|
  {
    InsertKeepsBounds(fields, index, i);
    InsertByName(fields, index, i)
  }

  lemma {:induction false} InsertKeepsBounds(fields: seq<FieldDef>, index: seq<nat>, i: nat)
    requires i < |fields| && forall k | 0 <= k < |index| :: index[k] < |fields|
    ensures forall k | 0 <= k < |InsertByName(fields, index, i)| :: InsertByName(fields, index, i)[k] < |fields|
    decreases |index|
  {
    if index != [] && !Less(fields[i].name, fields[index[0]].name) {
      InsertKeepsBounds(fields, index[1..], i);
    }
  }

  function Compile(fields: seq<string>, columns: Columns): Layout {
    var present := Present(fields, columns);
    Layout(present, Width(present), SortByName(present, |present|))
  }

  // ----- What compiling gives -----

  predicate DistinctNames(fields: seq<FieldDef>) {
    forall i, j | 0 <= i < j < |fields| :: fields[i].name != fields[j].name
  }

  predicate IsSortedByName(fields: seq<FieldDef>, index: seq<nat>)
    requires forall k | 0 <= k < |index| :: index[k] < |fields|
  {
    forall a, b | 0 <= a < b < |index| :: Less(fields[index[a]].name, fields[index[b]].name)
  }

  /** A strictly sorted list of all the indexes. */
  predicate IsNameIndex(fields: seq<FieldDef>, index: seq<nat>) {
    && |index| == |fields|
    && (forall k | 0 <= k < |index| :: index[k] < |fields|)
    && (forall i | 0 <= i < |fields| :: i in index)
    && IsSortedByName(fields, index)
  }

  lemma {:induction false} InsertSorts(fields: seq<FieldDef>, index: seq<nat>, i: nat)
    requires i < |fields| && forall k | 0 <= k < |index| :: index[k] < |fields|
    requires IsSortedByName(fields, index) && forall k | 0 <= k < |index| :: fields[index[k]].name != fields[i].name
    ensures var r := InsertSorted(fields, index, i);
            && IsSortedByName(fields, r) && |r| == |index| + 1
            && (forall j :: j in r <==> j in index || j == i)
    decreases |index|
  {
    var r := InsertByName(fields, index, i);
    if index == [] {
      assert r == [i];
    } else if Less(fields[i].name, fields[index[0]].name) {
      assert r == [i] + index;
      forall k | 0 < k < |index|
        ensures Less(fields[i].name, fields[index[k]].name)
      {
        LessIsTransitive(fields[i].name, fields[index[0]].name, fields[index[k]].name);
      }
    } else {
      InsertSorts(fields, index[1..], i);
      LessIsTotal(fields[i].name, fields[index[0]].name);
      var later := InsertSorted(fields, index[1..], i);
      assert r == [index[0]] + later && index == [index[0]] + index[1..];
      forall k | 0 <= k < |later|
        ensures Less(fields[index[0]].name, fields[later[k]].name)
      {
        assert later[k] in later;
      }
    }
  }

  lemma {:induction false} SortIsNameIndex(fields: seq<FieldDef>, n: nat)
    requires DistinctNames(fields) && n <= |fields|
    ensures var index := SortByName(fields, n);
            IsSortedByName(fields, index) && |index| == n && forall j :: j in index <==> 0 <= j < n
  {
    if n > 0 {
      SortIsNameIndex(fields, n - 1);
      var index := SortByName(fields, n - 1);
      forall k | 0 <= k < |index|
        ensures fields[index[k]].name != fields[n - 1].name
      {
        assert index[k] in index;
      }
      InsertSorts(fields, index, n - 1);
    }
  }

  /** Every field present is one of the table's, with its column. */
  lemma {:induction false} PresentHave(fields: seq<string>, columns: Columns, i: nat)
    requires i < |Present(fields, columns)|
    ensures var f := Present(fields, columns)[i];
            f.name in columns && f.column == columns[f.name] && exists k | 0 <= k < |fields| :: fields[k] == f.name
    decreases |fields|
  {
    var n := |fields| - 1;
    var before := Present(fields[..n], columns);
    if i < |before| {
      PresentHave(fields[..n], columns, i);
      var k :| 0 <= k < n && fields[..n][k] == before[i].name;
      assert fields[k] == before[i].name;
    } else {
      assert Present(fields, columns)[i].name == fields[n];
    }
  }

  lemma {:induction false} PresentDistinct(fields: seq<string>, columns: Columns)
    requires forall i, j | 0 <= i < j < |fields| :: fields[i] != fields[j]
    ensures DistinctNames(Present(fields, columns))
    decreases |fields|
  {
    if fields != [] {
      var n := |fields| - 1;
      var before := Present(fields[..n], columns);
      PresentDistinct(fields[..n], columns);
      forall i | 0 <= i < |before|
        ensures before[i].name != fields[n]
      {
        PresentHave(fields[..n], columns, i);
      }
    }
  }

  /** And every field of the table with a column is present. */
  lemma {:induction false} PresentHasAll(fields: seq<string>, columns: Columns, k: nat)
    requires k < |fields| && fields[k] in columns
    ensures exists i | 0 <= i < |Present(fields, columns)| :: Present(fields, columns)[i] == FieldDef(fields[k], columns[fields[k]])
    decreases |fields|
  {
    var n := |fields| - 1;
    var before, present := Present(fields[..n], columns), Present(fields, columns);
    if k < n {
      PresentHasAll(fields[..n], columns, k);
      var i :| 0 <= i < |before| && before[i] == FieldDef(fields[k], columns[fields[k]]);
      assert present[i] == before[i];
    } else {
      assert present[|before|] == FieldDef(fields[k], columns[fields[k]]);
    }
  }

  lemma {:induction false} WidthCovers(fields: seq<FieldDef>)
    ensures forall i | 0 <= i < |fields| :: fields[i].column < Width(fields)
    ensures Width(fields) > 0 ==> exists i | 0 <= i < |fields| :: fields[i].column + 1 == Width(fields)
    decreases |fields|
  {
    if fields != [] {
      var n := |fields| - 1;
      WidthCovers(fields[..n]);
      assert forall i | 0 <= i < n :: fields[i] == fields[..n][i];
      assert fields[n].column + 1 == Width(fields) || Width(fields) == Width(fields[..n]);
    }
  }

  /** A layout whose columns are distinct and below its width, with an index of all its names. */
  ghost predicate IsLayout(l: Layout) {
    && DistinctNames(l.fields)
    && (forall i, j | 0 <= i < j < |l.fields| :: l.fields[i].column != l.fields[j].column)
    && (forall i | 0 <= i < |l.fields| :: l.fields[i].column < l.width)
    && IsNameIndex(l.fields, l.byName)
  }

  /** Compiling a bucket of a loaded table gives such a layout, no wider than it must be. */
  lemma CompiledIsLayout(fields: seq<string>, columns: Columns)
    requires IsInjective(columns) && forall i, j | 0 <= i < j < |fields| :: fields[i] != fields[j]
    ensures var l := Compile(fields, columns);
            IsLayout(l) && (l.width > 0 ==> exists i | 0 <= i < |l.fields| :: l.fields[i].column == l.width - 1)
  {
    var present := Present(fields, columns);
    PresentDistinct(fields, columns);
    forall i | 0 <= i < |present|
      ensures present[i].name in columns && present[i].column == columns[present[i].name]
    {
      PresentHave(fields, columns, i);
    }
    WidthCovers(present);
    SortIsNameIndex(present, |present|);
  }

  // ----- Looking a name up -----

  /** The field of that name, by looking at each. */
  function LinearIndexOf(fields: seq<FieldDef>, name: string): (r: Option<nat>)
    ensures r.Some? ==> r.value < |fields| && fields[r.value].name == name
    ensures r.None? ==> forall i | 0 <= i < |fields| :: fields[i].name != name
  {
    if fields == [] then None
    else if fields[0].name == name then Some(0)
    else
      match LinearIndexOf(fields[1..], name)
      case None => assert forall i | 0 < i < |fields| :: fields[i] == fields[1..][i - 1]; None
      case Some(i) => Some(i + 1)
  }

  /** Binary search of the index finds what the search of all fields finds. */
  method IndexOf(l: Layout, name: string) returns (r: Option<nat>)
    requires IsLayout(l)
    ensures r == LinearIndexOf(l.fields, name)
  {
    var low, high := 0, |l.byName|;
    while low < high
      invariant 0 <= low <= high <= |l.byName|
      invariant forall k | 0 <= k < low :: Less(l.fields[l.byName[k]].name, name)
      invariant forall k | high <= k < |l.byName| :: Less(name, l.fields[l.byName[k]].name)
    {
      var mid := low + (high - low) / 2;
      var i := l.byName[mid];
      var here := l.fields[i].name;
      LessIsTotal(here, name);
      if here == name {
        OnlyIndex(l, i, name);
        return Some(i);
      } else if Less(here, name) {
        forall k | 0 <= k < mid
          ensures Less(l.fields[l.byName[k]].name, name)
        {
          LessIsTransitive(l.fields[l.byName[k]].name, here, name);
        }
        low := mid + 1;
      } else {
        forall k | mid < k < |l.byName|
          ensures Less(name, l.fields[l.byName[k]].name)
        {
          LessIsTransitive(name, here, l.fields[l.byName[k]].name);
        }
        high := mid;
      }
    }
    NotInIndex(l, name);
    return None;
  }

  lemma OnlyIndex(l: Layout, i: nat, name: string)
    requires IsLayout(l) && i < |l.fields| && l.fields[i].name == name
    ensures LinearIndexOf(l.fields, name) == Some(i)
  {
  }

  lemma NotInIndex(l: Layout, name: string)
    requires IsLayout(l)
    requires forall k | 0 <= k < |l.byName| :: Less(l.fields[l.byName[k]].name, name) || Less(name, l.fields[l.byName[k]].name)
    ensures LinearIndexOf(l.fields, name) == None
  {
    forall i | 0 <= i < |l.fields|
      ensures l.fields[i].name != name
    {
      assert i in l.byName;
      LessIsTotal(l.fields[i].name, name);
    }
  }

  // ----- Writing a record and reading it back -----

  /** The cells of a record, each value at its field's column and the rest blank. */
  method ToCells(l: Layout, values: seq<string>) returns (cells: seq<string>)
    requires IsLayout(l) && |values| == |l.fields|
    ensures |cells| == l.width
    ensures forall i | 0 <= i < |values| :: cells[l.fields[i].column] == values[i]
    ensures forall c | 0 <= c < |cells| && (forall i | 0 <= i < |l.fields| :: l.fields[i].column != c) :: cells[c] == ""
    ensures ReadCells(l, cells) == values
  {
    cells := seq(l.width, _ => "");
    for i := 0 to |values|
      invariant |cells| == l.width
      invariant forall j | 0 <= j < i :: cells[l.fields[j].column] == values[j]
      invariant forall c | 0 <= c < |cells| && (forall j | 0 <= j < i :: l.fields[j].column != c) :: cells[c] == ""
    {
      cells := cells[l.fields[i].column := values[i]];
    }
  }

  /** The values at the fields' columns; a cell the record does not reach is blank. */
  function ReadCells(l: Layout, cells: seq<string>): (values: seq<string>)
    ensures |values| == |l.fields|
  {
    seq(|l.fields|, i requires 0 <= i < |l.fields| =>
      if l.fields[i].column < |cells| then cells[l.fields[i].column] else "")
  }

  // ----- The order of fields -----

  /** One list is in the order of another. */
  ghost predicate IsInOrderOf(fields: seq<FieldDef>, names: seq<string>) {
    forall i, j | 0 <= i < j < |fields| :: ComesBefore(names, fields[i].name, fields[j].name)
  }

  ghost predicate ComesBefore(names: seq<string>, first: string, second: string) {
    exists a, b | 0 <= a < b < |names| :: names[a] == first && names[b] == second
  }

  lemma ComesBeforeStill(names: seq<string>, more: seq<string>, first: string, second: string)
    requires names <= more && ComesBefore(names, first, second)
    ensures ComesBefore(more, first, second)
  {
    var a, b :| 0 <= a < b < |names| && names[a] == first && names[b] == second;
    assert more[a] == first && more[b] == second;
  }

  /** A layout has its fields in the order of the table. */
  lemma {:induction false} PresentInOrder(fields: seq<string>, columns: Columns)
    ensures IsInOrderOf(Present(fields, columns), fields)
    decreases |fields|
  {
    if fields != [] {
      var n := |fields| - 1;
      var before, present := Present(fields[..n], columns), Present(fields, columns);
      PresentInOrder(fields[..n], columns);
      forall i, j | 0 <= i < j < |present|
        ensures ComesBefore(fields, present[i].name, present[j].name)
      {
        if j < |before| {
          ComesBeforeStill(fields[..n], fields, before[i].name, before[j].name);
        } else {
          PresentHave(fields[..n], columns, i);
          var k :| 0 <= k < n && fields[..n][k] == before[i].name;
          assert fields[k] == present[i].name && fields[n] == present[j].name;
        }
      }
    }
  }
}
