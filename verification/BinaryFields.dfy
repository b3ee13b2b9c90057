/**
 Fields of the binary formats: a length of four bytes and as many bytes, or the length -1 for nil. Rows of binary
 COPY and binary arrays are made of them.
 */
module BinaryFields {
  import opened Bytes
  import opened FieldValues

  function ColumnBytes(column: Column): seq<byte> {
    if column.Null? then Nbo32(-1) else Nbo32(|column.bytes|) + column.bytes
  }

  /** Fields one behind the other. */
  function Body(columns: seq<Column>): seq<byte> {
    if |columns| == 0 then [] else ColumnBytes(columns[0]) + Body(columns[1..])
  }

  /** One column, and the position behind it. */
  function ReadColumn(s: seq<byte>, i: nat): (r: Result<(nat, Column)>)
    requires i <= |s|
    ensures r.Ok? ==> i < r.value.0 <= |s|
  {
    if |s| - i < 4 then Err(PrematureEnd)
    else
      var len := ReadNbo32(s[i..i + 4]);
      if len < 0 then if len != -1 then Err(PrematureEnd) else Ok((i + 4, Null))
      else if |s| - (i + 4) < len then Err(PrematureEnd)
      else Ok((i + 4 + len, Data(s[i + 4..i + 4 + len])))
  }

  function ReadColumns(s: seq<byte>, i: nat, n: nat, columns: seq<Column>): (r: Result<(nat, seq<Column>)>)
    requires i <= |s|
    ensures r.Ok? ==> i <= r.value.0 <= |s|
    decreases n
  {
    if n == 0 then Ok((i, columns))
    else
      var (j, column) :- ReadColumn(s, i);
      ReadColumns(s, j, n - 1, columns + [column])
  }

  /** The bytes of a field: four of 255 for nil, otherwise the length, most significant byte first, and the data. */
  lemma ColumnBytesAre(column: Column)
    requires column.Data? ==> |column.bytes| < 0x1_0000_0000
    ensures column.Null? ==> ColumnBytes(column) == [255, 255, 255, 255]
    ensures column.Data? ==>
              var s := ColumnBytes(column);
              && |s| == 4 + |column.bytes|
              && s[0] as int * 16777216 + s[1] as int * 65536 + s[2] as int * 256 + s[3] == |column.bytes|
              && s[4..] == column.bytes
  {
    if column.Data? {
      Nbo32Unsigned(|column.bytes|);
      hide Nbo32;
      var h := Nbo32(|column.bytes|);
      assert h[0..4] == h && (h + column.bytes)[0] == h[0] && (h + column.bytes)[3] == h[3];
    }
  }

  // ---------------------------------------------------------------- what is written is read

  ghost predicate ColumnFits(column: Column) { column.Data? ==> |column.bytes| <= INT32_MAX }

  /** A column on the wire is read as it is. */
  lemma ColumnRun(s: seq<byte>, i: nat, column: Column)
    requires Occurs(s, i, ColumnBytes(column)) && ColumnFits(column)
    ensures i + |ColumnBytes(column)| <= |s| && |ColumnBytes(column)| >= 4
    ensures ReadColumn(s, i) == Ok((i + |ColumnBytes(column)|, column))
  {
    hide Occurs, ReadNbo32, Nbo32;
    OccursSize(s, i, ColumnBytes(column));
    if column.Null? {
      OccursText(s, i, Nbo32(-1));
      Nbo32RoundTrip(-1);
    } else {
      OccursConcat(s, i, Nbo32(|column.bytes|), column.bytes);
      OccursText(s, i, Nbo32(|column.bytes|));
      OccursText(s, i + 4, column.bytes);
      Nbo32RoundTrip(|column.bytes|);
    }
  }

  lemma {:induction false} ColumnsRun(s: seq<byte>, i: nat, columns: seq<Column>, before: seq<Column>)
    requires i <= |s| && Occurs(s, i, Body(columns))
    requires forall k :: 0 <= k < |columns| ==> ColumnFits(columns[k])
    ensures ReadColumns(s, i, |columns|, before) == Ok((i + |Body(columns)|, before + columns))
    decreases |columns|
  {
    hide Occurs, ReadColumn, ColumnBytes;
    OccursSize(s, i, Body(columns));
    if |columns| == 0 {
      assert before + columns == before;
    } else {
      var column, rest := columns[0], Body(columns[1..]);
      OccursConcat(s, i, ColumnBytes(column), rest);
      ColumnRun(s, i, column);
      ColumnsRun(s, i + |ColumnBytes(column)|, columns[1..], before + [column]);
      Together(before, columns);
    }
  }

  lemma Together(before: seq<Column>, columns: seq<Column>)
    requires |columns| > 0
    ensures before + [columns[0]] + columns[1..] == before + columns
  {
  }

  // ---------------------------------------------------------------- what is read was written

  /** What was read as a column is exactly its wire form. */
  lemma ColumnSound(s: seq<byte>, i: nat)
    requires i <= |s| && ReadColumn(s, i).Ok?
    ensures var (j, column) := ReadColumn(s, i).value;
            ColumnFits(column) && Occurs(s, i, ColumnBytes(column)) && j == i + |ColumnBytes(column)|
  {
    hide ReadNbo32, Nbo32;
    var len := ReadNbo32(s[i..i + 4]);
    Nbo32Canonical(s[i..i + 4]);
    if len >= 0 {
      OccursJoin(s, i, s[i..i + 4], s[i + 4..i + 4 + len]);
    }
  }

  lemma {:induction false} ColumnsSound(s: seq<byte>, i: nat, n: nat, before: seq<Column>)
    returns (columns: seq<Column>)
    requires i <= |s| && ReadColumns(s, i, n, before).Ok?
    ensures |columns| == n && ReadColumns(s, i, n, before) == Ok((i + |Body(columns)|, before + columns))
    ensures Occurs(s, i, Body(columns))
    ensures forall k :: 0 <= k < |columns| ==> ColumnFits(columns[k])
    decreases n
  {
    hide ReadColumn, ColumnBytes;
    if n == 0 {
      columns := [];
      assert before + columns == before;
    } else {
      hide Occurs;
      var (j, column) := ReadColumn(s, i).value;
      ColumnSound(s, i);
      var rest := ColumnsSound(s, j, n - 1, before + [column]);
      columns := [column] + rest;
      Together(before, columns);
      assert columns[1..] == rest;
      OccursJoin(s, i, ColumnBytes(column), Body(rest));
    }
  }

  // ---------------------------------------------------------------- fields cut short

  /** A column that is cut short is refused. */
  lemma ColumnCut(s: seq<byte>, i: nat, m: nat, column: Column)
    requires Occurs(s, i, ColumnBytes(column)) && ColumnFits(column) && i <= m < i + |ColumnBytes(column)| <= |s|
    ensures ReadColumn(s[..m], i) == Err(PrematureEnd)
  {
    hide ReadNbo32, Nbo32;
    ColumnRun(s, i, column);
    if i + 4 <= m {
      assert s[..m][i..i + 4] == s[i..i + 4];
    }
  }

  /** A column that is not is read as before. */
  lemma ColumnKept(s: seq<byte>, i: nat, m: nat, column: Column)
    requires Occurs(s, i, ColumnBytes(column)) && ColumnFits(column) && i + |ColumnBytes(column)| <= m <= |s|
    ensures ReadColumn(s[..m], i) == Ok((i + |ColumnBytes(column)|, column))
  {
    hide ReadColumn, ColumnBytes;
    assert s[..m][i..i + |ColumnBytes(column)|] == s[i..i + |ColumnBytes(column)|];
    ColumnRun(s[..m], i, column);
  }

  lemma {:induction false} ColumnsCut(s: seq<byte>, i: nat, m: nat, columns: seq<Column>, before: seq<Column>)
    requires i <= m <= |s| && Occurs(s, i, Body(columns)) && m < i + |Body(columns)|
    requires forall k :: 0 <= k < |columns| ==> ColumnFits(columns[k])
    ensures ReadColumns(s[..m], i, |columns|, before).Err?
    decreases |columns|
  {
    hide Occurs, ReadColumn, ColumnBytes;
    var column, rest := columns[0], Body(columns[1..]);
    OccursConcat(s, i, ColumnBytes(column), rest);
    OccursSize(s, i, ColumnBytes(column));
    var j := i + |ColumnBytes(column)|;
    if m < j {
      ColumnCut(s, i, m, column);
    } else {
      ColumnKept(s, i, m, column);
      ColumnsCut(s, j, m, columns[1..], before + [column]);
    }
  }
}
