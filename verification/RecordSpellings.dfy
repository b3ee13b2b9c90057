/**
 All the ways to write a record (section 8.16.6 of the PostgreSQL documentation): bare bytes, backslashes, stretches
 between quotation marks with doubled or escaped bytes, and white space around the parentheses. The parser
 (ext/pg_record_coder.c) reads each of them as what it spells; the printer writes one of them.
 */
module RecordSpellings {
  import opened Bytes
  import opened Escape
  import opened TextFormat
  import opened TextRoundTrip
  import opened TextLimits

  /** A byte between quotation marks: as it is, behind a backslash, or a quotation mark that is doubled. */
  datatype Mark = Bare(ch: byte) | Slashed(ch: byte) | Doubled

  /** A piece of a column: a byte as it is or behind a backslash, or a stretch between quotation marks. */
  datatype Piece = Plain(ch: byte) | Escaped(ch: byte) | Quotes(marks: seq<Mark>)

  // ---------------------------------------------------------------- how they are written

  predicate IsMark(mark: Mark) {
    match mark
    case Bare(ch) => ch != 34 && ch != 92 && ch != 0
    case Slashed(ch) => ch != 0
    case Doubled => true
  }

  predicate IsPiece(piece: Piece) {
    match piece
    case Plain(ch) => ch != 34 && ch != 92 && ch != 44 && ch != 41 && ch != 0
    case Escaped(ch) => ch != 0
    case Quotes(marks) => forall k :: 0 <= k < |marks| ==> IsMark(marks[k])
  }

  function MarkText(mark: Mark): seq<byte> {
    match mark
    case Bare(ch) => [ch]
    case Slashed(ch) => [92, ch]
    case Doubled => [34, 34]
  }

  function MarksText(marks: seq<Mark>): seq<byte> {
    if |marks| == 0 then [] else MarkText(marks[0]) + MarksText(marks[1..])
  }

  function PieceText(piece: Piece): seq<byte> {
    match piece
    case Plain(ch) => [ch]
    case Escaped(ch) => [92, ch]
    case Quotes(marks) => [34] + MarksText(marks) + [34]
  }

  /** A column without pieces is nil. */
  function ColumnText(pieces: seq<Piece>): seq<byte> {
    if |pieces| == 0 then [] else PieceText(pieces[0]) + ColumnText(pieces[1..])
  }

  function ColumnsText(columns: seq<seq<Piece>>): seq<byte> {
    if |columns| == 0 then []
    else if |columns| == 1 then ColumnText(columns[0])
    else ColumnText(columns[0]) + [44] + ColumnsText(columns[1..])
  }

  // ---------------------------------------------------------------- what they spell

  function MarkByte(mark: Mark): byte {
    if mark.Doubled? then 34 else mark.ch
  }

  function MarksBytes(marks: seq<Mark>): seq<byte> {
    if |marks| == 0 then [] else [MarkByte(marks[0])] + MarksBytes(marks[1..])
  }

  function PieceBytes(piece: Piece): seq<byte> {
    if piece.Quotes? then MarksBytes(piece.marks) else [piece.ch]
  }

  function ColumnBytes(pieces: seq<Piece>): seq<byte> {
    if |pieces| == 0 then [] else PieceBytes(pieces[0]) + ColumnBytes(pieces[1..])
  }

  function Spelled(pieces: seq<Piece>): Value {
    if |pieces| == 0 then Nil else Str(ColumnBytes(pieces))
  }

  function AllSpelled(columns: seq<seq<Piece>>): seq<Value> {
    if |columns| == 0 then [] else [Spelled(columns[0])] + AllSpelled(columns[1..])
  }

  /** Two stretches between quotation marks never meet: the marks would be taken for a doubled one. */
  ghost predicate IsColumn(pieces: seq<Piece>) {
    && (forall k :: 0 <= k < |pieces| ==> IsPiece(pieces[k]))
    && (forall k :: 0 < k < |pieces| && pieces[k - 1].Quotes? ==> !pieces[k].Quotes?)
  }

  ghost predicate AreColumns(columns: seq<seq<Piece>>) {
    forall k :: 0 <= k < |columns| ==> IsColumn(columns[k])
  }

  // ---------------------------------------------------------------- columns

  lemma MarkRun(s: seq<byte>, i: nat, field: seq<byte>, mark: Mark)
    requires i <= |s| && Occurs(s, i, MarkText(mark)) && IsMark(mark)
    ensures i + |MarkText(mark)| <= |s|
    ensures ReadField(s, i, true, field) == ReadField(s, i + |MarkText(mark)|, true, field + [MarkByte(mark)])
  {
    hide Occurs;
    OccursFirst(s, i, MarkText(mark));
    if !mark.Bare? {
      assert MarkText(mark)[1..] == [MarkText(mark)[1]];
      OccursFirst(s, i + 1, MarkText(mark)[1..]);
    }
  }

  lemma {:induction false} MarksRun(s: seq<byte>, i: nat, field: seq<byte>, marks: seq<Mark>)
    requires i <= |s| && Occurs(s, i, MarksText(marks)) && forall k :: 0 <= k < |marks| ==> IsMark(marks[k])
    ensures i + |MarksText(marks)| <= |s|
    ensures ReadField(s, i, true, field) == ReadField(s, i + |MarksText(marks)|, true, field + MarksBytes(marks))
    decreases |marks|
  {
    hide Occurs, ReadField, MarkText, MarkByte;
    OccursSize(s, i, MarksText(marks));
    if |marks| == 0 {
      NoText(field);
    } else {
      var t, rest := MarkText(marks[0]), MarksBytes(marks[1..]);
      OccursConcat(s, i, t, MarksText(marks[1..]));
      MarkRun(s, i, field, marks[0]);
      MarksRun(s, i + |t|, field + [MarkByte(marks[0])], marks[1..]);
      Assoc(field, [MarkByte(marks[0])], rest);
    }
  }

  lemma PieceRun(s: seq<byte>, i: nat, field: seq<byte>, piece: Piece)
    requires i <= |s| && Occurs(s, i, PieceText(piece)) && IsPiece(piece)
    requires piece.Quotes? ==> At(s, i + |PieceText(piece)|) != 34
    ensures i + |PieceText(piece)| <= |s|
    ensures ReadField(s, i, false, field) == ReadField(s, i + |PieceText(piece)|, false, field + PieceBytes(piece))
  {
    hide Occurs, MarksText;
    OccursFirst(s, i, PieceText(piece));
    if piece.Escaped? {
      assert PieceText(piece)[1..] == [piece.ch];
      OccursFirst(s, i + 1, [piece.ch]);
    } else if piece.Quotes? {
      QuotesRun(s, i, field, piece.marks);
    }
  }

  lemma QuotesRun(s: seq<byte>, i: nat, field: seq<byte>, marks: seq<Mark>)
    requires i <= |s| && Occurs(s, i, [34] + MarksText(marks) + [34]) && At(s, i + |MarksText(marks)| + 2) != 34
    requires forall k :: 0 <= k < |marks| ==> IsMark(marks[k])
    ensures var j := i + |MarksText(marks)| + 2;
            j <= |s| && ReadField(s, i, false, field) == ReadField(s, j, false, field + MarksBytes(marks))
  {
    hide Occurs, MarksText, MarksBytes;
    var t := MarksText(marks);
    assert [34] + t + [34] == [34] + (t + [34]);
    OccursSize(s, i, [34] + t + [34]);
    OccursConcat(s, i, [34], t + [34]);
    OccursConcat(s, i + 1, t, [34]);
    OccursFirst(s, i, [34]);
    OccursFirst(s, i + 1 + |t|, [34]);
    MarksRun(s, i + 1, field, marks);
    assert ReadField(s, i, false, field) == ReadField(s, i + 1, true, field);
  }

  /** A piece begins neither with a comma nor with a parenthesis, and with a quotation mark only if it is quoted. */
  lemma PieceStart(s: seq<byte>, i: nat, piece: Piece)
    requires i <= |s| && Occurs(s, i, PieceText(piece)) && IsPiece(piece)
    ensures i < |s| && s[i] != 44 && s[i] != 41 && (s[i] == 34 ==> piece.Quotes?)
  {
    hide Occurs, MarksText;
    OccursFirst(s, i, PieceText(piece));
  }

  /** A column is read up to the comma or parenthesis behind it. */
  lemma {:induction false} ColumnRead(s: seq<byte>, i: nat, field: seq<byte>, pieces: seq<Piece>)
    requires i <= |s| && Occurs(s, i, ColumnText(pieces)) && IsColumn(pieces)
    requires i + |ColumnText(pieces)| < |s|
    requires s[i + |ColumnText(pieces)|] == 44 || s[i + |ColumnText(pieces)|] == 41
    ensures ReadField(s, i, false, field) == Ok((i + |ColumnText(pieces)|, field + ColumnBytes(pieces)))
    decreases |pieces|
  {
    hide Occurs, PieceText, PieceBytes, IsPiece;
    if |pieces| == 0 {
      NoText(field);
    } else {
      hide ReadField;
      var t, rest := PieceText(pieces[0]), pieces[1..];
      assert forall k :: 0 <= k < |rest| ==> rest[k] == pieces[k + 1];
      OccursConcat(s, i, t, ColumnText(rest));
      if |rest| > 0 {
        OccursConcat(s, i + |t|, PieceText(rest[0]), ColumnText(rest[1..]));
        PieceStart(s, i + |t|, rest[0]);
      }
      PieceRun(s, i, field, pieces[0]);
      ColumnRead(s, i + |t|, field + PieceBytes(pieces[0]), rest);
      Assoc(field, PieceBytes(pieces[0]), ColumnBytes(rest));
    }
  }

  /** A coder of strings with enough columns for those that are not nil. */
  ghost predicate ForStrings(c: Coder, columns: seq<seq<Piece>>, before: nat) {
    && c.TextRecord?
    && (forall k :: 0 <= k < |c.columns| ==> c.columns[k] == TextString)
    && forall k :: 0 <= k < |columns| && |columns[k]| > 0 ==> before + k < |c.columns|
  }

  lemma {:induction false} ColumnsRead(c: Coder, s: seq<byte>, i: nat, before: seq<Value>, columns: seq<seq<Piece>>)
    requires |columns| > 0 && ForStrings(c, columns, |before|) && AreColumns(columns)
    requires i <= |s| && Occurs(s, i, ColumnsText(columns)) && i + |ColumnsText(columns)| < |s|
    requires s[i + |ColumnsText(columns)|] == 41
    ensures ReadFields(c, s, i, before) == Ok((i + |ColumnsText(columns)| + 1, before + AllSpelled(columns)))
    decreases |columns|
  {
    hide Occurs, ColumnText, Spelled, ReadFields, IsColumn;
    var t, rest := ColumnText(columns[0]), columns[1..];
    var first := [Spelled(columns[0])];
    assert AllSpelled(columns) == first + AllSpelled(rest);
    if |columns| == 1 {
      assert AllSpelled(columns) == first;
      OneColumn(c, s, i, before, columns[0]);
    } else {
      Assoc(t, [44], ColumnsText(rest));
      OccursConcat(s, i, t, [44] + ColumnsText(rest));
      OccursConcat(s, i + |t|, [44], ColumnsText(rest));
      OccursFirst(s, i + |t|, [44]);
      OneColumn(c, s, i, before, columns[0]);
      assert forall k :: 0 <= k < |rest| ==> rest[k] == columns[k + 1];
      ColumnsRead(c, s, i + |t| + 1, before + first, rest);
      assert before + first + AllSpelled(rest) == before + (first + AllSpelled(rest));
    }
  }

  lemma OneColumn(c: Coder, s: seq<byte>, i: nat, before: seq<Value>, pieces: seq<Piece>)
    requires c.TextRecord? && (|pieces| > 0 ==> |before| < |c.columns| && c.columns[|before|] == TextString)
    requires IsColumn(pieces) && i <= |s| && Occurs(s, i, ColumnText(pieces)) && i + |ColumnText(pieces)| < |s|
    ensures var j := i + |ColumnText(pieces)|;
            && (s[j] == 44 ==> ReadFields(c, s, i, before) == ReadFields(c, s, j + 1, before + [Spelled(pieces)]))
            && (s[j] == 41 ==> ReadFields(c, s, i, before) == Ok((j + 1, before + [Spelled(pieces)])))
  {
    hide Occurs, ReadField, ColumnBytes, IsPiece, PieceText;
    var j := i + |ColumnText(pieces)|;
    if |pieces| > 0 && (s[j] == 44 || s[j] == 41) {
      OccursConcat(s, i, PieceText(pieces[0]), ColumnText(pieces[1..]));
      PieceStart(s, i, pieces[0]);
      ColumnRead(s, i, [], pieces);
      NoText(ColumnBytes(pieces));
      StringElement(ColumnBytes(pieces));
    }
  }

  // ---------------------------------------------------------------- whole records

  predicate IsBlanks(s: seq<byte>) {
    forall k :: 0 <= k < |s| ==> s[k] == 32 || 9 <= s[k] <= 13
  }

  lemma {:induction false} BlanksRun(s: seq<byte>, i: nat, x: seq<byte>)
    requires i <= |s| && Occurs(s, i, x) && IsBlanks(x)
    ensures i + |x| <= |s| && SkipSpace(s, i) == SkipSpace(s, i + |x|)
    decreases |x|
  {
    hide Occurs;
    OccursSize(s, i, x);
    if |x| > 0 {
      OccursFirst(s, i, x);
      assert IsBlanks(x[1..]);
      BlanksRun(s, i + 1, x[1..]);
    }
  }

  lemma NotBlank(s: seq<byte>, i: nat)
    requires i < |s| && s[i] != 32 && !(9 <= s[i] <= 13)
    ensures SkipSpace(s, i) == i
  {
  }

  function Whole(gap: seq<byte>, columns: seq<seq<Piece>>, tail: seq<byte>): seq<byte> {
    gap + ([40] + (ColumnsText(columns) + ([41] + tail)))
  }

  /**
   Every record that is written in one of these ways is read as what it spells. Behind the closing parenthesis there may
   be white space, and what follows is refused, unless it is hidden behind a zero byte.
   */
  lemma SpelledIsRead(c: Coder, gap: seq<byte>, columns: seq<seq<Piece>>, tail: seq<byte>, more: seq<byte>)
    requires |columns| > 0 && ForStrings(c, columns, 0) && AreColumns(columns) && IsBlanks(gap) && IsBlanks(tail)
    requires |more| > 0 ==> more[0] != 32 && !(9 <= more[0] <= 13)
    ensures Decode(c, Whole(gap, columns, tail + more)) ==
            if |more| == 0 || more[0] == 0 then Ok(List(AllSpelled(columns))) else Err(Malformed)
  {
    hide Occurs, IsBlanks, ReadFields, ColumnsText, SkipSpace, AreColumns, Whole, Decode;
    var s := Whole(gap, columns, tail + more);
    var i, end := WholeParts(gap, columns, tail, more);
    BlanksRun(s, 0, gap);
    NotBlank(s, i);
    ColumnsRead(c, s, i + 1, [], columns);
    assert [] + AllSpelled(columns) == AllSpelled(columns);
    BlanksRun(s, end + 1, tail);
    if |more| > 0 {
      OccursFirst(s, end + 1 + |tail|, more);
      NotBlank(s, end + 1 + |tail|);
    } else {
      AtEnd(s);
    }
    RecordFrame(c, s, i, end + 1, AllSpelled(columns));
  }

  lemma WholeParts(gap: seq<byte>, columns: seq<seq<Piece>>, tail: seq<byte>, more: seq<byte>)
    returns (i: nat, end: nat)
    ensures var s := Whole(gap, columns, tail + more);
            && i == |gap| && end == i + 1 + |ColumnsText(columns)| && |s| == end + 1 + |tail| + |more|
            && Occurs(s, 0, gap) && s[i] == 40 && Occurs(s, i + 1, ColumnsText(columns)) && s[end] == 41
            && Occurs(s, end + 1, tail) && Occurs(s, end + 1 + |tail|, more)
  {
    hide Occurs, ColumnsText;
    var s, t := Whole(gap, columns, tail + more), ColumnsText(columns);
    i, end := |gap|, |gap| + 1 + |t|;
    OccursWhole(s);
    OccursConcat(s, 0, gap, [40] + (t + ([41] + (tail + more))));
    OccursConcat(s, i, [40], t + ([41] + (tail + more)));
    OccursConcat(s, i + 1, t, [41] + (tail + more));
    OccursConcat(s, end, [41], tail + more);
    OccursConcat(s, end + 1, tail, more);
    OccursFirst(s, i, [40]);
    OccursFirst(s, end, [41]);
  }

  lemma RecordFrame(c: Coder, s: seq<byte>, i: nat, end: nat, fields: seq<Value>)
    requires c.TextRecord? && i < |s| && SkipSpace(s, 0) == i && s[i] == 40 && end <= |s|
    requires ReadFields(c, s, i + 1, []) == Ok((end, fields))
    ensures Decode(c, s) == if At(s, SkipSpace(s, end)) != 0 then Err(Malformed) else Ok(List(fields))
  {
    hide ReadFields, SkipSpace;
  }

  lemma AtEnd(s: seq<byte>)
    ensures SkipSpace(s, |s|) == |s|
  {
  }

  // ---------------------------------------------------------------- what is printed

  /** A column as it is printed: nothing for nil, and otherwise between quotation marks. */
  function Printed(text: seq<byte>): seq<Mark> {
    if |text| == 0 then []
    else [if text[0] == 34 then Doubled else if text[0] == 92 then Slashed(92) else Bare(text[0])] + Printed(text[1..])
  }

  lemma {:induction false} PrintedIs(text: seq<byte>)
    ensures MarksText(Printed(text)) == Escape.Escaped(RecordField, text) && MarksBytes(Printed(text)) == text
    decreases |text|
  {
    if |text| > 0 {
      PrintedIs(text[1..]);
      EscapedByteIs(RecordField, text[0]);
      assert Printed(text)[1..] == Printed(text[1..]);
      assert [text[0]] + text[1..] == text;
    }
  }

  function PrintedColumn(c: Coder, k: nat, entry: Value): seq<Piece>
    requires c.TextRecord? && k < |c.columns| && (entry.Nil? || Encode(c.columns[k], entry).Ok?)
  {
    if entry.Nil? then [] else [Quotes(Printed(Encode(c.columns[k], entry).value))]
  }

  lemma PrintedColumnIs(c: Coder, k: nat, entry: Value)
    requires c.TextRecord? && k < |c.columns| && FieldText(c, k, entry).Ok?
    ensures entry.Nil? || Encode(c.columns[k], entry).Ok?
    ensures FieldText(c, k, entry).value == ColumnText(PrintedColumn(c, k, entry))
  {
    hide Encode, Printed, MarksText;
    if !entry.Nil? {
      var t := Encode(c.columns[k], entry).value;
      PrintedIs(t);
      var pieces := PrintedColumn(c, k, entry);
      assert pieces[1..] == [] && ColumnText([]) == [];
      NoText(PieceText(pieces[0]));
    }
  }

  lemma {:induction false} BodyIsPrinted(c: Coder, items: seq<Value>) returns (columns: seq<seq<Piece>>)
    requires c.TextRecord? && |items| <= |c.columns| && RecordBody(c, items).Ok?
    ensures |columns| == |items| && RecordBody(c, items).value == ColumnsText(columns)
    ensures forall k :: 0 <= k < |items| ==>
              && (items[k].Nil? || Encode(c.columns[|c.columns| - |items| + k], items[k]).Ok?)
              && columns[k] == PrintedColumn(c, |c.columns| - |items| + k, items[k])
    decreases |items|
  {
    hide Encode, FieldText, PrintedColumn, ColumnText;
    columns := [];
    if |items| > 0 {
      var k, rest := |c.columns| - |items|, [];
      PrintedColumnIs(c, k, items[0]);
      if |items| > 1 {
        rest := BodyIsPrinted(c, items[1..]);
      }
      columns := [PrintedColumn(c, k, items[0])] + rest;
      assert columns[1..] == rest;
    }
  }

  /** The text of a record: its columns so printed, separated by commas, in parentheses. */
  lemma RecordIsPrinted(c: Coder, items: seq<Value>) returns (columns: seq<seq<Piece>>)
    requires c.TextRecord? && Encode(c, List(items)).Ok?
    ensures |columns| == |items| == |c.columns|
    ensures Encode(c, List(items)).value == [40] + ColumnsText(columns) + [41]
    ensures forall k :: 0 <= k < |items| ==>
              && (items[k].Nil? || Encode(c.columns[k], items[k]).Ok?)
              && columns[k] == PrintedColumn(c, k, items[k])
  {
    hide RecordBody, PrintedColumn, ColumnsText;
    columns := BodyIsPrinted(c, items);
  }

  // ---------------------------------------------------------------- records cut short

  /** A column that is read is read from a shorter text too, if it ends within it; otherwise that text ends too soon. */
  lemma {:induction false} FieldCut(s: seq<byte>, m: nat, i: nat, inQuote: bool, field: seq<byte>)
    requires i <= m <= |s| && ReadField(s, i, inQuote, field).Ok?
    ensures ReadField(s, i, inQuote, field).value.0 < m ==>
              ReadField(s[..m], i, inQuote, field) == ReadField(s, i, inQuote, field)
    ensures ReadField(s, i, inQuote, field).value.0 >= m ==> ReadField(s[..m], i, inQuote, field) == Err(PrematureEnd)
    decreases |s| - i
  {
    var ch := At(s, i);
    if i < m && !(!inQuote && (ch == COMMA || ch == RPAREN)) {
      assert At(s[..m], i) == ch;
      if ch == BACKSLASH {
        if i + 1 < m {
          FieldCut(s, m, i + 2, inQuote, field + [s[i + 1]]);
        }
      } else if ch == QUOTE {
        if !inQuote {
          FieldCut(s, m, i + 1, true, field);
        } else if At(s, i + 1) == QUOTE {
          if i + 1 < m {
            FieldCut(s, m, i + 2, true, field + [QUOTE]);
          } else {
            AtEndFails(s[..m], false, field);
          }
        } else {
          FieldCut(s, m, i + 1, false, field);
        }
      } else {
        FieldCut(s, m, i + 1, inQuote, field + [ch]);
      }
    }
  }

  lemma AtEndFails(s: seq<byte>, inQuote: bool, field: seq<byte>)
    ensures ReadField(s, |s|, inQuote, field) == Err(PrematureEnd)
  {
  }

  lemma {:induction false} FieldsCut(c: Coder, s: seq<byte>, m: nat, i: nat, fields: seq<Value>)
    requires c.TextRecord? && i <= m <= |s| && ReadFields(c, s, i, fields).Ok?
    requires ReadFields(c, s, i, fields).value.0 > m
    ensures ReadFields(c, s[..m], i, fields) == Err(PrematureEnd)
    decreases |s| - i
  {
    hide ReadField, Decode;
    if i == m {
      AtEndFails(s[..m], false, []);
    } else if At(s, i) == COMMA {
      FieldsCut(c, s, m, i + 1, fields + [Nil]);
    } else if At(s, i) != RPAREN {
      FieldCut(s, m, i, false, []);
      var (j, field) := ReadField(s, i, false, []).value;
      var v := DecodeColumn(c, |fields|, field).value;
      if j < m && s[j] == COMMA {
        FieldsCut(c, s, m, j + 1, fields + [v]);
      }
    }
  }

  /** Every printed record that is cut short is refused, because it ends too soon or has nothing at all. */
  lemma PrintedCut(c: Coder, items: seq<Value>, m: nat)
    requires c.TextRecord? && GoodCoder(c) && Conforms(c, List(items))
    ensures Encode(c, List(items)).Ok? && (m < |Encode(c, List(items)).value| ==>
              Decode(c, Encode(c, List(items)).value[..m]) == Err(if m == 0 then Malformed else PrematureEnd))
  {
    hide Occurs, RecordBody, ReadFields, ConformsColumns;
    RecordBodyClean(c, items);
    var body := RecordBody(c, items).value;
    var s := [LPAREN] + body + [RPAREN];
    if 0 < m < |s| {
      OccursWhole(s);
      assert s == [LPAREN] + (body + [RPAREN]);
      OccursConcat(s, 0, [LPAREN], body + [RPAREN]);
      OccursConcat(s, 1, body, [RPAREN]);
      FieldsRun(c, s, 1, [], items);
      FieldsCut(c, s, m, 1, []);
      assert s[..m][0] == LPAREN;
      NotBlank(s[..m], 0);
    }
  }
}
