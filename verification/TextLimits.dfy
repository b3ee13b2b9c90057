/** Where the round trip of arrays and records ends: bad delimiters, and values that do not come back. */
module TextLimits {
  import opened Bytes
  import opened Escape
  import opened TextFormat
  import opened TextRoundTrip

  /** An array coder for strings with any nesting. */
  function Strings(delimiter: byte): Coder {
    TextArray(-1, delimiter, TextString)
  }

  ghost predicate RoundTrips(c: Coder, v: Value) {
    Encode(c, v).Ok? && Decode(c, Encode(c, v).value) == Ok(v)
  }

  /** Items that were stored stay stored. */
  lemma {:induction false} ItemsGrow(c: Coder, s: seq<byte>, r: Reading)
    requires c.TextArray? && Sane(s, r) && ReadItems(c, s, r).Ok?
    ensures r.items <= ReadItems(c, s, r).value.items
    decreases |s| - r.index
  {
    hide PushItem, ReadList;
    var ch := s[r.index];
    if r.openQuote < 1 {
      if ch == c.delimiter || ch == RBRACE {
        var p := PushItem(c, r).value;
        PushKeeps(c, r);
        if ch != RBRACE {
          ItemsGrow(c, s, Fresh(r.index + 1, p.word, p.items));
        }
      } else if ch == QUOTE {
        ItemsGrow(c, s, r.(index := r.index + 1, openQuote := 1));
      } else if ch == LBRACE {
        var sub := ReadList(c, s, r.index + 1, r.word).value;
        ItemsGrow(c, s, r.(index := sub.index + 1, word := sub.word, escapeNext := true,
                           items := r.items + [List(sub.items)]));
      } else {
        ItemsGrow(c, s, Append(r, ch));
      }
    } else {
      InsideSane(s, r, ch);
      ItemsGrow(c, s, Inside(r, ch));
    }
  }

  lemma PushKeeps(c: Coder, r: Reading)
    requires c.TextArray? && r.size < |r.word| && PushItem(c, r).Ok?
    ensures r.items <= PushItem(c, r).value.items
  {
  }

  /** The text of a list of one item. */
  lemma OneItem(c: Coder, entry: Value, t: seq<byte>, depth: nat)
    requires c.TextArray? && c.dimensions < 0 && ItemText(c, entry, depth) == Ok(t)
    ensures ListText(c, [entry], depth) == Ok([LBRACE] + t + [RBRACE])
  {
    hide ItemText;
    assert ListBody(c, [entry], depth) == Ok(t);
  }

  /** What decoding a text in braces comes to. */
  lemma InBraces(c: Coder, s: seq<byte>)
    requires c.TextArray? && |s| > 0 && s[0] == LBRACE
    ensures var level := ReadList(c, s, 1, seq(|s|, _ => 0));
            Decode(c, s) ==
            if level.Err? then Err(level.error)
            else if SkipSpace(s, level.value.index + 1) < |s| then Err(Malformed)
            else Ok(List(level.value.items))
  {
    hide ReadList;
    assert SkipSpace(s, 0) == 0 && ArrayStart(s) == Ok(0);
  }

  lemma StringElement(s: seq<byte>)
    ensures Decode(TextString, s) == Ok(Str(s)) && Encode(TextString, Str(s)) == Ok(s)
  {
  }

  /** The word NULL is cut short by a delimiter that is one of its letters. */
  lemma NullIsCut(d: byte, k: nat)
    requires k < 3 && d == NULL_WORD[k]
    ensures !RoundTrips(Strings(d), List([Nil]))
  {
    hide ReadItems, Splice;
    var c := Strings(d);
    var s := [LBRACE] + NULL_WORD + [RBRACE];
    OneItem(c, Nil, NULL_WORD, 1);
    InBraces(c, s);
    var word := seq(|s|, _ => 0);
    var r := Fresh(1, word, []);
    var x := NULL_WORD[..k];
    assert Occurs(s, 1, x);
    PlainRun(c, s, r, x);
    var r1 := After(r, k, x);
    assert s[r1.index] == d;
    var p := PushItem(c, r1).value;
    ClosingTurn(c, s, r1, p);
    assert p.items[0].Str?;
    var level := ReadItems(c, s, Fresh(r1.index + 1, p.word, p.items));
    if level.Ok? {
      ItemsGrow(c, s, Fresh(r1.index + 1, p.word, p.items));
    }
    assert ReadList(c, s, 1, word) == level;
  }

  /** A quotation mark as delimiter ends an item where a quoted one begins. */
  lemma QuoteIsTaken()
    ensures !RoundTrips(Strings(QUOTE), List([Str([QUOTE])]))
  {
    hide ReadItems, Splice;
    var c := Strings(QUOTE);
    var x := [QUOTE];
    assert Escaped(ArrayItem, x) == [BACKSLASH, QUOTE] by { assert x[1..] == []; }
    assert IsMeta(QUOTE, x[0]);
    assert ItemQuoted(QUOTE, x) == [QUOTE, BACKSLASH, QUOTE, QUOTE];
    var s := [LBRACE, QUOTE, BACKSLASH, QUOTE, QUOTE, RBRACE];
    StringElement(x);
    OneItem(c, Str(x), [QUOTE, BACKSLASH, QUOTE, QUOTE], 1);
    assert [LBRACE] + [QUOTE, BACKSLASH, QUOTE, QUOTE] + [RBRACE] == s;
    InBraces(c, s);
    var word := seq(|s|, _ => 0);
    FirstItemEmpty(c, s, word);
  }

  /** When the first byte of a list is the delimiter, its first item is the empty string. */
  lemma FirstItemEmpty(c: Coder, s: seq<byte>, word: seq<byte>)
    requires c.TextArray? && c.elem == TextString && |word| == |s| && |s| > 1
    requires s[1] == c.delimiter && s[1] != RBRACE
    ensures ReadList(c, s, 1, word).Ok? ==>
              |ReadList(c, s, 1, word).value.items| > 0 && ReadList(c, s, 1, word).value.items[0] == Str([])
  {
    hide ReadItems;
    var r := Fresh(1, word, []);
    StringElement(word[..0]);
    var p := PushItem(c, r).value;
    assert word[..0] == [];
    assert p.items[0] == Str([]);
    ClosingTurn(c, s, r, p);
    var level := ReadItems(c, s, Fresh(2, p.word, p.items));
    if level.Ok? {
      ItemsGrow(c, s, Fresh(2, p.word, p.items));
    }
  }

  lemma EmptyList(c: Coder, depth: nat)
    requires c.TextArray? && c.dimensions < 0
    ensures ListText(c, [], depth) == Ok([LBRACE, RBRACE])
  {
    assert [LBRACE] + [] + [RBRACE] == [LBRACE, RBRACE];
  }

  /** An opening brace as delimiter hides a sub-array. */
  lemma BraceIsTaken()
    ensures !RoundTrips(Strings(LBRACE), List([List([])]))
  {
    hide ReadItems;
    var c := Strings(LBRACE);
    var s := [LBRACE, LBRACE, RBRACE, RBRACE];
    EmptyList(c, 2);
    OneItem(c, List([]), [LBRACE, RBRACE], 1);
    assert [LBRACE] + [LBRACE, RBRACE] + [RBRACE] == s;
    InBraces(c, s);
    FirstItemEmpty(c, s, seq(|s|, _ => 0));
  }

  /** A closing brace as delimiter closes the array. */
  lemma BraceCloses()
    ensures !RoundTrips(Strings(RBRACE), List([Nil, Nil]))
  {
    hide ReadItems, Splice;
    var c := Strings(RBRACE);
    var s := [LBRACE] + NULL_WORD + [RBRACE] + NULL_WORD + [RBRACE];
    assert ListBody(c, [Nil], 1) == Ok(NULL_WORD);
    assert [Nil, Nil][1..] == [Nil];
    assert ListBody(c, [Nil, Nil], 1) == Ok(NULL_WORD + [RBRACE] + NULL_WORD);
    assert ListText(c, [Nil, Nil], 1) == Ok([LBRACE] + (NULL_WORD + [RBRACE] + NULL_WORD) + [RBRACE]);
    assert [LBRACE] + (NULL_WORD + [RBRACE] + NULL_WORD) + [RBRACE] == s;
    InBraces(c, s);
    var word := seq(|s|, _ => 0);
    var r := NullRunAny(c, s, word);
    var p := PushItem(c, r).value;
    ClosingTurn(c, s, r, p);
    assert ReadList(c, s, 1, word) == Ok(Level(5, p.items, p.word));
    assert SkipSpace(s, 6) == 6;
  }

  lemma NullRunAny(c: Coder, s: seq<byte>, word: seq<byte>) returns (r: Reading)
    requires c == Strings(RBRACE) && |word| == |s| && Occurs(s, 1, NULL_WORD)
    ensures Sane(s, r) && r.index == 5 && r.openQuote == 0
    ensures ReadItems(c, s, Fresh(1, word, [])) == ReadItems(c, s, r)
    ensures r.index < |s| ==> PushItem(c, r).Ok? && PushItem(c, r).value.items == [Nil]
  {
    hide ReadItems, Splice;
    var r0 := Fresh(1, word, []);
    PlainRun(c, s, r0, NULL_WORD);
    r := After(r0, 4, NULL_WORD);
    Collected(r0, 4, NULL_WORD);
  }

  /**
   Arrays of strings survive the round trip for every value exactly when the delimiter is none of the bytes that
   the parser gives another meaning. Braces, quotes and the letters of NULL are not refused by the setter.
   */
  lemma DelimiterExact(d: byte)
    ensures GoodDelimiter(d) <==> forall v :: Conforms(Strings(d), v) ==> RoundTrips(Strings(d), v)
  {
    var c := Strings(d);
    if GoodDelimiter(d) {
      forall v | Conforms(c, v)
        ensures RoundTrips(c, v)
      {
        DecodeEncode(c, v);
      }
    } else {
      var bad: Value;
      if d == QUOTE {
        QuoteIsTaken();
        bad := List([Str([QUOTE])]);
      } else if d == LBRACE {
        BraceIsTaken();
        bad := List([List([])]);
      } else if d == RBRACE {
        BraceCloses();
        bad := List([Nil, Nil]);
      } else {
        var k :| 0 <= k < |NULL_WORD| && NULL_WORD[k] == d;
        NullIsCut(d, if k == 3 then 2 else k);
        bad := List([Nil]);
      }
      assert ConformsList(c, [], 2) && ConformsItem(c, List([]), 1) && Conforms(TextString, Str([QUOTE]));
      assert ConformsList(c, bad.items, 1);
      assert Conforms(c, bad);
    }
  }

  // ---------------------------------------------------------------- the wanted number of dimensions

  /** A nest of exactly `n` levels, counted from the outermost one down. Only the innermost arrays may be empty. */
  predicate HasLevels(items: seq<Value>, n: nat)
    decreases n
  {
    if n == 0 then false
    else if n == 1 then forall k :: 0 <= k < |items| ==> !items[k].List?
    else |items| > 0 && forall k :: 0 <= k < |items| ==> items[k].List? && HasLevels(items[k].items, n - 1)
  }

  /**
   With `dimensions` an array of strings can be printed exactly when it has that many levels everywhere, and without
   always.
   */
  lemma DimensionsExact(c: Coder, items: seq<Value>)
    requires c.TextArray? && c.elem == TextString
    ensures Encode(c, List(items)).Ok? <==> c.dimensions < 0 || HasLevels(items, c.dimensions)
  {
    hide ListText;
    assert Encode(c, List(items)) == ListText(c, items, 1);
    if c.dimensions < 0 {
      AnyLevels(c, items, 1);
    } else {
      LevelsExact(c, items, 1);
    }
  }

  lemma {:induction false} AnyLevels(c: Coder, items: seq<Value>, depth: nat)
    requires c.TextArray? && c.elem == TextString && c.dimensions < 0
    ensures ListText(c, items, depth).Ok? && ListBody(c, items, depth).Ok?
    decreases items
  {
    hide ItemQuoted;
    if |items| > 0 {
      if items[0].List? {
        AnyLevels(c, items[0].items, depth + 1);
      }
      AnyLevels(c, items[1..], depth);
      assert ItemText(c, items[0], depth).Ok?;
    }
  }

  lemma {:induction false} LevelsExact(c: Coder, items: seq<Value>, depth: nat)
    requires c.TextArray? && c.elem == TextString && c.dimensions >= 0 && depth > 0
    ensures ListText(c, items, depth).Ok? <==>
            depth <= c.dimensions && HasLevels(items, c.dimensions - depth + 1)
    decreases items, 1
  {
    hide ItemText;
    BodyLevels(c, items, depth);
  }

  lemma {:induction false} BodyLevels(c: Coder, items: seq<Value>, depth: nat)
    requires c.TextArray? && c.elem == TextString && c.dimensions >= 0 && depth > 0
    ensures ListBody(c, items, depth).Ok? <==>
            forall k :: 0 <= k < |items| ==> ItemFits(c, items[k], depth)
    decreases items, 0
  {
    hide ItemQuoted, HasLevels;
    if |items| > 0 {
      var entry := items[0];
      if entry.List? && depth < c.dimensions {
        LevelsExact(c, entry.items, depth + 1);
      }
      BodyLevels(c, items[1..], depth);
      assert ItemText(c, entry, depth).Ok? <==> ItemFits(c, entry, depth);
      assert forall k :: 1 <= k < |items| ==> items[k] == items[1..][k - 1];
    }
  }

  /** An item at a depth: an element at the last one, and before it an array of the levels that are left. */
  predicate ItemFits(c: Coder, entry: Value, depth: nat)
    requires c.TextArray? && depth > 0
  {
    if depth < c.dimensions then entry.List? && HasLevels(entry.items, c.dimensions - depth)
    else depth == c.dimensions && !entry.List?
  }

  // ---------------------------------------------------------------- values that come back are such as the coder is for

  lemma {:induction false} EscapedShows(st: Style, x: seq<byte>)
    requires NulFree(Escaped(st, x))
    ensures NulFree(x)
  {
    if |x| > 0 {
      var piece, rest := st.EscapedByte(x[0]), Escaped(st, x[1..]);
      var e := piece + rest;
      assert e == Escaped(st, x);
      assert e[|piece| - 1] == x[0];
      assert forall k :: 0 <= k < |rest| ==> rest[k] == e[|piece| + k];
      EscapedShows(st, x[1..]);
      assert forall k :: 1 <= k < |x| ==> x[k] == x[1..][k - 1];
    }
  }

  /** A part of a text without zero bytes. */
  lemma NulFreePart(a: seq<byte>, b: seq<byte>, d: seq<byte>)
    requires NulFree(a + b + d)
    ensures NulFree(a) && NulFree(b) && NulFree(d)
  {
    var s := a + b + d;
    assert forall k :: 0 <= k < |a| ==> a[k] == s[k];
    assert forall k :: 0 <= k < |b| ==> b[k] == s[|a| + k];
    assert forall k :: 0 <= k < |d| ==> d[k] == s[|a| + |b| + k];
  }

  /** A zero byte anywhere in a value shows in its text. */
  lemma {:induction false} ZerosShow(c: Coder, v: Value)
    requires Encode(c, v).Ok? && NulFree(Encode(c, v).value)
    ensures Zeroless(v)
    decreases c, v, 2
  {
    hide Escaped, Quoted;
    if v.List? && c.TextRecord? {
      NulFreePart([LPAREN], RecordBody(c, v.items).value, [RPAREN]);
      RecordShows(c, v.items);
    } else if v.List? && c.TextArray? {
      ListShows(c, v.items, 1);
    }
  }

  lemma {:induction false} RecordShows(c: Coder, items: seq<Value>)
    requires c.TextRecord? && |items| <= |c.columns|
    requires RecordBody(c, items).Ok? && NulFree(RecordBody(c, items).value)
    ensures Zeroless(List(items))
    decreases c, items, 1
  {
    if |items| > 0 {
      var k := |c.columns| - |items|;
      var t, rest := FieldText(c, k, items[0]).value, RecordBody(c, items[1..]).value;
      if |items| > 1 {
        NulFreePart(t, [COMMA], rest);
      }
      if !items[0].Nil? {
        QuotedShows(RecordField, Encode(c.columns[k], items[0]).value);
        ZerosShow(c.columns[k], items[0]);
      }
      RecordShows(c, items[1..]);
      assert forall j :: 1 <= j < |items| ==> items[j] == items[1..][j - 1];
    }
  }

  lemma QuotedShows(st: Style, x: seq<byte>)
    requires NulFree(Quoted(st, x))
    ensures NulFree(x)
  {
    hide Escaped;
    NulFreePart([st.Quotation()], Escaped(st, x), [st.Quotation()]);
    EscapedShows(st, x);
  }

  lemma {:induction false} ListShows(c: Coder, items: seq<Value>, depth: nat)
    requires c.TextArray? && ListText(c, items, depth).Ok? && NulFree(ListText(c, items, depth).value)
    ensures Zeroless(List(items))
    decreases c, items, 2
  {
    NulFreePart([LBRACE], ListBody(c, items, depth).value, [RBRACE]);
    BodyShows(c, items, depth);
  }

  lemma {:induction false} BodyShows(c: Coder, items: seq<Value>, depth: nat)
    requires c.TextArray? && ListBody(c, items, depth).Ok? && NulFree(ListBody(c, items, depth).value)
    ensures Zeroless(List(items))
    decreases c, items, 1
  {
    if |items| > 0 {
      var t, rest := ItemText(c, items[0], depth).value, ListBody(c, items[1..], depth).value;
      if |items| > 1 {
        NulFreePart(t, [c.delimiter], rest);
      }
      ItemShows(c, items[0], depth);
      BodyShows(c, items[1..], depth);
      assert forall j :: 1 <= j < |items| ==> items[j] == items[1..][j - 1];
    }
  }

  lemma {:induction false} ItemShows(c: Coder, entry: Value, depth: nat)
    requires c.TextArray? && ItemText(c, entry, depth).Ok? && NulFree(ItemText(c, entry, depth).value)
    ensures Zeroless(entry)
    decreases c, entry, 3
  {
    hide NeedsQuotes, Quoted;
    if IsSubArray(c, entry, depth) {
      ListShows(c, entry.items, depth + 1);
    } else if !entry.Nil? {
      var x := Encode(c.elem, entry).value;
      if NeedsQuotes(c.delimiter, x) {
        QuotedShows(ArrayItem, x);
      }
      ZerosShow(c.elem, entry);
    }
  }

  // Records.

  /** A zero byte ends the text of a record, in quotes too. */
  lemma {:induction false} FieldZero(s: seq<byte>, i: nat, x: seq<byte>, field: seq<byte>)
    requires i <= |s| && Occurs(s, i, Escaped(RecordField, x)) && !NulFree(x)
    ensures ReadField(s, i, true, field).Err?
    decreases |x|
  {
    hide Occurs;
    var piece, rest := RecordField.EscapedByte(x[0]), Escaped(RecordField, x[1..]);
    assert Escaped(RecordField, x) == piece + rest;
    OccursConcat(s, i, piece, rest);
    if x[0] == 0 {
      OccursFirst(s, i, piece);
    } else {
      FieldByte(s, i, x[0], field);
      assert !NulFree(x[1..]) by {
        var k :| 0 <= k < |x| && x[k] == 0;
        assert x[1..][k - 1] == 0;
      }
      FieldZero(s, i + |piece|, x[1..], field + [x[0]]);
    }
  }

  lemma QuotedFieldZero(s: seq<byte>, i: nat, x: seq<byte>)
    requires i <= |s| && Occurs(s, i, Quoted(RecordField, x)) && !NulFree(x)
    ensures i < |s| && s[i] == QUOTE && ReadField(s, i, false, []).Err?
  {
    hide Occurs, Escaped;
    var e := Escaped(RecordField, x);
    assert Quoted(RecordField, x) == [QUOTE] + (e + [QUOTE]);
    OccursConcat(s, i, [QUOTE], e + [QUOTE]);
    OccursConcat(s, i + 1, e, [QUOTE]);
    OccursFirst(s, i, [QUOTE]);
    FieldZero(s, i + 1, x, []);
  }

  lemma {:induction false} FieldsGrow(c: Coder, s: seq<byte>, i: nat, fields: seq<Value>)
    requires c.TextRecord? && i <= |s| && ReadFields(c, s, i, fields).Ok?
    ensures fields <= ReadFields(c, s, i, fields).value.1
    decreases |s| - i
  {
    hide ReadField, Decode;
    if At(s, i) == COMMA {
      FieldsGrow(c, s, i + 1, fields + [Nil]);
    } else if At(s, i) != RPAREN {
      var (j, field) := ReadField(s, i, false, []).value;
      var v := DecodeColumn(c, |fields|, field).value;
      if s[j] == COMMA {
        FieldsGrow(c, s, j + 1, fields + [v]);
      }
    }
  }

  /** A column that is read as it was is one that comes back by itself, and without a zero byte. */
  lemma {:induction false} ColumnBack(c: Coder, s: seq<byte>, i: nat, before: seq<Value>, entry: Value)
    requires c.TextRecord? && GoodCoder(c) && |before| < |c.columns|
    requires FieldText(c, |before|, entry).Ok? && Occurs(s, i, FieldText(c, |before|, entry).value)
    requires i + |FieldText(c, |before|, entry).value| < |s|
    requires var j := i + |FieldText(c, |before|, entry).value|; s[j] == COMMA || s[j] == RPAREN
    requires ReadFields(c, s, i, before).Ok? && before + [entry] <= ReadFields(c, s, i, before).value.1
    ensures entry.Nil? || (Conforms(c.columns[|before|], entry) && Zeroless(entry))
    decreases c, entry, 3
  {
    hide Occurs, Decode, Quoted, ReadField, Conforms, Zeroless;
    if !entry.Nil? {
      var column := c.columns[|before|];
      var x := Encode(column, entry).value;
      var j := i + |Quoted(RecordField, x)|;
      if !NulFree(x) {
        QuotedFieldZero(s, i, x);
        assert false;
      }
      QuotedFieldRun(s, i, x);
      var v := Decode(column, x).value;
      if s[j] == COMMA {
        FieldsGrow(c, s, j + 1, before + [v]);
      }
      assert (before + [v])[|before|] == (before + [entry])[|before|];
      ComesBack(column, entry);
      ZerosShow(column, entry);
    }
  }

  lemma {:induction false} FieldsBack(c: Coder, s: seq<byte>, i: nat, before: seq<Value>, items: seq<Value>)
    requires c.TextRecord? && GoodCoder(c) && |before| + |items| == |c.columns| && |items| > 0
    requires RecordBody(c, items).Ok? && Occurs(s, i, RecordBody(c, items).value)
    requires i + |RecordBody(c, items).value| < |s| && s[i + |RecordBody(c, items).value|] == RPAREN
    requires ReadFields(c, s, i, before).Ok? && ReadFields(c, s, i, before).value.1 == before + items
    ensures ConformsColumns(c, items)
    decreases c, items, 1
  {
    hide Occurs, FieldText, ReadFields, Conforms, Zeroless;
    var t := FieldText(c, |before|, items[0]).value;
    var body := RecordBody(c, items).value;
    assert before + [items[0]] <= before + items;
    if |items| == 1 {
      assert body == t;
      ColumnBack(c, s, i, before, items[0]);
    } else {
      var rest := RecordBody(c, items[1..]).value;
      assert body == t + ([COMMA] + rest);
      OccursConcat(s, i, t, [COMMA] + rest);
      OccursConcat(s, i + |t|, [COMMA], rest);
      OccursFirst(s, i + |t|, [COMMA]);
      ColumnBack(c, s, i, before, items[0]);
      ColumnRun(c, s, i, before, items[0]);
      assert before + [items[0]] + items[1..] == before + items;
      FieldsBack(c, s, i + |t| + 1, before + [items[0]], items[1..]);
      ColumnsJoin(c, items);
    }
  }

  lemma ColumnsJoin(c: Coder, items: seq<Value>)
    requires c.TextRecord? && 0 < |items| <= |c.columns| && ConformsColumns(c, items[1..])
    requires items[0].Nil? || (Conforms(c.columns[|c.columns| - |items|], items[0]) && Zeroless(items[0]))
    ensures ConformsColumns(c, items)
  {
    hide Conforms, Zeroless;
    assert forall k :: 1 <= k < |items| ==> items[k] == items[1..][k - 1];
  }

  // Arrays.

  /** A zero byte that is neither quoted nor the delimiter ends the text of an array. */
  lemma ZeroEnds(c: Coder, s: seq<byte>, r: Reading)
    requires c.TextArray? && c.delimiter != 0 && Sane(s, r) && r.openQuote < 1 && r.index < |s| && s[r.index] == 0
    ensures ReadItems(c, s, r).Err?
  {
  }

  lemma UnquotedZero(c: Coder, s: seq<byte>, i: nat, word: seq<byte>, items: seq<Value>, x: seq<byte>)
    requires c.TextArray? && |word| == |s| && !NulFree(x) && !NeedsQuotes(c.delimiter, x)
    requires i <= |s| && Occurs(s, i, x)
    ensures ReadItems(c, s, Fresh(i, word, items)).Err?
  {
    hide ReadItems, Occurs, Splice, CaseCompare;
    var k := FirstZero(x);
    assert !IsMeta(c.delimiter, x[k]);
    assert x == x[..k] + x[k..];
    OccursConcat(s, i, x[..k], x[k..]);
    OccursFirst(s, i + k, x[k..]);
    forall j | 0 <= j < k
      ensures IsPlain(c, x[..k][j])
    {
      assert !IsMeta(c.delimiter, x[j]);
    }
    PlainRun(c, s, Fresh(i, word, items), x[..k]);
    ZeroEnds(c, s, After(Fresh(i, word, items), k, x[..k]));
  }

  lemma {:induction false} FirstZero(x: seq<byte>) returns (k: nat)
    requires !NulFree(x)
    ensures k < |x| && x[k] == 0 && forall j :: 0 <= j < k ==> x[j] != 0
  {
    k := 0;
    while x[k] != 0
      invariant k < |x| && forall j :: 0 <= j < k ==> x[j] != 0
      decreases |x| - k
    {
      k := k + 1;
    }
  }

  /** What cannot be stored, or read as a sub-array, ends the level. */
  lemma FailedTurn(c: Coder, s: seq<byte>, r: Reading)
    requires c.TextArray? && Sane(s, r) && r.openQuote < 1 && r.index < |s| && ReadItems(c, s, r).Ok?
    ensures s[r.index] == RBRACE || s[r.index] == c.delimiter ==> PushItem(c, r).Ok?
    ensures s[r.index] == LBRACE && c.delimiter != LBRACE ==> ReadList(c, s, r.index + 1, r.word).Ok?
  {
    hide PushItem, ReadList;
  }

  /** What is stored at the end of an item is among the items of the level. */
  lemma StoredItem(c: Coder, s: seq<byte>, r: Reading)
    requires c.TextArray? && Sane(s, r) && r.openQuote < 1 && r.index < |s| && ReadItems(c, s, r).Ok?
    requires s[r.index] == RBRACE || s[r.index] == c.delimiter
    ensures PushItem(c, r).Ok? && PushItem(c, r).value.items <= ReadItems(c, s, r).value.items
  {
    hide PushItem, ReadItems;
    FailedTurn(c, s, r);
    var p := PushItem(c, r).value;
    ClosingTurn(c, s, r, p);
    if s[r.index] != RBRACE {
      ItemsGrow(c, s, Fresh(r.index + 1, p.word, p.items));
    }
  }

  /** An item that is read as it was is one that comes back by itself. */
  lemma {:induction false} ItemBack(
    c: Coder, s: seq<byte>, i: nat, word: seq<byte>, before: seq<Value>, entry: Value, depth: nat)
    requires c.TextArray? && GoodCoder(c) && |word| == |s| && i <= |s|
    requires ItemText(c, entry, depth).Ok? && Occurs(s, i, ItemText(c, entry, depth).value)
    requires i + |ItemText(c, entry, depth).value| < |s|
    requires var ch := s[i + |ItemText(c, entry, depth).value|]; ch == RBRACE || ch == c.delimiter
    requires ReadItems(c, s, Fresh(i, word, before)).Ok?
    requires before + [entry] <= ReadItems(c, s, Fresh(i, word, before)).value.items
    ensures ConformsItem(c, entry, depth)
    decreases c, entry, 3
  {
    hide Occurs, ReadItems, ReadList, PushItem, Encode, Decode, NeedsQuotes;
    if IsSubArray(c, entry, depth) {
      SubArrayBack(c, s, i, word, before, entry, depth);
    } else if !entry.Nil? {
      var x := Encode(c.elem, entry).value;
      if !NulFree(x) && !NeedsQuotes(c.delimiter, x) {
        UnquotedZero(c, s, i, word, before, x);
        assert false;
      }
      var r := ElementCollected(c, s, i, word, before, x);
      StoredItem(c, s, r);
      PushElement(c, r, x);
      assert (before + [Decode(c.elem, x).value])[|before|] == (before + [entry])[|before|];
      ComesBack(c.elem, entry);
      if entry.Str? {
        StringText(c.elem, entry);
      }
    }
  }

  lemma StringText(c: Coder, v: Value)
    requires Conforms(c, v) && v.Str?
    ensures Encode(c, v) == Ok(v.text)
  {
  }

  lemma {:induction false} SubArrayBack(
    c: Coder, s: seq<byte>, i: nat, word: seq<byte>, before: seq<Value>, entry: Value, depth: nat)
    requires c.TextArray? && GoodCoder(c) && |word| == |s| && i <= |s| && IsSubArray(c, entry, depth)
    requires ListText(c, entry.items, depth + 1).Ok? && Occurs(s, i, ListText(c, entry.items, depth + 1).value)
    requires ReadItems(c, s, Fresh(i, word, before)).Ok?
    requires before + [entry] <= ReadItems(c, s, Fresh(i, word, before)).value.items
    ensures ConformsList(c, entry.items, depth + 1)
    decreases c, entry, 2
  {
    hide Occurs, ReadItems, ReadList, ListText;
    var r := Fresh(i, word, before);
    ListStarts(c, entry.items, depth + 1);
    OccursFirst(s, i, ListText(c, entry.items, depth + 1).value);
    FailedTurn(c, s, r);
    var sub := ReadList(c, s, i + 1, word).value;
    SubArrayTurn(c, s, r, sub);
    ItemsGrow(c, s, r.(index := sub.index + 1, word := sub.word, escapeNext := true,
                       items := before + [List(sub.items)]));
    assert (before + [List(sub.items)])[|before|] == (before + [entry])[|before|];
    ListBack(c, s, i, word, entry.items, depth + 1);
  }

  lemma {:induction false} ListBack(c: Coder, s: seq<byte>, i: nat, word: seq<byte>, items: seq<Value>, depth: nat)
    requires c.TextArray? && GoodCoder(c) && |word| == |s| && i < |s|
    requires ListText(c, items, depth).Ok? && Occurs(s, i, ListText(c, items, depth).value)
    requires ReadList(c, s, i + 1, word).Ok? && ReadList(c, s, i + 1, word).value.items == items
    ensures ConformsList(c, items, depth)
    decreases c, items, 2
  {
    hide Occurs, ReadItems, ListBody;
    if |items| > 0 {
      var body := ListBody(c, items, depth).value;
      assert ListText(c, items, depth).value == [LBRACE] + (body + [RBRACE]);
      OccursConcat(s, i, [LBRACE], body + [RBRACE]);
      OccursConcat(s, i + 1, body, [RBRACE]);
      OccursFirst(s, i + 1 + |body|, [RBRACE]);
      BodyStart(c, items, depth);
      OccursFirst(s, i + 1, body);
      assert [] + items == items;
      BodyBack(c, s, i + 1, word, [], items, depth);
    }
  }

  lemma {:induction false} BodyBack(
    c: Coder, s: seq<byte>, i: nat, word: seq<byte>, before: seq<Value>, items: seq<Value>, depth: nat)
    requires c.TextArray? && GoodCoder(c) && |word| == |s| && |items| > 0 && i <= |s|
    requires ListBody(c, items, depth).Ok? && Occurs(s, i, ListBody(c, items, depth).value)
    requires i + |ListBody(c, items, depth).value| < |s|
    requires s[i + |ListBody(c, items, depth).value|] == RBRACE
    requires ReadItems(c, s, Fresh(i, word, before)).Ok?
    requires ReadItems(c, s, Fresh(i, word, before)).value.items == before + items
    ensures ConformsItems(c, items, depth)
    decreases c, items, 1
  {
    hide Occurs, ReadItems, PushItem, ItemText, Fresh, ConformsItem;
    var t := ItemText(c, items[0], depth).value;
    var body := ListBody(c, items, depth).value;
    assert before + [items[0]] <= before + items;
    if |items| == 1 {
      assert body == t;
      ItemBack(c, s, i, word, before, items[0], depth);
    } else {
      var rest := ListBody(c, items[1..], depth).value;
      assert body == t + ([c.delimiter] + rest);
      OccursConcat(s, i, t, [c.delimiter] + rest);
      OccursConcat(s, i + |t|, [c.delimiter], rest);
      OccursFirst(s, i + |t|, [c.delimiter]);
      ItemBack(c, s, i, word, before, items[0], depth);
      var r := ItemRun(c, s, i, word, before, items[0], depth);
      var p := PushItem(c, r).value;
      ClosingTurn(c, s, r, p);
      assert before + [items[0]] + items[1..] == before + items;
      BodyBack(c, s, i + |t| + 1, p.word, p.items, items[1..], depth);
      assert forall k :: 1 <= k < |items| ==> items[k] == items[1..][k - 1];
    }
  }

  /** Every value that comes back is one that the coder is for. */
  lemma {:induction false} ComesBack(c: Coder, v: Value)
    requires GoodCoder(c) && RoundTrips(c, v)
    ensures Conforms(c, v)
    decreases c, v, 4
  {
    hide Occurs, ReadItems, ReadList, ReadFields, ConformsList, ConformsColumns, ListBody, RecordBody;
    if c.TextRecord? {
      RecordBack(c, v.items);
    } else if c.TextArray? {
      ArrayBack(c, v);
    }
  }

  lemma {:induction false} RecordBack(c: Coder, items: seq<Value>)
    requires c.TextRecord? && GoodCoder(c) && |items| == |c.columns| && RecordBody(c, items).Ok?
    requires DecodeRecord(c, [LPAREN] + RecordBody(c, items).value + [RPAREN]) == Ok(List(items))
    ensures |items| > 0 && ConformsColumns(c, items)
    decreases c, items, 3
  {
    hide Occurs, RecordBody, ConformsColumns;
    var body := RecordBody(c, items).value;
    var s := [LPAREN] + body + [RPAREN];
    assert SkipSpace(s, 0) == 0;
    OccursWhole(s);
    assert s == [LPAREN] + (body + [RPAREN]);
    OccursConcat(s, 0, [LPAREN], body + [RPAREN]);
    OccursConcat(s, 1, body, [RPAREN]);
    var fields := ReadFields(c, s, 1, []).value.1;
    assert fields == items;
    NoColumns(c, s);
    assert [] + items == items;
    if |items| > 0 {
      FieldsBack(c, s, 1, [], items);
    }
  }

  /** Even `()` is read as a column. */
  lemma NoColumns(c: Coder, s: seq<byte>)
    requires c.TextRecord? && |s| > 0 && ReadFields(c, s, 1, []).Ok?
    ensures |ReadFields(c, s, 1, []).value.1| > 0
  {
    hide ReadField, Decode;
    if At(s, 1) == COMMA {
      FieldsGrow(c, s, 2, [] + [Nil]);
    } else if At(s, 1) != RPAREN {
      var (j, field) := ReadField(s, 1, false, []).value;
      if s[j] == COMMA {
        FieldsGrow(c, s, j + 1, [] + [DecodeColumn(c, 0, field).value]);
      }
    }
  }

  lemma {:induction false} ArrayBack(c: Coder, v: Value)
    requires c.TextArray? && GoodCoder(c) && RoundTrips(c, v)
    ensures v.List? && ConformsList(c, v.items, 1)
    decreases c, v, 3
  {
    hide Occurs, ReadList, ListText, ConformsList, ArrayStart;
    assert v.List? by { ArrayGivesList(c, Encode(c, v).value); }
    var s := ListText(c, v.items, 1).value;
    ListStarts(c, v.items, 1);
    InBraces(c, s);
    OccursWhole(s);
    ListBack(c, s, 0, seq(|s|, _ => 0), v.items, 1);
  }

  lemma ArrayGivesList(c: Coder, s: seq<byte>)
    requires c.TextArray? && Decode(c, s).Ok?
    ensures Decode(c, s).value.List?
  {
    hide ReadList, ArrayStart;
  }

  /**
   For every tree of good coders and every value: it comes back if and only if it conforms. So it has the wanted depth
   and all columns, and each zero byte in it is quoted in an array and not part of a record.
   */
  lemma ValuesExact(c: Coder, v: Value)
    requires GoodCoder(c)
    ensures RoundTrips(c, v) <==> Conforms(c, v)
  {
    if Conforms(c, v) {
      DecodeEncode(c, v);
    }
    if RoundTrips(c, v) {
      ComesBack(c, v);
    }
  }

  /**
   A list comes back as a record exactly when there are columns, as many as the record has, and each of its items comes
   back by itself and has no zero byte.
   */
  lemma ColumnsExact(columns: seq<Coder>, items: seq<Value>)
    requires forall k :: 0 <= k < |columns| ==> GoodCoder(columns[k]) && ZeroFree(columns[k])
    ensures RoundTrips(TextRecord(columns), List(items)) <==>
            |items| == |columns| > 0 &&
            forall k :: 0 <= k < |items| ==> items[k].Nil? || (RoundTrips(columns[k], items[k]) && Zeroless(items[k]))
  {
    hide Conforms, GoodCoder, RoundTrips, Zeroless;
    var c := TextRecord(columns);
    assert GoodCoder(c) && (Conforms(c, List(items)) <==> |items| == |columns| > 0 && ConformsColumns(c, items)) by {
      RecordConforms(columns, items);
    }
    ValuesExact(c, List(items));
    forall k | 0 <= k < |items| && |items| == |columns|
      ensures RoundTrips(columns[k], items[k]) <==> Conforms(columns[k], items[k])
    {
      ValuesExact(columns[k], items[k]);
    }
  }

  lemma RecordConforms(columns: seq<Coder>, items: seq<Value>)
    requires forall k :: 0 <= k < |columns| ==> GoodCoder(columns[k]) && ZeroFree(columns[k])
    ensures GoodCoder(TextRecord(columns))
    ensures Conforms(TextRecord(columns), List(items)) <==>
            |items| == |columns| > 0 && ConformsColumns(TextRecord(columns), items)
  {
  }
}
