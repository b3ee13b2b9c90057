/**
 What the text decoders accept besides what the encoders print, and when it can be printed and read again. An array
 text can be accepted with bytes that a sub-array has left in the scratch buffer, and a record text with too few or
 too many columns.
 */
module TextSoundness {
  import opened Bytes
  import opened Escape
  import opened TextFormat
  import opened TextLimits
  import opened TextRoundTrip
  import TextInteger

  // ---------------------------------------------------------------- what is decoded

  /**
   The values that a decoder gives: an array is a nest of nil and elements of any depth, and a record is a list of nil
   and columns of any length.
   */
  ghost predicate Typed(c: Coder, v: Value)
    decreases c, v, 1
  {
    match c
    case TextString => v.Str?
    case TextInteger(_) => v.Int?
    case TextRecord(_) => v.List? && TypedColumns(c, v.items)
    case TextArray(_, _, _) => v.List? && TypedItems(c, v.items)
  }

  ghost predicate TypedColumns(c: Coder, fields: seq<Value>)
    requires c.TextRecord?
    decreases c, fields, 0
  {
    forall k :: 0 <= k < |fields| ==> fields[k].Nil? || (k < |c.columns| && Typed(c.columns[k], fields[k]))
  }

  ghost predicate TypedItems(c: Coder, items: seq<Value>)
    requires c.TextArray?
    decreases c, items, 0
  {
    forall k :: 0 <= k < |items| ==>
      items[k].Nil? || Typed(c.elem, items[k]) || (items[k].List? && TypedItems(c, items[k].items))
  }

  lemma {:induction false} DecodeTyped(c: Coder, s: seq<byte>)
    ensures Decode(c, s).Ok? ==> Typed(c, Decode(c, s).value)
    decreases c, |s| + 2, 0
  {
    hide ReadFields, ReadList, TypedItems, TypedColumns;
    if Decode(c, s).Ok? {
      if c.TextRecord? {
        assert Decode(c, s) == DecodeRecord(c, s);
        NothingTyped(c);
        ColumnsTyped(c, s, SkipSpace(s, 0) + 1, []);
      } else if c.TextArray? {
        assert Decode(c, s) == DecodeArray(c, s);
        ListTyped(c, s, ArrayStart(s).value + 1, seq(|s|, _ => 0));
      }
    }
  }

  lemma NothingTyped(c: Coder)
    ensures c.TextRecord? ==> TypedColumns(c, [])
    ensures c.TextArray? ==> TypedItems(c, [])
  {
  }

  /** Each column of an accepted record is nil or a value of its own decoder. */
  lemma {:induction false} ColumnsTyped(c: Coder, s: seq<byte>, i: nat, fields: seq<Value>)
    requires c.TextRecord? && i <= |s| && TypedColumns(c, fields) && ReadFields(c, s, i, fields).Ok?
    ensures TypedColumns(c, ReadFields(c, s, i, fields).value.1)
    decreases c, |s| - i, 1
  {
    hide ReadField, Decode, Typed;
    if At(s, i) == COMMA {
      ColumnsTyped(c, s, i + 1, fields + [Nil]);
    } else if At(s, i) != RPAREN {
      var (j, field) := ReadField(s, i, false, []).value;
      var k := |fields|;
      DecodeTyped(c.columns[k], field);
      var v := DecodeColumn(c, k, field).value;
      assert TypedColumns(c, fields + [v]);
      if s[j] == COMMA {
        ColumnsTyped(c, s, j + 1, fields + [v]);
      }
    }
  }

  lemma {:induction false} PushTyped(c: Coder, r: Reading)
    requires c.TextArray? && r.size < |r.word| && TypedItems(c, r.items) && PushItem(c, r).Ok?
    ensures TypedItems(c, PushItem(c, r).value.items)
    decreases c, 0, 0
  {
    hide Decode, Typed;
    if !r.escapeNext {
      DecodeTyped(c.elem, r.word[..r.size]);
    }
  }

  /** Each level of an accepted array is a nest of nil and values of the element decoder. */
  lemma {:induction false} ItemsTyped(c: Coder, s: seq<byte>, r: Reading)
    requires c.TextArray? && Sane(s, r) && TypedItems(c, r.items) && ReadItems(c, s, r).Ok?
    ensures TypedItems(c, ReadItems(c, s, r).value.items)
    decreases c, |s| - r.index, 1
  {
    hide PushItem, ReadList, TypedItems;
    var ch := s[r.index];
    if r.openQuote < 1 {
      if ch == c.delimiter || ch == RBRACE {
        PushTyped(c, r);
        var p := PushItem(c, r).value;
        if ch != RBRACE {
          ItemsTyped(c, s, Fresh(r.index + 1, p.word, p.items));
        }
      } else if ch == QUOTE {
        ItemsTyped(c, s, r.(index := r.index + 1, openQuote := 1));
      } else if ch == LBRACE {
        var sub := ReadList(c, s, r.index + 1, r.word).value;
        ListTyped(c, s, r.index + 1, r.word);
        NestedTyped(c, r.items, sub.items);
        ItemsTyped(c, s, r.(index := sub.index + 1, word := sub.word, escapeNext := true,
                            items := r.items + [List(sub.items)]));
      } else {
        ItemsTyped(c, s, Append(r, ch));
      }
    } else {
      InsideSane(s, r, ch);
      ItemsTyped(c, s, Inside(r, ch));
    }
  }

  lemma NestedTyped(c: Coder, items: seq<Value>, inner: seq<Value>)
    requires c.TextArray? && TypedItems(c, items) && TypedItems(c, inner)
    ensures TypedItems(c, items + [List(inner)])
  {
    hide Typed;
  }

  lemma {:induction false} ListTyped(c: Coder, s: seq<byte>, index: nat, word: seq<byte>)
    requires c.TextArray? && |word| == |s| && index <= |s| && ReadList(c, s, index, word).Ok?
    ensures TypedItems(c, ReadList(c, s, index, word).value.items)
    decreases c, |s| - index, 2
  {
    hide ReadItems, TypedItems;
    NothingTyped(c);
    if !(index < |s| && s[index] == RBRACE) {
      ItemsTyped(c, s, Fresh(index, word, []));
    }
  }

  /**
   For every tree of good coders and every text that is accepted: the value is of the coder's type, and can be printed
   and read again if and only if it conforms.
   */
  lemma Accepted(c: Coder, s: seq<byte>)
    requires GoodCoder(c) && Decode(c, s).Ok?
    ensures Typed(c, Decode(c, s).value)
    ensures RoundTrips(c, Decode(c, s).value) <==> Conforms(c, Decode(c, s).value)
  {
    DecodeTyped(c, s);
    ValuesExact(c, Decode(c, s).value);
  }

  // ---------------------------------------------------------------- arrays

  /** Coders of strings and integers. */
  ghost predicate Scalar(c: Coder) {
    c.TextString? || (c.TextInteger? && TextInteger.ReadsDecimals(c.ruby))
  }

  /** The nesting that the encoder asks for: none without `dimensions`, and otherwise elements at that depth only. */
  predicate HasDepth(c: Coder, items: seq<Value>, depth: nat)
    requires c.TextArray?
    decreases items, 0
  {
    (|items| == 0 ==> AtLeafDepth(c, depth)) && forall k :: 0 <= k < |items| ==> StandsAtDepth(c, items[k], depth)
  }

  predicate StandsAtDepth(c: Coder, entry: Value, depth: nat)
    requires c.TextArray?
    decreases entry, 1
  {
    if entry.List? then IsSubArray(c, entry, depth) && HasDepth(c, entry.items, depth + 1) else AtLeafDepth(c, depth)
  }

  /** Every string in a nest is free of zero bytes or gets quotes. */
  ghost predicate AllZerosQuoted(d: byte, v: Value) {
    match v
    case Str(_) => ZerosQuoted(d, v)
    case List(items) => forall k :: 0 <= k < |items| ==> AllZerosQuoted(d, items[k])
    case _ => true
  }

  lemma {:induction false} NestConforms(c: Coder, items: seq<Value>, depth: nat)
    requires c.TextArray? && Scalar(c.elem) && TypedItems(c, items)
    ensures ConformsList(c, items, depth) <==> HasDepth(c, items, depth) && AllZerosQuoted(c.delimiter, List(items))
    decreases items, 1
  {
    hide ConformsItem, AllZerosQuoted, StandsAtDepth;
    forall k | 0 <= k < |items|
      ensures ConformsItem(c, items[k], depth) <==>
              StandsAtDepth(c, items[k], depth) && AllZerosQuoted(c.delimiter, items[k])
    {
      ItemConforms(c, items[k], depth);
    }
    NestZeros(c.delimiter, items);
  }

  lemma NestZeros(d: byte, items: seq<Value>)
    ensures AllZerosQuoted(d, List(items)) <==> forall k :: 0 <= k < |items| ==> AllZerosQuoted(d, items[k])
  {
  }

  lemma {:induction false} ItemConforms(c: Coder, entry: Value, depth: nat)
    requires c.TextArray? && Scalar(c.elem)
    requires entry.Nil? || Typed(c.elem, entry) || (entry.List? && TypedItems(c, entry.items))
    ensures ConformsItem(c, entry, depth) <==> StandsAtDepth(c, entry, depth) && AllZerosQuoted(c.delimiter, entry)
    decreases entry, 0
  {
    hide ConformsList, NeedsQuotes, NulFree;
    if entry.List? {
      NestConforms(c, entry.items, depth + 1);
    }
  }

  lemma {:induction false} AnyDepth(c: Coder, items: seq<Value>, depth: nat)
    requires c.TextArray? && c.dimensions < 0
    ensures HasDepth(c, items, depth)
    decreases items
  {
    forall k | 0 <= k < |items| && items[k].List?
      ensures HasDepth(c, items[k].items, depth + 1)
    {
      AnyDepth(c, items[k].items, depth + 1);
    }
  }

  lemma {:induction false} IntegersHaveNoZeros(c: Coder, items: seq<Value>)
    requires c.TextArray? && c.elem.TextInteger? && TypedItems(c, items)
    ensures AllZerosQuoted(c.delimiter, List(items))
    decreases items
  {
    forall k | 0 <= k < |items| && items[k].List?
      ensures AllZerosQuoted(c.delimiter, items[k])
    {
      IntegersHaveNoZeros(c, items[k].items);
    }
  }

  /**
   For every nest of nil and strings, or of nil and integers: it comes back if and only if it has the wanted depth and
   each of its strings is free of zero bytes or gets quotes.
   */
  lemma NestExact(c: Coder, items: seq<Value>)
    requires c.TextArray? && GoodDelimiter(c.delimiter) && Scalar(c.elem) && TypedItems(c, items)
    ensures RoundTrips(c, List(items)) <==> HasDepth(c, items, 1) && AllZerosQuoted(c.delimiter, List(items))
  {
    hide ConformsList, HasDepth, AllZerosQuoted, TypedItems, RoundTrips;
    ValuesExact(c, List(items));
    NestConforms(c, items, 1);
  }

  /**
   For every array text of strings or integers that is accepted, decorated, with superfluous quotes, backslashes or
   zero bytes: the value can be printed and read again if and only if it has the wanted depth and each of its strings
   is free of zero bytes or gets quotes. That is always so for integers of any nesting.
   */
  lemma ArrayAccepted(c: Coder, s: seq<byte>)
    requires c.TextArray? && GoodDelimiter(c.delimiter) && Scalar(c.elem) && Decode(c, s).Ok?
    ensures Decode(c, s).value.List?
    ensures RoundTrips(c, Decode(c, s).value) <==>
            HasDepth(c, Decode(c, s).value.items, 1) && AllZerosQuoted(c.delimiter, Decode(c, s).value)
    ensures c.elem.TextInteger? ==> AllZerosQuoted(c.delimiter, Decode(c, s).value)
    ensures c.dimensions < 0 ==> HasDepth(c, Decode(c, s).value.items, 1)
  {
    hide Decode, HasDepth, AllZerosQuoted, TypedItems, RoundTrips;
    DecodeTyped(c, s);
    var v := Decode(c, s).value;
    NestExact(c, v.items);
    if c.elem.TextInteger? {
      IntegersHaveNoZeros(c, v.items);
    }
    if c.dimensions < 0 {
      AnyDepth(c, v.items, 1);
    }
  }

  // ---------------------------------------------------------------- tidy texts

  /** Arrays of scalars with any nesting. */
  ghost predicate Nests(c: Coder) {
    c.TextArray? && c.dimensions < 0 && GoodDelimiter(c.delimiter) && Scalar(c.elem)
  }

  lemma ScalarConforms(c: Coder, s: seq<byte>)
    requires Scalar(c) && NulFree(s)
    ensures Decode(c, s).Ok? && !Decode(c, s).value.List? && Conforms(c, Decode(c, s).value)
    ensures Zeroless(Decode(c, s).value)
  {
  }

  /** From here on, no quotation mark opens behind a sub-array, before the next delimiter. */
  ghost predicate Tidy(c: Coder, s: seq<byte>, r: Reading)
    requires c.TextArray? && Sane(s, r)
    decreases |s| - r.index, 0
  {
    if r.index == |s| then true
    else
      var ch := s[r.index];
      if r.openQuote < 1 then
        if ch == RBRACE then true
        else if ch == c.delimiter then
          var p := PushItem(c, r);
          p.Ok? ==> Tidy(c, s, Fresh(r.index + 1, p.value.word, p.value.items))
        else if ch == QUOTE then !r.escapeNext && Tidy(c, s, r.(index := r.index + 1, openQuote := 1))
        else if ch == LBRACE then
          var sub := ReadList(c, s, r.index + 1, r.word);
          TidyList(c, s, r.index + 1, r.word) &&
          (sub.Ok? ==> Tidy(c, s, r.(index := sub.value.index + 1, word := sub.value.word, escapeNext := true,
                                     items := r.items + [List(sub.value.items)])))
        else if ch == 0 then true
        else Tidy(c, s, Append(r, ch))
      else Tidy(c, s, Inside(r, ch))
  }

  ghost predicate TidyList(c: Coder, s: seq<byte>, index: nat, word: seq<byte>)
    requires c.TextArray? && |word| == |s| && index <= |s|
    decreases |s| - index, 1
  {
    (index < |s| && s[index] == RBRACE) || Tidy(c, s, Fresh(index, word, []))
  }

  /** What the scratch buffer holds of an item that will be stored is free of zero bytes. */
  ghost predicate Collects(r: Reading) {
    r.size <= |r.word| && (NulFree(r.word[..r.size]) || (r.escapeNext && r.openQuote < 1))
  }

  lemma AppendCollects(r: Reading, ch: byte)
    requires Collects(r) && r.size < |r.word| && ch != 0
    ensures Collects(Append(r, ch))
    ensures NulFree(r.word[..r.size]) ==> NulFree(Append(r, ch).word[..r.size + 1])
  {
    var a := Append(r, ch);
    assert a.word[..a.size] == r.word[..r.size] + [ch];
  }

  lemma InsideCollects(r: Reading, ch: byte)
    requires Collects(r) && r.size < |r.word| && ch != 0 && r.openQuote == 1
    ensures Collects(Inside(r, ch))
  {
    AppendCollects(r, ch);
  }

  lemma PushConforms(c: Coder, r: Reading, depth: nat)
    requires Nests(c) && r.size < |r.word| && Collects(r) && r.openQuote < 1 && ConformsItems(c, r.items, depth)
    requires PushItem(c, r).Ok?
    ensures ConformsItems(c, PushItem(c, r).value.items, depth)
  {
    if !r.escapeNext {
      ScalarConforms(c.elem, r.word[..r.size]);
    }
  }

  /** The items of a level of tidy text are such as the encoder prints. */
  lemma {:induction false} ItemsConform(c: Coder, s: seq<byte>, r: Reading, depth: nat)
    requires Nests(c) && NulFree(s) && Sane(s, r) && Collects(r) && Tidy(c, s, r) && r.openQuote <= 1
    requires ConformsItems(c, r.items, depth) && ReadItems(c, s, r).Ok?
    ensures ConformsItems(c, ReadItems(c, s, r).value.items, depth)
    decreases |s| - r.index, 0
  {
    hide PushItem, ReadList, Inside, Append, ConformsItems, ConformsList, NulFree, Collects, Scalar;
    var ch := s[r.index];
    assert ch != 0 by { NoZero(s, r.index); }
    if r.openQuote < 1 {
      if ch == RBRACE || ch == c.delimiter {
        PushConforms(c, r, depth);
        var p := PushItem(c, r).value;
        if ch != RBRACE {
          NothingCollected(Fresh(r.index + 1, p.word, p.items));
          ItemsConform(c, s, Fresh(r.index + 1, p.word, p.items), depth);
        }
      } else if ch == QUOTE {
        OpeningCollects(r);
        ItemsConform(c, s, r.(index := r.index + 1, openQuote := 1), depth);
      } else if ch == LBRACE {
        var sub := ReadList(c, s, r.index + 1, r.word).value;
        ListConforms(c, s, r.index + 1, r.word, depth + 1);
        var next := r.(index := sub.index + 1, word := sub.word, escapeNext := true,
                       items := r.items + [List(sub.items)]);
        SubArrayConforms(c, r.items, sub.items, depth);
        BehindSubArray(next);
        ItemsConform(c, s, next, depth);
      } else {
        AppendCollects(r, ch);
        AppendKeeps(r, ch);
        ItemsConform(c, s, Append(r, ch), depth);
      }
    } else {
      InsideSane(s, r, ch);
      InsideCollects(r, ch);
      InsideKeeps(r, ch);
      ItemsConform(c, s, Inside(r, ch), depth);
    }
  }

  lemma {:induction false} ListConforms(c: Coder, s: seq<byte>, index: nat, word: seq<byte>, depth: nat)
    requires Nests(c) && NulFree(s) && |word| == |s| && index <= |s| && TidyList(c, s, index, word)
    requires ReadList(c, s, index, word).Ok?
    ensures ConformsList(c, ReadList(c, s, index, word).value.items, depth)
    decreases |s| - index, 1
  {
    hide ReadItems;
    if !(index < |s| && s[index] == RBRACE) {
      NothingCollected(Fresh(index, word, []));
      ItemsConform(c, s, Fresh(index, word, []), depth);
    }
  }

  lemma NoZero(s: seq<byte>, i: nat)
    requires NulFree(s) && i < |s|
    ensures s[i] != 0
  {
  }

  lemma NothingCollected(r: Reading)
    requires r.size == 0
    ensures Collects(r)
  {
  }

  lemma OpeningCollects(r: Reading)
    requires Collects(r) && !r.escapeNext
    ensures Collects(r.(index := r.index + 1, openQuote := 1))
  {
  }

  lemma BehindSubArray(r: Reading)
    requires r.escapeNext && r.openQuote < 1 && r.size <= |r.word|
    ensures Collects(r)
  {
  }

  lemma AppendKeeps(r: Reading, ch: byte)
    requires r.size < |r.word|
    ensures Append(r, ch).items == r.items && Append(r, ch).openQuote == r.openQuote
    ensures Append(r, ch).index == r.index + 1 && |Append(r, ch).word| == |r.word|
    ensures Append(r, ch).size == r.size + 1
  {
  }

  lemma InsideKeeps(r: Reading, ch: byte)
    requires r.size < |r.word| && r.openQuote == 1
    ensures Inside(r, ch).items == r.items && Inside(r, ch).openQuote <= 1 && Inside(r, ch).index == r.index + 1
  {
  }

  lemma SubArrayConforms(c: Coder, items: seq<Value>, inner: seq<Value>, depth: nat)
    requires c.TextArray? && c.dimensions < 0 && ConformsItems(c, items, depth) && ConformsList(c, inner, depth + 1)
    ensures ConformsItems(c, items + [List(inner)], depth)
  {
    hide ConformsList;
  }

  /** The scratch buffer as the decoder makes it. */
  ghost predicate TidyText(c: Coder, s: seq<byte>)
    requires c.TextArray?
  {
    ArrayStart(s).Ok? ==> TidyList(c, s, ArrayStart(s).value + 1, seq(|s|, _ => 0))
  }

  /**
   The value of an accepted text can be read again, if the text has no zero byte and no quotation mark opens behind a
   sub-array.
   */
  lemma TidyAccepted(c: Coder, s: seq<byte>)
    requires Nests(c) && NulFree(s) && TidyText(c, s) && Decode(c, s).Ok?
    ensures RoundTrips(c, Decode(c, s).value)
  {
    hide ReadList, TidyList, ArrayStart;
    ListConforms(c, s, ArrayStart(s).value + 1, seq(|s|, _ => 0), 1);
    DecodeEncode(c, Decode(c, s).value);
  }

  /** A sub-array, and what was read behind it. */
  const EMPTIES: seq<Value> := [Str([]), Str([])]
  const LEFT_OVER: seq<byte> := [0, 120]

  /** The text {a{,}"x"}. */
  const UNTIDY: seq<byte> := [LBRACE, 97, LBRACE, COMMA, RBRACE, QUOTE, 120, QUOTE, RBRACE]

  /**
   A text that is free of zero bytes can be accepted with one in its value, which the parser has written behind an item
   of a sub-array; and this value cannot be read again.
   */
  lemma LeftOver()
    ensures NulFree(UNTIDY) && Decode(Strings(COMMA), UNTIDY) == Ok(List([List(EMPTIES), Str(LEFT_OVER)]))
    ensures !RoundTrips(Strings(COMMA), List([List(EMPTIES), Str(LEFT_OVER)]))
  {
    hide ReadItems;
    var c, s, word := Strings(COMMA), UNTIDY, seq(|UNTIDY|, _ => 0);
    var level := UntidyLevel(c, word);
    InBraces(c, s);
    assert SkipSpace(s, 9) == 9;
    NotReadAgain(c);
  }

  lemma UntidyLevel(c: Coder, word: seq<byte>) returns (level: Level)
    requires c == Strings(COMMA) && word == seq(|UNTIDY|, _ => 0)
    ensures ReadList(c, UNTIDY, 1, word) == Ok(level)
    ensures level.index == 8 && level.items == [List(EMPTIES), Str(LEFT_OVER)]
  {
    hide ReadItems, ReadList;
    var s := UNTIDY;
    var r := Fresh(1, word, []);
    PlainTurn(c, s, r);
    var r1 := Append(r, 97);
    var sub := TwoEmpties(c, r1.word);
    SubArrayTurn(c, s, r1, sub);
    var r2 := r1.(index := 5, word := sub.word, escapeNext := true, items := [List(EMPTIES)]);
    assert [] + [List(EMPTIES)] == [List(EMPTIES)];
    OpeningTurn(c, s, r2);
    var r3 := r2.(index := 6, openQuote := 1);
    InsideTurn(c, s, r3);
    InsideTurn(c, s, Inside(r3, 120));
    var r4 := Inside(Inside(r3, 120), QUOTE);
    assert r4.word[..2] == LEFT_OVER;
    StringElement(r4.word[..2]);
    var p := PushItem(c, r4).value;
    ClosingTurn(c, s, r4, p);
    level := Level(8, p.items, p.word);
    ListFrom(c, s, 1, word);
  }

  lemma ListFrom(c: Coder, s: seq<byte>, index: nat, word: seq<byte>)
    requires c.TextArray? && |word| == |s| && index < |s| && s[index] != RBRACE
    ensures ReadList(c, s, index, word) == ReadItems(c, s, Fresh(index, word, []))
  {
    hide ReadItems;
  }

  lemma TwoEmpties(c: Coder, word: seq<byte>) returns (sub: Level)
    requires c == Strings(COMMA) && |word| == |UNTIDY|
    ensures ReadList(c, UNTIDY, 3, word) == Ok(sub)
    ensures sub == Level(4, EMPTIES, word[0 := 0])
  {
    hide ReadItems, ReadList;
    var s := UNTIDY;
    ListFrom(c, s, 3, word);
    var r := Fresh(3, word, []);
    assert word[..0] == [];
    StringElement([]);
    var p := PushItem(c, r).value;
    ClosingTurn(c, s, r, p);
    var r1 := Fresh(4, p.word, p.items);
    assert p.word[..0] == [];
    var p1 := PushItem(c, r1).value;
    ClosingTurn(c, s, r1, p1);
    assert p1.items == EMPTIES;
    sub := Level(4, p1.items, p1.word);
  }

  /** The zero byte gets no quotes. */
  lemma NotReadAgain(c: Coder)
    requires c == Strings(COMMA)
    ensures !RoundTrips(c, List([List(EMPTIES), Str(LEFT_OVER)]))
  {
    var items := [List(EMPTIES), Str(LEFT_OVER)];
    ValuesExact(c, List(items));
    assert LEFT_OVER[0] == 0 && !NeedsQuotes(COMMA, LEFT_OVER);
    assert !ZerosQuoted(COMMA, items[1]) && !ConformsItem(c, items[1], 1);
    assert !ConformsItems(c, items, 1);
  }

  // ---------------------------------------------------------------- records

  /** The text of a column is free of zero bytes, whatever the record's holds. */
  lemma {:induction false} FieldClean(s: seq<byte>, i: nat, inQuote: bool, field: seq<byte>)
    requires i <= |s| && NulFree(field) && ReadField(s, i, inQuote, field).Ok?
    ensures NulFree(ReadField(s, i, inQuote, field).value.1)
    decreases |s| - i
  {
    var ch := At(s, i);
    if !(!inQuote && (ch == COMMA || ch == RPAREN)) {
      if ch == BACKSLASH {
        FieldClean(s, i + 2, inQuote, field + [s[i + 1]]);
      } else if ch == QUOTE {
        if !inQuote {
          FieldClean(s, i + 1, true, field);
        } else if At(s, i + 1) == QUOTE {
          FieldClean(s, i + 2, true, field + [QUOTE]);
        } else {
          FieldClean(s, i + 1, false, field);
        }
      } else {
        FieldClean(s, i + 1, inQuote, field + [ch]);
      }
    }
  }

  /** Coders of scalars, of records of them, of records of these, and so on. */
  ghost predicate RecordTree(c: Coder) {
    match c
    case TextRecord(columns) => forall k :: 0 <= k < |columns| ==> RecordTree(columns[k])
    case TextArray(_, _, _) => false
    case _ => Scalar(c)
  }

  lemma {:induction false} RecordTreeIsGood(c: Coder)
    requires RecordTree(c)
    ensures GoodCoder(c) && ZeroFree(c)
  {
    if c.TextRecord? {
      forall k | 0 <= k < |c.columns|
        ensures GoodCoder(c.columns[k]) && ZeroFree(c.columns[k])
      {
        RecordTreeIsGood(c.columns[k]);
      }
    }
  }

  /** Each record in a value has as many columns as its coder. */
  predicate Complete(c: Coder, v: Value) {
    (c.TextRecord? && v.List?) ==>
      |v.items| == |c.columns| > 0 &&
      forall k :: 0 <= k < |v.items| && !v.items[k].Nil? ==> Complete(c.columns[k], v.items[k])
  }

  /** No zero byte gets through a record. */
  lemma {:induction false} RecordZeroless(c: Coder, s: seq<byte>)
    requires RecordTree(c) && Decode(c, s).Ok? && (c.TextRecord? || NulFree(s))
    ensures Zeroless(Decode(c, s).value)
    decreases c, |s| + 2, 0
  {
    hide ReadFields, Scalar;
    if c.TextRecord? {
      FieldsZeroless(c, s, SkipSpace(s, 0) + 1, []);
    } else {
      ScalarConforms(c, s);
    }
  }

  lemma {:induction false} FieldsZeroless(c: Coder, s: seq<byte>, i: nat, fields: seq<Value>)
    requires RecordTree(c) && c.TextRecord? && i <= |s| && Zeroless(List(fields)) && ReadFields(c, s, i, fields).Ok?
    ensures Zeroless(List(ReadFields(c, s, i, fields).value.1))
    decreases c, |s| - i, 1
  {
    hide ReadField, Decode, NulFree;
    if At(s, i) == COMMA {
      FieldsZeroless(c, s, i + 1, fields + [Nil]);
    } else if At(s, i) != RPAREN {
      var (j, field) := ReadField(s, i, false, []).value;
      assert NulFree(field) by { FieldStarts(); FieldClean(s, i, false, []); }
      RecordZeroless(c.columns[|fields|], field);
      var v := DecodeColumn(c, |fields|, field).value;
      assert Zeroless(List(fields + [v]));
      if s[j] == COMMA {
        FieldsZeroless(c, s, j + 1, fields + [v]);
      }
    }
  }

  lemma FieldStarts()
    ensures NulFree([])
  {
  }

  lemma {:induction false} CompleteConforms(c: Coder, v: Value)
    requires RecordTree(c) && Typed(c, v) && Zeroless(v)
    ensures Conforms(c, v) <==> Complete(c, v)
    decreases c
  {
    if c.TextRecord? && |v.items| == |c.columns| {
      forall k | 0 <= k < |v.items| && !v.items[k].Nil?
        ensures Conforms(c.columns[k], v.items[k]) <==> Complete(c.columns[k], v.items[k])
      {
        CompleteConforms(c.columns[k], v.items[k]);
      }
    }
  }

  /**
   For every record text that is accepted, of scalars and of records nested to any depth: the value can be printed and
   read again if and only if each record in it has as many columns as its coder. The decoder checks their number only
   where it decodes one.
   */
  lemma RecordAccepted(c: Coder, s: seq<byte>)
    requires RecordTree(c) && c.TextRecord? && Decode(c, s).Ok?
    ensures RoundTrips(c, Decode(c, s).value) <==> Complete(c, Decode(c, s).value)
  {
    RecordTreeIsGood(c);
    Accepted(c, s);
    RecordZeroless(c, s);
    CompleteConforms(c, Decode(c, s).value);
  }

  /** The texts (a) and (a,,) for a record of two columns. */
  const TOO_FEW: seq<byte> := [LPAREN, 97, RPAREN]
  const TOO_MANY: seq<byte> := [LPAREN, 97, COMMA, COMMA, RPAREN]

  /** Columns that are missing, and nil behind the last one, are not refused. */
  lemma Miscounted()
    ensures Decode(TextRecord([TextString, TextString]), TOO_FEW) == Ok(List([Str([97])]))
    ensures Decode(TextRecord([TextString, TextString]), TOO_MANY) == Ok(List([Str([97]), Nil, Nil]))
  {
    hide ReadField;
    var c := TextRecord([TextString, TextString]);
    FieldOfOne(TOO_FEW);
    FieldOfOne(TOO_MANY);
    assert Decode(TextString, [97]) == Ok(Str([97]));
    assert SkipSpace(TOO_FEW, 0) == 0 && SkipSpace(TOO_FEW, 3) == 3;
    assert [] + [Str([97])] == [Str([97])];
    assert ReadFields(c, TOO_FEW, 1, []) == Ok((3, [Str([97])]));
    assert SkipSpace(TOO_MANY, 0) == 0 && SkipSpace(TOO_MANY, 5) == 5;
    assert [Str([97])] + [Nil] + [Nil] == [Str([97]), Nil, Nil];
    assert ReadFields(c, TOO_MANY, 4, [Str([97])] + [Nil]) == Ok((5, [Str([97]), Nil, Nil]));
    assert ReadFields(c, TOO_MANY, 3, [Str([97])]) == Ok((5, [Str([97]), Nil, Nil]));
    assert ReadFields(c, TOO_MANY, 1, []) == Ok((5, [Str([97]), Nil, Nil]));
  }

  lemma FieldOfOne(s: seq<byte>)
    requires |s| > 2 && s[1] == 97 && (s[2] == COMMA || s[2] == RPAREN)
    ensures ReadField(s, 1, false, []) == Ok((2, [97]))
  {
    assert [] + [97] == [97];
    assert ReadField(s, 2, false, [97]) == Ok((2, [97]));
  }
}
