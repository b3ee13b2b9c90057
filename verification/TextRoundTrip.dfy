/** Decoding an encoded composite value gives the value back, for coders nested to any depth. */
module TextRoundTrip {
  import opened Bytes
  import opened Escape
  import opened TextFormat
  import TextInteger

  ghost predicate NulFree(s: seq<byte>) {
    forall k :: 0 <= k < |s| ==> s[k] != 0
  }

  /** Delimiters that the array parser cannot take for something else. */
  predicate GoodDelimiter(d: byte) {
    d != QUOTE && d != LBRACE && d != RBRACE && d !in NULL_WORD
  }

  ghost predicate GoodCoder(c: Coder) {
    match c
    case TextString => true
    case TextInteger(ruby) => TextInteger.ReadsDecimals(ruby)
    case TextRecord(columns) =>
      forall k :: 0 <= k < |columns| ==> GoodCoder(columns[k]) && ZeroFree(columns[k])
    case TextArray(_, d, elem) => GoodDelimiter(d) && GoodCoder(elem)
  }

  /** No delimiter is the zero byte, which ends the text of a record. */
  ghost predicate ZeroFree(c: Coder) {
    match c
    case TextString => true
    case TextInteger(_) => true
    case TextRecord(columns) => forall k :: 0 <= k < |columns| ==> ZeroFree(columns[k])
    case TextArray(_, d, elem) => d != 0 && ZeroFree(elem)
  }

  /** No string in a value has a zero byte. */
  ghost predicate Zeroless(v: Value) {
    match v
    case Str(text) => NulFree(text)
    case List(items) => forall k :: 0 <= k < |items| ==> Zeroless(items[k])
    case _ => true
  }

  /**
   The values that come back: nesting has the wanted depth, records have all of their columns, and zero bytes stand
   only where they get quotes in an array, and nowhere in a record.
   */
  ghost predicate Conforms(c: Coder, v: Value)
    decreases c, v, 2
  {
    match c
    case TextString => v.Str?
    case TextInteger(_) => v.Int?
    case TextRecord(columns) =>
      v.List? && |v.items| == |columns| > 0 && ConformsColumns(c, v.items)
    case TextArray(_, _, _) => v.List? && ConformsList(c, v.items, 1)
  }

  ghost predicate ConformsColumns(c: Coder, items: seq<Value>)
    requires c.TextRecord? && |items| <= |c.columns|
    decreases c, items, 1
  {
    forall k :: 0 <= k < |items| ==>
      items[k].Nil? || (Conforms(c.columns[|c.columns| - |items| + k], items[k]) && Zeroless(items[k]))
  }

  ghost predicate ConformsList(c: Coder, items: seq<Value>, depth: nat)
    requires c.TextArray?
    decreases c, items, 2
  {
    (|items| == 0 ==> AtLeafDepth(c, depth)) && ConformsItems(c, items, depth)
  }

  ghost predicate ConformsItems(c: Coder, items: seq<Value>, depth: nat)
    requires c.TextArray?
    decreases c, items, 1
  {
    forall k :: 0 <= k < |items| ==> ConformsItem(c, items[k], depth)
  }

  ghost predicate ConformsItem(c: Coder, entry: Value, depth: nat)
    requires c.TextArray?
    decreases c, entry, 3
  {
    if IsSubArray(c, entry, depth) then ConformsList(c, entry.items, depth + 1)
    else AtLeafDepth(c, depth) && (entry.Nil? || (Conforms(c.elem, entry) && ZerosQuoted(c.delimiter, entry)))
  }

  /** A string with a zero byte has another byte in it that gets it quotes. */
  ghost predicate ZerosQuoted(d: byte, entry: Value) {
    entry.Str? ==> NulFree(entry.text) || NeedsQuotes(d, entry.text)
  }

  // ---------------------------------------------------------------- encoding succeeds, without zero bytes

  lemma NulFreeConcat(a: seq<byte>, b: seq<byte>)
    requires NulFree(a) && NulFree(b)
    ensures NulFree(a + b)
  {
  }

  lemma {:induction false} EscapedClean(st: Style, s: seq<byte>)
    requires NulFree(s) && !st.CopyField?
    ensures NulFree(Escaped(st, s))
  {
    if |s| > 0 {
      EscapedClean(st, s[1..]);
      NulFreeConcat(st.EscapedByte(s[0]), Escaped(st, s[1..]));
    }
  }

  lemma QuotedClean(st: Style, s: seq<byte>)
    requires NulFree(s) && !st.CopyField?
    ensures NulFree(Quoted(st, s))
  {
    hide Escaped;
    EscapedClean(st, s);
    NulFreeConcat([st.Quotation()], Escaped(st, s));
  }

  lemma DecimalClean(n: int)
    ensures NulFree(TextInteger.Decimal(n))
  {
    TextInteger.DigitsAreDigits(if n < 0 then -n else n);
  }

  lemma {:induction false} EncodeClean(c: Coder, v: Value)
    requires GoodCoder(c) && Conforms(c, v)
    ensures Encode(c, v).Ok? && (ZeroFree(c) && Zeroless(v) ==> NulFree(Encode(c, v).value))
    decreases c, v, 2
  {
    match c
    case TextString =>
    case TextInteger(_) => DecimalClean(v.n);
    case TextRecord(_) => RecordBodyClean(c, v.items);
    case TextArray(_, _, _) => ListTextClean(c, v.items, 1);
  }

  lemma {:induction false} RecordBodyClean(c: Coder, items: seq<Value>)
    requires c.TextRecord? && |items| <= |c.columns| && GoodCoder(c) && ConformsColumns(c, items)
    ensures RecordBody(c, items).Ok? && NulFree(RecordBody(c, items).value)
    decreases c, items, 1
  {
    if |items| > 0 {
      var k := |c.columns| - |items|;
      if !items[0].Nil? {
        assert Conforms(c.columns[k], items[0]) && Zeroless(items[0]);
        EncodeClean(c.columns[k], items[0]);
        QuotedClean(RecordField, Encode(c.columns[k], items[0]).value);
      }
      var t := FieldText(c, k, items[0]).value;
      ColumnsTail(c, items);
      RecordBodyClean(c, items[1..]);
      NulFreeConcat(t, [COMMA]);
      NulFreeConcat(t + [COMMA], RecordBody(c, items[1..]).value);
    }
  }

  lemma ColumnsTail(c: Coder, items: seq<Value>)
    requires c.TextRecord? && 0 < |items| <= |c.columns| && ConformsColumns(c, items)
    ensures ConformsColumns(c, items[1..])
  {
    forall k | 0 <= k < |items[1..]|
      ensures items[1..][k].Nil? ||
              (Conforms(c.columns[|c.columns| - |items[1..]| + k], items[1..][k]) && Zeroless(items[1..][k]))
    {
      assert items[1..][k] == items[k + 1];
    }
  }

  lemma {:induction false} ListTextClean(c: Coder, items: seq<Value>, depth: nat)
    requires c.TextArray? && GoodCoder(c) && ConformsList(c, items, depth)
    ensures ListText(c, items, depth).Ok?
    ensures ZeroFree(c) && Zeroless(List(items)) ==> NulFree(ListText(c, items, depth).value)
    decreases c, items, 2
  {
    ListBodyClean(c, items, depth);
    if ZeroFree(c) && Zeroless(List(items)) {
      NulFreeConcat([LBRACE], ListBody(c, items, depth).value);
    }
  }

  lemma {:induction false} ListBodyClean(c: Coder, items: seq<Value>, depth: nat)
    requires c.TextArray? && GoodCoder(c) && ConformsItems(c, items, depth)
    ensures ListBody(c, items, depth).Ok?
    ensures ZeroFree(c) && Zeroless(List(items)) ==> NulFree(ListBody(c, items, depth).value)
    decreases c, items, 1
  {
    if |items| > 0 {
      ItemTextClean(c, items[0], depth);
      ListBodyClean(c, items[1..], depth);
      if ZeroFree(c) && Zeroless(List(items)) {
        var t := ItemText(c, items[0], depth).value;
        NulFreeConcat(t, [c.delimiter]);
        NulFreeConcat(t + [c.delimiter], ListBody(c, items[1..], depth).value);
      }
    }
  }

  lemma {:induction false} ItemTextClean(c: Coder, entry: Value, depth: nat)
    requires c.TextArray? && GoodCoder(c) && ConformsItem(c, entry, depth)
    ensures ItemText(c, entry, depth).Ok?
    ensures ZeroFree(c) && Zeroless(entry) ==> NulFree(ItemText(c, entry, depth).value)
    decreases c, entry, 3
  {
    if IsSubArray(c, entry, depth) {
      ListTextClean(c, entry.items, depth + 1);
    } else if !entry.Nil? {
      EncodeClean(c.elem, entry);
      if ZeroFree(c) && Zeroless(entry) {
        QuotedClean(ArrayItem, Encode(c.elem, entry).value);
      }
    }
  }

  // ---------------------------------------------------------------- parsing runs of array text

  /** The parser's state after `len` bytes of input that put `x` into the scratch buffer. */
  function After(r: Reading, len: nat, x: seq<byte>): Reading
    requires r.size + |x| <= |r.word|
  {
    r.(index := r.index + len, word := Splice(r.word, r.size, x), size := r.size + |x|)
  }

  /** A byte that stands for itself outside of quotes. */
  predicate IsPlain(c: Coder, ch: byte)
    requires c.TextArray?
  {
    ch != c.delimiter && ch != RBRACE && ch != QUOTE && ch != LBRACE && ch != 0
  }

  lemma AfterOne(r: Reading, ch: byte)
    requires r.size < |r.word|
    ensures Append(r, ch) == After(r, 1, [ch])
  {
    StoreOne(r.word, r.word[r.size := ch], r.size, ch);
  }

  lemma AfterTwice(r: Reading, m: nat, x: seq<byte>, n: nat, y: seq<byte>)
    requires r.size + |x| + |y| <= |r.word|
    ensures After(After(r, m, x), n, y) == After(r, m + n, x + y)
  {
    SpliceRight(r.word, r.size, x, y);
  }

  lemma AfterNothing(r: Reading)
    requires r.size <= |r.word|
    ensures After(r, 0, []) == r
  {
    SpliceNothing(r.word, r.size);
  }

  // Single turns of the parser's loop.

  lemma InsideSane(s: seq<byte>, r: Reading, ch: byte)
    requires Sane(s, r) && r.index < |s|
    ensures Sane(s, Inside(r, ch))
  {
  }

  lemma InsideTurn(c: Coder, s: seq<byte>, r: Reading)
    requires c.TextArray? && Sane(s, r) && r.openQuote == 1 && r.index < |s|
    ensures Sane(s, Inside(r, s[r.index]))
    ensures ReadItems(c, s, r) == ReadItems(c, s, Inside(r, s[r.index]))
  {
    hide PushItem, ReadList, Inside;
    InsideSane(s, r, s[r.index]);
  }

  lemma OpeningTurn(c: Coder, s: seq<byte>, r: Reading)
    requires c.TextArray? && Sane(s, r) && r.openQuote < 1 && r.index < |s|
    requires s[r.index] == QUOTE && c.delimiter != QUOTE
    ensures ReadItems(c, s, r) == ReadItems(c, s, r.(index := r.index + 1, openQuote := 1))
  {
    hide PushItem, ReadList;
  }

  lemma PlainTurn(c: Coder, s: seq<byte>, r: Reading)
    requires c.TextArray? && Sane(s, r) && r.openQuote < 1 && r.index < |s|
    requires IsPlain(c, s[r.index])
    ensures Sane(s, Append(r, s[r.index]))
    ensures ReadItems(c, s, r) == ReadItems(c, s, Append(r, s[r.index]))
  {
    hide PushItem, ReadList;
  }

  lemma SubArrayTurn(c: Coder, s: seq<byte>, r: Reading, sub: Level)
    requires c.TextArray? && Sane(s, r) && r.openQuote < 1 && r.index < |s|
    requires s[r.index] == LBRACE && c.delimiter != LBRACE
    requires ReadList(c, s, r.index + 1, r.word) == Ok(sub)
    ensures r.index < sub.index < |s| && |sub.word| == |s|
    ensures ReadItems(c, s, r) ==
            ReadItems(c, s, r.(index := sub.index + 1, word := sub.word, escapeNext := true,
                               items := r.items + [List(sub.items)]))
  {
    hide PushItem, ReadList;
  }

  lemma ClosingTurn(c: Coder, s: seq<byte>, r: Reading, p: Reading)
    requires c.TextArray? && Sane(s, r) && r.openQuote < 1 && r.index < |s|
    requires s[r.index] == RBRACE || s[r.index] == c.delimiter
    requires PushItem(c, r) == Ok(p)
    ensures |p.word| == |s|
    ensures s[r.index] == RBRACE ==> ReadItems(c, s, r) == Ok(Level(r.index, p.items, p.word))
    ensures s[r.index] != RBRACE ==> ReadItems(c, s, r) == ReadItems(c, s, Fresh(r.index + 1, p.word, p.items))
  {
    hide PushItem, ReadList;
  }

  /** Bytes that stand for themselves are collected as they are. */
  lemma {:induction false} PlainRun(c: Coder, s: seq<byte>, r: Reading, x: seq<byte>)
    requires c.TextArray? && Sane(s, r) && r.openQuote == 0
    requires Occurs(s, r.index, x)
    requires forall k :: 0 <= k < |x| ==> IsPlain(c, x[k])
    ensures r.size + |x| <= |r.word| && Sane(s, After(r, |x|, x))
    ensures ReadItems(c, s, r) == ReadItems(c, s, After(r, |x|, x))
    decreases |x|
  {
    hide Splice, ReadItems, Occurs;
    OccursSize(s, r.index, x);
    if |x| == 0 {
      AfterNothing(r);
    } else {
      OccursFirst(s, r.index, x);
      PlainTurn(c, s, r);
      AfterOne(r, x[0]);
      PlainRun(c, s, Append(r, x[0]), x[1..]);
      AfterTwice(r, 1, [x[0]], |x| - 1, x[1..]);
      assert [x[0]] + x[1..] == x;
    }
  }

  /** Inside quotes, escaped text is collected unescaped. */
  lemma {:induction false} QuotedRun(c: Coder, s: seq<byte>, r: Reading, x: seq<byte>)
    requires c.TextArray? && Sane(s, r) && r.openQuote == 1 && !r.escapeNext
    requires Occurs(s, r.index, Escaped(ArrayItem, x))
    ensures r.size + |x| <= |r.word| && Sane(s, After(r, |Escaped(ArrayItem, x)|, x))
    ensures ReadItems(c, s, r) == ReadItems(c, s, After(r, |Escaped(ArrayItem, x)|, x))
    decreases |x|
  {
    hide Splice, ReadItems, Occurs;
    EscapedSize(ArrayItem, x);
    OccursSize(s, r.index, Escaped(ArrayItem, x));
    if |x| == 0 {
      AfterNothing(r);
    } else {
      var piece, rest := ArrayItem.EscapedByte(x[0]), Escaped(ArrayItem, x[1..]);
      assert Escaped(ArrayItem, x) == piece + rest;
      OccursConcat(s, r.index, piece, rest);
      QuotedByte(c, s, r, x[0]);
      QuotedRun(c, s, After(r, |piece|, [x[0]]), x[1..]);
      AfterTwice(r, |piece|, [x[0]], |rest|, x[1..]);
      assert [x[0]] + x[1..] == x;
    }
  }

  lemma QuotedByte(c: Coder, s: seq<byte>, r: Reading, ch: byte)
    requires c.TextArray? && Sane(s, r) && r.openQuote == 1 && !r.escapeNext
    requires Occurs(s, r.index, ArrayItem.EscapedByte(ch))
    ensures r.size < |r.word| && Sane(s, After(r, |ArrayItem.EscapedByte(ch)|, [ch]))
    ensures ReadItems(c, s, r) == ReadItems(c, s, After(r, |ArrayItem.EscapedByte(ch)|, [ch]))
  {
    hide Splice, ReadItems, Occurs;
    OccursFirst(s, r.index, ArrayItem.EscapedByte(ch));
    InsideTurn(c, s, r);
    AfterOne(r, ch);
    if ArrayItem.Special(ch) {
      assert ArrayItem.EscapedByte(ch)[1..] == [ch];
      OccursFirst(s, r.index + 1, [ch]);
      InsideTurn(c, s, Inside(r, BACKSLASH));
    }
  }

  /** A quoted item, from its opening to behind its closing quote. */
  lemma QuotedItemRun(c: Coder, s: seq<byte>, r: Reading, x: seq<byte>)
    requires c.TextArray? && c.delimiter != QUOTE && Sane(s, r) && r.openQuote == 0 && !r.escapeNext
    requires Occurs(s, r.index, Quoted(ArrayItem, x))
    ensures r.size + |x| <= |r.word|
    ensures Sane(s, After(r, |Quoted(ArrayItem, x)|, x).(openQuote := -1))
    ensures ReadItems(c, s, r) == ReadItems(c, s, After(r, |Quoted(ArrayItem, x)|, x).(openQuote := -1))
  {
    hide Splice, ReadItems, Escaped, Occurs;
    var e := Escaped(ArrayItem, x);
    assert Quoted(ArrayItem, x) == [QUOTE] + (e + [QUOTE]);
    EscapedSize(ArrayItem, x);
    OccursSize(s, r.index, Quoted(ArrayItem, x));
    OccursConcat(s, r.index, [QUOTE], e + [QUOTE]);
    OccursConcat(s, r.index + 1, e, [QUOTE]);
    OccursFirst(s, r.index, [QUOTE]);
    OccursFirst(s, r.index + 1 + |e|, [QUOTE]);
    var r1 := r.(index := r.index + 1, openQuote := 1);
    OpeningTurn(c, s, r);
    QuotedRun(c, s, r1, x);
    InsideTurn(c, s, After(r1, |e|, x));
  }

  // ---------------------------------------------------------------- whole items and lists

  /** Where the array parser ends up after the text `t` of an item: about to store the item. */
  ghost predicate AtEndOf(c: Coder, s: seq<byte>, i: nat, word: seq<byte>, items: seq<Value>, t: seq<byte>,
                          entry: Value, r: Reading)
    requires c.TextArray? && |word| == |s| && i <= |s|
  {
    && Sane(s, r) && r.openQuote < 1 && r.index == i + |t|
    && ReadItems(c, s, Fresh(i, word, items)) == ReadItems(c, s, r)
    && (r.index < |s| ==> PushItem(c, r).Ok? && PushItem(c, r).value.items == items + [entry])
  }

  /** The word NULL outside of quotes stands for nil. */
  lemma NullRun(c: Coder, s: seq<byte>, i: nat, word: seq<byte>, items: seq<Value>) returns (r: Reading)
    requires c.TextArray? && GoodDelimiter(c.delimiter) && |word| == |s|
    requires i <= |s| && Occurs(s, i, NULL_WORD)
    ensures AtEndOf(c, s, i, word, items, NULL_WORD, Nil, r)
  {
    hide ReadItems, Occurs, Splice;
    var r0 := Fresh(i, word, items);
    PlainRun(c, s, r0, NULL_WORD);
    r := After(r0, 4, NULL_WORD);
    Collected(r0, 4, NULL_WORD);
  }

  lemma Collected(r: Reading, len: nat, x: seq<byte>)
    requires r.size == 0 && |x| <= |r.word|
    ensures After(r, len, x).word[..|x|] == x
  {
  }

  /** Text that needs no quotes is plain, and not the word NULL in any case. */
  lemma UnquotedText(c: Coder, x: seq<byte>)
    requires c.TextArray? && NulFree(x) && !NeedsQuotes(c.delimiter, x)
    ensures |x| > 0 && x != NULL_WORD
    ensures |x| == 4 ==> exists k :: 0 <= k < 4 && x[k] != NULL_WORD[k] && x[k] != NULL_WORD[k] + 32
    ensures forall k :: 0 <= k < |x| ==> IsPlain(c, x[k])
  {
    if |x| == 4 {
      NullInAnyCase(x);
    }
    forall k | 0 <= k < |x|
      ensures IsPlain(c, x[k])
    {
      assert !IsMeta(c.delimiter, x[k]);
    }
  }

  /** An element's text, quoted or not, is collected whole, and is not taken for the word NULL. */
  lemma ElementCollected(c: Coder, s: seq<byte>, i: nat, word: seq<byte>, items: seq<Value>, x: seq<byte>)
    returns (r: Reading)
    requires c.TextArray? && GoodDelimiter(c.delimiter) && |word| == |s| && (NulFree(x) || NeedsQuotes(c.delimiter, x))
    requires i <= |s| && Occurs(s, i, ItemQuoted(c.delimiter, x))
    ensures Sane(s, r) && r.openQuote < 1 && !r.escapeNext && r.index == i + |ItemQuoted(c.delimiter, x)|
    ensures ReadItems(c, s, Fresh(i, word, items)) == ReadItems(c, s, r)
    ensures r.word[..r.size] == x && r.items == items && (r.openQuote == 0 ==> x != NULL_WORD)
  {
    hide ReadItems, Occurs, Splice, NeedsQuotes, Quoted, Escaped;
    var r0 := Fresh(i, word, items);
    if NeedsQuotes(c.delimiter, x) {
      QuotedItemRun(c, s, r0, x);
      r := After(r0, |Quoted(ArrayItem, x)|, x).(openQuote := -1);
      Collected(r0, |Quoted(ArrayItem, x)|, x);
    } else {
      UnquotedText(c, x);
      PlainRun(c, s, r0, x);
      r := After(r0, |x|, x);
      Collected(r0, |x|, x);
    }
  }

  /** It is handed to the element decoder. */
  lemma PushElement(c: Coder, r: Reading, x: seq<byte>)
    requires c.TextArray? && r.size < |r.word| && !r.escapeNext && r.word[..r.size] == x
    requires r.openQuote == 0 ==> x != NULL_WORD
    ensures PushItem(c, r).Ok? <==> Decode(c.elem, x).Ok?
    ensures PushItem(c, r).Ok? ==> PushItem(c, r).value.items == r.items + [Decode(c.elem, x).value]
  {
    hide Decode;
  }

  lemma ElementRun(c: Coder, s: seq<byte>, i: nat, word: seq<byte>, items: seq<Value>, x: seq<byte>, entry: Value)
    returns (r: Reading)
    requires c.TextArray? && GoodDelimiter(c.delimiter) && |word| == |s| && (NulFree(x) || NeedsQuotes(c.delimiter, x))
    requires Decode(c.elem, x) == Ok(entry)
    requires i <= |s| && Occurs(s, i, ItemQuoted(c.delimiter, x))
    ensures AtEndOf(c, s, i, word, items, ItemQuoted(c.delimiter, x), entry, r)
  {
    hide ReadItems, Occurs, Decode, NeedsQuotes, PushItem;
    r := ElementCollected(c, s, i, word, items, x);
    if r.index < |s| {
      PushElement(c, r, x);
    }
  }

  /** An element's text is free of zero bytes or gets quotes, that of an array for its braces. */
  lemma ElementText(c: Coder, entry: Value)
    requires c.TextArray? && GoodCoder(c) && Conforms(c.elem, entry) && ZerosQuoted(c.delimiter, entry)
    ensures Encode(c.elem, entry).Ok?
    ensures NulFree(Encode(c.elem, entry).value) || NeedsQuotes(c.delimiter, Encode(c.elem, entry).value)
  {
    hide ListText;
    EncodeClean(c.elem, entry);
    if c.elem.TextArray? {
      ListStarts(c.elem, entry.items, 1);
      assert IsMeta(c.delimiter, Encode(c.elem, entry).value[0]);
    } else if c.elem.TextRecord? {
      RecordBodyClean(c.elem, entry.items);
    }
  }

  /** The first byte of an item is no closing brace. */
  lemma ItemStart(c: Coder, entry: Value, depth: nat)
    requires c.TextArray? && ItemText(c, entry, depth).Ok?
    ensures var t := ItemText(c, entry, depth).value; |t| > 0 && t[0] != RBRACE
  {
    hide Escaped, CaseCompare, ListBody, Encode;
    if !IsSubArray(c, entry, depth) && !entry.Nil? {
      var x := Encode(c.elem, entry).value;
      if !NeedsQuotes(c.delimiter, x) {
        assert !IsMeta(c.delimiter, x[0]);
      }
    }
  }

  // ---------------------------------------------------------------- the theorem, by induction over coder and value

  /** Decoding the text of a value gives the value back, however coders and values are nested. */
  lemma {:induction false} DecodeEncode(c: Coder, v: Value)
    requires GoodCoder(c) && Conforms(c, v)
    ensures Encode(c, v).Ok? && Decode(c, Encode(c, v).value) == Ok(v)
    decreases c, v, 4
  {
    EncodeClean(c, v);
    match c
    case TextString =>
    case TextInteger(ruby) => TextInteger.DecodeEncode(ruby, v.n);
    case TextRecord(_) => RecordRoundTrip(c, v.items);
    case TextArray(_, _, _) => ArrayRoundTrip(c, v.items);
  }

  lemma {:induction false} ArrayRoundTrip(c: Coder, items: seq<Value>)
    requires c.TextArray? && GoodCoder(c) && ConformsList(c, items, 1)
    ensures ListText(c, items, 1).Ok? && DecodeArray(c, ListText(c, items, 1).value) == Ok(List(items))
    decreases c, items, 3
  {
    hide ReadList, Occurs, ListBody;
    ListTextClean(c, items, 1);
    var s := ListText(c, items, 1).value;
    OccursWhole(s);
    assert s[0] == LBRACE && SkipSpace(s, 0) == 0;
    assert ArrayStart(s) == Ok(0);
    var level := ListRun(c, s, 0, seq(|s|, _ => 0), items, 1);
    assert SkipSpace(s, |s|) == |s|;
  }

  /** Dimension decorations in front of an array text, one for each of `dims`. */
  function Decorations(dims: seq<seq<byte>>): seq<byte> {
    if |dims| == 0 then [] else [LBRACKET] + dims[0] + [RBRACKET] + Decorations(dims[1..])
  }

  ghost predicate AreDimensions(dims: seq<seq<byte>>) {
    forall k, j :: 0 <= k < |dims| && 0 <= j < |dims[k]| ==> IsDimension(dims[k][j])
  }

  lemma {:induction false} DimensionRun(s: seq<byte>, i: nat, x: seq<byte>)
    requires Occurs(s, i, x + [RBRACKET]) && forall j :: 0 <= j < |x| ==> IsDimension(x[j])
    ensures i + |x| < |s| && SkipDimension(s, i) == i + |x| && s[i + |x|] == RBRACKET
    decreases |x|
  {
    if |x| == 0 {
      assert s[i..i + 1][0] == RBRACKET;
    } else {
      assert (x + [RBRACKET])[1..] == x[1..] + [RBRACKET];
      OccursFirst(s, i, x + [RBRACKET]);
      DimensionRun(s, i + 1, x[1..]);
    }
  }

  /** One turn of the loop over decorations. */
  lemma DecorationTurn(s: seq<byte>, i: nat, j: nat, some: bool)
    requires i < j < |s| && s[i] == LBRACKET && SkipDimension(s, i + 1) == j && s[j] == RBRACKET
    ensures SkipDimensions(s, i, some) == SkipDimensions(s, j + 1, true)
  {
    hide SkipDimension;
  }

  lemma {:induction false} DecorationsRun(s: seq<byte>, i: nat, dims: seq<seq<byte>>, some: bool)
    requires i <= |s| && Occurs(s, i, Decorations(dims)) && AreDimensions(dims)
    ensures i + |Decorations(dims)| <= |s|
    ensures SkipDimensions(s, i, some) == SkipDimensions(s, i + |Decorations(dims)|, some || |dims| > 0)
    decreases |dims|
  {
    hide Occurs, SkipDimension, SkipDimensions;
    OccursSize(s, i, Decorations(dims));
    if |dims| > 0 {
      var x, rest := dims[0], Decorations(dims[1..]);
      assert Decorations(dims) == [LBRACKET] + (x + [RBRACKET]) + rest;
      OccursConcat(s, i, [LBRACKET] + (x + [RBRACKET]), rest);
      OccursConcat(s, i, [LBRACKET], x + [RBRACKET]);
      OccursFirst(s, i, [LBRACKET]);
      DimensionRun(s, i + 1, x);
      DecorationTurn(s, i, i + 1 + |x|, some);
      DecorationsRun(s, i + |x| + 2, dims[1..], true);
    }
  }

  /** Dimension decorations in front of an array's text are ignored, as the decoder's documentation says. */
  lemma DecoratedRoundTrip(c: Coder, items: seq<Value>, dims: seq<seq<byte>>)
    requires c.TextArray? && GoodCoder(c) && ConformsList(c, items, 1) && AreDimensions(dims) && |dims| > 0
    ensures ListText(c, items, 1).Ok?
    ensures DecodeArray(c, Decorations(dims) + [EQUALS] + ListText(c, items, 1).value) == Ok(List(items))
  {
    hide ReadList, Occurs, ListText, Decorations, SkipDimensions;
    ListTextClean(c, items, 1);
    var text, front := ListText(c, items, 1).value, Decorations(dims);
    var s := front + [EQUALS] + text;
    var start := |front| + 1;
    OccursWhole(s);
    OccursConcat(s, 0, front + [EQUALS], text);
    OccursConcat(s, 0, front, [EQUALS]);
    OccursFirst(s, |front|, [EQUALS]);
    DecorationsRun(s, 0, dims, false);
    ListStarts(c, items, 1);
    assert s[start] == text[0] == LBRACE;
    BehindDecorations(s, |front|);
    var level := ListRun(c, s, start, seq(|s|, _ => 0), items, 1);
    assert SkipSpace(s, |s|) == |s|;
  }

  lemma BehindDecorations(s: seq<byte>, i: nat)
    requires i + 1 < |s| && s[i] == EQUALS && s[i + 1] == LBRACE
    requires SkipDimensions(s, 0, false) == SkipDimensions(s, i, true)
    ensures ArrayStart(s) == Ok(i + 1)
  {
  }

  lemma ListStarts(c: Coder, items: seq<Value>, depth: nat)
    requires c.TextArray? && ListText(c, items, depth).Ok?
    ensures |ListText(c, items, depth).value| > 0 && ListText(c, items, depth).value[0] == LBRACE
  {
    hide ListBody;
  }

  lemma {:induction false} ListRun(c: Coder, s: seq<byte>, i: nat, word: seq<byte>, items: seq<Value>, depth: nat)
    returns (level: Level)
    requires c.TextArray? && GoodCoder(c) && ConformsList(c, items, depth) && |word| == |s|
    requires ListText(c, items, depth).Ok? && Occurs(s, i, ListText(c, items, depth).value)
    ensures i < |s| && s[i] == LBRACE
    ensures ReadList(c, s, i + 1, word) == Ok(level)
    ensures level.index + 1 == i + |ListText(c, items, depth).value| && level.items == items
    decreases c, items, 2
  {
    hide Occurs, ReadItems, ListBody;
    var body := ListBody(c, items, depth).value;
    assert ListText(c, items, depth).value == [LBRACE] + (body + [RBRACE]);
    OccursConcat(s, i, [LBRACE], body + [RBRACE]);
    OccursConcat(s, i + 1, body, [RBRACE]);
    OccursFirst(s, i, [LBRACE]);
    OccursFirst(s, i + 1 + |body|, [RBRACE]);
    if |items| == 0 {
      EmptyBody(c, depth);
      level := Level(i + 1, [], word);
      assert items == [];
    } else {
      BodyStart(c, items, depth);
      OccursFirst(s, i + 1, body);
      level := BodyRun(c, s, i + 1, word, [], items, depth);
      assert [] + items == items;
    }
  }

  lemma EmptyBody(c: Coder, depth: nat)
    requires c.TextArray?
    ensures ListBody(c, [], depth) == Ok([])
  {
  }

  lemma BodyStart(c: Coder, items: seq<Value>, depth: nat)
    requires c.TextArray? && |items| > 0 && ListBody(c, items, depth).Ok?
    ensures |ListBody(c, items, depth).value| > 0 && ListBody(c, items, depth).value[0] != RBRACE
  {
    ItemStart(c, items[0], depth);
  }

  lemma {:induction false} BodyRun(
    c: Coder, s: seq<byte>, i: nat, word: seq<byte>, before: seq<Value>, items: seq<Value>, depth: nat)
    returns (level: Level)
    requires c.TextArray? && GoodCoder(c) && ConformsItems(c, items, depth) && |word| == |s| && |items| > 0
    requires ListBody(c, items, depth).Ok? && Occurs(s, i, ListBody(c, items, depth).value)
    requires i + |ListBody(c, items, depth).value| < |s|
    requires s[i + |ListBody(c, items, depth).value|] == RBRACE
    ensures ReadItems(c, s, Fresh(i, word, before)) == Ok(level)
    ensures level.index == i + |ListBody(c, items, depth).value| && level.items == before + items
    decreases c, items, 1
  {
    hide Occurs, ReadItems, PushItem, ItemText, Fresh;
    var t := ItemText(c, items[0], depth).value;
    var body := ListBody(c, items, depth).value;
    if |items| == 1 {
      assert body == t;
      var r := ItemRun(c, s, i, word, before, items[0], depth);
      var p := PushItem(c, r).value;
      ClosingTurn(c, s, r, p);
      level := Level(r.index, p.items, p.word);
      assert items == [items[0]];
    } else {
      var rest := ListBody(c, items[1..], depth).value;
      assert body == t + ([c.delimiter] + rest);
      OccursConcat(s, i, t, [c.delimiter] + rest);
      OccursConcat(s, i + |t|, [c.delimiter], rest);
      OccursFirst(s, i + |t|, [c.delimiter]);
      var r := ItemRun(c, s, i, word, before, items[0], depth);
      var p := PushItem(c, r).value;
      ClosingTurn(c, s, r, p);
      level := BodyRun(c, s, i + |t| + 1, p.word, p.items, items[1..], depth);
      assert before + [items[0]] + items[1..] == before + items;
    }
  }

  lemma {:induction false} ItemRun(
    c: Coder, s: seq<byte>, i: nat, word: seq<byte>, before: seq<Value>, entry: Value, depth: nat)
    returns (r: Reading)
    requires c.TextArray? && GoodCoder(c) && ConformsItem(c, entry, depth) && |word| == |s| && i <= |s|
    requires ItemText(c, entry, depth).Ok? && Occurs(s, i, ItemText(c, entry, depth).value)
    ensures AtEndOf(c, s, i, word, before, ItemText(c, entry, depth).value, entry, r)
    decreases c, entry, 3
  {
    hide Occurs, ReadItems, ListText;
    if IsSubArray(c, entry, depth) {
      var sub := ListRun(c, s, i, word, entry.items, depth + 1);
      var r0 := Fresh(i, word, before);
      SubArrayTurn(c, s, r0, sub);
      r := r0.(index := sub.index + 1, word := sub.word, escapeNext := true, items := before + [List(sub.items)]);
      assert List(sub.items) == entry;
    } else if entry.Nil? {
      r := NullRun(c, s, i, word, before);
    } else {
      ElementText(c, entry);
      DecodeEncode(c.elem, entry);
      r := ElementRun(c, s, i, word, before, Encode(c.elem, entry).value, entry);
    }
  }

  // Records.

  /** Inside quotes, the doubled text of a column is collected undoubled. */
  lemma {:induction false} FieldRun(s: seq<byte>, i: nat, x: seq<byte>, field: seq<byte>)
    requires i <= |s| && Occurs(s, i, Escaped(RecordField, x)) && NulFree(x)
    ensures i + |Escaped(RecordField, x)| <= |s|
    ensures ReadField(s, i, true, field) == ReadField(s, i + |Escaped(RecordField, x)|, true, field + x)
    decreases |x|
  {
    hide Occurs, ReadField;
    OccursSize(s, i, Escaped(RecordField, x));
    if |x| == 0 {
      assert field + x == field;
    } else {
      var piece, rest := RecordField.EscapedByte(x[0]), Escaped(RecordField, x[1..]);
      assert Escaped(RecordField, x) == piece + rest;
      OccursConcat(s, i, piece, rest);
      FieldByte(s, i, x[0], field);
      FieldRun(s, i + |piece|, x[1..], field + [x[0]]);
      assert field + [x[0]] + x[1..] == field + x;
    }
  }

  lemma FieldByte(s: seq<byte>, i: nat, ch: byte, field: seq<byte>)
    requires i <= |s| && Occurs(s, i, RecordField.EscapedByte(ch)) && ch != 0
    ensures i + |RecordField.EscapedByte(ch)| <= |s|
    ensures ReadField(s, i, true, field) == ReadField(s, i + |RecordField.EscapedByte(ch)|, true, field + [ch])
  {
    hide Occurs;
    OccursFirst(s, i, RecordField.EscapedByte(ch));
    if RecordField.Special(ch) {
      assert RecordField.EscapedByte(ch)[1..] == [ch];
      OccursFirst(s, i + 1, [ch]);
    }
  }

  lemma QuotedFieldRun(s: seq<byte>, i: nat, x: seq<byte>)
    requires i <= |s| && Occurs(s, i, Quoted(RecordField, x)) && NulFree(x)
    requires i + |Quoted(RecordField, x)| < |s|
    requires s[i + |Quoted(RecordField, x)|] == COMMA || s[i + |Quoted(RecordField, x)|] == RPAREN
    ensures i < |s| && s[i] == QUOTE
    ensures ReadField(s, i, false, []) == Ok((i + |Quoted(RecordField, x)|, x))
  {
    hide Occurs, Escaped;
    var e := Escaped(RecordField, x);
    assert Quoted(RecordField, x) == [QUOTE] + (e + [QUOTE]);
    OccursConcat(s, i, [QUOTE], e + [QUOTE]);
    OccursConcat(s, i + 1, e, [QUOTE]);
    OccursFirst(s, i, [QUOTE]);
    OccursFirst(s, i + 1 + |e|, [QUOTE]);
    FieldRun(s, i + 1, x, []);
    assert [] + x == x;
    var j := i + 1 + |e|;
    assert ReadField(s, j, true, x) == ReadField(s, j + 1, false, x);
  }

  lemma {:induction false} FieldsRun(c: Coder, s: seq<byte>, i: nat, before: seq<Value>, items: seq<Value>)
    requires c.TextRecord? && GoodCoder(c) && |before| + |items| == |c.columns| && |items| > 0
    requires ConformsColumns(c, items)
    requires RecordBody(c, items).Ok? && Occurs(s, i, RecordBody(c, items).value)
    requires i + |RecordBody(c, items).value| < |s| && s[i + |RecordBody(c, items).value|] == RPAREN
    ensures ReadFields(c, s, i, before) == Ok((i + |RecordBody(c, items).value| + 1, before + items))
    decreases c, items, 1
  {
    hide Occurs, FieldText, ReadFields;
    var t := FieldText(c, |before|, items[0]).value;
    var body := RecordBody(c, items).value;
    if |items| == 1 {
      assert body == t && items == [items[0]];
      ColumnRun(c, s, i, before, items[0]);
    } else {
      var rest := RecordBody(c, items[1..]).value;
      assert body == t + ([COMMA] + rest);
      OccursConcat(s, i, t, [COMMA] + rest);
      OccursConcat(s, i + |t|, [COMMA], rest);
      OccursFirst(s, i + |t|, [COMMA]);
      ColumnRun(c, s, i, before, items[0]);
      ColumnsTail(c, items);
      FieldsRun(c, s, i + |t| + 1, before + [items[0]], items[1..]);
      assert before + [items[0]] + items[1..] == before + items;
    }
  }

  /** One column, up to the comma or parenthesis behind it. */
  lemma {:induction false} ColumnRun(c: Coder, s: seq<byte>, i: nat, before: seq<Value>, entry: Value)
    requires c.TextRecord? && GoodCoder(c) && |before| < |c.columns|
    requires entry.Nil? || (Conforms(c.columns[|before|], entry) && Zeroless(entry))
    requires FieldText(c, |before|, entry).Ok? && Occurs(s, i, FieldText(c, |before|, entry).value)
    requires i + |FieldText(c, |before|, entry).value| < |s|
    ensures var j := i + |FieldText(c, |before|, entry).value|;
            && (s[j] == COMMA ==> ReadFields(c, s, i, before) == ReadFields(c, s, j + 1, before + [entry]))
            && (s[j] == RPAREN ==> ReadFields(c, s, i, before) == Ok((j + 1, before + [entry])))
    decreases c, entry, 3
  {
    hide Occurs, Decode, Quoted;
    if !entry.Nil? {
      var column := c.columns[|before|];
      EncodeClean(column, entry);
      DecodeEncode(column, entry);
      var x := Encode(column, entry).value;
      var j := i + |Quoted(RecordField, x)|;
      if s[j] == COMMA || s[j] == RPAREN {
        QuotedFieldRun(s, i, x);
      }
    }
  }

  lemma {:induction false} RecordRoundTrip(c: Coder, items: seq<Value>)
    requires c.TextRecord? && GoodCoder(c) && |items| == |c.columns| > 0 && ConformsColumns(c, items)
    ensures RecordBody(c, items).Ok?
    ensures DecodeRecord(c, [LPAREN] + RecordBody(c, items).value + [RPAREN]) == Ok(List(items))
    decreases c, items, 3
  {
    hide Occurs, RecordBody, ReadFields;
    RecordBodyClean(c, items);
    var body := RecordBody(c, items).value;
    var s := [LPAREN] + body + [RPAREN];
    OccursWhole(s);
    assert s == [LPAREN] + (body + [RPAREN]);
    OccursConcat(s, 0, [LPAREN], body + [RPAREN]);
    OccursConcat(s, 1, body, [RPAREN]);
    FieldsRun(c, s, 1, [], items);
    assert [] + items == items;
    assert SkipSpace(s, 0) == 0 && SkipSpace(s, |s|) == |s|;
  }
}
