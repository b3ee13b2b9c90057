/**
 The array and record printers as they run: the output string grows as needed, elements that are finished
 strings are copied with escapes, and elements written in a second pass are escaped where they stand.
 */
module TextEncoders {
  import opened Bytes
  import opened Escape
  import opened FieldValues
  import opened RubyString
  import opened TextFormat
  import TextInteger

  method EncodeFirst(c: Coder, v: Value) returns (r: Result<FirstPass<int>>)
    ensures r.Ok? <==> Encode(c, v).Ok?
    ensures r.Ok? && r.value.OnePass? ==> Encode(c, v) == Ok(r.value.text)
    ensures r.Ok? && r.value.Needs? ==>
              c.TextInteger? && v.Int? && r.value == Needs(TextInteger.Estimate(v.n), v.n) &&
              TextInteger.FIXNUM_MIN <= v.n <= TextInteger.FIXNUM_MAX
    ensures r.Err? ==> r.error == Encode(c, v).error
    decreases c, v, 3
  {
    match c
    case TextString =>
      var text :- AsText(v);
      return Ok(OnePass(text));
    case TextInteger(_) =>
      if !v.Int? {
        return Err(WrongType);
      }
      if TextInteger.FIXNUM_MIN <= v.n <= TextInteger.FIXNUM_MAX {
        TextInteger.EstimateSuffices(v.n);
        return Ok(Needs(TextInteger.Estimate(v.n), v.n));
      }
      return Ok(OnePass(TextInteger.Decimal(v.n)));
    case TextRecord(_) =>
      var text :- EncodeRecord(c, v);
      return Ok(OnePass(text));
    case TextArray(_, _, _) =>
      if v.List? {
        var out := new OutString();
        var _ :- WriteArray(c, v.items, out, 1);
        assert [] + ListText(c, v.items, 1).value == ListText(c, v.items, 1).value;
        return Ok(OnePass(out.data[..out.len]));
      }
      var text :- AsText(v);
      return Ok(OnePass(text));
  }

  /** `write_array`: one level of an array appended to the output. */
  method WriteArray(c: Coder, items: seq<Value>, out: OutString, depth: nat) returns (r: Result<()>)
    requires c.TextArray? && out.Valid()
    modifies out, out.data
    ensures out.Valid() && (out.data == old(out.data) || fresh(out.data))
    ensures r.Ok? <==> ListText(c, items, depth).Ok?
    ensures r.Ok? ==> out.Contents() == old(out.Contents()) + ListText(c, items, depth).value
    ensures r.Err? ==> r.error == ListText(c, items, depth).error
    decreases c, items, 2
  {
    hide ItemText, ListBody, BodySplit;
    ghost var before := out.Contents();
    out.EnsureCapa(2);
    out.Put(LBRACE);
    if |items| == 0 && c.dimensions >= 0 && depth != c.dimensions {
      return Err(WrongDimensions);
    }
    ghost var done: seq<byte> := [];
    BodyStart(c, items, depth);
    for i := 0 to |items|
      invariant out.Valid() && (out.data == old(out.data) || fresh(out.data))
      invariant out.Contents() == before + [LBRACE] + done
      invariant BodySplit(c, items, depth, i, done)
    {
      BodyStep(c, items, depth, i, done);
      var _ :- WriteSeparated(c, items[i], i > 0, out, depth);
      ghost var text := (if i > 0 then [c.delimiter] else []) + ItemText(c, items[i], depth).value;
      Assoc(before + [LBRACE], done, text);
      done := done + text;
    }
    BodyEnd(c, items, depth, done);
    out.EnsureCapa(1);
    out.Put(RBRACE);
    Assoc(before, [LBRACE], done);
    Assoc(before, [LBRACE] + done, [RBRACE]);
    return Ok(());
  }

  /** The items up to `i` make the text `done`, and what becomes of the rest decides the whole. */
  ghost predicate BodySplit(c: Coder, items: seq<Value>, depth: nat, i: nat, done: seq<byte>)
    requires c.TextArray?
  {
    && i <= |items|
    && var whole, rest := ListBody(c, items, depth), ListBody(c, items[i..], depth);
       && (rest.Err? ==> whole == rest)
       && (rest.Ok? ==> whole == Ok(done + (if 0 < i < |items| then [c.delimiter] else []) + rest.value))
  }

  lemma BodyStart(c: Coder, items: seq<Value>, depth: nat)
    requires c.TextArray?
    ensures BodySplit(c, items, depth, 0, [])
  {
    assert items[0..] == items;
    var whole := ListBody(c, items, depth);
    assert whole.Ok? ==> [] + [] + whole.value == whole.value;
  }

  lemma BodyStep(c: Coder, items: seq<Value>, depth: nat, i: nat, done: seq<byte>)
    requires c.TextArray? && BodySplit(c, items, depth, i, done) && i < |items|
    ensures var t := ItemText(c, items[i], depth);
            && (t.Err? ==> ListBody(c, items, depth) == Err(t.error))
            && (t.Ok? ==>
                  BodySplit(c, items, depth, i + 1, done + ((if i > 0 then [c.delimiter] else []) + t.value)))
  {
    hide ItemText;
    assert items[i..][1..] == items[i + 1..];
    var t := ItemText(c, items[i], depth);
    var rest := ListBody(c, items[i + 1..], depth);
    if t.Ok? && rest.Ok? {
      var separator := if i > 0 then [c.delimiter] else [];
      Assoc(done, separator, t.value);
      Assoc(done + separator, t.value, [c.delimiter]);
      Assoc(done + separator, t.value + [c.delimiter], rest.value);
      NoText(done + (separator + t.value));
      assert |items| == i + 1 ==> rest.value == [];
    }
  }

  lemma BodyEnd(c: Coder, items: seq<Value>, depth: nat, done: seq<byte>)
    requires c.TextArray? && BodySplit(c, items, depth, |items|, done)
    ensures ListBody(c, items, depth) == Ok(done)
  {
    assert items[|items|..] == [];
    assert done + [] + [] == done;
  }

  /** The delimiter, if there was an item before, and the next item. */
  method WriteSeparated(c: Coder, entry: Value, separate: bool, out: OutString, depth: nat) returns (r: Result<()>)
    requires c.TextArray? && out.Valid()
    modifies out, out.data
    ensures out.Valid() && (out.data == old(out.data) || fresh(out.data))
    ensures r.Ok? <==> ItemText(c, entry, depth).Ok?
    ensures r.Ok? ==>
              out.Contents() ==
              old(out.Contents()) + ((if separate then [c.delimiter] else []) + ItemText(c, entry, depth).value)
    ensures r.Err? ==> r.error == ItemText(c, entry, depth).error
    decreases c, entry, 5
  {
    hide ItemText;
    if separate {
      out.EnsureCapa(1);
      out.Put(c.delimiter);
    }
    r := WriteItem(c, entry, out, depth);
  }

  method WriteItem(c: Coder, entry: Value, out: OutString, depth: nat) returns (r: Result<()>)
    requires c.TextArray? && out.Valid()
    modifies out, out.data
    ensures out.Valid() && (out.data == old(out.data) || fresh(out.data))
    ensures r.Ok? <==> ItemText(c, entry, depth).Ok?
    ensures r.Ok? ==> out.Contents() == old(out.Contents()) + ItemText(c, entry, depth).value
    ensures r.Err? ==> r.error == ItemText(c, entry, depth).error
    decreases c, entry, 4
  {
    if entry.Nil? {
      if c.dimensions >= 0 && depth != c.dimensions {
        return Err(WrongDimensions);
      }
      out.EnsureCapa(4);
      out.Copy(NULL_WORD);
      return Ok(());
    }
    if entry.List? && (c.dimensions < 0 || depth < c.dimensions) {
      r := WriteArray(c, entry.items, out, depth + 1);
      return;
    }
    if c.dimensions >= 0 && depth != c.dimensions {
      return Err(WrongDimensions);
    }
    r := QuoteElement(c, entry, out);
  }

  /** `quote_string` with `quote_array_buffer`. */
  method QuoteElement(c: Coder, entry: Value, out: OutString) returns (r: Result<()>)
    requires c.TextArray? && out.Valid()
    modifies out, out.data
    ensures out.Valid() && (out.data == old(out.data) || fresh(out.data))
    ensures r.Ok? <==> Encode(c.elem, entry).Ok?
    ensures r.Ok? ==> out.Contents() == old(out.Contents()) + ItemQuoted(c.delimiter, Encode(c.elem, entry).value)
    ensures r.Err? ==> r.error == Encode(c.elem, entry).error
    decreases c, entry, 3
  {
    hide ItemQuoted, Splice, Encode, TextInteger.Decimal, TextInteger.Estimate;
    var first :- EncodeFirst(c.elem, entry);
    match first
    case OnePass(text) =>
      var sub := new byte[|text|](i requires 0 <= i < |text| => text[i]);
      assert sub[0..|text|] == text;
      out.EnsureCapa(|text| * 2 + 2);
      ghost var before := out.data[..];
      var size := QuoteArrayBuffer(c.delimiter, sub, 0, |text|, out.data, out.len);
      out.Extend(before, ItemQuoted(c.delimiter, text), size);
      return Ok(());
    case Needs(size, n) =>
      out.EnsureCapa(2 * size + 2);
      ghost var before := out.data[..];
      ghost var text := TextInteger.Decimal(n);
      var len := PlaceInteger(n, out);
      var quoted := QuoteArrayBuffer(c.delimiter, out.data, out.len, len, out.data, out.len);
      SpliceOver(before, out.len, text, ItemQuoted(c.delimiter, text));
      out.Extend(before, ItemQuoted(c.delimiter, text), quoted);
      IntegerText(c.elem, entry);
      return Ok(());
  }

  lemma IntegerText(c: Coder, v: Value)
    requires c.TextInteger? && v.Int?
    ensures Encode(c, v) == Ok(TextInteger.Decimal(v.n))
  {
  }

  /** A second pass: the unescaped text is placed at the current output position. */
  method PlaceInteger(n: int, out: OutString) returns (len: nat)
    requires TextInteger.FIXNUM_MIN <= n <= TextInteger.FIXNUM_MAX
    requires out.Valid() && out.len + TextInteger.Estimate(n) <= out.data.Length
    modifies out.data
    ensures len == |TextInteger.Decimal(n)| <= TextInteger.Estimate(n)
    ensures out.data[..] == Splice(old(out.data[..]), out.len, TextInteger.Decimal(n))
    ensures out.data[out.len..out.len + len] == TextInteger.Decimal(n)
  {
    hide TextInteger.Decimal, TextInteger.Estimate, Splice;
    ghost var before := out.data[..];
    len := TextInteger.EncodeInto(n, out.data, out.len);
    SplicePart(before, out.len, TextInteger.Decimal(n));
  }

  /** `quote_array_buffer`: the item quoted only if it needs to be. */
  method QuoteArrayBuffer(delimiter: byte, inp: array<byte>, inStart: nat, len: nat, out: array<byte>, start: nat)
    returns (size: nat)
    requires inStart + len <= inp.Length && start + 2 * len + 2 <= out.Length
    requires inp == out ==> inStart == start
    modifies out
    ensures size == |ItemQuoted(delimiter, old(inp[inStart..inStart + len]))| <= 2 * len + 2
    ensures out[..] == Splice(old(out[..]), start, ItemQuoted(delimiter, old(inp[inStart..inStart + len])))
    ensures |ItemQuoted(delimiter, old(inp[inStart..inStart + len]))| >= len
  {
    hide Quoted, Splice, Escaped;
    ghost var s, before := inp[inStart..inStart + len], out[..];
    QuotedSize(ArrayItem, s);
    var need := DetectQuotes(delimiter, inp, inStart, len);
    if need {
      size := QuoteText(ArrayItem, inp, inStart, len, out, start);
    } else {
      if inp != out {
        MoveBytes(inp, inStart, len, out, start);
      } else {
        SpliceSame(before, start, s);
      }
      size := len;
    }
  }

  lemma QuotedSize(st: Style, s: seq<byte>)
    ensures |s| + 2 <= |Quoted(st, s)| <= 2 * |s| + 2
  {
    EscapedSize(st, s);
  }

  /** `memcpy` between different buffers. */
  method MoveBytes(inp: array<byte>, inStart: nat, len: nat, out: array<byte>, start: nat)
    requires inStart + len <= inp.Length && start + len <= out.Length && inp != out
    modifies out
    ensures out[..] == Splice(old(out[..]), start, inp[inStart..inStart + len])
  {
    ghost var before := out[..];
    for i := 0 to len
      invariant out[..] == Splice(before, start, inp[inStart..inStart + i])
    {
      out[start + i] := inp[inStart + i];
      assert inp[inStart..inStart + i + 1] == inp[inStart..inStart + i] + [inp[inStart + i]];
    }
  }

  /** The first half of `quote_array_buffer`: is quoting needed? */
  method DetectQuotes(delimiter: byte, inp: array<byte>, inStart: nat, len: nat) returns (need: bool)
    requires inStart + len <= inp.Length
    ensures need <==> NeedsQuotes(delimiter, inp[inStart..inStart + len])
  {
    ghost var s := inp[inStart..inStart + len];
    if len == 0 {
      need := true;
    } else if len == 4 {
      var difference := CompareNull(inp, inStart);
      need := difference == 0;
    } else {
      need := false;
    }
    ghost var word := need;
    for i := 0 to len
      invariant need <==> word || exists k :: 0 <= k < i && IsMeta(delimiter, s[k])
    {
      if IsMeta(delimiter, inp[inStart + i]) {
        need := true;
      }
    }
  }

  /** `rbpg_strncasecmp` against the word NULL. */
  method CompareNull(inp: array<byte>, start: nat) returns (difference: int)
    requires start + 4 <= inp.Length
    ensures difference == CaseCompare(inp[start..start + 4], NULL_WORD)
  {
    ghost var s := inp[start..start + 4];
    for i := 0 to 4
      invariant CaseCompare(s, NULL_WORD) == CaseCompare(s[i..], NULL_WORD[i..])
    {
      var ch1, ch2 := inp[start + i], NULL_WORD[i];
      assert s[i..][1..] == s[i + 1..] && NULL_WORD[i..][1..] == NULL_WORD[i + 1..];
      if ch1 != ch2 {
        ch1 := Lower(ch1);
        ch2 := Lower(ch2);
        if ch1 != ch2 {
          return ch1 as int - ch2;
        }
      }
      if ch1 == 0 {
        return 0;
      }
    }
    return 0;
  }

  /** `pg_text_enc_record`. */
  method EncodeRecord(c: Coder, v: Value) returns (r: Result<seq<byte>>)
    requires c.TextRecord?
    ensures r == Encode(c, v)
    decreases c, v, 2
  {
    hide FieldText, RecordBody, FieldsSplit;
    if !v.List? {
      return Err(WrongType);
    }
    if |v.items| != |c.columns| {
      return Err(TooManyColumns);
    }
    var items := v.items;
    var out := new OutString();
    out.EnsureCapa(1);
    out.Put(LPAREN);
    ghost var done: seq<byte> := [];
    FieldsStart(c, items);
    for i := 0 to |items|
      invariant out.Valid() && fresh(out) && fresh(out.data)
      invariant out.Contents() == [LPAREN] + done
      invariant FieldsSplit(c, items, i, done)
    {
      FieldsStep(c, items, i, done);
      ghost var separator := if i > 0 then [COMMA] else [];
      if i > 0 {
        out.EnsureCapa(1);
        out.Put(COMMA);
      }
      assert out.Contents() == [LPAREN] + done + separator;
      var _ :- WriteField(c, i, items[i], out);
      ghost var text := FieldText(c, i, items[i]).value;
      Assoc([LPAREN], done, separator);
      Assoc([LPAREN], done + separator, text);
      done := done + separator + text;
    }
    FieldsEnd(c, items, done);
    out.EnsureCapa(1);
    out.Put(RPAREN);
    return Ok(out.data[..out.len]);
  }

  ghost predicate FieldsSplit(c: Coder, items: seq<Value>, i: nat, done: seq<byte>)
    requires c.TextRecord? && |items| == |c.columns|
  {
    && i <= |items|
    && var whole, rest := RecordBody(c, items), RecordBody(c, items[i..]);
       && (rest.Err? ==> whole == rest)
       && (rest.Ok? ==> whole == Ok(done + (if 0 < i < |items| then [COMMA] else []) + rest.value))
  }

  lemma FieldsStart(c: Coder, items: seq<Value>)
    requires c.TextRecord? && |items| == |c.columns|
    ensures FieldsSplit(c, items, 0, [])
  {
    assert items[0..] == items;
    var whole := RecordBody(c, items);
    assert whole.Ok? ==> [] + [] + whole.value == whole.value;
  }

  lemma FieldsStep(c: Coder, items: seq<Value>, i: nat, done: seq<byte>)
    requires c.TextRecord? && |items| == |c.columns| && FieldsSplit(c, items, i, done) && i < |items|
    ensures var t := FieldText(c, i, items[i]);
            && (t.Err? ==> RecordBody(c, items) == Err(t.error))
            && (t.Ok? ==> FieldsSplit(c, items, i + 1, done + (if i > 0 then [COMMA] else []) + t.value))
  {
    hide FieldText;
    assert items[i..][1..] == items[i + 1..];
    var t := FieldText(c, i, items[i]);
    var rest := RecordBody(c, items[i + 1..]);
    if t.Ok? && rest.Ok? {
      var separator := if i > 0 then [COMMA] else [];
      Assoc(done + separator, t.value, [COMMA]);
      Assoc(done + separator, t.value + [COMMA], rest.value);
      NoText(done + separator + t.value);
      assert |items| == i + 1 ==> rest.value == [];
    }
  }

  lemma FieldsEnd(c: Coder, items: seq<Value>, done: seq<byte>)
    requires c.TextRecord? && |items| == |c.columns| && FieldsSplit(c, items, |items|, done)
    ensures RecordBody(c, items) == Ok(done)
  {
    assert items[|items|..] == [];
    assert done + [] + [] == done;
  }

  /** One column: nothing for nil, otherwise quotes around the escaped text. */
  method WriteField(c: Coder, k: nat, entry: Value, out: OutString) returns (r: Result<()>)
    requires c.TextRecord? && k < |c.columns| && out.Valid()
    modifies out, out.data
    ensures out.Valid() && (out.data == old(out.data) || fresh(out.data))
    ensures r.Ok? <==> FieldText(c, k, entry).Ok?
    ensures r.Ok? ==> out.Contents() == old(out.Contents()) + FieldText(c, k, entry).value
    ensures r.Err? ==> r.error == FieldText(c, k, entry).error
    decreases c, entry, 4
  {
    hide Splice, Encode, Quoted;
    if entry.Nil? {
      return Ok(());
    }
    var first :- EncodeFirst(c.columns[k], entry);
    match first
    case OnePass(text) =>
      PutFinished(text, out);
      return Ok(());
    case Needs(_, n) =>
      PutInteger(n, out);
      IntegerText(c.columns[k], entry);
      return Ok(());
  }

  /** A column that is a finished string: copied with its quotes doubled. */
  method PutFinished(text: seq<byte>, out: OutString)
    requires out.Valid()
    modifies out, out.data
    ensures out.Valid() && (out.data == old(out.data) || fresh(out.data))
    ensures out.Contents() == old(out.Contents()) + Quoted(RecordField, text)
  {
    hide Splice, Escaped;
    ghost var contents, e := out.Contents(), Escaped(RecordField, text);
    EscapedSize(RecordField, text);
    out.EnsureCapa(|text| * 2 + 2);
    out.Put(QUOTE);
    ghost var before := out.data[..];
    var end := EscapeForward(RecordField, text, out.data, out.len);
    out.Extend(before, e, end - out.len);
    assert out.Contents() == contents + [QUOTE] + e;
    out.Put(QUOTE);
    Assoc(contents, [QUOTE], e);
    Assoc(contents, [QUOTE] + e, [QUOTE]);
  }

  /** A column written in a second pass: placed unescaped, then spread over itself. */
  method PutInteger(n: int, out: OutString)
    requires TextInteger.FIXNUM_MIN <= n <= TextInteger.FIXNUM_MAX && out.Valid()
    modifies out, out.data
    ensures out.Valid() && (out.data == old(out.data) || fresh(out.data))
    ensures out.Contents() == old(out.Contents()) + Quoted(RecordField, TextInteger.Decimal(n))
  {
    hide Splice, Escaped, TextInteger.Decimal, TextInteger.Estimate;
    ghost var text := TextInteger.Decimal(n);
    ghost var contents, e := out.Contents(), Escaped(RecordField, text);
    EscapedSize(RecordField, text);
    TextInteger.EstimateSuffices(n);
    var size := TextInteger.Estimate(n);
    out.EnsureCapa(size * 2 + 2);
    out.Put(QUOTE);
    ghost var before := out.data[..];
    var len := PlaceInteger(n, out);
    var end := EscapeInPlace(RecordField, out.data, out.len, len);
    SpliceOver(before, out.len, text, e);
    out.Extend(before, e, end - out.len);
    assert out.Contents() == contents + [QUOTE] + e;
    out.Put(QUOTE);
    Assoc(contents, [QUOTE], e);
    Assoc(contents, [QUOTE] + e, [QUOTE]);
  }
}
