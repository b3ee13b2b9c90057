/**
 The array and record parsers as they run: one pass over the text, a scratch buffer that all levels of an array
 share, and a column buffer. Each is proved to compute the parsing functions of TextFormat, for every input.
 */
module TextDecoders {
  import opened Bytes
  import opened Escape
  import opened TextFormat
  import TextInteger

  method DecodeValue(c: Coder, s: seq<byte>) returns (r: Result<Value>)
    ensures r == Decode(c, s)
    decreases c, |s| + 2, 0
  {
    match c
    case TextString => r := Ok(Str(s));
    case TextInteger(ruby) => r := DecodeNumber(ruby, s);
    case TextRecord(_) => r := ReadRecord(c, s);
    case TextArray(_, _, _) => r := ReadArray(c, s);
  }

  method DecodeNumber(ruby: TextInteger.RubyParser, s: seq<byte>) returns (r: Result<Value>)
    ensures r == Decode(Coder.TextInteger(ruby), s)
  {
    if |s| <= 18 {
      var fast := TextInteger.DecodeFast(s);
      if fast.Some? {
        return Ok(Int(fast.value));
      }
    }
    return Ok(Int(ruby(s)));
  }

  /** `pg_text_dec_array`. */
  method ReadArray(c: Coder, s: seq<byte>) returns (r: Result<Value>)
    requires c.TextArray?
    ensures r == DecodeArray(c, s)
    decreases c, |s| + 1, 0
  {
    var start :- FindBraces(s);
    var word := new byte[|s|](_ => 0);
    assert word[..] == seq(|s|, _ => 0);
    var items, index :- ReadWithoutDim(c, s, start + 1, word);
    index := index + 1;
    ghost var first := index;
    while index < |s|
      invariant first <= index <= |s| && SkipSpace(s, first) == SkipSpace(s, index)
    {
      if !IsSpace(s[index]) {
        return Err(Malformed);
      }
      index := index + 1;
    }
    return Ok(List(items));
  }

  /** The scan over the dimension decorations, up to the opening brace. */
  method FindBraces(s: seq<byte>) returns (r: Result<nat>)
    ensures r == ArrayStart(s)
  {
    var index := 0;
    var some := false;
    while true
      invariant index <= |s|
      invariant SkipDimensions(s, 0, false) == SkipDimensions(s, index, some)
      decreases |s| - index
    {
      ghost var before := index;
      index := SkipBlanks(s, index);
      if At(s, index) != LBRACKET {
        break;
      }
      index := index + 1;
      ghost var inside := index;
      while IsDimension(At(s, index))
        invariant inside <= index <= |s| && SkipDimension(s, inside) == SkipDimension(s, index)
        decreases |s| - index
      {
        index := index + 1;
      }
      if At(s, index) != RBRACKET {
        return Err(Malformed);
      }
      index := index + 1;
      some := true;
    }
    if some {
      if At(s, index) != EQUALS {
        return Err(Malformed);
      }
      index := SkipBlanks(s, index + 1);
    }
    if At(s, index) != LBRACE {
      return Err(Malformed);
    }
    return Ok(index);
  }

  method SkipBlanks(s: seq<byte>, i: nat) returns (j: nat)
    requires i <= |s|
    ensures j == SkipSpace(s, i)
  {
    j := i;
    while j < |s| && IsSpace(s[j])
      invariant i <= j <= |s| && SkipSpace(s, i) == SkipSpace(s, j)
    {
      j := j + 1;
    }
  }

  /** `read_array_without_dim`: the scratch buffer is written only below its length. */
  method ReadWithoutDim(c: Coder, s: seq<byte>, start: nat, word: array<byte>)
    returns (r: Result<seq<Value>>, index: nat)
    requires c.TextArray? && word.Length == |s| && start <= |s|
    modifies word
    ensures r.Ok? <==> ReadList(c, s, start, old(word[..])).Ok?
    ensures r.Ok? ==> ReadList(c, s, start, old(word[..])).value == Level(index, r.value, word[..])
    ensures r.Err? ==> r.error == ReadList(c, s, start, old(word[..])).error
    decreases c, |s| - start, 2
  {
    hide PushItem;
    index := start;
    var size, openQuote, escapeNext := 0, 0, false;
    var items: seq<Value> := [];
    ghost var goal := ReadList(c, s, start, word[..]);
    if index < |s| && s[index] == RBRACE {
      return Ok(items), index;
    }
    while index < |s|
      invariant start <= index <= |s| && size <= index
      invariant ReadItems(c, s, Reading(index, word[..], size, openQuote, escapeNext, items)) == goal
      decreases |s| - index
    {
      ghost var was := Reading(index, word[..], size, openQuote, escapeNext, items);
      var ch := s[index];
      if openQuote < 1 {
        if ch == c.delimiter || ch == RBRACE {
          items :- StoreItem(c, word, size, openQuote, escapeNext, items, was);
          if ch == RBRACE {
            return Ok(items), index;
          }
          escapeNext, openQuote, size := false, 0, 0;
        } else if ch == QUOTE {
          openQuote := 1;
        } else if ch == LBRACE {
          index := index + 1;
          var sub;
          sub, index :- ReadWithoutDim(c, s, index, word);
          items := items + [List(sub)];
          escapeNext := true;
        } else if ch == 0 {
          return Err(PrematureEnd), index;
        } else {
          word[size] := ch;
          assert word[..] == was.word[size := ch];
          size := size + 1;
        }
      } else if escapeNext {
        word[size] := ch;
        assert word[..] == was.word[size := ch];
        size := size + 1;
        escapeNext := false;
      } else if ch == BACKSLASH {
        escapeNext := true;
      } else if ch == QUOTE {
        openQuote := -1;
      } else {
        word[size] := ch;
        assert word[..] == was.word[size := ch];
        size := size + 1;
      }
      index := index + 1;
    }
    return Err(PrematureEnd), index;
  }

  /** The end of an item: nil, a decoded element, or nothing after a sub-array. */
  method StoreItem(
    c: Coder, word: array<byte>, size: nat, openQuote: int, escapeNext: bool, items: seq<Value>, ghost was: Reading)
    returns (r: Result<seq<Value>>)
    requires c.TextArray? && size < word.Length
    requires was == Reading(was.index, word[..], size, openQuote, escapeNext, items)
    modifies word
    ensures r.Ok? <==> PushItem(c, was).Ok?
    ensures r.Ok? ==> PushItem(c, was).value == was.(items := r.value, word := word[..])
    ensures r.Err? ==> r.error == PushItem(c, was).error
    decreases c, 0, 0
  {
    if escapeNext {
      return Ok(items);
    }
    if openQuote == 0 && size == 4 && word[..size] == NULL_WORD {
      return Ok(items + [Nil]);
    }
    var text := word[..size];
    word[size] := 0;
    assert word[..] == was.word[size := 0];
    var v :- DecodeValue(c.elem, text);
    return Ok(items + [v]);
  }

  /** `pg_text_dec_record`. */
  method ReadRecord(c: Coder, s: seq<byte>) returns (r: Result<Value>)
    requires c.TextRecord?
    ensures r == DecodeRecord(c, s)
    decreases c, |s| + 1, 0
  {
    var cur := SkipBlanks(s, 0);
    if At(s, cur) != LPAREN {
      return Err(Malformed);
    }
    cur := cur + 1;
    var fields: seq<Value> := [];
    ghost var goal := ReadFields(c, s, cur, []);
    while true
      invariant cur <= |s| && ReadFields(c, s, cur, fields) == goal
      decreases |s| - cur
    {
      if At(s, cur) == COMMA || At(s, cur) == RPAREN {
        fields := fields + [Nil];
      } else {
        var field;
        field, cur :- ScanField(s, cur);
        if |fields| >= |c.columns| {
          return Err(TooManyColumns);
        }
        var v :- DecodeValue(c.columns[|fields|], field);
        fields := fields + [v];
      }
      if s[cur] == COMMA {
        cur := cur + 1;
      } else {
        cur := cur + 1;
        break;
      }
    }
    cur := SkipBlanks(s, cur);
    if At(s, cur) != 0 {
      return Err(Malformed);
    }
    return Ok(List(fields));
  }

  /** The loop over one column: unquoting and undoubling into the column buffer. */
  method ScanField(s: seq<byte>, i: nat) returns (r: Result<seq<byte>>, cur: nat)
    requires i <= |s|
    ensures r.Ok? <==> ReadField(s, i, false, []).Ok?
    ensures r.Ok? ==> ReadField(s, i, false, []).value == (cur, r.value)
    ensures r.Err? ==> r.error == ReadField(s, i, false, []).error
  {
    cur := i;
    var inQuote := false;
    var field: seq<byte> := [];
    while inQuote || !(At(s, cur) == COMMA || At(s, cur) == RPAREN)
      invariant cur <= |s| && ReadField(s, cur, inQuote, field) == ReadField(s, i, false, [])
      decreases |s| - cur
    {
      var ch := At(s, cur);
      if ch == 0 {
        return Err(PrematureEnd), cur;
      }
      cur := cur + 1;
      if ch == BACKSLASH {
        if At(s, cur) == 0 {
          return Err(PrematureEnd), cur;
        }
        field := field + [s[cur]];
        cur := cur + 1;
      } else if ch == QUOTE {
        if !inQuote {
          inQuote := true;
        } else if At(s, cur) == QUOTE {
          field := field + [QUOTE];
          cur := cur + 1;
        } else {
          inQuote := false;
        }
      } else {
        field := field + [ch];
      }
    }
    return Ok(field), cur;
  }
}
