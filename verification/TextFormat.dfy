/**
 The text representations of composite values: arrays (ext/pg_text_encoder.c, ext/pg_text_decoder.c) and records
 (ext/pg_record_coder.c), nested through their element coders.
 */
module TextFormat {
  import opened Bytes
  import opened Escape
  import TextInteger

  /** Ruby values that these coders take and give. */
  datatype Value = Nil | Str(text: seq<byte>) | Int(n: int) | List(items: seq<Value>)

  /**
   An encoder and the decoder with the same settings. A negative `dimensions` stands for an unset one. Records
   map their columns by position (PG::TypeMapByColumn).
   */
  datatype Coder =
    | TextString
    | TextInteger(ruby: TextInteger.RubyParser)
    | TextRecord(columns: seq<Coder>)
    | TextArray(dimensions: int, delimiter: byte, elem: Coder)

  const LPAREN: byte := '(' as int
  const RPAREN: byte := ')' as int
  const LBRACKET: byte := '[' as int
  const RBRACKET: byte := ']' as int
  const EQUALS: byte := '=' as int

  /** The word NULL. */
  const NULL_WORD: seq<byte> := [78, 85, 76, 76]

  predicate IsSpace(c: byte) { c == 32 || 9 <= c <= 13 }

  // ---------------------------------------------------------------- quoting array items

  function Lower(c: byte): byte { if 'A' as int <= c <= 'Z' as int then c + 32 else c }

  /** `rbpg_strncasecmp` on two texts of the compared length. */
  function CaseCompare(s1: seq<byte>, s2: seq<byte>): int
    requires |s1| == |s2|
  {
    if |s1| == 0 then 0
    else if Lower(s1[0]) != Lower(s2[0]) then Lower(s1[0]) - Lower(s2[0])
    else if Lower(s1[0]) == 0 then 0
    else CaseCompare(s1[1..], s2[1..])
  }

  /** Texts compare equal exactly when they are, letter for letter, but for the case of the letters A to Z. */
  lemma {:induction false} CaseCompareIs(s1: seq<byte>, s2: seq<byte>)
    requires |s1| == |s2| && forall k :: 0 <= k < |s2| ==> s2[k] != 0
    ensures CaseCompare(s1, s2) == 0 <==> forall k :: 0 <= k < |s1| ==> Lower(s1[k]) == Lower(s2[k])
  {
    if |s1| > 0 && Lower(s1[0]) == Lower(s2[0]) {
      CaseCompareIs(s1[1..], s2[1..]);
      assert forall k :: 1 <= k < |s1| ==> s1[k] == s1[1..][k - 1] && s2[k] == s2[1..][k - 1];
      assert forall k :: 0 <= k < |s1| - 1 ==> s1[1..][k] == s1[k + 1] && s2[1..][k] == s2[k + 1];
    }
  }

  /** The word NULL in any case: each letter is that of NULL, upper or lower. */
  lemma NullInAnyCase(s: seq<byte>)
    requires |s| == 4
    ensures CaseCompare(s, NULL_WORD) == 0 <==>
            forall k :: 0 <= k < 4 ==> s[k] == NULL_WORD[k] || s[k] == NULL_WORD[k] + 32
  {
    hide CaseCompare;
    CaseCompareIs(s, NULL_WORD);
    assert forall k :: 0 <= k < 4 ==>
      (Lower(s[k]) == Lower(NULL_WORD[k]) <==> s[k] == NULL_WORD[k] || s[k] == NULL_WORD[k] + 32);
  }

  /** A byte that makes an unquoted item ambiguous. */
  predicate IsMeta(delimiter: byte, c: byte) {
    c == QUOTE || c == BACKSLASH || c == LBRACE || c == RBRACE || c == delimiter || IsSpace(c)
  }

  predicate HasMeta(delimiter: byte, s: seq<byte>) {
    exists k :: 0 <= k < |s| && IsMeta(delimiter, s[k])
  }

  predicate NeedsQuotes(delimiter: byte, s: seq<byte>) {
    |s| == 0 || (|s| == 4 && CaseCompare(s, NULL_WORD) == 0) || HasMeta(delimiter, s)
  }

  /**
   The texts that are quoted: the empty one, the word NULL in any case, and those with a quotation mark, a backslash, a
   brace, the delimiter, or white space, which are the blank, the tab, the line feed, the carriage return and the
   vertical tab and form feed.
   */
  lemma NeedsQuotesIs(d: byte, s: seq<byte>)
    ensures NeedsQuotes(d, s) <==>
            || |s| == 0
            || (|s| == 4 && s[0] in {78, 110} && s[1] in {85, 117} && s[2] in {76, 108} && s[3] in {76, 108})
            || exists k :: 0 <= k < |s| && (s[k] in {34, 92, 123, 125, 32, 9, 10, 11, 12, 13} || s[k] == d)
  {
    hide CaseCompare;
    if |s| == 4 {
      NullInAnyCase(s);
    }
    forall k | 0 <= k < |s|
      ensures IsMeta(d, s[k]) <==> s[k] in {34, 92, 123, 125, 32, 9, 10, 11, 12, 13} || s[k] == d
    {
    }
  }

  function ItemQuoted(delimiter: byte, s: seq<byte>): seq<byte> {
    if NeedsQuotes(delimiter, s) then Quoted(ArrayItem, s) else s
  }

  // ---------------------------------------------------------------- printing

  /** The text of a value; nil never reaches an encoder. Ruby's conversions to other classes are not modelled. */
  function Encode(c: Coder, v: Value): Result<seq<byte>>
    decreases c, v, 1
  {
    match c
    case TextString => AsText(v)
    case TextInteger(_) => if v.Int? then Ok(TextInteger.Decimal(v.n)) else Err(WrongType)
    case TextRecord(columns) =>
      if !v.List? then Err(WrongType)
      else if |v.items| != |columns| then Err(TooManyColumns)
      else
        (var body :- RecordBody(c, v.items);
         Ok([LPAREN] + body + [RPAREN]))
    case TextArray(_, _, _) => if v.List? then ListText(c, v.items, 1) else AsText(v)
  }

  /** `pg_coder_enc_to_s`. */
  function AsText(v: Value): Result<seq<byte>> {
    match v
    case Str(s) => Ok(s)
    case Int(n) => Ok(TextInteger.Decimal(n))
    case _ => Err(WrongType)
  }

  /** The columns of a record from the first of `items` on, which are the last ones of the record. */
  function RecordBody(c: Coder, items: seq<Value>): Result<seq<byte>>
    requires c.TextRecord? && |items| <= |c.columns|
    decreases c, items, 0
  {
    if |items| == 0 then Ok([])
    else
      var t :- FieldText(c, |c.columns| - |items|, items[0]);
      if |items| == 1 then Ok(t)
      else
        var rest :- RecordBody(c, items[1..]);
        Ok(t + [COMMA] + rest)
  }

  function FieldText(c: Coder, k: nat, entry: Value): Result<seq<byte>>
    requires c.TextRecord? && k < |c.columns|
    decreases c, entry, 0
  {
    if entry.Nil? then Ok([])
    else
      var t :- Encode(c.columns[k], entry);
      Ok(Quoted(RecordField, t))
  }

  /** `write_array`: a list at nesting depth `depth`, counted from one. */
  function ListText(c: Coder, items: seq<Value>, depth: nat): Result<seq<byte>>
    requires c.TextArray?
    decreases c, items, 1
  {
    if |items| == 0 && c.dimensions >= 0 && depth != c.dimensions then Err(WrongDimensions)
    else
      var body :- ListBody(c, items, depth);
      Ok([LBRACE] + body + [RBRACE])
  }

  function ListBody(c: Coder, items: seq<Value>, depth: nat): Result<seq<byte>>
    requires c.TextArray?
    decreases c, items, 0
  {
    if |items| == 0 then Ok([])
    else
      var t :- ItemText(c, items[0], depth);
      if |items| == 1 then Ok(t)
      else
        var rest :- ListBody(c, items[1..], depth);
        Ok(t + [c.delimiter] + rest)
  }

  /** Arrays below the wanted number of dimensions are sub-arrays; at that depth they are ordinary elements. */
  predicate IsSubArray(c: Coder, entry: Value, depth: nat)
    requires c.TextArray?
  {
    entry.List? && (c.dimensions < 0 || depth < c.dimensions)
  }

  predicate AtLeafDepth(c: Coder, depth: nat)
    requires c.TextArray?
  {
    c.dimensions < 0 || depth == c.dimensions
  }

  function ItemText(c: Coder, entry: Value, depth: nat): Result<seq<byte>>
    requires c.TextArray?
    decreases c, entry, 2
  {
    if IsSubArray(c, entry, depth) then ListText(c, entry.items, depth + 1)
    else if !AtLeafDepth(c, depth) then Err(WrongDimensions)
    else if entry.Nil? then Ok(NULL_WORD)
    else
      var t :- Encode(c.elem, entry);
      Ok(ItemQuoted(c.delimiter, t))
  }

  // ---------------------------------------------------------------- parsing

  function Decode(c: Coder, s: seq<byte>): Result<Value>
    decreases c, |s| + 2, 0
  {
    match c
    case TextString => Ok(Str(s))
    case TextInteger(ruby) => Ok(Int(TextInteger.Decode(ruby, s)))
    case TextRecord(_) => DecodeRecord(c, s)
    case TextArray(_, _, _) => DecodeArray(c, s)
  }

  // Arrays.

  /**
   The variables of the loop in `read_array_without_dim`. All levels share the scratch buffer `word`; `size` is
   how much of it the current item takes. `openQuote` is 1 inside quotes and -1 after them; `escapeNext` means a
   backslash inside quotes, and outside of them that a sub-array was stored already.
   */
  datatype Reading = Reading(
    index: nat, word: seq<byte>, size: nat, openQuote: int, escapeNext: bool, items: seq<Value>)

  /** Where a level ends: the position of its closing brace, its items, and the scratch buffer. */
  datatype Level = Level(index: nat, items: seq<Value>, word: seq<byte>)

  /** The scratch buffer is as long as the input, and an item never has more bytes than were read. */
  predicate Sane(s: seq<byte>, r: Reading) {
    |r.word| == |s| && r.size <= r.index <= |s|
  }

  function Fresh(index: nat, word: seq<byte>, items: seq<Value>): Reading {
    Reading(index, word, 0, 0, false, items)
  }

  function Append(r: Reading, ch: byte): Reading
    requires r.size < |r.word|
  {
    r.(index := r.index + 1, word := r.word[r.size := ch], size := r.size + 1)
  }

  /** One byte inside quotes. */
  function Inside(r: Reading, ch: byte): Reading
    requires r.size < |r.word|
  {
    if r.escapeNext then Append(r, ch).(escapeNext := false)
    else if ch == BACKSLASH then r.(index := r.index + 1, escapeNext := true)
    else if ch == QUOTE then r.(index := r.index + 1, openQuote := -1)
    else Append(r, ch)
  }

  /** The end of an item: a delimiter or a closing brace outside quotes. */
  function PushItem(c: Coder, r: Reading): (p: Result<Reading>)
    requires c.TextArray? && r.size < |r.word|
    ensures p.Ok? ==> p.value.index == r.index && |p.value.word| == |r.word|
    decreases c, 0, 0
  {
    if r.escapeNext then Ok(r)
    else if r.openQuote == 0 && r.size == 4 && r.word[..4] == NULL_WORD then Ok(r.(items := r.items + [Nil]))
    else
      var v :- Decode(c.elem, r.word[..r.size]);
      Ok(r.(items := r.items + [v], word := r.word[r.size := 0]))
  }

  function ReadItems(c: Coder, s: seq<byte>, r: Reading): (p: Result<Level>)
    requires c.TextArray? && Sane(s, r)
    ensures p.Ok? ==> r.index <= p.value.index < |s| && |p.value.word| == |s|
    decreases c, |s| - r.index, 1
  {
    if r.index == |s| then Err(PrematureEnd)
    else
      var ch := s[r.index];
      if r.openQuote < 1 then
        if ch == c.delimiter || ch == RBRACE then
          var p :- PushItem(c, r);
          if ch == RBRACE then Ok(Level(p.index, p.items, p.word))
          else ReadItems(c, s, Fresh(r.index + 1, p.word, p.items))
        else if ch == QUOTE then ReadItems(c, s, r.(index := r.index + 1, openQuote := 1))
        else if ch == LBRACE then
          var sub :- ReadList(c, s, r.index + 1, r.word);
          ReadItems(c, s, r.(index := sub.index + 1, word := sub.word, escapeNext := true,
                    items := r.items + [List(sub.items)]))
        else if ch == 0 then Err(PrematureEnd)
        else ReadItems(c, s, Append(r, ch))
      else ReadItems(c, s, Inside(r, ch))
  }

  /** `read_array_without_dim`: one level of an array, from behind its opening brace. */
  function ReadList(c: Coder, s: seq<byte>, index: nat, word: seq<byte>): (p: Result<Level>)
    requires c.TextArray? && |word| == |s| && index <= |s|
    ensures p.Ok? ==> index <= p.value.index < |s| && |p.value.word| == |s|
    decreases c, |s| - index, 2
  {
    if index < |s| && s[index] == RBRACE then Ok(Level(index, [], word))
    else ReadItems(c, s, Fresh(index, word, []))
  }

  function SkipSpace(s: seq<byte>, i: nat): (j: nat)
    requires i <= |s|
    ensures i <= j <= |s|
    decreases |s| - i
  {
    if i < |s| && IsSpace(s[i]) then SkipSpace(s, i + 1) else i
  }

  predicate IsDimension(c: byte) {
    '0' as int <= c <= '9' as int || c == '-' as int || c == '+' as int || c == ':' as int
  }

  function SkipDimension(s: seq<byte>, i: nat): (j: nat)
    requires i <= |s|
    ensures i <= j <= |s|
    decreases |s| - i
  {
    if i < |s| && IsDimension(s[i]) then SkipDimension(s, i + 1) else i
  }

  /** The loop over `[n]` and `[m:n]` decorations: the position behind them and whether there were any. */
  function SkipDimensions(s: seq<byte>, i: nat, some: bool): (r: Result<(nat, bool)>)
    requires i <= |s|
    ensures r.Ok? ==> i <= r.value.0 <= |s|
    decreases |s| - i
  {
    var j := SkipSpace(s, i);
    if At(s, j) != LBRACKET then Ok((j, some))
    else
      var k := SkipDimension(s, j + 1);
      if At(s, k) != RBRACKET then Err(Malformed) else SkipDimensions(s, k + 1, true)
  }

  /** Where the braces of an array text begin. */
  function ArrayStart(s: seq<byte>): (r: Result<nat>)
    ensures r.Ok? ==> r.value < |s| && s[r.value] == LBRACE
  {
    var (i, some) :- SkipDimensions(s, 0, false);
    if some && At(s, i) != EQUALS then Err(Malformed)
    else
      var j := if some then SkipSpace(s, i + 1) else i;
      if At(s, j) != LBRACE then Err(Malformed) else Ok(j)
  }

  /** `pg_text_dec_array`; a malformed text counts as an error, as it does with FORMAT_ERROR_TO_RAISE. */
  function DecodeArray(c: Coder, s: seq<byte>): Result<Value>
    requires c.TextArray?
    decreases c, |s| + 1, 0
  {
    var start :- ArrayStart(s);
    var level :- ReadList(c, s, start + 1, seq(|s|, _ => 0));
    if SkipSpace(s, level.index + 1) < |s| then Err(Malformed) else Ok(List(level.items))
  }

  // Records.

  /** One column of a record: the position of the comma or parenthesis behind it, and its text. */
  function ReadField(s: seq<byte>, i: nat, inQuote: bool, field: seq<byte>): (r: Result<(nat, seq<byte>)>)
    requires i <= |s|
    ensures r.Ok? ==> i <= r.value.0 < |s|
    decreases |s| - i
  {
    var ch := At(s, i);
    if !inQuote && (ch == COMMA || ch == RPAREN) then Ok((i, field))
    else if ch == 0 then Err(PrematureEnd)
    else if ch == BACKSLASH then
      if At(s, i + 1) == 0 then Err(PrematureEnd) else ReadField(s, i + 2, inQuote, field + [s[i + 1]])
    else if ch == QUOTE then
      if !inQuote then ReadField(s, i + 1, true, field)
      else if At(s, i + 1) == QUOTE then ReadField(s, i + 2, true, field + [QUOTE])
      else ReadField(s, i + 1, false, field)
    else ReadField(s, i + 1, inQuote, field + [ch])
  }

  /** The loop over columns, from the start of one of them to behind the closing parenthesis. */
  function ReadFields(c: Coder, s: seq<byte>, i: nat, fields: seq<Value>): (r: Result<(nat, seq<Value>)>)
    requires c.TextRecord? && i <= |s|
    ensures r.Ok? ==> i < r.value.0 <= |s|
    decreases c, |s| - i, 1
  {
    if At(s, i) == COMMA then ReadFields(c, s, i + 1, fields + [Nil])
    else if At(s, i) == RPAREN then Ok((i + 1, fields + [Nil]))
    else
      var (j, field) :- ReadField(s, i, false, []);
      var v :- DecodeColumn(c, |fields|, field);
      if s[j] == COMMA then ReadFields(c, s, j + 1, fields + [v]) else Ok((j + 1, fields + [v]))
  }

  /** `pg_tmbc_typecast_copy_get`. */
  function DecodeColumn(c: Coder, k: nat, field: seq<byte>): Result<Value>
    requires c.TextRecord?
    decreases c, 0, 0
  {
    if k >= |c.columns| then Err(TooManyColumns) else Decode(c.columns[k], field)
  }

  function DecodeRecord(c: Coder, s: seq<byte>): Result<Value>
    requires c.TextRecord?
    decreases c, |s| + 1, 0
  {
    var i := SkipSpace(s, 0);
    if At(s, i) != LPAREN then Err(Malformed)
    else
      var (j, fields) :- ReadFields(c, s, i + 1, []);
      if At(s, SkipSpace(s, j)) != 0 then Err(Malformed) else Ok(List(fields))
  }
}
