/**
 Array texts as the server reads them (section 8.15.6 of the PostgreSQL documentation): white space around items and
 braces is dropped, the word NULL stands for nil in any case unless it is quoted, and a backslash takes away the
 meaning of the next byte. Whatever the encoder prints is read there as it was meant.
 */
module ArrayServer {
  import opened Bytes
  import opened Escape
  import opened TextFormat
  import opened TextRoundTrip

  /** What the server makes of an item: nil, the text of an element, or a sub-array. */
  datatype Item = Absent | Element(text: seq<byte>) | Nest(items: seq<Item>)

  // ---------------------------------------------------------------- the server

  predicate IsBlank(c: byte) { c == 32 || c == 9 || c == 10 || c == 11 || c == 12 || c == 13 }

  function SkipBlanks(s: seq<byte>, i: nat): (j: nat)
    requires i <= |s|
    ensures i <= j <= |s|
    decreases |s| - i
  {
    if i < |s| && IsBlank(s[i]) then SkipBlanks(s, i + 1) else i
  }

  /** A quoted element, from behind its opening quotation mark: its text, and the position behind the closing one. */
  function InQuotes(s: seq<byte>, i: nat, text: seq<byte>): (r: Option<(seq<byte>, nat)>)
    requires i <= |s|
    ensures r.Some? ==> i < r.value.1 <= |s|
    decreases |s| - i
  {
    if i == |s| then None
    else if s[i] == 34 then Some((text, i + 1))
    else if s[i] != 92 then InQuotes(s, i + 1, text + [s[i]])
    else if i + 1 == |s| then None
    else InQuotes(s, i + 2, text + [s[i + 1]])
  }

  /** An unquoted element: its text, without white space behind it, whether it has an escape, and where it ends. */
  function Unquoted(d: byte, s: seq<byte>, i: nat, text: seq<byte>, solid: nat, escape: bool)
    : (r: Option<(seq<byte>, bool, nat)>)
    requires i <= |s| && solid <= |text|
    ensures r.Some? ==> i <= r.value.2 < |s|
    decreases |s| - i
  {
    if i == |s| || s[i] == 34 || s[i] == 123 then None
    else if s[i] == d || s[i] == 125 then Some((text[..solid], escape, i))
    else if s[i] == 92 then
      if i + 1 == |s| then None else Unquoted(d, s, i + 2, text + [s[i + 1]], |text| + 1, true)
    else Unquoted(d, s, i + 1, text + [s[i]], if IsBlank(s[i]) then solid else |text| + 1, escape)
  }

  predicate SpellsNull(s: seq<byte>) {
    |s| == 4 && s[0] in {78, 110} && s[1] in {85, 117} && s[2] in {76, 108} && s[3] in {76, 108}
  }

  function ReadItem(d: byte, s: seq<byte>, i: nat): (r: Option<(Item, nat)>)
    requires i <= |s|
    ensures r.Some? ==> i <= r.value.1 <= |s|
    decreases |s| - i, 0
  {
    var j := SkipBlanks(s, i);
    if j == |s| then None
    else if s[j] == 123 then
      var nest := ReadNest(d, s, j + 1);
      if nest.None? then None else Some((Nest(nest.value.0), nest.value.1))
    else if s[j] == 34 then
      var quoted := InQuotes(s, j + 1, []);
      if quoted.None? then None else Some((Element(quoted.value.0), quoted.value.1))
    else
      var plain := Unquoted(d, s, j, [], 0, false);
      if plain.None? || |plain.value.0| == 0 then None
      else if SpellsNull(plain.value.0) && !plain.value.1 then Some((Absent, plain.value.2))
      else Some((Element(plain.value.0), plain.value.2))
  }

  /** A level of the array, from behind its opening brace: its items, and the position behind its closing one. */
  function ReadNest(d: byte, s: seq<byte>, i: nat): (r: Option<(seq<Item>, nat)>)
    requires i <= |s|
    ensures r.Some? ==> i < r.value.1 <= |s|
    decreases |s| - i, 2
  {
    var j := SkipBlanks(s, i);
    if j < |s| && s[j] == 125 then Some(([], j + 1)) else ReadItems(d, s, i, [])
  }

  function ReadItems(d: byte, s: seq<byte>, i: nat, before: seq<Item>): (r: Option<(seq<Item>, nat)>)
    requires i <= |s|
    ensures r.Some? ==> i < r.value.1 <= |s|
    decreases |s| - i, 1
  {
    var item := ReadItem(d, s, i);
    if item.None? then None
    else
      var j := SkipBlanks(s, item.value.1);
      if j == |s| then None
      else if s[j] == 125 then Some((before + [item.value.0], j + 1))
      else if s[j] == d then ReadItems(d, s, j + 1, before + [item.value.0])
      else None
  }

  // ---------------------------------------------------------------- what it is meant to read

  /** Nil, sub-arrays, and elements as their own encoder prints them. */
  function Meant(c: Coder, entry: Value, depth: nat): Item
    requires c.TextArray? && ItemText(c, entry, depth).Ok?
    decreases entry, 1
  {
    if IsSubArray(c, entry, depth) then
      assert ListText(c, entry.items, depth + 1).Ok?;
      Nest(AllMeant(c, entry.items, depth + 1))
    else if entry.Nil? then Absent
    else Element(Encode(c.elem, entry).value)
  }

  function AllMeant(c: Coder, items: seq<Value>, depth: nat): seq<Item>
    requires c.TextArray? && ListBody(c, items, depth).Ok?
    decreases items, 0
  {
    if |items| == 0 then [] else [Meant(c, items[0], depth)] + AllMeant(c, items[1..], depth)
  }

  /** Delimiters that the server cannot take for something else. The types of the server have a comma or semicolon. */
  predicate ServerDelimiter(d: byte) {
    GoodDelimiter(d) && d != 92 && !IsBlank(d)
  }

  // ---------------------------------------------------------------- reading what is printed

  lemma {:induction false} QuotedServed(s: seq<byte>, i: nat, text: seq<byte>, x: seq<byte>)
    requires i <= |s| && Occurs(s, i, Escaped(ArrayItem, x))
    ensures i + |Escaped(ArrayItem, x)| <= |s|
    ensures InQuotes(s, i, text) == InQuotes(s, i + |Escaped(ArrayItem, x)|, text + x)
    decreases |x|
  {
    hide Occurs;
    OccursSize(s, i, Escaped(ArrayItem, x));
    if |x| == 0 {
      NoText(text);
    } else {
      var piece, rest := ArrayItem.EscapedByte(x[0]), Escaped(ArrayItem, x[1..]);
      assert Escaped(ArrayItem, x) == piece + rest;
      OccursConcat(s, i, piece, rest);
      OccursFirst(s, i, piece);
      if ArrayItem.Special(x[0]) {
        assert piece[1..] == [x[0]];
        OccursFirst(s, i + 1, [x[0]]);
      }
      QuotedServed(s, i + |piece|, text + [x[0]], x[1..]);
      assert text + [x[0]] + x[1..] == text + x;
    }
  }

  /** A byte without a meaning for the server. */
  predicate IsInnocent(d: byte, c: byte) {
    c != 34 && c != 92 && c != 123 && c != 125 && c != d && !IsBlank(c)
  }

  lemma {:induction false} PlainServed(d: byte, s: seq<byte>, i: nat, text: seq<byte>, x: seq<byte>)
    requires i <= |s| && Occurs(s, i, x) && forall k :: 0 <= k < |x| ==> IsInnocent(d, x[k])
    ensures i + |x| <= |s|
    ensures Unquoted(d, s, i, text, |text|, false) == Unquoted(d, s, i + |x|, text + x, |text + x|, false)
    decreases |x|
  {
    hide Occurs;
    OccursSize(s, i, x);
    if |x| == 0 {
      NoText(text);
    } else {
      OccursFirst(s, i, x);
      PlainServed(d, s, i + 1, text + [x[0]], x[1..]);
      assert text + [x[0]] + x[1..] == text + x;
    }
  }

  /** An unquoted text in front of a delimiter or a closing brace. */
  lemma WordServed(d: byte, s: seq<byte>, i: nat, x: seq<byte>)
    requires |x| > 0 && i <= |s| && Occurs(s, i, x) && forall k :: 0 <= k < |x| ==> IsInnocent(d, x[k])
    requires i + |x| < |s| && (s[i + |x|] == d || s[i + |x|] == 125) && d != 34 && d != 123
    ensures ReadItem(d, s, i) == Some((if SpellsNull(x) then Absent else Element(x), i + |x|))
  {
    hide Occurs, SpellsNull;
    OccursFirst(s, i, x);
    assert IsInnocent(d, x[0]);
    PlainServed(d, s, i, [], x);
    NoText(x);
    assert x[..|x|] == x;
  }

  lemma QuotedItemServed(d: byte, s: seq<byte>, i: nat, x: seq<byte>)
    requires i <= |s| && Occurs(s, i, Quoted(ArrayItem, x))
    ensures i + |Quoted(ArrayItem, x)| <= |s|
    ensures ReadItem(d, s, i) == Some((Element(x), i + |Quoted(ArrayItem, x)|))
  {
    hide Occurs, Escaped;
    var e := Escaped(ArrayItem, x);
    assert Quoted(ArrayItem, x) == [QUOTE] + (e + [QUOTE]);
    OccursSize(s, i, Quoted(ArrayItem, x));
    OccursConcat(s, i, [QUOTE], e + [QUOTE]);
    OccursConcat(s, i + 1, e, [QUOTE]);
    OccursFirst(s, i, [QUOTE]);
    OccursFirst(s, i + 1 + |e|, [QUOTE]);
    QuotedServed(s, i + 1, [], x);
    NoText(x);
  }

  /** The text of an element, quoted or not. */
  lemma ElementServed(d: byte, s: seq<byte>, i: nat, x: seq<byte>)
    requires ServerDelimiter(d) && i <= |s| && Occurs(s, i, ItemQuoted(d, x))
    requires i + |ItemQuoted(d, x)| < |s| && (s[i + |ItemQuoted(d, x)|] == d || s[i + |ItemQuoted(d, x)|] == 125)
    ensures ReadItem(d, s, i) == Some((Element(x), i + |ItemQuoted(d, x)|))
  {
    hide Occurs, ReadItem, Quoted, NeedsQuotes;
    NeedsQuotesIs(d, x);
    if NeedsQuotes(d, x) {
      QuotedItemServed(d, s, i, x);
    } else {
      forall k | 0 <= k < |x|
        ensures IsInnocent(d, x[k])
      {
      }
      WordServed(d, s, i, x);
    }
  }

  /** An item in front of a delimiter or a closing brace is read as it was meant. */
  lemma {:induction false} ItemServed(c: Coder, s: seq<byte>, i: nat, entry: Value, depth: nat)
    requires c.TextArray? && ServerDelimiter(c.delimiter) && i <= |s|
    requires ItemText(c, entry, depth).Ok? && Occurs(s, i, ItemText(c, entry, depth).value)
    requires i + |ItemText(c, entry, depth).value| < |s|
    requires var stop := s[i + |ItemText(c, entry, depth).value|]; stop == c.delimiter || stop == 125
    ensures ReadItem(c.delimiter, s, i) ==
            Some((Meant(c, entry, depth), i + |ItemText(c, entry, depth).value|))
    decreases entry, 1
  {
    hide Occurs, ReadNest, ItemQuoted, Encode, Unquoted;
    if IsSubArray(c, entry, depth) {
      NestServed(c, s, i, entry.items, depth + 1);
    } else if entry.Nil? {
      WordServed(c.delimiter, s, i, NULL_WORD);
    } else {
      ElementServed(c.delimiter, s, i, Encode(c.elem, entry).value);
    }
  }

  lemma {:induction false} ItemsServed(c: Coder, s: seq<byte>, i: nat, before: seq<Item>, items: seq<Value>, depth: nat)
    requires c.TextArray? && ServerDelimiter(c.delimiter) && |items| > 0 && i <= |s|
    requires ListBody(c, items, depth).Ok? && Occurs(s, i, ListBody(c, items, depth).value)
    requires i + |ListBody(c, items, depth).value| < |s| && s[i + |ListBody(c, items, depth).value|] == 125
    ensures ReadItems(c.delimiter, s, i, before) ==
            Some((before + AllMeant(c, items, depth), i + |ListBody(c, items, depth).value| + 1))
    decreases items, 0
  {
    hide Occurs, ReadItem, ItemText, Meant;
    var t := ItemText(c, items[0], depth).value;
    if |items| == 1 {
      ItemServed(c, s, i, items[0], depth);
      assert AllMeant(c, items, depth) == [Meant(c, items[0], depth)];
    } else {
      var d, rest := [c.delimiter], ListBody(c, items[1..], depth).value;
      Assoc(t, d, rest);
      OccursConcat(s, i, t, d + rest);
      OccursConcat(s, i + |t|, d, rest);
      OccursFirst(s, i + |t|, d);
      ItemServed(c, s, i, items[0], depth);
      var first := [Meant(c, items[0], depth)];
      ItemsServed(c, s, i + |t| + 1, before + first, items[1..], depth);
      assert before + first + AllMeant(c, items[1..], depth) == before + (first + AllMeant(c, items[1..], depth));
    }
  }

  lemma {:induction false} NestServed(c: Coder, s: seq<byte>, i: nat, items: seq<Value>, depth: nat)
    requires c.TextArray? && ServerDelimiter(c.delimiter) && i <= |s|
    requires ListText(c, items, depth).Ok? && Occurs(s, i, ListText(c, items, depth).value)
    ensures i + |ListText(c, items, depth).value| <= |s| && s[i] == 123
    ensures ReadNest(c.delimiter, s, i + 1) ==
            Some((AllMeant(c, items, depth), i + |ListText(c, items, depth).value|))
    decreases items, 1
  {
    hide Occurs, ReadItems, ListBody, AllMeant;
    var body := ListBody(c, items, depth).value;
    assert ListText(c, items, depth).value == [LBRACE] + (body + [RBRACE]);
    OccursSize(s, i, ListText(c, items, depth).value);
    OccursConcat(s, i, [LBRACE], body + [RBRACE]);
    OccursConcat(s, i + 1, body, [RBRACE]);
    OccursFirst(s, i, [LBRACE]);
    OccursFirst(s, i + 1 + |body|, [RBRACE]);
    if |items| == 0 {
      EmptyBody(c, depth);
      NothingMeant(c, depth);
      assert items == [];
    } else {
      FirstSolid(c, items, depth);
      OccursFirst(s, i + 1, body);
      ItemsServed(c, s, i + 1, [], items, depth);
      assert [] + AllMeant(c, items, depth) == AllMeant(c, items, depth);
    }
  }

  lemma NothingMeant(c: Coder, depth: nat)
    requires c.TextArray?
    ensures ListBody(c, [], depth).Ok? && AllMeant(c, [], depth) == []
  {
  }

  /** A level begins neither with white space nor with a closing brace. */
  lemma FirstSolid(c: Coder, items: seq<Value>, depth: nat)
    requires c.TextArray? && |items| > 0 && ListBody(c, items, depth).Ok?
    ensures var body := ListBody(c, items, depth).value; |body| > 0 && body[0] != 125 && !IsBlank(body[0])
  {
    hide Escaped, Encode, CaseCompare;
    BodyStart(c, items, depth);
    var entry, body := items[0], ListBody(c, items, depth).value;
    ItemStart(c, entry, depth);
    assert body[0] == ItemText(c, entry, depth).value[0];
    if !IsSubArray(c, entry, depth) && !entry.Nil? {
      var x := Encode(c.elem, entry).value;
      if !NeedsQuotes(c.delimiter, x) {
        assert !IsMeta(c.delimiter, x[0]);
      }
    }
  }

  /** The whole text of an array: the server reads the nest that was meant, up to the end. */
  lemma ServerReads(c: Coder, items: seq<Value>)
    requires c.TextArray? && ServerDelimiter(c.delimiter) && Encode(c, List(items)).Ok?
    ensures ListText(c, items, 1).Ok?
    ensures var s := Encode(c, List(items)).value;
            && |s| > 0 && s[0] == 123
            && ReadNest(c.delimiter, s, 1) == Some((AllMeant(c, items, 1), |s|))
  {
    hide ReadNest, Occurs, AllMeant;
    var s := Encode(c, List(items)).value;
    assert s == ListText(c, items, 1).value;
    OccursWhole(s);
    NestServed(c, s, 0, items, 1);
  }
}
