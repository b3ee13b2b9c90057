/**
 The escaping loops of the text encoders. Each encoder either copies an element left to right, escaping as it
 goes, or places the unescaped element at its final start and then spreads it right to left over itself.
 */
module Escape {
  import opened Bytes

  const QUOTE: byte := '"' as int
  const APOSTROPHE: byte := '\'' as int
  const BACKSLASH: byte := '\\' as int
  const LF: byte := '\n' as int
  const CR: byte := '\r' as int
  const COMMA: byte := ',' as int
  const LBRACE: byte := '{' as int
  const RBRACE: byte := '}' as int

  /** Which bytes an encoder escapes, and with what: COPY rows, records, array items and SQL literals. */
  datatype Style = CopyField(delimiter: byte) | RecordField | ArrayItem | Literal
  {
    predicate Special(c: byte) {
      match this
      case CopyField(delimiter) => c == BACKSLASH || c == LF || c == CR || c == delimiter
      case RecordField => c == QUOTE || c == BACKSLASH
      case ArrayItem => c == QUOTE || c == BACKSLASH
      case Literal => c == APOSTROPHE
    }

    /** The byte put in front of the special byte `c`. */
    function Mark(c: byte): byte {
      match this
      case CopyField(_) => BACKSLASH
      case RecordField => c
      case ArrayItem => BACKSLASH
      case Literal => APOSTROPHE
    }

    /** The quotation mark around the whole text. */
    function Quotation(): byte {
      if this.Literal? then APOSTROPHE else QUOTE
    }

    function EscapedByte(c: byte): (r: seq<byte>)
      ensures |r| == if Special(c) then 2 else 1
    {
      if Special(c) then [Mark(c), c] else [c]
    }
  }

  /** The plain left-to-right escape of a text. */
  function Escaped(st: Style, s: seq<byte>): seq<byte> {
    if |s| == 0 then [] else st.EscapedByte(s[0]) + Escaped(st, s[1..])
  }

  function Quoted(st: Style, s: seq<byte>): seq<byte> {
    [st.Quotation()] + Escaped(st, s) + [st.Quotation()]
  }

  /**
   The bytes that are escaped, and how: in COPY rows backslash, both line ends and the delimiter get a backslash, in
   array items quotation mark and backslash do; in records these two are doubled, and in literals the apostrophe.
   */
  lemma EscapedByteIs(st: Style, c: byte)
    ensures st.EscapedByte(c) ==
            match st
            case CopyField(d) => if c == 92 || c == 10 || c == 13 || c == d then [92, c] else [c]
            case ArrayItem => if c == 34 || c == 92 then [92, c] else [c]
            case RecordField => if c == 34 || c == 92 then [c, c] else [c]
            case Literal => if c == 39 then [39, 39] else [c]
  {
  }

  /** A quoted text stands between quotation marks, or apostrophes, and byte by byte within them. */
  lemma QuotedAt(st: Style, s: seq<byte>, k: nat)
    requires k < |s|
    ensures var (text, mark) := (Quoted(st, s), if st.Literal? then 39 else 34);
            var at := 1 + |Escaped(st, s[..k])|;
            && |text| >= 2 && text[0] == mark && text[|text| - 1] == mark
            && Occurs(text, at, st.EscapedByte(s[k]))
            && (k == |s| - 1 ==> at + |st.EscapedByte(s[k])| == |text| - 1)
  {
    assert Escaped(st, []) == [];
    hide Escaped, Style.EscapedByte, Style.Special, Style.Mark;
    var a, b, piece := Escaped(st, s[..k]), Escaped(st, s[k + 1..]), st.EscapedByte(s[k]);
    EscapedConcat(st, s[..k], s[k..]);
    assert s[..k] + s[k..] == s;
    EscapedFrom(st, s, k);
    var text := Quoted(st, s);
    assert text == [st.Quotation()] + (a + (piece + b)) + [st.Quotation()];
    assert text[1 + |a|..1 + |a| + |piece|] == piece;
    assert k == |s| - 1 ==> s[k + 1..] == [];
  }

  /** How many bytes of a text need a mark. */
  function Specials(st: Style, s: seq<byte>): nat {
    if |s| == 0 then 0 else Specials(st, s[..|s| - 1]) + if st.Special(s[|s| - 1]) then 1 else 0
  }

  lemma {:induction false} EscapedConcat(st: Style, a: seq<byte>, b: seq<byte>)
    ensures Escaped(st, a + b) == Escaped(st, a) + Escaped(st, b)
  {
    if |a| == 0 {
      assert a + b == b;
    } else {
      EscapedConcat(st, a[1..], b);
      assert (a + b)[1..] == a[1..] + b && (a + b)[0] == a[0];
    }
  }

  /** The text of the last `n` bytes begins with that of the first of them. */
  lemma EscapedFrom(st: Style, s: seq<byte>, i: nat)
    requires i < |s|
    ensures Escaped(st, s[i..]) == st.EscapedByte(s[i]) + Escaped(st, s[i + 1..])
  {
    assert s[i..][1..] == s[i + 1..];
  }

  lemma SpecialsTo(st: Style, s: seq<byte>, i: nat)
    requires i < |s|
    ensures Specials(st, s[..i + 1]) == Specials(st, s[..i]) + if st.Special(s[i]) then 1 else 0
  {
    assert s[..i + 1][..i] == s[..i];
  }

  lemma {:induction false} EscapedSize(st: Style, s: seq<byte>)
    ensures |Escaped(st, s)| == |s| + Specials(st, s)
    ensures Specials(st, s) <= |s|
  {
    if |s| > 0 {
      var i := |s| - 1;
      EscapedSize(st, s[..i]);
      EscapedConcat(st, s[..i], [s[i]]);
      assert s == s[..i] + [s[i]];
      assert Escaped(st, [s[i]]) == st.EscapedByte(s[i]) by { assert [s[i]][1..] == []; }
    }
  }

  /** A text without special bytes is its own escape. */
  lemma {:induction false} NothingToEscape(st: Style, s: seq<byte>)
    requires Specials(st, s) == 0
    ensures Escaped(st, s) == s
  {
    if |s| > 0 {
      var i := |s| - 1;
      NothingToEscape(st, s[..i]);
      EscapedConcat(st, s[..i], [s[i]]);
      assert s == s[..i] + [s[i]];
      assert Escaped(st, [s[i]]) == [s[i]] by { assert [s[i]][1..] == []; }
    }
  }

  /** The counting loop that precedes every in-place loop. */
  method CountSpecials(st: Style, buf: array<byte>, start: nat, len: nat) returns (n: nat)
    requires start + len <= buf.Length
    ensures n == Specials(st, buf[start..start + len])
  {
    n := 0;
    ghost var s := buf[start..start + len];
    for i := 0 to len
      invariant n == Specials(st, s[..i])
    {
      SpecialsTo(st, s, i);
      if st.Special(buf[start + i]) {
        n := n + 1;
      }
    }
    assert s[..len] == s;
  }

  /** Copying with escapes, left to right: the path for elements that come as a finished string. */
  method EscapeForward(st: Style, s: seq<byte>, out: array<byte>, start: nat) returns (end: nat)
    requires start + 2 * |s| <= out.Length
    modifies out
    ensures end == start + |Escaped(st, s)| <= start + 2 * |s|
    ensures out[..] == Splice(old(out[..]), start, Escaped(st, s))
  {
    hide Splice, Escaped, Specials;
    ghost var before := out[..];
    ghost var done: seq<byte> := [];
    end := start;
    SpliceNothing(before, start);
    EscapedNothing(st);
    for i := 0 to |s|
      invariant end == start + |done| <= start + 2 * i
      invariant done == Escaped(st, s[..i])
      invariant out[..] == Splice(before, start, done)
    {
      ghost var piece := st.EscapedByte(s[i]);
      EscapedTo(st, s, i);
      SpliceRight(before, start, done, piece);
      end := StoreEscaped(st, s[i], out, end);
      done := done + piece;
    }
    assert s[..|s|] == s;
  }

  lemma EscapedNothing(st: Style)
    ensures Escaped(st, []) == []
  {
  }

  lemma EscapedTo(st: Style, s: seq<byte>, i: nat)
    requires i < |s|
    ensures Escaped(st, s[..i + 1]) == Escaped(st, s[..i]) + st.EscapedByte(s[i])
  {
    EscapedConcat(st, s[..i], [s[i]]);
    assert s[..i + 1] == s[..i] + [s[i]];
    assert [s[i]][1..] == [];
  }

  method StoreEscaped(st: Style, c: byte, out: array<byte>, start: nat) returns (end: nat)
    requires start + |st.EscapedByte(c)| <= out.Length
    modifies out
    ensures end == start + |st.EscapedByte(c)|
    ensures out[..] == Splice(old(out[..]), start, st.EscapedByte(c))
  {
    end := start;
    if st.Special(c) {
      out[end] := st.Mark(c);
      end := end + 1;
    }
    out[end] := c;
    end := end + 1;
    assert out[start..end] == st.EscapedByte(c);
  }

  /** One turn of a right-to-left loop: the byte at `p1 - 1` goes below `p2`, with its mark below it. */
  method SpreadByte(st: Style, inp: array<byte>, p1: nat, out: array<byte>, p2: nat) returns (p1': nat, p2': nat)
    requires 0 < p1 <= inp.Length && p2 <= out.Length
    requires |st.EscapedByte(inp[p1 - 1])| <= p2
    requires inp == out ==> p1 < p2
    modifies out
    ensures p1' == p1 - 1 && p2' == p2 - |st.EscapedByte(old(inp[p1 - 1]))|
    ensures out[..] == Splice(old(out[..]), p2', st.EscapedByte(old(inp[p1 - 1])))
  {
    ghost var c := inp[p1 - 1];
    p1', p2' := p1 - 1, p2 - 1;
    out[p2'] := inp[p1'];
    if st.Special(inp[p1']) {
      p2' := p2' - 1;
      out[p2'] := st.Mark(out[p2' + 1]);
    }
    assert out[p2'..p2] == st.EscapedByte(c);
  }

  /**
   The in-place loop of COPY rows and records: the element is already at its start; stop as soon as the rest
   needs no more room.
   */
  method EscapeInPlace(st: Style, buf: array<byte>, start: nat, len: nat) returns (end: nat)
    requires start + 2 * len <= buf.Length
    modifies buf
    ensures end == start + |Escaped(st, old(buf[start..start + len]))| <= start + 2 * len
    ensures buf[..] == Splice(old(buf[..]), start, Escaped(st, old(buf[start..start + len])))
  {
    hide Splice, Escaped, Specials, Spread, Style.EscapedByte, Style.Special, Style.Mark;
    ghost var before, s := buf[..], buf[start..start + len];
    var n := CountSpecials(st, buf, start, len);
    EscapedSize(st, s);
    end := start + len + n;
    var p1, p2 := start + len, end;
    ghost var i := len;
    ghost var done: seq<byte> := [];
    SpreadStarts(st, s, before, start, end);
    while p1 != p2
      invariant 0 <= i <= len && p1 == start + i && p2 + |done| == end && p1 <= p2
      invariant Spread(st, s, i, p2 - p1, done)
      invariant p2 + |done| <= |before| == buf.Length
      invariant buf[..] == Splice(before, p2, done)
      decreases i
    {
      SpliceAt(before, p2, done);
      SpreadRoom(st, s, i, p2 - p1, done);
      assert buf[p1 - 1] == before[p1 - 1] == s[i - 1];
      SpreadStep(st, s, i, p2 - p1, done);
      ghost var piece := st.EscapedByte(s[i - 1]);
      SpliceLeft(before, p2, done, piece);
      p1, p2 := SpreadByte(st, buf, p1, buf, p2);
      i, done := i - 1, piece + done;
    }
    SpreadEnds(st, s, i, done, before, start);
  }

  /** Half-way of a right-to-left loop: `i` bytes are left and they need `room` marks; `done` is the rest. */
  ghost predicate Spread(st: Style, s: seq<byte>, i: nat, room: nat, done: seq<byte>) {
    i <= |s| && room == Specials(st, s[..i]) && done == Escaped(st, s[i..])
  }

  lemma SpreadStarts(st: Style, s: seq<byte>, before: seq<byte>, start: nat, end: nat)
    requires end == start + |s| + Specials(st, s) <= |before|
    ensures Spread(st, s, |s|, end - start - |s|, [])
    ensures before == Splice(before, end, [])
  {
    assert s[..|s|] == s && s[|s|..] == [];
  }

  lemma SpreadRoom(st: Style, s: seq<byte>, i: nat, room: nat, done: seq<byte>)
    requires Spread(st, s, i, room, done)
    ensures room <= i
    ensures i > 0 ==> (if st.Special(s[i - 1]) then 1 else 0) <= room
  {
    EscapedSize(st, s[..i]);
    if i > 0 {
      SpecialsTo(st, s, i - 1);
    }
  }

  lemma SpreadStep(st: Style, s: seq<byte>, i: nat, room: nat, done: seq<byte>)
    requires Spread(st, s, i, room, done) && 0 < i <= |s|
    requires (if st.Special(s[i - 1]) then 1 else 0) <= room
    ensures Spread(st, s, i - 1, room - (if st.Special(s[i - 1]) then 1 else 0), st.EscapedByte(s[i - 1]) + done)
  {
    SpecialsTo(st, s, i - 1);
    EscapedFrom(st, s, i - 1);
  }

  lemma SpreadEnds(st: Style, s: seq<byte>, i: nat, done: seq<byte>, before: seq<byte>, start: nat)
    requires Spread(st, s, i, 0, done)
    requires start + |s| <= |before| && before[start..start + |s|] == s
    requires start + i + |done| <= |before|
    ensures start + |Escaped(st, s)| <= |before|
    ensures Splice(before, start + i, done) == Splice(before, start, Escaped(st, s))
  {
    hide Splice;
    SpreadText(st, s, i, done);
    SpliceTail(before, start, s, i, done);
  }

  lemma SpreadText(st: Style, s: seq<byte>, i: nat, done: seq<byte>)
    requires Spread(st, s, i, 0, done)
    ensures i <= |s| && Escaped(st, s) == s[..i] + done
  {
    NothingToEscape(st, s[..i]);
    EscapedConcat(st, s[..i], s[i..]);
    assert s == s[..i] + s[i..];
  }

  /** What is already in place need not be stored. */
  lemma SpliceTail(m: seq<byte>, lo: nat, s: seq<byte>, i: nat, done: seq<byte>)
    requires i <= |s| && lo + |s| <= |m| && m[lo..lo + |s|] == s && lo + i + |done| <= |m|
    ensures Splice(m, lo + i, done) == Splice(m, lo, s[..i] + done)
  {
    assert m[lo..lo + |s|][..i] == m[lo..lo + i];
    assert m[..lo + i] == m[..lo] + s[..i];
  }

  /** The quoting loop: all bytes of the element go below `end`, with their marks. */
  method SpreadAll(st: Style, inp: array<byte>, inStart: nat, len: nat, out: array<byte>, end: nat) returns (p2: nat)
    requires inStart + len <= inp.Length && end <= out.Length
    requires |Escaped(st, inp[inStart..inStart + len])| <= end
    requires inp == out ==> inStart + |Escaped(st, inp[inStart..inStart + len])| < end
    modifies out
    ensures p2 + |Escaped(st, old(inp[inStart..inStart + len]))| == end
    ensures out[..] == Splice(old(out[..]), p2, Escaped(st, old(inp[inStart..inStart + len])))
  {
    hide Splice, Escaped, Specials, Spread, Style.EscapedByte, Style.Special, Style.Mark;
    ghost var before, s := out[..], inp[inStart..inStart + len];
    var p1 := inStart + len;
    p2 := end;
    ghost var i, room := len, Specials(st, s);
    ghost var done: seq<byte> := [];
    EscapedSize(st, s);
    QuoteStarts(st, s);
    SpliceNothing(before, end);
    while p1 != inStart
      invariant 0 <= i <= len == |s| && 0 <= room && p1 == inStart + i
      invariant p2 + |done| == end <= |before| == out.Length && i + room + |done| == |Escaped(st, s)|
      invariant Spread(st, s, i, room, done)
      invariant out[..] == Splice(before, p2, done)
      decreases i
    {
      SpliceAt(before, p2, done);
      SpreadRoom(st, s, i, room, done);
      assert inp[p1 - 1] == s[i - 1];
      SpreadStep(st, s, i, room, done);
      ghost var piece := st.EscapedByte(s[i - 1]);
      SpliceLeft(before, p2, done, piece);
      p1, p2 := SpreadByte(st, inp, p1, out, p2);
      i, room, done := i - 1, room - (|piece| - 1), piece + done;
    }
    assert done == Escaped(st, s) by { QuoteEnds(st, s, room, done); }
  }

  /**
   The quoting of array items and SQL literals. Input and output are the same place, or different buffers.
   Returns the length of the quoted text.
   */
  method QuoteText(st: Style, inp: array<byte>, inStart: nat, len: nat, out: array<byte>, start: nat)
    returns (size: nat)
    requires inStart + len <= inp.Length && start + 2 * len + 2 <= out.Length
    requires inp == out ==> inStart == start
    modifies out
    ensures size == |Quoted(st, old(inp[inStart..inStart + len]))| <= 2 * len + 2
    ensures out[..] == Splice(old(out[..]), start, Quoted(st, old(inp[inStart..inStart + len])))
  {
    hide Splice, Escaped, Specials;
    ghost var before, s := out[..], inp[inStart..inStart + len];
    var q := st.Quotation();
    var n := CountSpecials(st, inp, inStart, len);
    EscapedSize(st, s);
    size := len + n + 2;
    var last := start + size - 1;
    out[last] := q;
    StoreOne(before, out[..], last, q);
    assert inp[inStart..inStart + len] == s;
    var first := SpreadAll(st, inp, inStart, len, out, last);
    SpliceLeft(before, last, [q], Escaped(st, s));
    ghost var text := Escaped(st, s) + [q];
    assert out[..] == Splice(before, start + 1, text);
    out[start] := q;
    StoreOne(Splice(before, start + 1, text), out[..], start, q);
    SpliceLeft(before, start + 1, text, [q]);
    assert [q] + text == Quoted(st, s);
  }

  lemma QuoteStarts(st: Style, s: seq<byte>)
    ensures Spread(st, s, |s|, Specials(st, s), [])
  {
    assert s[..|s|] == s && s[|s|..] == [];
  }

  lemma QuoteEnds(st: Style, s: seq<byte>, room: nat, done: seq<byte>)
    requires Spread(st, s, 0, room, done)
    ensures done == Escaped(st, s)
  {
    assert s[0..] == s;
  }

  // ---------------------------------------------------------------- literals in a query

  /** A string constant as the server reads it, from behind its opening quote: its text, and where it ends. */
  function ReadLiteral(s: seq<byte>, i: nat, text: seq<byte>): Option<(seq<byte>, nat)>
    requires i <= |s|
    decreases |s| - i
  {
    if i == |s| then None
    else if s[i] != APOSTROPHE then ReadLiteral(s, i + 1, text + [s[i]])
    else if i + 1 < |s| && s[i + 1] == APOSTROPHE then ReadLiteral(s, i + 2, text + [APOSTROPHE])
    else Some((text, i + 1))
  }

  lemma {:induction false} LiteralRun(s: seq<byte>, i: nat, text: seq<byte>, x: seq<byte>)
    requires i <= |s| && Occurs(s, i, Escaped(Literal, x))
    ensures i + |Escaped(Literal, x)| <= |s|
    ensures ReadLiteral(s, i, text) == ReadLiteral(s, i + |Escaped(Literal, x)|, text + x)
    decreases |x|
  {
    hide Occurs;
    OccursSize(s, i, Escaped(Literal, x));
    if |x| == 0 {
      assert text + x == text;
    } else {
      var piece, rest := Literal.EscapedByte(x[0]), Escaped(Literal, x[1..]);
      OccursConcat(s, i, piece, rest);
      OccursFirst(s, i, piece);
      if Literal.Special(x[0]) {
        assert piece[1..] == [APOSTROPHE];
        OccursFirst(s, i + 1, [APOSTROPHE]);
      }
      LiteralRun(s, i + |piece|, text + [x[0]], x[1..]);
      assert text + [x[0]] + x[1..] == text + x;
    }
  }

  /** In a query a quoted literal is one string constant with the original text, and ends where it is meant to. */
  lemma LiteralIsRead(x: seq<byte>, query: seq<byte>)
    requires |query| == 0 || query[0] != APOSTROPHE
    ensures var s := Quoted(Literal, x) + query;
            s[0] == 39 && ReadLiteral(s, 1, []) == Some((x, |Quoted(Literal, x)|))
  {
    var e := Escaped(Literal, x);
    var s := Quoted(Literal, x) + query;
    assert Occurs(s, 1, e) by { assert s[1..1 + |e|] == e; }
    LiteralRun(s, 1, [], x);
    assert s[1 + |e|] == APOSTROPHE;
    NoText(x);
  }
}
