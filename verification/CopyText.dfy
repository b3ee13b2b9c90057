/**
 Rows of the COPY text format (ext/pg_copy_coder.c): columns separated by a delimiter, backslash escapes, and the
 null string for nil. Columns are byte strings; any byte may occur in them.
 */
module CopyText {
  import opened Bytes
  import opened Escape
  import opened FieldValues
  import opened RubyString

  /** The two settings of a coder. The setters take any byte and any string. */
  datatype Format = Format(delimiter: byte, nullString: seq<byte>)
  {
    function Style(): Style { CopyField(delimiter) }

    /** Whether the text of a column is taken for nil: `strncmp` at the length of both. */
    predicate IsNull(text: seq<byte>) {
      |text| == |nullString| && SameText(text, nullString)
    }
  }

  /** The null string of a new coder, `\N`. */
  const DEFAULT_NULL: seq<byte> := [92, 78]

  /** `strncmp` finds no difference: it looks no further than to a zero byte. */
  predicate SameText(a: seq<byte>, b: seq<byte>)
    requires |a| == |b|
  {
    |a| == 0 || (a[0] == b[0] && (a[0] == 0 || SameText(a[1..], b[1..])))
  }

  /** Two texts are taken for the same exactly when they agree up to their end, or up to a zero byte. */
  lemma {:induction false} SameTextIs(a: seq<byte>, b: seq<byte>)
    requires |a| == |b|
    ensures SameText(a, b) <==> exists n: nat :: AgreeUpTo(a, b, n)
  {
    if |a| == 0 {
      assert AgreeUpTo(a, b, 0);
    } else if a[0] == b[0] && a[0] == 0 {
      assert AgreeUpTo(a, b, 1);
    } else {
      SameTextIs(a[1..], b[1..]);
      if SameText(a, b) {
        var n: nat :| AgreeUpTo(a[1..], b[1..], n);
        assert a[..n + 1] == [a[0]] + a[1..][..n] && b[..n + 1] == [b[0]] + b[1..][..n];
        assert AgreeUpTo(a, b, n + 1);
      }
      if n: nat :| AgreeUpTo(a, b, n) {
        assert n > 0 ==> a[0] == a[..n][0] == b[..n][0] == b[0];
        assert n > 0 ==> a[1..][..n - 1] == a[..n][1..] && b[1..][..n - 1] == b[..n][1..];
        assert AgreeUpTo(a[1..], b[1..], n - 1);
      }
    }
  }

  ghost predicate AgreeUpTo(a: seq<byte>, b: seq<byte>, n: nat)
    requires |a| == |b|
  {
    n <= |a| && a[..n] == b[..n] && (n == |a| || (n > 0 && a[n - 1] == 0))
  }

  // ---------------------------------------------------------------- printing

  function ColumnText(f: Format, column: Column): seq<byte> {
    if column.Null? then f.nullString else Escaped(f.Style(), column.bytes)
  }

  function Body(f: Format, row: seq<Column>): seq<byte> {
    if |row| == 0 then []
    else if |row| == 1 then ColumnText(f, row[0])
    else ColumnText(f, row[0]) + [f.delimiter] + Body(f, row[1..])
  }

  /** `pg_text_enc_copy_row`. */
  function Encode(f: Format, row: seq<Column>): seq<byte> {
    Body(f, row) + [LF]
  }

  // ---------------------------------------------------------------- parsing

  predicate IsOctal(c: byte) { '0' as int <= c <= '7' as int }

  /** `GetDecimalFromHex`. */
  function HexValue(c: byte): (v: int)
    ensures -1 <= v < 16
  {
    if '0' as int <= c <= '9' as int then c - '0' as int
    else if 'a' as int <= c <= 'f' as int then c - 'a' as int + 10
    else if 'A' as int <= c <= 'F' as int then c - 'A' as int + 10
    else -1
  }

  /** One escape sequence, from behind its backslash: the byte it stands for and the position behind it. */
  function Unescape(s: seq<byte>, i: nat): (r: (byte, nat))
    requires i < |s|
    ensures i < r.1 <= |s|
  {
    var c := s[i];
    if IsOctal(c) then
      var v := c - '0' as int;
      if i + 1 < |s| && IsOctal(s[i + 1]) then
        var v2 := v * 8 + (s[i + 1] - '0' as int);
        if i + 2 < |s| && IsOctal(s[i + 2]) then
          ((v2 as int * 8 + (s[i + 2] - '0' as int)) % 256, i + 3)
        else (v2, i + 2)
      else (v, i + 1)
    else if c == 'x' as int then
      if i + 1 < |s| && HexValue(s[i + 1]) >= 0 then
        if i + 2 < |s| && HexValue(s[i + 2]) >= 0 then
          (HexValue(s[i + 1]) * 16 + HexValue(s[i + 2]), i + 3)
        else (HexValue(s[i + 1]), i + 2)
      else (c, i + 1)
    else if c == 'b' as int then (8, i + 1)
    else if c == 'f' as int then (12, i + 1)
    else if c == 'n' as int then (10, i + 1)
    else if c == 'r' as int then (13, i + 1)
    else if c == 't' as int then (9, i + 1)
    else if c == 'v' as int then (11, i + 1)
    else (c, i + 1)
  }

  /** The scan of one column: where it ended, where to go on, whether at a delimiter, and its text. */
  datatype Scan = Scan(end: nat, next: nat, atDelimiter: bool, text: seq<byte>)

  function ScanColumn(d: byte, s: seq<byte>, i: nat, text: seq<byte>): (r: Scan)
    requires i <= |s|
    ensures i <= r.end <= r.next <= |s|
    ensures r.atDelimiter ==> r.end < r.next
    decreases |s| - i
  {
    if i == |s| then Scan(i, i, false, text)
    else if s[i] == d then Scan(i, i + 1, true, text)
    else if s[i] == LF then Scan(i, i + 1, false, text)
    else if s[i] == BACKSLASH then
      if i + 1 == |s| then Scan(i, i + 1, false, text)
      else
        var (c, j) := Unescape(s, i + 1);
        ScanColumn(d, s, j, text + [c])
    else ScanColumn(d, s, i + 1, text + [s[i]])
  }

  function Columns(f: Format, s: seq<byte>, i: nat, row: seq<Column>): Result<seq<Column>>
    requires i <= |s|
    decreases |s| - i
  {
    var scan := ScanColumn(f.delimiter, s, i, []);
    if !scan.atDelimiter && scan.next < |s| then Err(TrailingData)
    else
      var column := if f.IsNull(s[i..scan.end]) then Null else Data(scan.text);
      if scan.atDelimiter then Columns(f, s, scan.next, row + [column]) else Ok(row + [column])
  }

  /** `pg_text_dec_copy_row`. */
  function Decode(f: Format, s: seq<byte>): Result<seq<Column>> {
    Columns(f, s, 0, [])
  }

  // ---------------------------------------------------------------- the round trip

  /** Bytes that mean something else behind a backslash. */
  predicate HasEscapeMeaning(c: byte) {
    IsOctal(c) || c == 'x' as int || c == 'b' as int || c == 'f' as int || c == 'n' as int ||
    c == 'r' as int || c == 't' as int || c == 'v' as int
  }

  predicate GoodDelimiter(d: byte) {
    d != BACKSLASH && d != LF && !HasEscapeMeaning(d)
  }

  /** A code of hexadecimal digits up to the end of the null string, which a delimiter behind it could continue. */
  predicate OpenCode(d: byte, n: seq<byte>, i: nat)
    requires i < |n|
  {
    n[i] == 'x' as int && |n| <= i + 2 && HexValue(d) >= 0
  }

  /**
   The null string from `j` on reaches neither a delimiter nor a line feed and leaves no escape sequence open at its
   end.
   */
  predicate StandsAlone(d: byte, n: seq<byte>, j: nat)
    requires j <= |n|
    decreases |n| - j
  {
    j == |n| ||
    (n[j] != d && n[j] != LF &&
     if n[j] == BACKSLASH then
       j + 1 < |n| &&
       var k := Unescape(n, j + 1).1;
       (k == |n| ==> !OpenCode(d, n, j + 1)) && StandsAlone(d, n, k)
     else StandsAlone(d, n, j + 1))
  }

  /** The null string is what the printer makes of some string, as far as the parser compares it. */
  predicate LikeEscaped(st: Style, n: seq<byte>) {
    |n| == 0 ||
    if n[0] == BACKSLASH then |n| >= 2 && st.Special(n[1]) && (n[1] == 0 || LikeEscaped(st, n[2..]))
    else !st.Special(n[0]) && (n[0] == 0 || LikeEscaped(st, n[1..]))
  }

  predicate GoodFormat(f: Format) {
    GoodDelimiter(f.delimiter) && StandsAlone(f.delimiter, f.nullString, 0) && !LikeEscaped(f.Style(), f.nullString)
  }

  /** One escaped byte is read as the byte. */
  lemma ScanByte(d: byte, s: seq<byte>, i: nat, text: seq<byte>, c: byte)
    requires GoodDelimiter(d) && i <= |s| && Occurs(s, i, CopyField(d).EscapedByte(c))
    ensures i + |CopyField(d).EscapedByte(c)| <= |s|
    ensures ScanColumn(d, s, i, text) == ScanColumn(d, s, i + |CopyField(d).EscapedByte(c)|, text + [c])
  {
    hide Occurs;
    var piece := CopyField(d).EscapedByte(c);
    OccursFirst(s, i, piece);
    if CopyField(d).Special(c) {
      assert piece[1..] == [c];
      OccursFirst(s, i + 1, [c]);
      assert Unescape(s, i + 1) == (c, i + 2);
    }
  }

  // ---------------------------------------------------------------- spellings

  /**
   How a byte may be spelled: escaped as it is printed here, as it is unless it is a backslash, a line feed or the
   delimiter, by its octal or hexadecimal code, or by a letter.
   */
  datatype Spelling = Escape | Bare | Octal | Hexadecimal | Letter

  /** The letters b, t, n, v, f and r for the bytes from 8 to 13. */
  const LETTERS: seq<byte> := [98, 116, 110, 118, 102, 114]

  function HexDigit(v: int): byte
    requires 0 <= v < 16
  {
    if v < 10 then '0' as int + v else 'a' as int + (v - 10)
  }

  function Spell(d: byte, sp: Spelling, c: byte): seq<byte> {
    match sp
    case Escape => CopyField(d).EscapedByte(c)
    case Bare => if c == 92 || c == 10 || c == d then [92, c] else [c]
    case Octal => [BACKSLASH, '0' as int + c / 64, '0' as int + c / 8 % 8, '0' as int + c % 8]
    case Hexadecimal => [BACKSLASH, 'x' as int, HexDigit(c / 16), HexDigit(c % 16)]
    case Letter => if 8 <= c <= 13 then [92, LETTERS[c - 8]] else CopyField(d).EscapedByte(c)
  }

  /** A text with each of its bytes spelled in one of these ways. */
  function Spelled(d: byte, spellings: seq<Spelling>, x: seq<byte>): seq<byte>
    requires |spellings| == |x|
  {
    if |x| == 0 then [] else Spell(d, spellings[0], x[0]) + Spelled(d, spellings[1..], x[1..])
  }

  lemma ScanSpelledByte(d: byte, s: seq<byte>, i: nat, text: seq<byte>, sp: Spelling, c: byte)
    requires GoodDelimiter(d) && i <= |s| && Occurs(s, i, Spell(d, sp, c))
    ensures i + |Spell(d, sp, c)| <= |s|
    ensures ScanColumn(d, s, i, text) == ScanColumn(d, s, i + |Spell(d, sp, c)|, text + [c])
  {
    if sp.Escape? || (sp.Letter? && !(8 <= c <= 13)) {
      ScanByte(d, s, i, text, c);
    } else if sp.Letter? {
      LetterIsRead(d, s, i, c);
    } else if sp.Bare? {
      BareIsRead(d, s, i, text, c);
    } else {
      CodeIsRead(d, s, i, sp, c);
    }
  }

  lemma BareIsRead(d: byte, s: seq<byte>, i: nat, text: seq<byte>, c: byte)
    requires GoodDelimiter(d) && Occurs(s, i, Spell(d, Bare, c))
    ensures i + |Spell(d, Bare, c)| <= |s|
    ensures ScanColumn(d, s, i, text) == ScanColumn(d, s, i + |Spell(d, Bare, c)|, text + [c])
  {
    var piece := Spell(d, Bare, c);
    assert s[i] == piece[0];
    if |piece| == 2 {
      assert s[i + 1] == piece[1];
      assert Unescape(s, i + 1) == (c, i + 2);
    }
  }

  /** A letter behind a backslash is read as the byte it stands for. */
  lemma LetterIsRead(d: byte, s: seq<byte>, i: nat, c: byte)
    requires 8 <= c <= 13 && Occurs(s, i, [92, LETTERS[c - 8]])
    ensures i + 2 <= |s| && s[i] == BACKSLASH && Unescape(s, i + 1) == (c, i + 2)
  {
    var piece: seq<byte> := [92, LETTERS[c - 8]];
    assert s[i] == piece[0] && s[i + 1] == piece[1];
  }

  /** Three octal or two hexadecimal digits are read as the byte they denote. */
  lemma CodeIsRead(d: byte, s: seq<byte>, i: nat, sp: Spelling, c: byte)
    requires (sp.Octal? || sp.Hexadecimal?) && Occurs(s, i, Spell(d, sp, c))
    ensures i + 4 <= |s| && s[i] == BACKSLASH && Unescape(s, i + 1) == (c, i + 4)
  {
    hide Unescape;
    var piece := Spell(d, sp, c);
    assert s[i] == piece[0] && s[i + 1] == piece[1] && s[i + 2] == piece[2] && s[i + 3] == piece[3];
    if sp.Octal? {
      OctalIsRead(s, i + 1, c / 64, c / 8 % 8, c % 8);
      OctalDigits(c);
    } else {
      HexIsRead(s, i + 1, c / 16, c % 16);
    }
  }

  lemma OctalDigits(c: byte)
    ensures c / 64 * 64 + c / 8 % 8 * 8 + c % 8 == c && c / 64 < 4
  {
    DivIs(c, 64, c / 8 / 8, c / 8 % 8 * 8 + c % 8);
  }

  lemma OctalIsRead(s: seq<byte>, i: nat, u: int, v: int, w: int)
    requires i + 2 < |s| && 0 <= u < 4 && 0 <= v < 8 && 0 <= w < 8
    requires s[i] == '0' as int + u && s[i + 1] == '0' as int + v && s[i + 2] == '0' as int + w
    ensures Unescape(s, i) == (u * 64 + v * 8 + w, i + 3)
  {
  }

  lemma HexIsRead(s: seq<byte>, i: nat, v: int, w: int)
    requires i + 2 < |s| && 0 <= v < 16 && 0 <= w < 16
    requires s[i] == 'x' as int && s[i + 1] == HexDigit(v) && s[i + 2] == HexDigit(w)
    ensures Unescape(s, i) == (v * 16 + w, i + 3)
  {
  }

  /** A text is read the same however its bytes are spelled. */
  lemma {:induction false} ScanSpelled(d: byte, s: seq<byte>, i: nat, text: seq<byte>, spellings: seq<Spelling>,
                                       x: seq<byte>)
    requires GoodDelimiter(d) && |spellings| == |x| && i <= |s| && Occurs(s, i, Spelled(d, spellings, x))
    ensures i + |Spelled(d, spellings, x)| <= |s|
    ensures ScanColumn(d, s, i, text) == ScanColumn(d, s, i + |Spelled(d, spellings, x)|, text + x)
    decreases |x|
  {
    hide Occurs, Spell, ScanColumn;
    OccursSize(s, i, Spelled(d, spellings, x));
    if |x| == 0 {
      assert text + x == text;
    } else {
      var piece, rest := Spell(d, spellings[0], x[0]), Spelled(d, spellings[1..], x[1..]);
      OccursConcat(s, i, piece, rest);
      ScanSpelledByte(d, s, i, text, spellings[0], x[0]);
      ScanSpelled(d, s, i + |piece|, text + [x[0]], spellings[1..], x[1..]);
      assert text + [x[0]] + x[1..] == text + x;
    }
  }

  // Escape sequences one by one.

  /** The number that octal digits denote. */
  function OctalValue(s: seq<byte>): int {
    if |s| == 0 then 0 else OctalValue(s[..|s| - 1]) * 8 + (s[|s| - 1] as int - 48)
  }

  /** One to three octal digits, as many as there are: their number without what does not go into a byte. */
  lemma OctalSequence(s: seq<byte>, i: nat, n: nat)
    requires 1 <= n <= 3 && i + n <= |s| && forall k :: i <= k < i + n ==> 48 <= s[k] <= 55
    requires n == 3 || i + n == |s| || !(48 <= s[i + n] <= 55)
    ensures Unescape(s, i) == (OctalValue(s[i..i + n]) % 256, i + n)
  {
    var t := s[i..i + n];
    if n == 1 {
      assert t == [s[i]];
      OctalOf(s[i], 48, 48);
    } else if n == 2 {
      assert t == [s[i], s[i + 1]];
      OctalOf(s[i], s[i + 1], 48);
    } else {
      assert t == [s[i], s[i + 1], s[i + 2]];
      OctalOf(s[i], s[i + 1], s[i + 2]);
    }
    hide OctalValue;
  }

  lemma OctalOf(u: byte, v: byte, w: byte)
    ensures OctalValue([u]) == u as int - 48
    ensures OctalValue([u, v]) == (u as int - 48) * 8 + (v as int - 48)
    ensures OctalValue([u, v, w]) == ((u as int - 48) * 8 + (v as int - 48)) * 8 + (w as int - 48)
  {
    assert [u][..0] == [] && [u, v][..1] == [u] && [u, v, w][..2] == [u, v];
  }

  /** The value of a hexadecimal digit, in upper or lower case. */
  function HexOf(c: byte): int
  {
    if 48 <= c <= 57 then c - 48 else if 65 <= c <= 70 then c - 55 else if 97 <= c <= 102 then c - 87 else -1
  }

  /** An x with up to two hexadecimal digits behind it. */
  lemma HexSequence(s: seq<byte>, i: nat)
    requires i < |s| && s[i] == 120
    ensures Unescape(s, i) ==
            if i + 1 == |s| || HexOf(s[i + 1]) < 0 then (120, i + 1)
            else if i + 2 == |s| || HexOf(s[i + 2]) < 0 then (HexOf(s[i + 1]), i + 2)
            else (HexOf(s[i + 1]) * 16 + HexOf(s[i + 2]), i + 3)
  {
  }

  /** The six letters, and every other byte, which stands for itself. */
  lemma LetterSequence(s: seq<byte>, i: nat)
    requires i < |s| && !(48 <= s[i] <= 55) && s[i] != 120
    ensures Unescape(s, i) ==
            (if s[i] == 98 then 8 else if s[i] == 116 then 9 else if s[i] == 110 then 10 else if s[i] == 118 then 11
             else if s[i] == 102 then 12 else if s[i] == 114 then 13 else s[i], i + 1)
  {
  }

  // ---------------------------------------------------------------- rows

  /** An escape sequence of the null string is read within a row as within itself, unless what follows continues it. */
  lemma UnescapeWithin(d: byte, s: seq<byte>, i: nat, n: seq<byte>, j: nat)
    requires Occurs(s, i, n) && j < |n| && i + |n| < |s| && !IsOctal(d)
    requires s[i + |n|] == d || s[i + |n|] == LF
    ensures var k, next := Unescape(n, j).1, Unescape(s, i + j).1;
            if k == |n| && s[i + |n|] == d && OpenCode(d, n, j) then next > i + |n| else next == i + k
  {
    assert forall k :: 0 <= k < |n| ==> s[i + k] == s[i..i + |n|][k] == n[k];
    assert s[i + j] == n[j];
    assert j + 1 < |n| ==> s[i + j + 1] == n[j + 1];
    assert j + 2 < |n| ==> s[i + j + 2] == n[j + 2];
  }

  /** In front of a delimiter or a line feed the scan ends behind a null string that stands alone, and no other. */
  lemma {:induction false} ScanNull(d: byte, s: seq<byte>, i: nat, n: seq<byte>, j: nat, text: seq<byte>)
    requires GoodDelimiter(d) && Occurs(s, i, n) && j <= |n| && i + |n| < |s|
    requires s[i + |n|] == d || s[i + |n|] == LF
    ensures var scan := ScanColumn(d, s, i + j, text);
            && (StandsAlone(d, n, j) ==>
                  scan.end == i + |n| && scan.next == scan.end + 1 && scan.atDelimiter == (s[scan.end] == d))
            && (!StandsAlone(d, n, j) && s[i + |n|] == d ==> scan.end != i + |n|)
    decreases |n| - j
  {
    hide Unescape, Occurs;
    if j < |n| {
      assert s[i + j] == n[j] by { OccursText(s, i, n); assert s[i..i + |n|][j] == n[j]; }
      if n[j] == BACKSLASH {
        if j + 1 < |n| {
          UnescapeWithin(d, s, i, n, j + 1);
          var (c, next) := Unescape(s, i + j + 1);
          if next <= i + |n| {
            ScanNull(d, s, i, n, next - i, text + [c]);
          }
        }
      } else if n[j] != d && n[j] != LF {
        ScanNull(d, s, i, n, j + 1, text + [s[i + j]]);
      }
    }
  }

  /** What a string is printed as differs from a null string that is like no printed one. */
  lemma {:induction false} EscapedDiffers(st: Style, x: seq<byte>, n: seq<byte>)
    requires st.CopyField? && |Escaped(st, x)| == |n| && SameText(Escaped(st, x), n)
    ensures LikeEscaped(st, n)
    decreases |x|
  {
    if |x| > 0 {
      var e, rest := Escaped(st, x), Escaped(st, x[1..]);
      if st.Special(x[0]) {
        assert e[0] == BACKSLASH && e[1..][0] == x[0] && e[1..][1..] == rest;
        assert n[1..][0] == n[1] && n[1..][1..] == n[2..];
        if x[0] != 0 {
          EscapedDiffers(st, x[1..], n[2..]);
        }
      } else {
        assert e[0] == x[0] && e[1..] == rest;
        if x[0] != 0 {
          EscapedDiffers(st, x[1..], n[1..]);
        }
      }
    }
  }

  /** No string is printed as a null string that is like no printed one. */
  lemma EscapedIsNotNull(f: Format, x: seq<byte>)
    requires !LikeEscaped(f.Style(), f.nullString)
    ensures !f.IsNull(Escaped(f.Style(), x))
  {
    if f.IsNull(Escaped(f.Style(), x)) {
      EscapedDiffers(f.Style(), x, f.nullString);
    }
  }

  /** A column as it comes back: a string that is printed like the null string is read as nil. */
  function Kept(f: Format, column: Column): Column {
    if f.IsNull(ColumnText(f, column)) then Null else column
  }

  function KeptRow(f: Format, row: seq<Column>): (kept: seq<Column>)
    ensures |kept| == |row|
  {
    if |row| == 0 then [] else [Kept(f, row[0])] + KeptRow(f, row[1..])
  }

  lemma {:induction false} SameTextItself(a: seq<byte>)
    ensures SameText(a, a)
  {
    if |a| > 0 {
      SameTextItself(a[1..]);
    }
  }

  /** A column as it may be written: the null string, or a string with each of its bytes spelled in some way. */
  datatype Written = NullString | Text(spellings: seq<Spelling>, bytes: seq<byte>)
  {
    predicate Valid() { Text? ==> |spellings| == |bytes| }

    function Show(f: Format): seq<byte>
      requires Valid()
    {
      if NullString? then f.nullString else Spelled(f.delimiter, spellings, bytes)
    }

    /** What it is read as: nil, if it looks like the null string. */
    function Meaning(f: Format): Column
      requires Valid()
    {
      if f.IsNull(Show(f)) then Null else if NullString? then Null else Data(bytes)
    }
  }

  ghost predicate AllValid(row: seq<Written>) {
    forall k :: 0 <= k < |row| ==> row[k].Valid()
  }

  function Line(f: Format, row: seq<Written>): seq<byte>
    requires AllValid(row)
  {
    if |row| == 0 then []
    else if |row| == 1 then row[0].Show(f)
    else row[0].Show(f) + [f.delimiter] + Line(f, row[1..])
  }

  function Meanings(f: Format, row: seq<Written>): (r: seq<Column>)
    requires AllValid(row)
    ensures |r| == |row|
  {
    if |row| == 0 then [] else [row[0].Meaning(f)] + Meanings(f, row[1..])
  }

  /** A written column is read as what it means. */
  lemma ScanOneColumn(f: Format, s: seq<byte>, i: nat, w: Written)
    requires GoodDelimiter(f.delimiter) && StandsAlone(f.delimiter, f.nullString, 0) && w.Valid()
    requires i <= |s| && Occurs(s, i, w.Show(f)) && i + |w.Show(f)| < |s|
    requires s[i + |w.Show(f)|] == f.delimiter || s[i + |w.Show(f)|] == LF
    ensures var scan := ScanColumn(f.delimiter, s, i, []);
            && scan.end == i + |w.Show(f)| && scan.next == scan.end + 1
            && scan.atDelimiter == (s[scan.end] == f.delimiter)
            && w.Meaning(f) == (if f.IsNull(s[i..scan.end]) then Null else Data(scan.text))
  {
    hide Occurs, Spelled, SameText, StandsAlone, Unescape, HasEscapeMeaning;
    var t := w.Show(f);
    assert s[i..i + |t|] == t by { OccursText(s, i, t); }
    if w.NullString? {
      ScanNull(f.delimiter, s, i, t, 0, []);
      SameTextItself(t);
    } else {
      ScanSpelled(f.delimiter, s, i, [], w.spellings, w.bytes);
      NoText(w.bytes);
    }
  }

  lemma {:induction false} ScanRow(f: Format, s: seq<byte>, i: nat, before: seq<Column>, row: seq<Written>)
    requires GoodDelimiter(f.delimiter) && StandsAlone(f.delimiter, f.nullString, 0)
    requires AllValid(row) && |row| > 0 && i <= |s|
    requires Occurs(s, i, Line(f, row)) && i + |Line(f, row)| < |s| && s[i + |Line(f, row)|] == LF
    ensures Columns(f, s, i, before) ==
            if i + |Line(f, row)| + 1 == |s| then Ok(before + Meanings(f, row)) else Err(TrailingData)
    decreases |row|
  {
    hide Occurs, ScanColumn, Written.Show, StandsAlone, Written.Meaning, Format.IsNull;
    var t := row[0].Show(f);
    var first := row[0].Meaning(f);
    if |row| == 1 {
      ScanOneColumn(f, s, i, row[0]);
      assert Meanings(f, row[1..]) == [];
      assert Meanings(f, row) == [first];
    } else {
      var d, rest := [f.delimiter], Line(f, row[1..]);
      Assoc(t, d, rest);
      OccursConcat(s, i, t, d + rest);
      OccursConcat(s, i + |t|, d, rest);
      OccursFirst(s, i + |t|, d);
      ScanOneColumn(f, s, i, row[0]);
      ScanRow(f, s, i + |t| + 1, before + [first], row[1..]);
      assert before + [first] + Meanings(f, row[1..]) == before + Meanings(f, row);
    }
  }

  /**
   A line is read as the columns that are written in it, however their bytes are spelled. What follows its line end is
   refused.
   */
  lemma LineIsRead(f: Format, row: seq<Written>, more: seq<byte>)
    requires GoodDelimiter(f.delimiter) && StandsAlone(f.delimiter, f.nullString, 0) && AllValid(row) && |row| > 0
    ensures Decode(f, Line(f, row) + [10] + more) == if |more| == 0 then Ok(Meanings(f, row)) else Err(TrailingData)
  {
    hide Columns, Line, Meanings, StandsAlone, Occurs;
    var t := Line(f, row);
    var s := t + [10] + more;
    Assoc(t, [10], more);
    OccursWhole(s);
    OccursConcat(s, 0, t, [10] + more);
    assert s[|t|] == 10;
    ScanRow(f, s, 0, [], row);
    assert [] + Meanings(f, row) == Meanings(f, row);
  }

  /** A column as it is printed here. */
  function Printed(column: Column): (w: Written)
    ensures w.Valid()
  {
    if column.Null? then NullString else Text(seq(|column.bytes|, _ => Escape), column.bytes)
  }

  function AllPrinted(row: seq<Column>): (r: seq<Written>)
    ensures |r| == |row| && AllValid(r)
  {
    if |row| == 0 then [] else [Printed(row[0])] + AllPrinted(row[1..])
  }

  lemma {:induction false} SpelledEscaped(d: byte, x: seq<byte>)
    ensures Spelled(d, seq(|x|, _ => Escape), x) == Escaped(CopyField(d), x)
    decreases |x|
  {
    if |x| > 0 {
      SpelledEscaped(d, x[1..]);
      assert seq(|x|, _ => Escape)[1..] == seq(|x| - 1, _ => Escape);
    }
  }

  lemma {:induction false} BodyIsLine(f: Format, row: seq<Column>)
    ensures Body(f, row) == Line(f, AllPrinted(row))
    ensures KeptRow(f, row) == Meanings(f, AllPrinted(row))
    decreases |row|
  {
    hide Spelled, Escaped, Format.IsNull;
    if |row| > 0 {
      var all := AllPrinted(row);
      assert all[0] == Printed(row[0]) && all[1..] == AllPrinted(row[1..]);
      BodyIsLine(f, row[1..]);
      if row[0].Data? {
        SpelledEscaped(f.delimiter, row[0].bytes);
      }
      assert all[0].Show(f) == ColumnText(f, row[0]) && all[0].Meaning(f) == Kept(f, row[0]);
    }
  }

  /** What comes back of a row: all of it, apart from strings that are printed like the null string. */
  lemma DecodeRead(f: Format, row: seq<Column>)
    requires GoodDelimiter(f.delimiter) && StandsAlone(f.delimiter, f.nullString, 0) && |row| > 0
    ensures Decode(f, Encode(f, row)) == Ok(KeptRow(f, row))
  {
    hide Decode, Body, KeptRow, StandsAlone, Line, Meanings;
    BodyIsLine(f, row);
    LineIsRead(f, AllPrinted(row), []);
    NoText(Encode(f, row));
  }

  /** Bytes behind the line end of a row are refused. */
  lemma MoreIsRefused(f: Format, row: seq<Column>, more: seq<byte>)
    requires GoodDelimiter(f.delimiter) && StandsAlone(f.delimiter, f.nullString, 0) && |row| > 0 && |more| > 0
    ensures Decode(f, Encode(f, row) + more) == Err(TrailingData)
  {
    hide Decode, Body, StandsAlone, Line;
    BodyIsLine(f, row);
    LineIsRead(f, AllPrinted(row), more);
  }

  // ---------------------------------------------------------------- rows of the server

  /** A string as the server writes it: letters for the bytes from 8 to 13, a backslash before itself and delimiters. */
  function ServerText(d: byte, x: seq<byte>): seq<byte> {
    if |x| == 0 then []
    else
      (if 8 <= x[0] <= 13 then [92, LETTERS[x[0] - 8]] else if x[0] == 92 || x[0] == d then [92, x[0]] else [x[0]])
      + ServerText(d, x[1..])
  }

  function ServerLine(f: Format, row: seq<Column>): seq<byte> {
    if |row| == 0 then []
    else
      (if row[0].Null? then f.nullString else ServerText(f.delimiter, row[0].bytes))
      + (if |row| > 1 then [f.delimiter] else []) + ServerLine(f, row[1..])
  }

  function Served(column: Column): (w: Written)
    ensures w.Valid()
  {
    if column.Null? then NullString else Text(seq(|column.bytes|, _ => Letter), column.bytes)
  }

  function AllServed(row: seq<Column>): (r: seq<Written>)
    ensures |r| == |row| && AllValid(r)
  {
    if |row| == 0 then [] else [Served(row[0])] + AllServed(row[1..])
  }

  lemma {:induction false} ServerSpells(d: byte, x: seq<byte>)
    ensures Spelled(d, seq(|x|, _ => Letter), x) == ServerText(d, x)
    decreases |x|
  {
    if |x| > 0 {
      ServerSpells(d, x[1..]);
      assert seq(|x|, _ => Letter)[1..] == seq(|x| - 1, _ => Letter);
      EscapedByteIs(CopyField(d), x[0]);
    }
  }

  lemma {:induction false} ServerLineIs(f: Format, row: seq<Column>)
    ensures ServerLine(f, row) == Line(f, AllServed(row))
    decreases |row|
  {
    hide Spelled, ServerText;
    if |row| > 0 {
      var all := AllServed(row);
      assert all[0] == Served(row[0]) && all[1..] == AllServed(row[1..]);
      ServerLineIs(f, row[1..]);
      if row[0].Data? {
        ServerSpells(f.delimiter, row[0].bytes);
      }
      if |row| == 1 {
        assert ServerLine(f, row[1..]) == [];
        NoText(all[0].Show(f));
      }
    }
  }

  /** No string is written by the server as the default null string, unless the delimiter is an N. */
  lemma {:induction false} ServerTextIsNotNull(d: byte, x: seq<byte>)
    requires d != 78
    ensures ServerText(d, x) != [92, 78]
  {
    if |x| > 0 {
      var t, rest := ServerText(d, x), ServerText(d, x[1..]);
      assert 8 <= x[0] <= 13 || x[0] == 92 || x[0] == d ==> |t| >= 2 && t[1] != 78;
      assert !(8 <= x[0] <= 13 || x[0] == 92 || x[0] == d) ==> t[0] == x[0] != 92;
    }
  }

  lemma NullOnly(text: seq<byte>)
    requires |text| == 2 && SameText(text, [92, 78])
    ensures text == [92, 78]
  {
    assert text[1..][0] == 78 && text[0] == 92;
  }

  /** Every row the server writes, with the default null string, is read as the row it has sent. */
  lemma ServerRowIsRead(d: byte, row: seq<Column>)
    requires GoodDelimiter(d) && d != 78 && |row| > 0
    ensures Decode(Format(d, DEFAULT_NULL), ServerLine(Format(d, DEFAULT_NULL), row) + [10]) == Ok(row)
  {
    hide Decode, Line, Meanings, ServerLine;
    var f := Format(d, DEFAULT_NULL);
    assert Unescape(f.nullString, 1).1 == 2;
    ServerLineIs(f, row);
    LineIsRead(f, AllServed(row), []);
    NoText(ServerLine(f, row) + [10]);
    ServerMeanings(f, row);
  }

  lemma {:induction false} ServerMeanings(f: Format, row: seq<Column>)
    requires f.delimiter != 78 && f.nullString == DEFAULT_NULL
    ensures Meanings(f, AllServed(row)) == row
    decreases |row|
  {
    hide Spelled, ServerText, SameText;
    if |row| > 0 {
      var all := AllServed(row);
      assert all[0] == Served(row[0]) && all[1..] == AllServed(row[1..]);
      ServerMeanings(f, row[1..]);
      if row[0].Data? {
        var t := ServerText(f.delimiter, row[0].bytes);
        ServerSpells(f.delimiter, row[0].bytes);
        ServerTextIsNotNull(f.delimiter, row[0].bytes);
        if f.IsNull(t) {
          NullOnly(t);
        }
      }
      assert [row[0]] + row[1..] == row;
    }
  }

  // ---------------------------------------------------------------- the round trip, exactly

  /** Every row with columns comes back as it was. */
  lemma DecodeEncode(f: Format, row: seq<Column>)
    requires GoodFormat(f) && |row| > 0
    ensures Decode(f, Encode(f, row)) == Ok(row)
  {
    DecodeRead(f, row);
    AllKept(f, row);
  }

  lemma {:induction false} AllKept(f: Format, row: seq<Column>)
    requires !LikeEscaped(f.Style(), f.nullString)
    ensures KeptRow(f, row) == row
  {
    if |row| > 0 {
      AllKept(f, row[1..]);
      if row[0].Data? {
        EscapedIsNotNull(f, row[0].bytes);
      }
      assert row == [row[0]] + row[1..];
    }
  }

  lemma {:induction false} KeptAt(f: Format, row: seq<Column>, k: nat)
    requires k < |row|
    ensures KeptRow(f, row)[k] == Kept(f, row[k])
  {
    if k > 0 {
      KeptAt(f, row[1..], k - 1);
    }
  }

  /** The first line end `m`, a line feed or a carriage return, that is not escaped, or the end of the text. */
  function LineEnd(m: byte, s: seq<byte>, i: nat): nat
    requires i <= |s|
    decreases |s| - i
  {
    if i == |s| || s[i] == m then i
    else if s[i] == BACKSLASH then if i + 2 <= |s| then LineEnd(m, s, i + 2) else |s|
    else LineEnd(m, s, i + 1)
  }

  /** A text without such a line end of its own that leaves no backslash open. */
  predicate Closed(m: byte, x: seq<byte>) {
    |x| == 0 ||
    (x[0] != m && if x[0] == BACKSLASH then |x| >= 2 && Closed(m, x[2..]) else Closed(m, x[1..]))
  }

  lemma {:induction false} EscapedIsClosed(m: byte, d: byte, x: seq<byte>)
    requires m == LF || m == CR
    ensures Closed(m, Escaped(CopyField(d), x))
  {
    if |x| > 0 {
      var e, rest := Escaped(CopyField(d), x), Escaped(CopyField(d), x[1..]);
      EscapedIsClosed(m, d, x[1..]);
      if CopyField(d).Special(x[0]) {
        assert e[2..] == rest;
      } else {
        assert e[1..] == rest;
      }
    }
  }

  lemma {:induction false} LineOfClosed(m: byte, s: seq<byte>, i: nat, x: seq<byte>)
    requires m != BACKSLASH && i <= |s| && Occurs(s, i, x) && Closed(m, x)
    ensures i + |x| <= |s| && LineEnd(m, s, i) == LineEnd(m, s, i + |x|)
    decreases |x|
  {
    hide Occurs;
    OccursSize(s, i, x);
    if |x| > 0 {
      OccursFirst(s, i, x);
      if x[0] == BACKSLASH {
        OccursFirst(s, i + 1, x[1..]);
        assert x[1..][1..] == x[2..];
        LineOfClosed(m, s, i + 2, x[2..]);
      } else {
        LineOfClosed(m, s, i + 1, x[1..]);
      }
    }
  }

  lemma ColumnIsClosed(m: byte, f: Format, column: Column)
    requires (m == LF || m == CR) && Closed(m, f.nullString)
    ensures Closed(m, ColumnText(f, column))
  {
    if column.Data? {
      EscapedIsClosed(m, f.delimiter, column.bytes);
    }
  }

  lemma {:induction false} LineOfBody(m: byte, f: Format, s: seq<byte>, i: nat, row: seq<Column>)
    requires (m == LF || m == CR) && f.delimiter != BACKSLASH && f.delimiter != m && Closed(m, f.nullString)
    requires i <= |s| && Occurs(s, i, Body(f, row))
    ensures i + |Body(f, row)| <= |s|
    ensures LineEnd(m, s, i) == LineEnd(m, s, i + |Body(f, row)|)
    decreases |row|
  {
    hide Occurs, ColumnText, Closed;
    OccursSize(s, i, Body(f, row));
    if |row| > 0 {
      var t := ColumnText(f, row[0]);
      ColumnIsClosed(m, f, row[0]);
      if |row| == 1 {
        LineOfClosed(m, s, i, t);
      } else {
        var d, rest := [f.delimiter], Body(f, row[1..]);
        Assoc(t, d, rest);
        OccursConcat(s, i, t, d + rest);
        OccursConcat(s, i + |t|, d, rest);
        OccursFirst(s, i + |t|, d);
        LineOfClosed(m, s, i, t);
        LineOfBody(m, f, s, i + |t| + 1, row[1..]);
      }
    }
  }

  /** A printed row is one line: its only line feed that is not escaped is the last byte. */
  predicate IsLine(s: seq<byte>) {
    |s| > 0 && s[|s| - 1] == 10 && LineEnd(10, s, 0) == |s| - 1
  }

  /** Nor has it a carriage return that is not escaped. */
  predicate HasNoReturn(s: seq<byte>) {
    LineEnd(13, s, 0) == |s|
  }

  /** A null string that leaves something open spoils the line that ends with it. */
  lemma {:induction false} LineOfOpen(m: byte, s: seq<byte>, i: nat, x: seq<byte>)
    requires m != BACKSLASH && !Closed(m, x) && Occurs(s, i, x) && i + |x| + 1 == |s|
    ensures LineEnd(m, s, i) != |s| - 1
    decreases |x|
  {
    hide Occurs;
    OccursFirst(s, i, x);
    if x[0] == BACKSLASH {
      if |x| >= 2 {
        OccursFirst(s, i + 1, x[1..]);
        assert x[1..][1..] == x[2..];
        LineOfOpen(m, s, i + 2, x[2..]);
      }
    } else if x[0] != m {
      LineOfOpen(m, s, i + 1, x[1..]);
    }
  }

  /** Printed rows are lines exactly when the delimiter is none of the two marks and the null string is closed. */
  lemma OneLine(f: Format)
    ensures f.delimiter != 92 && f.delimiter != 10 && Closed(10, f.nullString) <==> forall row :: IsLine(Encode(f, row))
  {
    if f.delimiter != 92 && f.delimiter != 10 && Closed(10, f.nullString) {
      forall row
        ensures IsLine(Encode(f, row))
      {
        hide Body;
        var s := Encode(f, row);
        OccursWhole(s);
        OccursConcat(s, 0, Body(f, row), [LF]);
        LineOfBody(10, f, s, 0, row);
      }
    } else if !Closed(10, f.nullString) {
      var s := Encode(f, [Null]);
      OccursWhole(s);
      OccursConcat(s, 0, f.nullString, [LF]);
      LineOfOpen(10, s, 0, f.nullString);
      assert !IsLine(s);
    } else {
      var row := [Data([]), Data([])];
      assert row[1..] == [Data([])];
      assert Body(f, row) == [] + [f.delimiter] + [] == [f.delimiter];
      var s := [f.delimiter, LF];
      assert Encode(f, row) == s;
      assert LineEnd(10, s, 2) == 2;
      assert !IsLine(s);
    }
  }

  /** With such a format, no return is left for a line end either, unless delimiter or null string are to blame. */
  lemma NoReturn(f: Format, row: seq<Column>)
    requires f.delimiter != 92 && f.delimiter != 13 && Closed(13, f.nullString)
    ensures HasNoReturn(Encode(f, row))
  {
    hide Body;
    var s := Encode(f, row);
    OccursWhole(s);
    OccursConcat(s, 0, Body(f, row), [LF]);
    LineOfBody(13, f, s, 0, row);
  }

  /** A null string that stands alone is closed, so that rows of good formats are lines. */
  lemma {:induction false} AloneIsClosed(d: byte, n: seq<byte>, j: nat)
    requires j <= |n| && StandsAlone(d, n, j)
    ensures Closed(10, n[j..])
    decreases |n| - j
  {
    if j < |n| {
      assert n[j..][1..] == n[j + 1..];
      if n[j] == BACKSLASH {
        var k := Unescape(n, j + 1).1;
        AloneIsClosed(d, n, k);
        assert n[j..][2..] == n[j + 2..];
        assert k > j + 2 ==> n[j + 2..][0] == n[j + 2] && n[j + 2..][1..] == n[j + 3..];
        assert k > j + 3 ==> n[j + 3..][0] == n[j + 3] && n[j + 3..][1..] == n[j + 4..];
      } else {
        AloneIsClosed(d, n, j + 1);
      }
    }
  }

  // ---------------------------------------------------------------- where the round trip ends

  /** The text of a row of one column that a single escape sequence makes up. */
  lemma OneEscape(f: Format, rest: seq<byte>)
    requires |rest| > 0 && rest[0] == f.delimiter
    requires forall k :: 1 <= k < |rest| ==> !f.Style().Special(rest[k])
    ensures Encode(f, [Data(rest)]) == [BACKSLASH] + rest + [LF]
  {
    PlainText(f.Style(), rest[1..]);
    assert Escaped(f.Style(), rest) == [BACKSLASH, rest[0]] + rest[1..];
    assert [BACKSLASH, rest[0]] + rest[1..] == [BACKSLASH] + rest;
  }

  lemma {:induction false} PlainText(st: Style, s: seq<byte>)
    requires forall k :: 0 <= k < |s| ==> !st.Special(s[k])
    ensures Escaped(st, s) == s
  {
    if |s| > 0 {
      PlainText(st, s[1..]);
    }
  }

  /** A delimiter with a meaning behind a backslash turns into another byte, or into nil. */
  lemma EscapedDelimiterIsLost(f: Format) returns (row: seq<Column>)
    requires HasEscapeMeaning(f.delimiter)
    ensures |row| > 0 && Decode(f, Encode(f, row)) != Ok(row)
  {
    hide ScanColumn, Format.IsNull;
    var d := f.delimiter;
    var x: seq<byte> := if d == 'x' as int then [d, 'a' as int] else [d];
    row := [Data(x)];
    OneEscape(f, x);
    var s := Encode(f, row);
    assert s == [BACKSLASH] + x + [LF];
    assert s[0] == BACKSLASH && s[1] == d && s[|s| - 1] == LF;
    var u := Unescape(s, 1);
    assert u.1 == |s| - 1;
    EscapeScanned(d, s);
    assert [u.0] != x;
  }

  lemma EscapeScanned(d: byte, s: seq<byte>)
    requires |s| >= 3 && s[0] == BACKSLASH && s[|s| - 1] == LF && d != BACKSLASH && d != LF
    requires Unescape(s, 1).1 == |s| - 1
    ensures ScanColumn(d, s, 0, []) == Scan(|s| - 1, |s|, false, [Unescape(s, 1).0])
  {
    assert [] + [Unescape(s, 1).0] == [Unescape(s, 1).0];
  }

  /** A backslash as delimiter separates what it should escape; a line feed as delimiter ends no row. */
  lemma MarkIsTaken(f: Format) returns (row: seq<Column>)
    requires f.delimiter == BACKSLASH || f.delimiter == LF
    ensures |row| > 0 && Decode(f, Encode(f, row)) != Ok(row)
  {
    var d := f.delimiter;
    row := [Data([BACKSLASH])];
    assert Escaped(f.Style(), [BACKSLASH]) == [BACKSLASH, BACKSLASH] by { assert [BACKSLASH][1..] == []; }
    var s := [BACKSLASH, BACKSLASH, LF];
    assert Encode(f, row) == s;
    if d == BACKSLASH {
      assert ScanColumn(d, s, 0, []) == Scan(0, 1, true, []);
    } else {
      assert Unescape(s, 1) == (BACKSLASH, 2);
      assert ScanColumn(d, s, 2, [] + [BACKSLASH]) == Scan(2, 3, true, [] + [BACKSLASH]);
      assert ScanColumn(d, s, 0, []) == Scan(2, 3, true, [] + [BACKSLASH]);
    }
    FirstColumn(f, s);
  }

  /** The first column of what is read; one that ends at a delimiter is not the only one. */
  lemma FirstColumn(f: Format, s: seq<byte>)
    ensures var scan := ScanColumn(f.delimiter, s, 0, []);
            Decode(f, s).Ok? ==>
              && |Decode(f, s).value| >= (if scan.atDelimiter then 2 else 1)
              && Decode(f, s).value[0] == if f.IsNull(s[0..scan.end]) then Null else Data(scan.text)
  {
    hide ScanColumn, Format.IsNull;
    var scan := ScanColumn(f.delimiter, s, 0, []);
    var column := if f.IsNull(s[0..scan.end]) then Null else Data(scan.text);
    assert [] + [column] == [column];
    if Decode(f, s).Ok? && scan.atDelimiter {
      ColumnsGrow(f, s, scan.next, [column]);
    }
  }

  lemma {:induction false} ColumnsGrow(f: Format, s: seq<byte>, i: nat, row: seq<Column>)
    requires i <= |s| && Columns(f, s, i, row).Ok?
    ensures row < Columns(f, s, i, row).value
    decreases |s| - i
  {
    hide ScanColumn, Format.IsNull;
    var scan := ScanColumn(f.delimiter, s, i, []);
    if scan.atDelimiter {
      var column := if f.IsNull(s[i..scan.end]) then Null else Data(scan.text);
      ColumnsGrow(f, s, scan.next, row + [column]);
    }
  }

  /** A null string that does not stand alone is not found in front of a delimiter. */
  lemma NullIsLost(f: Format) returns (row: seq<Column>)
    requires GoodDelimiter(f.delimiter) && !StandsAlone(f.delimiter, f.nullString, 0)
    ensures |row| > 0 && Decode(f, Encode(f, row)) != Ok(row)
  {
    hide StandsAlone, ScanColumn, HasEscapeMeaning, Columns;
    row := [Null, Null];
    var n, d := f.nullString, f.delimiter;
    assert row[1..] == [Null];
    var s := Encode(f, row);
    assert Body(f, row) == n + [d] + n;
    assert s == n + ([d] + n + [LF]);
    OccursWhole(s);
    OccursConcat(s, 0, n, [d] + n + [LF]);
    assert s[|n|] == d;
    ScanNull(d, s, 0, n, 0, []);
    FirstColumn(f, s);
  }

  /** The string that is read as nil when the null string is like a printed one. */
  lemma {:induction false} StringAsNull(st: Style, n: seq<byte>) returns (x: seq<byte>)
    requires st.CopyField? && LikeEscaped(st, n)
    ensures |Escaped(st, x)| == |n| && SameText(Escaped(st, x), n)
    decreases |n|
  {
    x := [];
    if |n| > 0 {
      var special := n[0] == BACKSLASH;
      var k := if special then 1 else 0;
      var rest: seq<byte>;
      if n[k] == 0 {
        var c: byte := if st.delimiter == 'A' as int then 'B' as int else 'A' as int;
        rest := seq(|n| - k - 1, _ => c);
        PlainText(st, rest);
      } else {
        rest := StringAsNull(st, n[k + 1..]);
      }
      x := [n[k]] + rest;
      assert x[1..] == rest;
      var e := Escaped(st, x);
      assert e == st.EscapedByte(n[k]) + Escaped(st, rest);
      assert e[k..][0] == n[k] && e[k..][1..] == Escaped(st, rest);
      assert n[k..][0] == n[k] && n[k..][1..] == n[k + 1..];
      assert SameText(e[k..], n[k..]);
      if special {
        assert SameText(e, n);
      } else {
        assert e[0..] == e && n[0..] == n;
      }
    }
  }

  /**
   All rows with columns survive the round trip exactly when the format is a good one: the delimiter has no meaning in
   escape sequences, the null string stands alone, and no string is printed like it.
   */
  lemma FormatExact(f: Format)
    ensures GoodFormat(f) <==> forall row :: |row| > 0 ==> Decode(f, Encode(f, row)) == Ok(row)
  {
    hide StandsAlone, LikeEscaped, HasEscapeMeaning, Encode, Decode;
    if GoodFormat(f) {
      forall row | |row| > 0
        ensures Decode(f, Encode(f, row)) == Ok(row)
      {
        DecodeEncode(f, row);
      }
    } else if f.delimiter == BACKSLASH || f.delimiter == LF {
      var row := MarkIsTaken(f);
    } else if !GoodDelimiter(f.delimiter) {
      var row := EscapedDelimiterIsLost(f);
    } else if !StandsAlone(f.delimiter, f.nullString, 0) {
      var row := NullIsLost(f);
    } else {
      var x := StringAsNull(f.Style(), f.nullString);
      DecodeRead(f, [Data(x)]);
      KeptAt(f, [Data(x)], 0);
    }
  }

  /** With the default null string that leaves the delimiter: `N` is the one more byte it must not be. */
  lemma DelimiterExact(d: byte)
    ensures GoodDelimiter(d) && d != DEFAULT_NULL[1] <==>
            forall row :: |row| > 0 ==> Decode(Format(d, DEFAULT_NULL), Encode(Format(d, DEFAULT_NULL), row)) == Ok(row)
  {
    hide Encode, Decode, HasEscapeMeaning;
    var f := Format(d, DEFAULT_NULL);
    assert Unescape(f.nullString, 1).1 == 2;
    assert LikeEscaped(f.Style(), f.nullString[2..]);
    assert f.Style().Special(f.nullString[1]) <==> d == DEFAULT_NULL[1];
    FormatExact(f);
  }

  /**
   When the delimiter is good and the null string stands alone, a row comes back exactly when it has columns, and no
   string in it is printed like the null string. No columns are read as a single one.
   */
  lemma RowExact(f: Format, row: seq<Column>)
    requires GoodDelimiter(f.delimiter) && StandsAlone(f.delimiter, f.nullString, 0)
    ensures Decode(f, Encode(f, row)) == Ok(row) <==>
            |row| > 0 && forall k :: 0 <= k < |row| && row[k].Data? ==> !f.IsNull(ColumnText(f, row[k]))
  {
    if |row| > 0 {
      DecodeRead(f, row);
      forall k | 0 <= k < |row|
        ensures KeptRow(f, row)[k] == Kept(f, row[k])
      {
        KeptAt(f, row, k);
      }
      SameTextItself(f.nullString);
      assert KeptRow(f, row) == row <==> forall k :: 0 <= k < |row| ==> KeptRow(f, row)[k] == row[k];
    } else {
      FirstColumn(f, Encode(f, row));
    }
  }

  // ---------------------------------------------------------------- the loops

  /** The row printed as `pg_text_enc_copy_row` does, in place for elements of two passes. */
  method EncodeRow(f: Format, elements: seq<Element>) returns (s: seq<byte>)
    requires forall k :: 0 <= k < |elements| ==> elements[k].Valid()
    ensures s == Encode(f, ColumnsOf(elements))
  {
    hide Body;
    var out := new OutString();
    ghost var row := ColumnsOf(elements);
    ghost var done: seq<byte> := [];
    BodyStarts(f, row);
    for i := 0 to |elements|
      invariant out.Valid() && fresh(out) && fresh(out.data)
      invariant out.Contents() == done
      invariant BodyTo(f, row, i, done)
    {
      ghost var separator := if i > 0 then [f.delimiter] else [];
      ColumnsOfAt(elements, i);
      BodyStep(f, row, i, done);
      if i > 0 {
        out.EnsureCapa(1);
        out.Put(f.delimiter);
      }
      assert out.Contents() == done + separator;
      WriteColumn(f, elements[i], out);
      done := done + separator + ColumnText(f, row[i]);
    }
    BodyEnds(f, row, done);
    out.EnsureCapa(1);
    out.Put(LF);
    s := out.data[..out.len];
  }

  /** `done` is the text of the first `i` columns. */
  ghost predicate BodyTo(f: Format, row: seq<Column>, i: nat, done: seq<byte>) {
    i <= |row| && Body(f, row) == done + (if 0 < i < |row| then [f.delimiter] else []) + Body(f, row[i..])
  }

  lemma BodyStarts(f: Format, row: seq<Column>)
    ensures BodyTo(f, row, 0, [])
  {
    assert row[0..] == row;
    NoText([]);
    NoText(Body(f, row));
  }

  lemma BodyStep(f: Format, row: seq<Column>, i: nat, done: seq<byte>)
    requires BodyTo(f, row, i, done) && i < |row|
    ensures BodyTo(f, row, i + 1, done + (if i > 0 then [f.delimiter] else []) + ColumnText(f, row[i]))
  {
    hide ColumnText;
    assert row[i..][1..] == row[i + 1..];
    var separator := if i > 0 then [f.delimiter] else [];
    var t, rest := ColumnText(f, row[i]), Body(f, row[i + 1..]);
    Assoc(done + separator, t, [f.delimiter]);
    Assoc(done + separator, t + [f.delimiter], rest);
    NoText(done + separator + t);
    assert |row| == i + 1 ==> rest == [];
  }

  lemma BodyEnds(f: Format, row: seq<Column>, done: seq<byte>)
    requires BodyTo(f, row, |row|, done)
    ensures Body(f, row) == done
  {
    assert row[|row|..] == [];
    NoText(done);
  }

  method WriteColumn(f: Format, element: Element, out: OutString)
    requires out.Valid() && element.Valid()
    modifies out, out.data
    ensures out.Valid() && (out.data == old(out.data) || fresh(out.data))
    ensures out.Contents() == old(out.Contents()) + ColumnText(f, element.Column())
  {
    hide Splice, Escaped;
    match element
    case NilElement =>
      out.EnsureCapa(|f.nullString|);
      out.Copy(f.nullString);
    case Finished(text) =>
      ghost var e := Escaped(f.Style(), text);
      out.EnsureCapa(|text| * 2);
      ghost var before := out.data[..];
      var end := EscapeForward(f.Style(), text, out.data, out.len);
      out.Extend(before, e, end - out.len);
    case TwoPass(text, size) =>
      ghost var e := Escaped(f.Style(), text);
      EscapedSize(f.Style(), text);
      out.EnsureCapa(size * 2);
      ghost var before := out.data[..];
      StoreText(text, out.data, out.len);
      SplicePart(before, out.len, text);
      var end := EscapeInPlace(f.Style(), out.data, out.len, |text|);
      SpliceOver(before, out.len, text, e);
      out.Extend(before, e, end - out.len);
  }

  /** The row parsed as `pg_text_dec_copy_row` does. */
  method DecodeRow(f: Format, s: seq<byte>) returns (r: Result<seq<Column>>)
    ensures r == Decode(f, s)
  {
    var row: seq<Column> := [];
    var cur := 0;
    while true
      invariant cur <= |s| && Decode(f, s) == Columns(f, s, cur, row)
      decreases |s| - cur
    {
      var start := cur;
      var scan := ReadColumn(f.delimiter, s, start);
      cur := scan.next;
      if !scan.atDelimiter && cur < |s| {
        return Err(TrailingData);
      }
      if f.IsNull(s[start..scan.end]) {
        row := row + [Null];
      } else {
        row := row + [Data(scan.text)];
      }
      if !scan.atDelimiter {
        break;
      }
    }
    return Ok(row);
  }

  method ReadColumn(d: byte, s: seq<byte>, start: nat) returns (r: Scan)
    requires start <= |s|
    ensures r == ScanColumn(d, s, start, [])
  {
    var cur, end, found := start, start, false;
    var text: seq<byte> := [];
    while true
      invariant start <= cur <= |s| && !found
      invariant ScanColumn(d, s, start, []) == ScanColumn(d, s, cur, text)
      decreases |s| - cur
    {
      end := cur;
      if cur >= |s| {
        break;
      }
      var c := s[cur];
      cur := cur + 1;
      if c == d {
        found := true;
        break;
      }
      if c == LF {
        break;
      }
      if c == BACKSLASH {
        if cur >= |s| {
          break;
        }
        c, cur := ReadEscape(s, cur);
      }
      text := text + [c];
    }
    r := Scan(end, cur, found, text);
  }

  /** The switch over the byte behind a backslash. */
  method ReadEscape(s: seq<byte>, i: nat) returns (c: byte, cur: nat)
    requires i < |s|
    ensures (c, cur) == Unescape(s, i)
  {
    hide HexValue;
    c, cur := s[i], i + 1;
    if IsOctal(c) {
      var val := c as int - '0' as int;
      if cur < |s| && IsOctal(s[cur]) {
        val := val * 8 + (s[cur] - '0' as int);
        cur := cur + 1;
        if cur < |s| && IsOctal(s[cur]) {
          val := val * 8 + (s[cur] - '0' as int);
          cur := cur + 1;
        }
      }
      c := val % 256;
    } else if c == 'x' as int {
      if cur < |s| {
        var val := HexValue(s[cur]);
        if val >= 0 {
          cur := cur + 1;
          if cur < |s| {
            var val2 := HexValue(s[cur]);
            if val2 >= 0 {
              cur := cur + 1;
              val := val * 16 + val2;
            }
          }
          c := val % 256;
        }
      }
    } else if c == 'b' as int {
      c := 8;
    } else if c == 'f' as int {
      c := 12;
    } else if c == 'n' as int {
      c := 10;
    } else if c == 'r' as int {
      c := 13;
    } else if c == 't' as int {
      c := 9;
    } else if c == 'v' as int {
      c := 11;
    }
  }
}
