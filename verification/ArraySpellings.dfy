/**
 All the ways to write an array: bare words, quotation marks anywhere in them, backslashes in quotes, white space and
 dimension decorations around. The parser (ext/pg_text_decoder.c) reads each of them as what it spells.
 */
module ArraySpellings {
  import opened Bytes
  import opened Escape
  import opened TextFormat
  import opened TextRoundTrip
  import opened TextLimits

  /** A byte between quotation marks, with or without a backslash in front. */
  datatype Mark = Mark(escaped: bool, ch: byte)

  /** A piece of a word: a byte as it is, or a stretch between quotation marks. */
  datatype Piece = Plain(ch: byte) | Quotes(marks: seq<Mark>)

  datatype Entry = Word(pieces: seq<Piece>) | Sub(entries: seq<Entry>)

  // ---------------------------------------------------------------- how they are written

  predicate IsMarks(marks: seq<Mark>) {
    forall k :: 0 <= k < |marks| && !marks[k].escaped ==> marks[k].ch != 34 && marks[k].ch != 92
  }

  /** Outside of quotes a backslash and white space are bytes like others. */
  predicate IsPieces(d: byte, pieces: seq<Piece>) {
    forall k :: 0 <= k < |pieces| ==>
      match pieces[k]
      case Plain(ch) => ch != 34 && ch != 123 && ch != 125 && ch != d && ch != 0
      case Quotes(marks) => IsMarks(marks)
  }

  /** A level is empty, or it is written with at least one byte. */
  predicate IsEntries(d: byte, entries: seq<Entry>)
    decreases entries
  {
    && (|entries| == 1 && entries[0].Word? ==> |entries[0].pieces| > 0)
    && forall k :: 0 <= k < |entries| ==>
         match entries[k]
         case Word(pieces) => IsPieces(d, pieces)
         case Sub(inner) => IsEntries(d, inner)
  }

  function MarksText(marks: seq<Mark>): seq<byte> {
    if |marks| == 0 then []
    else (if marks[0].escaped then [92, marks[0].ch] else [marks[0].ch]) + MarksText(marks[1..])
  }

  function PieceText(piece: Piece): seq<byte> {
    match piece
    case Plain(ch) => [ch]
    case Quotes(marks) => [34] + MarksText(marks) + [34]
  }

  function WordText(pieces: seq<Piece>): seq<byte> {
    if |pieces| == 0 then [] else PieceText(pieces[0]) + WordText(pieces[1..])
  }

  function EntryText(d: byte, entry: Entry): seq<byte>
    decreases entry, 1
  {
    match entry
    case Word(pieces) => WordText(pieces)
    case Sub(entries) => [123] + EntriesText(d, entries) + [125]
  }

  function EntriesText(d: byte, entries: seq<Entry>): seq<byte>
    decreases entries, 0
  {
    if |entries| == 0 then []
    else if |entries| == 1 then EntryText(d, entries[0])
    else EntryText(d, entries[0]) + [d] + EntriesText(d, entries[1..])
  }

  // ---------------------------------------------------------------- what they spell

  function MarksBytes(marks: seq<Mark>): seq<byte> {
    if |marks| == 0 then [] else [marks[0].ch] + MarksBytes(marks[1..])
  }

  function PieceBytes(piece: Piece): seq<byte> {
    if piece.Plain? then [piece.ch] else MarksBytes(piece.marks)
  }

  function WordBytes(pieces: seq<Piece>): seq<byte> {
    if |pieces| == 0 then [] else PieceBytes(pieces[0]) + WordBytes(pieces[1..])
  }

  predicate HasQuotes(pieces: seq<Piece>) {
    exists k :: 0 <= k < |pieces| && pieces[k].Quotes?
  }

  /** The word NULL without quotation marks, in capital letters, is nil. */
  function Spelled(entry: Entry): Value {
    match entry
    case Word(pieces) =>
      if !HasQuotes(pieces) && WordBytes(pieces) == [78, 85, 76, 76] then Nil else Str(WordBytes(pieces))
    case Sub(entries) => List(AllSpelled(entries))
  }

  function AllSpelled(entries: seq<Entry>): seq<Value> {
    if |entries| == 0 then [] else [Spelled(entries[0])] + AllSpelled(entries[1..])
  }

  // ---------------------------------------------------------------- words

  lemma {:induction false} MarksRun(c: Coder, s: seq<byte>, r: Reading, marks: seq<Mark>)
    requires c.TextArray? && Sane(s, r) && r.openQuote == 1 && !r.escapeNext && IsMarks(marks)
    requires Occurs(s, r.index, MarksText(marks))
    ensures r.size + |MarksBytes(marks)| <= |r.word|
    ensures Sane(s, After(r, |MarksText(marks)|, MarksBytes(marks)))
    ensures ReadItems(c, s, r) == ReadItems(c, s, After(r, |MarksText(marks)|, MarksBytes(marks)))
    decreases |marks|
  {
    hide Splice, ReadItems, Occurs;
    OccursSize(s, r.index, MarksText(marks));
    if |marks| == 0 {
      AfterNothing(r);
    } else {
      var ch, rest := marks[0].ch, MarksText(marks[1..]);
      var piece := if marks[0].escaped then [92, ch] else [ch];
      assert MarksText(marks) == piece + rest;
      OccursConcat(s, r.index, piece, rest);
      MarkRun(c, s, r, marks[0], piece);
      MarksRun(c, s, After(r, |piece|, [ch]), marks[1..]);
      AfterTwice(r, |piece|, [ch], |rest|, MarksBytes(marks[1..]));
    }
  }

  lemma MarkRun(c: Coder, s: seq<byte>, r: Reading, mark: Mark, piece: seq<byte>)
    requires c.TextArray? && Sane(s, r) && r.openQuote == 1 && !r.escapeNext && IsMarks([mark])
    requires piece == (if mark.escaped then [92, mark.ch] else [mark.ch]) && Occurs(s, r.index, piece)
    ensures r.size < |r.word| && Sane(s, After(r, |piece|, [mark.ch]))
    ensures ReadItems(c, s, r) == ReadItems(c, s, After(r, |piece|, [mark.ch]))
  {
    hide Splice, ReadItems, Occurs;
    assert !mark.escaped ==> [mark][0].ch != 34 && [mark][0].ch != 92;
    OccursFirst(s, r.index, piece);
    InsideTurn(c, s, r);
    AfterOne(r, mark.ch);
    if mark.escaped {
      assert piece[1..] == [mark.ch];
      OccursFirst(s, r.index + 1, [mark.ch]);
      InsideTurn(c, s, Inside(r, BACKSLASH));
    }
  }

  /** A stretch between quotation marks, wherever it stands in a word. */
  lemma QuotesRun(c: Coder, s: seq<byte>, r: Reading, marks: seq<Mark>)
    requires c.TextArray? && c.delimiter != 34 && Sane(s, r) && r.openQuote < 1 && !r.escapeNext && IsMarks(marks)
    requires Occurs(s, r.index, PieceText(Quotes(marks)))
    ensures r.size + |MarksBytes(marks)| <= |r.word|
    ensures var r' := After(r, |PieceText(Quotes(marks))|, MarksBytes(marks)).(openQuote := -1);
            Sane(s, r') && ReadItems(c, s, r) == ReadItems(c, s, r')
  {
    hide Splice, ReadItems, Occurs, MarksText, MarksBytes, IsMarks, PieceText, After;
    var e, x := MarksText(marks), MarksBytes(marks);
    QuotesParts(s, r.index, marks);
    var r1 := r.(index := r.index + 1, openQuote := 1);
    OpeningTurn(c, s, r);
    MarksRun(c, s, r1, marks);
    QuotesClose(r, |e|, x);
    InsideTurn(c, s, After(r1, |e|, x));
  }

  lemma QuotesParts(s: seq<byte>, i: nat, marks: seq<Mark>)
    requires Occurs(s, i, PieceText(Quotes(marks)))
    ensures |PieceText(Quotes(marks))| == |MarksText(marks)| + 2 && i + |MarksText(marks)| + 2 <= |s|
    ensures s[i] == 34 && Occurs(s, i + 1, MarksText(marks)) && s[i + 1 + |MarksText(marks)|] == 34
  {
    hide Occurs, MarksText;
    var e := MarksText(marks);
    assert PieceText(Quotes(marks)) == [34] + (e + [34]);
    OccursConcat(s, i, [34], e + [34]);
    OccursConcat(s, i + 1, e, [34]);
    OccursFirst(s, i, [34]);
    OccursFirst(s, i + 1 + |e|, [34]);
  }

  /** Between the marks the parser collects the bytes, and behind the closing one it is outside of quotes again. */
  lemma QuotesClose(r: Reading, len: nat, x: seq<byte>)
    requires r.size + |x| <= |r.word| && !r.escapeNext
    ensures var r1 := After(r.(index := r.index + 1, openQuote := 1), len, x);
            && r1.index == r.index + 1 + len && r1.openQuote == 1
            && (r1.size < |r1.word| ==> Inside(r1, 34) == After(r, len + 2, x).(openQuote := -1))
  {
    hide Splice;
  }

  /** The parser's state behind a piece. */
  function Behind(r: Reading, len: nat, x: seq<byte>, quotes: bool): Reading
    requires r.size + |x| <= |r.word|
  {
    After(r, len, x).(openQuote := if quotes then -1 else r.openQuote)
  }

  lemma PieceRun(c: Coder, s: seq<byte>, r: Reading, piece: Piece)
    requires c.TextArray? && c.delimiter != 34 && IsPieces(c.delimiter, [piece])
    requires Sane(s, r) && r.openQuote < 1 && !r.escapeNext && Occurs(s, r.index, PieceText(piece))
    ensures r.size + |PieceBytes(piece)| <= |r.word|
    ensures var r' := Behind(r, |PieceText(piece)|, PieceBytes(piece), piece.Quotes?);
            Sane(s, r') && ReadItems(c, s, r) == ReadItems(c, s, r')
  {
    hide Splice, ReadItems, Occurs, MarksText, MarksBytes, IsMarks;
    assert [piece][0] == piece;
    if piece.Plain? {
      OccursFirst(s, r.index, [piece.ch]);
      PlainTurn(c, s, r);
      AfterOne(r, piece.ch);
    } else {
      QuotesRun(c, s, r, piece.marks);
    }
  }

  lemma BehindTwice(r: Reading, m: nat, x: seq<byte>, p: bool, n: nat, y: seq<byte>, q: bool)
    requires r.size + |x| + |y| <= |r.word|
    ensures Behind(Behind(r, m, x, p), n, y, q) == Behind(r, m + n, x + y, p || q)
  {
    hide Splice;
    AfterTwice(r, m, x, n, y);
  }

  lemma {:induction false} WordRun(c: Coder, s: seq<byte>, r: Reading, pieces: seq<Piece>)
    requires c.TextArray? && c.delimiter != 34 && IsPieces(c.delimiter, pieces)
    requires Sane(s, r) && r.openQuote < 1 && !r.escapeNext && Occurs(s, r.index, WordText(pieces))
    ensures r.size + |WordBytes(pieces)| <= |r.word|
    ensures var r' := Behind(r, |WordText(pieces)|, WordBytes(pieces), HasQuotes(pieces));
            Sane(s, r') && ReadItems(c, s, r) == ReadItems(c, s, r')
    decreases |pieces|
  {
    hide Splice, ReadItems, Occurs, PieceText, PieceBytes, HasQuotes;
    OccursSize(s, r.index, WordText(pieces));
    if |pieces| == 0 {
      AfterNothing(r);
      assert !HasQuotes(pieces) by { NoQuotes(pieces); }
    } else {
      var first, rest := pieces[0], pieces[1..];
      OccursConcat(s, r.index, PieceText(first), WordText(rest));
      assert forall k :: 0 <= k < |rest| ==> rest[k] == pieces[k + 1];
      assert IsPieces(c.delimiter, [first]) && IsPieces(c.delimiter, rest);
      PieceRun(c, s, r, first);
      var r1 := Behind(r, |PieceText(first)|, PieceBytes(first), first.Quotes?);
      WordRun(c, s, r1, rest);
      BehindTwice(r, |PieceText(first)|, PieceBytes(first), first.Quotes?, |WordText(rest)|, WordBytes(rest),
                  HasQuotes(rest));
      QuotesOfRest(pieces);
    }
  }

  lemma NoQuotes(pieces: seq<Piece>)
    requires |pieces| == 0
    ensures !HasQuotes(pieces)
  {
  }

  lemma QuotesOfRest(pieces: seq<Piece>)
    requires |pieces| > 0
    ensures HasQuotes(pieces) <==> pieces[0].Quotes? || HasQuotes(pieces[1..])
  {
    assert forall k :: 1 <= k < |pieces| ==> pieces[k] == pieces[1..][k - 1];
    if HasQuotes(pieces[1..]) {
      var k :| 0 <= k < |pieces[1..]| && pieces[1..][k].Quotes?;
      assert pieces[k + 1].Quotes?;
    }
  }

  // ---------------------------------------------------------------- levels

  /** A coder of strings whose delimiter is no quotation mark and no brace. */
  predicate ForStrings(c: Coder) {
    c.TextArray? && c.elem == TextString && c.delimiter != 34 && c.delimiter != 123 && c.delimiter != 125
  }

  /** An entry is read as what it spells, up to the delimiter or brace behind it. */
  lemma {:induction false} EntryRun(
    c: Coder, s: seq<byte>, i: nat, word: seq<byte>, before: seq<Value>, entry: Entry) returns (r: Reading)
    requires ForStrings(c) && IsEntry(c.delimiter, entry) && |word| == |s| && i <= |s|
    requires Occurs(s, i, EntryText(c.delimiter, entry))
    ensures AtEndOf(c, s, i, word, before, EntryText(c.delimiter, entry), Spelled(entry), r)
    decreases entry, 1
  {
    hide Occurs, ReadItems, WordText, WordBytes, IsPieces, HasQuotes, Splice;
    if entry.Sub? {
      var sub := LevelRun(c, s, i, word, entry.entries);
      var r0 := Fresh(i, word, before);
      SubArrayTurn(c, s, r0, sub);
      r := r0.(index := sub.index + 1, word := sub.word, escapeNext := true, items := before + [List(sub.items)]);
    } else {
      var r0, x := Fresh(i, word, before), WordBytes(entry.pieces);
      WordRun(c, s, r0, entry.pieces);
      r := Behind(r0, |WordText(entry.pieces)|, x, HasQuotes(entry.pieces));
      Collected(r0, |WordText(entry.pieces)|, x);
      StringElement(x);
      assert |x| == 4 ==> r.word[..4] == x;
    }
  }

  predicate IsEntry(d: byte, entry: Entry) {
    match entry
    case Word(pieces) => IsPieces(d, pieces)
    case Sub(inner) => IsEntries(d, inner)
  }

  lemma {:induction false} LevelRun(c: Coder, s: seq<byte>, i: nat, word: seq<byte>, entries: seq<Entry>)
    returns (level: Level)
    requires ForStrings(c) && IsEntries(c.delimiter, entries) && |word| == |s| && i <= |s|
    requires Occurs(s, i, [123] + EntriesText(c.delimiter, entries) + [125])
    ensures i < |s| && s[i] == 123 && ReadList(c, s, i + 1, word) == Ok(level)
    ensures level.index == i + 1 + |EntriesText(c.delimiter, entries)| && level.items == AllSpelled(entries)
    decreases entries, 2
  {
    hide Occurs, ReadItems, EntriesText, AllSpelled;
    var body := EntriesText(c.delimiter, entries);
    assert [123] + body + [125] == [123] + (body + [125]);
    OccursConcat(s, i, [123], body + [125]);
    OccursConcat(s, i + 1, body, [125]);
    OccursFirst(s, i, [123]);
    OccursFirst(s, i + 1 + |body|, [125]);
    if |entries| == 0 {
      NoEntries(c.delimiter);
      assert entries == [];
      level := Level(i + 1, [], word);
    } else {
      FirstByte(c, entries);
      OccursFirst(s, i + 1, body);
      level := EntriesRun(c, s, i + 1, word, [], entries);
      assert [] + AllSpelled(entries) == AllSpelled(entries);
    }
  }

  lemma NoEntries(d: byte)
    ensures EntriesText(d, []) == [] && AllSpelled([]) == []
  {
  }

  /** A level that is not empty begins with a byte other than a closing brace. */
  lemma FirstByte(c: Coder, entries: seq<Entry>)
    requires ForStrings(c) && IsEntries(c.delimiter, entries) && |entries| > 0
    ensures var body := EntriesText(c.delimiter, entries); |body| > 0 && body[0] != 125
  {
    hide MarksText, IsMarks;
    if entries[0].Word? && |entries[0].pieces| > 0 {
      var t := EntryText(c.delimiter, entries[0]);
      assert t == PieceText(entries[0].pieces[0]) + WordText(entries[0].pieces[1..]);
    }
  }

  lemma {:induction false} EntriesRun(
    c: Coder, s: seq<byte>, i: nat, word: seq<byte>, before: seq<Value>, entries: seq<Entry>) returns (level: Level)
    requires ForStrings(c) && AllEntries(c.delimiter, entries) && |word| == |s| && |entries| > 0 && i <= |s|
    requires Occurs(s, i, EntriesText(c.delimiter, entries)) && i + |EntriesText(c.delimiter, entries)| < |s|
    requires s[i + |EntriesText(c.delimiter, entries)|] == 125
    ensures ReadItems(c, s, Fresh(i, word, before)) == Ok(level)
    ensures level.index == i + |EntriesText(c.delimiter, entries)| && level.items == before + AllSpelled(entries)
    decreases entries, 1
  {
    hide Occurs, ReadItems, PushItem, EntryText, Fresh, Spelled, IsEntry;
    var t, first := EntryText(c.delimiter, entries[0]), [Spelled(entries[0])];
    assert IsEntry(c.delimiter, entries[0]);
    if |entries| == 1 {
      var r := EntryRun(c, s, i, word, before, entries[0]);
      var p := PushItem(c, r).value;
      ClosingTurn(c, s, r, p);
      level := Level(r.index, p.items, p.word);
      assert AllSpelled(entries) == first;
    } else {
      var d, rest := [c.delimiter], EntriesText(c.delimiter, entries[1..]);
      Assoc(t, d, rest);
      OccursConcat(s, i, t, d + rest);
      OccursConcat(s, i + |t|, d, rest);
      OccursFirst(s, i + |t|, d);
      var r := EntryRun(c, s, i, word, before, entries[0]);
      var p := PushItem(c, r).value;
      ClosingTurn(c, s, r, p);
      assert forall k :: 0 <= k < |entries| - 1 ==> entries[1..][k] == entries[k + 1];
      level := EntriesRun(c, s, i + |t| + 1, p.word, p.items, entries[1..]);
      assert before + first + AllSpelled(entries[1..]) == before + (first + AllSpelled(entries[1..]));
    }
  }

  predicate AllEntries(d: byte, entries: seq<Entry>) {
    forall k :: 0 <= k < |entries| ==> IsEntry(d, entries[k])
  }

  // ---------------------------------------------------------------- around the braces

  predicate IsBlanks(s: seq<byte>) {
    forall k :: 0 <= k < |s| ==> s[k] == 32 || 9 <= s[k] <= 13
  }

  /** Digits, signs and colons. */
  predicate IsBounds(s: seq<byte>) {
    forall k :: 0 <= k < |s| ==> 48 <= s[k] <= 58 || s[k] == 43 || s[k] == 45
  }

  /** The bounds of a dimension in brackets, with white space in front. */
  datatype Decoration = Decoration(blanks: seq<byte>, bounds: seq<byte>)
  {
    predicate Valid() { IsBlanks(blanks) && IsBounds(bounds) }

    function Show(): seq<byte> { blanks + ([91] + bounds + [93]) }
  }

  function Decorations(all: seq<Decoration>): seq<byte> {
    if |all| == 0 then [] else all[0].Show() + Decorations(all[1..])
  }

  lemma {:induction false} BlanksRun(s: seq<byte>, i: nat, x: seq<byte>)
    requires i <= |s| && Occurs(s, i, x) && IsBlanks(x)
    ensures i + |x| <= |s| && SkipSpace(s, i) == SkipSpace(s, i + |x|)
    decreases |x|
  {
    hide Occurs;
    OccursSize(s, i, x);
    if |x| > 0 {
      OccursFirst(s, i, x);
      assert IsBlanks(x[1..]);
      BlanksRun(s, i + 1, x[1..]);
    }
  }

  lemma {:induction false} DecorationsSkipped(s: seq<byte>, i: nat, all: seq<Decoration>, some: bool)
    requires i <= |s| && Occurs(s, i, Decorations(all)) && forall k :: 0 <= k < |all| ==> all[k].Valid()
    ensures i + |Decorations(all)| <= |s|
    ensures SkipDimensions(s, i, some) == SkipDimensions(s, i + |Decorations(all)|, some || |all| > 0)
    decreases |all|
  {
    hide Occurs, SkipDimensions, IsBlanks, IsBounds;
    OccursSize(s, i, Decorations(all));
    if |all| > 0 {
      assert all[0].Valid();
      OccursConcat(s, i, all[0].Show(), Decorations(all[1..]));
      DecorationSkipped(s, i, all[0], some);
      DecorationsSkipped(s, i + |all[0].Show()|, all[1..], true);
    }
  }

  lemma DecorationSkipped(s: seq<byte>, i: nat, one: Decoration, some: bool)
    requires i <= |s| && Occurs(s, i, one.Show()) && one.Valid()
    ensures i + |one.Show()| <= |s|
    ensures SkipDimensions(s, i, some) == SkipDimensions(s, i + |one.Show()|, true)
  {
    hide Occurs, SkipDimension, SkipDimensions, SkipSpace, IsBlanks;
    var x, j := one.bounds, i + |one.blanks|;
    OccursSize(s, i, one.Show());
    OccursConcat(s, i, one.blanks, [91] + x + [93]);
    assert [91] + x + [93] == [91] + (x + [93]);
    OccursConcat(s, j, [91], x + [93]);
    OccursFirst(s, j, [91]);
    BlanksRun(s, i, one.blanks);
    NotBlank(s, j);
    assert forall k :: 0 <= k < |x| ==> IsDimension(x[k]);
    DimensionRun(s, j + 1, x);
    BracketTurn(s, i, j, j + 1 + |x|, some);
  }

  lemma NotBlank(s: seq<byte>, i: nat)
    requires i < |s| && s[i] != 32 && !(9 <= s[i] <= 13)
    ensures SkipSpace(s, i) == i
  {
  }

  lemma BracketTurn(s: seq<byte>, i: nat, j: nat, k: nat, some: bool)
    requires i <= |s| && SkipSpace(s, i) == j && j < k < |s| && s[j] == 91
    requires SkipDimension(s, j + 1) == k && s[k] == 93
    ensures SkipDimensions(s, i, some) == SkipDimensions(s, k + 1, true)
  {
    hide SkipDimension, SkipSpace;
  }

  /** A whole array text. */
  function Whole(d: byte, all: seq<Decoration>, gap: seq<byte>, gap': seq<byte>, entries: seq<Entry>, tail: seq<byte>)
    : seq<byte>
  {
    Front(all, gap, gap') + ([123] + EntriesText(d, entries) + [125]) + tail
  }

  function Front(all: seq<Decoration>, gap: seq<byte>, gap': seq<byte>): seq<byte> {
    if |all| == 0 then gap else Decorations(all) + (gap + ([61] + gap'))
  }

  lemma FrontSkipped(s: seq<byte>, all: seq<Decoration>, gap: seq<byte>, gap': seq<byte>)
    requires IsBlanks(gap) && IsBlanks(gap') && forall k :: 0 <= k < |all| ==> all[k].Valid()
    requires Occurs(s, 0, Front(all, gap, gap'))
    requires |Front(all, gap, gap')| < |s| && s[|Front(all, gap, gap')|] == 123
    ensures ArrayStart(s) == Ok(|Front(all, gap, gap')|)
  {
    hide Occurs, IsBlanks, SkipDimensions, SkipSpace, Decorations, ArrayStart, Decoration.Valid;
    var i := |Front(all, gap, gap')|;
    NotBlank(s, i);
    if |all| == 0 {
      BlanksRun(s, 0, gap);
      NoMoreDimensions(s, 0, false, i);
      PlainStart(s, i);
    } else {
      var k := DecoratedParts(s, all, gap, gap');
      DecorationsSkipped(s, 0, all, false);
      BlanksRun(s, |Decorations(all)|, gap);
      NotBlank(s, k);
      NoMoreDimensions(s, |Decorations(all)|, true, k);
      BlanksRun(s, k + 1, gap');
      DecoratedStart(s, k, i);
    }
  }

  lemma DecoratedParts(s: seq<byte>, all: seq<Decoration>, gap: seq<byte>, gap': seq<byte>) returns (k: nat)
    requires |all| > 0 && Occurs(s, 0, Front(all, gap, gap'))
    ensures k == |Decorations(all)| + |gap| && k + 1 + |gap'| == |Front(all, gap, gap')| <= |s|
    ensures Occurs(s, 0, Decorations(all)) && Occurs(s, |Decorations(all)|, gap) && s[k] == 61
    ensures Occurs(s, k + 1, gap')
  {
    hide Occurs, Decorations;
    k := |Decorations(all)| + |gap|;
    OccursSize(s, 0, Front(all, gap, gap'));
    OccursConcat(s, 0, Decorations(all), gap + ([61] + gap'));
    OccursConcat(s, |Decorations(all)|, gap, [61] + gap');
    OccursConcat(s, k, [61], gap');
    OccursFirst(s, k, [61]);
  }

  lemma PlainStart(s: seq<byte>, i: nat)
    requires SkipDimensions(s, 0, false) == Ok((i, false)) && i < |s| && s[i] == 123
    ensures ArrayStart(s) == Ok(i)
  {
    hide SkipDimensions;
  }

  lemma DecoratedStart(s: seq<byte>, k: nat, i: nat)
    requires SkipDimensions(s, 0, false) == Ok((k, true)) && k < i < |s| && s[k] == 61 && s[i] == 123
    requires SkipSpace(s, k + 1) == i
    ensures ArrayStart(s) == Ok(i)
  {
    hide SkipDimensions, SkipSpace;
  }

  lemma NoMoreDimensions(s: seq<byte>, i: nat, some: bool, j: nat)
    requires i <= |s| && SkipSpace(s, i) == j && j < |s| && s[j] != 91
    ensures SkipDimensions(s, i, some) == Ok((j, some))
  {
  }

  /** The parser finds the outermost level, and its closing brace, whatever follows. */
  lemma WholeRun(c: Coder, all: seq<Decoration>, gap: seq<byte>, gap': seq<byte>, entries: seq<Entry>, tail: seq<byte>)
    returns (level: Level)
    requires ForStrings(c) && IsEntries(c.delimiter, entries) && IsBlanks(gap) && IsBlanks(gap')
    requires forall k :: 0 <= k < |all| ==> all[k].Valid()
    ensures var s := Whole(c.delimiter, all, gap, gap', entries, tail);
            && level.index + 1 + |tail| == |s| && Occurs(s, level.index + 1, tail)
            && level.items == AllSpelled(entries)
            && Decode(c, s) == if SkipSpace(s, level.index + 1) < |s| then Err(Malformed) else Ok(List(level.items))
  {
    hide Occurs, IsBlanks, Front, EntriesText, ReadList, IsEntries, AllSpelled, ArrayStart, Decoration.Valid;
    var front, text := Front(all, gap, gap'), [123] + EntriesText(c.delimiter, entries) + [125];
    var s := Whole(c.delimiter, all, gap, gap', entries, tail);
    OccursWhole(s);
    OccursConcat(s, 0, front + text, tail);
    OccursConcat(s, 0, front, text);
    assert s[|front|] == text[0] == 123;
    FrontSkipped(s, all, gap, gap');
    level := LevelRun(c, s, |front|, seq(|s|, _ => 0), entries);
    assert Decode(c, s) == DecodeArray(c, s);
  }

  /** Every array that is written in one of these ways is read as what it spells, whatever `dimensions` is. */
  lemma SpelledIsRead(c: Coder, all: seq<Decoration>, gap: seq<byte>, gap': seq<byte>, entries: seq<Entry>,
                      tail: seq<byte>)
    requires ForStrings(c) && IsEntries(c.delimiter, entries) && IsBlanks(gap) && IsBlanks(gap') && IsBlanks(tail)
    requires forall k :: 0 <= k < |all| ==> all[k].Valid()
    ensures Decode(c, Whole(c.delimiter, all, gap, gap', entries, tail)) == Ok(List(AllSpelled(entries)))
  {
    hide Occurs, IsBlanks, Whole, IsEntries, AllSpelled, Decode, Decoration.Valid;
    var s := Whole(c.delimiter, all, gap, gap', entries, tail);
    var level := WholeRun(c, all, gap, gap', entries, tail);
    BlanksRun(s, level.index + 1, tail);
    assert SkipSpace(s, |s|) == |s|;
  }

  /** Anything else than white space behind the closing brace is refused. */
  lemma MoreIsRefused(c: Coder, all: seq<Decoration>, gap: seq<byte>, gap': seq<byte>, entries: seq<Entry>,
                      tail: seq<byte>, ch: byte, more: seq<byte>)
    requires ForStrings(c) && IsEntries(c.delimiter, entries) && IsBlanks(gap) && IsBlanks(gap') && IsBlanks(tail)
    requires forall k :: 0 <= k < |all| ==> all[k].Valid()
    requires ch != 32 && !(9 <= ch <= 13)
    ensures Decode(c, Whole(c.delimiter, all, gap, gap', entries, tail + ([ch] + more))) == Err(Malformed)
  {
    hide Occurs, IsBlanks, Whole, IsEntries, AllSpelled, Decode, Decoration.Valid;
    var s := Whole(c.delimiter, all, gap, gap', entries, tail + ([ch] + more));
    var level := WholeRun(c, all, gap, gap', entries, tail + ([ch] + more));
    var end := level.index + 1;
    OccursConcat(s, end, tail, [ch] + more);
    OccursFirst(s, end + |tail|, [ch] + more);
    BlanksRun(s, end, tail);
    assert SkipSpace(s, end + |tail|) == end + |tail|;
  }

  // ---------------------------------------------------------------- texts cut short

  /** The parser's state over the first `m` bytes of its input. */
  function Short(r: Reading, m: nat): Reading
    requires m <= |r.word|
  {
    r.(word := r.word[..m])
  }

  /** On a shorter input the parser does the same up to its end, where it fails. */
  lemma {:induction false} ItemsCut(c: Coder, s: seq<byte>, m: nat, r: Reading)
    requires c.TextArray? && Sane(s, r) && r.openQuote <= 1 && r.index <= m <= |s| && ReadItems(c, s, r).Ok?
    ensures Sane(s[..m], Short(r, m))
    ensures var level := ReadItems(c, s, r).value;
            && (level.index >= m ==> ReadItems(c, s[..m], Short(r, m)) == Err(PrematureEnd))
            && (level.index < m ==>
                  ReadItems(c, s[..m], Short(r, m)) == Ok(Level(level.index, level.items, level.word[..m])))
    decreases |s| - r.index, 1
  {
    hide PushItem, ReadList, ReadItems;
    if r.index == m {
      AtTheEnd(c, s[..m], Short(r, m));
    } else {
      var ch := s[r.index];
      assert s[..m][r.index] == ch;
      if r.openQuote >= 1 {
        InsideTurn(c, s, r);
        InsideTurn(c, s[..m], Short(r, m));
        InsideCut(r, ch, m);
        ItemsCut(c, s, m, Inside(r, ch));
      } else if ch == c.delimiter || ch == RBRACE {
        ClosingCut(c, s, m, r);
        if ch != RBRACE {
          var p := PushItem(c, r).value;
          ItemsCut(c, s, m, Fresh(r.index + 1, p.word, p.items));
        }
      } else if ch == QUOTE {
        OpeningTurn(c, s, r);
        OpeningTurn(c, s[..m], Short(r, m));
        ItemsCut(c, s, m, r.(index := r.index + 1, openQuote := 1));
      } else if ch == LBRACE {
        NestedCut(c, s, m, r);
      } else if ch == 0 {
        ZeroEnds(c, s, r);
      } else {
        PlainTurn(c, s, r);
        PlainTurn(c, s[..m], Short(r, m));
        AppendCut(r, ch, m);
        ItemsCut(c, s, m, Append(r, ch));
      }
    }
  }

  lemma AtTheEnd(c: Coder, s: seq<byte>, r: Reading)
    requires c.TextArray? && Sane(s, r) && r.index == |s|
    ensures ReadItems(c, s, r) == Err(PrematureEnd)
  {
  }

  lemma ClosingCut(c: Coder, s: seq<byte>, m: nat, r: Reading)
    requires c.TextArray? && Sane(s, r) && r.openQuote < 1 && r.index < m <= |s| && ReadItems(c, s, r).Ok?
    requires s[r.index] == RBRACE || s[r.index] == c.delimiter
    ensures PushItem(c, r).Ok?
    ensures var p, short := PushItem(c, r).value, ReadItems(c, s[..m], Short(r, m));
            if s[r.index] == RBRACE then
              && ReadItems(c, s, r) == Ok(Level(r.index, p.items, p.word))
              && short == Ok(Level(r.index, p.items, p.word[..m]))
            else
              && ReadItems(c, s, r) == ReadItems(c, s, Fresh(r.index + 1, p.word, p.items))
              && short == ReadItems(c, s[..m], Short(Fresh(r.index + 1, p.word, p.items), m))
  {
    hide PushItem, ReadItems;
    FailedTurn(c, s, r);
    var p := PushItem(c, r).value;
    ClosingTurn(c, s, r, p);
    PushCut(c, r, m);
    assert s[..m][r.index] == s[r.index];
    ClosingTurn(c, s[..m], Short(r, m), Short(p, m));
  }

  lemma {:induction false} NestedCut(c: Coder, s: seq<byte>, m: nat, r: Reading)
    requires c.TextArray? && Sane(s, r) && r.openQuote < 1 && r.index < m <= |s| && ReadItems(c, s, r).Ok?
    requires s[r.index] == LBRACE && c.delimiter != LBRACE
    ensures Sane(s[..m], Short(r, m))
    ensures var level := ReadItems(c, s, r).value;
            && (level.index >= m ==> ReadItems(c, s[..m], Short(r, m)) == Err(PrematureEnd))
            && (level.index < m ==>
                  ReadItems(c, s[..m], Short(r, m)) == Ok(Level(level.index, level.items, level.word[..m])))
    decreases |s| - r.index, 0
  {
    hide ReadList, ReadItems;
    FailedTurn(c, s, r);
    var sub := ReadList(c, s, r.index + 1, r.word).value;
    ListCut(c, s, m, r.index + 1, r.word);
    assert s[..m][r.index] == LBRACE;
    SubArrayTurn(c, s, r, sub);
    var next := r.(index := sub.index + 1, word := sub.word, escapeNext := true,
                   items := r.items + [List(sub.items)]);
    if sub.index < m {
      SubArrayTurn(c, s[..m], Short(r, m), Level(sub.index, sub.items, sub.word[..m]));
      ItemsCut(c, s, m, next);
    } else {
      SubArrayFails(c, s[..m], Short(r, m));
    }
  }

  lemma SubArrayFails(c: Coder, s: seq<byte>, r: Reading)
    requires c.TextArray? && Sane(s, r) && r.openQuote < 1 && r.index < |s|
    requires s[r.index] == LBRACE && c.delimiter != LBRACE
    requires ReadList(c, s, r.index + 1, r.word) == Err(PrematureEnd)
    ensures ReadItems(c, s, r) == Err(PrematureEnd)
  {
    hide ReadList, PushItem;
  }

  lemma InsideCut(r: Reading, ch: byte, m: nat)
    requires r.size <= r.index < m <= |r.word|
    ensures Short(Inside(r, ch), m) == Inside(Short(r, m), ch)
  {
    AppendCut(r, ch, m);
  }

  lemma AppendCut(r: Reading, ch: byte, m: nat)
    requires r.size <= r.index < m <= |r.word|
    ensures Short(Append(r, ch), m) == Append(Short(r, m), ch)
  {
  }

  lemma PushCut(c: Coder, r: Reading, m: nat)
    requires c.TextArray? && r.size <= r.index < m <= |r.word| && PushItem(c, r).Ok?
    ensures PushItem(c, Short(r, m)) == Ok(Short(PushItem(c, r).value, m))
  {
    hide Decode;
    assert r.word[..m][..r.size] == r.word[..r.size];
    assert r.size == 4 ==> r.word[..m][..4] == r.word[..4];
    assert r.word[r.size := 0][..m] == r.word[..m][r.size := 0];
  }

  lemma {:induction false} ListCut(c: Coder, s: seq<byte>, m: nat, index: nat, word: seq<byte>)
    requires c.TextArray? && |word| == |s| && index <= m <= |s| && ReadList(c, s, index, word).Ok?
    ensures var level := ReadList(c, s, index, word).value;
            && (level.index >= m ==> ReadList(c, s[..m], index, word[..m]) == Err(PrematureEnd))
            && (level.index < m ==>
                  ReadList(c, s[..m], index, word[..m]) == Ok(Level(level.index, level.items, level.word[..m])))
    decreases |s| - index, 2
  {
    hide ReadItems;
    if !(index < |s| && s[index] == RBRACE) {
      ItemsCut(c, s, m, Fresh(index, word, []));
    } else if index < m {
      assert s[..m][index] == RBRACE;
    } else {
      NothingLeft(c, s[..m], word[..m]);
    }
  }

  lemma NothingLeft(c: Coder, s: seq<byte>, word: seq<byte>)
    requires c.TextArray? && |word| == |s|
    ensures ReadList(c, s, |s|, word) == Err(PrematureEnd)
  {
  }

  /** Every printed array that is cut short is refused, because it ends too soon or has nothing at all. */
  lemma PrintedCut(c: Coder, items: seq<Value>, m: nat)
    requires c.TextArray? && GoodCoder(c) && ConformsList(c, items, 1)
    ensures ListText(c, items, 1).Ok? && (m < |ListText(c, items, 1).value| ==>
              Decode(c, ListText(c, items, 1).value[..m]) == Err(if m == 0 then Malformed else PrematureEnd))
  {
    hide ReadList, Occurs, ListText, ConformsList;
    ListTextClean(c, items, 1);
    var s := ListText(c, items, 1).value;
    ListStarts(c, items, 1);
    if 0 < m < |s| {
      OccursWhole(s);
      var word := seq(|s|, _ => 0);
      var level := ListRun(c, s, 0, word, items, 1);
      ListCut(c, s, m, 1, word);
      assert word[..m] == seq(m, _ => 0);
      assert s[..m][0] == LBRACE;
      InBraces(c, s[..m]);
    } else if m == 0 {
      assert s[..0] == [];
      assert ArrayStart([]) == Err(Malformed);
    }
  }
}
