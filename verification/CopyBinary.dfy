/**
 Rows of the COPY binary format (ext/pg_copy_coder.c): a count of columns, and for each column its length and its
 bytes, or the length -1 for nil. The first row may stand behind a header.
 */
module CopyBinary {
  import opened Bytes
  import opened BinaryFields
  import opened FieldValues
  import opened RubyString

  /** What one piece of COPY data holds: a row, or the trailer that ends the data. */
  datatype Row = Trailer | Columns(columns: seq<Column>)

  const SIGNATURE: seq<byte> := [80, 71, 67, 79, 80, 89, 10, 255, 13, 10, 0]

  const MAX_COLUMNS := 32768

  // ---------------------------------------------------------------- printing

  /** The wire form of a row. */
  function Wire(columns: seq<Column>): seq<byte> {
    Nbo16(|columns|) + Body(columns)
  }

  function ElementBytes(e: Element): seq<byte> {
    match e
    case NilElement => Nbo32(-1)
    case Finished(text) => Nbo32(|text|) + text
    case TwoPass(text, size) => Nbo32(size) + text
  }

  function ElementsBody(elements: seq<Element>): seq<byte> {
    if |elements| == 0 then [] else ElementBytes(elements[0]) + ElementsBody(elements[1..])
  }

  /** `pg_bin_enc_copy_row`. */
  function Encode(elements: seq<Element>): Result<seq<byte>> {
    if |elements| >= MAX_COLUMNS then Err(TooManyColumns)
    else Ok(Nbo16(|elements|) + ElementsBody(elements))
  }

  // ---------------------------------------------------------------- parsing

  /** Where the row begins: behind the header, if there is one. */
  function RowStart(s: seq<byte>): (r: Result<nat>)
    ensures r.Ok? ==> r.value <= |s|
  {
    if SIGNATURE <= s then
      if |s| < 19 then Err(PrematureEnd)
      else
        var extension := ReadNbo32(s[15..19]);
        if extension < 0 || |s| - 19 < extension then Err(PrematureEnd) else Ok(19 + extension)
    else Ok(0)
  }

  function ReadRow(s: seq<byte>, i: nat): Result<Row>
    requires i <= |s|
  {
    if |s| - i < 2 then Err(PrematureEnd)
    else
      var n := ReadNbo16(s[i..i + 2]);
      if n < 0 then
        if n != -1 then Err(PrematureEnd) else if i + 2 < |s| then Err(TrailingData) else Ok(Trailer)
      else
        var (j, columns) :- ReadColumns(s, i + 2, n, []);
        if j < |s| then Err(TrailingData) else Ok(Columns(columns))
  }

  /** `pg_bin_dec_copy_row`. */
  function Decode(s: seq<byte>): Result<Row> {
    var i :- RowStart(s);
    ReadRow(s, i)
  }

  // ---------------------------------------------------------------- the round trip

  ghost predicate Fits(columns: seq<Column>) {
    |columns| < MAX_COLUMNS && forall k :: 0 <= k < |columns| ==> ColumnFits(columns[k])
  }

  /** From where a wire row stands at the end of a text, it is read. */
  lemma RowRun(s: seq<byte>, i: nat, columns: seq<Column>)
    requires Fits(columns) && i <= |s| && s[i..] == Wire(columns)
    ensures ReadRow(s, i) == Ok(Columns(columns))
  {
    hide ReadNbo16, Nbo16, ReadColumns, Body;
    assert Occurs(s, i, Wire(columns)) by { assert s[i..i + |Wire(columns)|] == s[i..]; }
    OccursConcat(s, i, Nbo16(|columns|), Body(columns));
    OccursText(s, i, Nbo16(|columns|));
    Nbo16RoundTrip(|columns|, [0, 0]);
    ColumnsRun(s, i + 2, columns, []);
    assert [] + columns == columns;
  }

  /** Whatever is accepted as a row is, behind the header, exactly the wire form of that row. */
  lemma DecodeSound(s: seq<byte>, columns: seq<Column>)
    requires Decode(s) == Ok(Columns(columns))
    ensures RowStart(s).Ok? && s[RowStart(s).value..] == Wire(columns) && Fits(columns)
  {
    hide ReadColumns, Body, Nbo16, ReadNbo16;
    var i := RowStart(s).value;
    var n := ReadNbo16(s[i..i + 2]);
    Nbo16RoundTrip(0, s[i..i + 2]);
    var read := ColumnsSound(s, i + 2, n, []);
    assert [] + read == read == columns;
    OccursText(s, i + 2, Body(columns));
    assert s[i..] == s[i..i + 2] + s[i + 2..];
  }

  /** Where the header is taken away, less is left. */
  lemma HeaderIsDropped(s: seq<byte>, columns: seq<Column>)
    requires SIGNATURE <= s && Decode(s) == Ok(Columns(columns))
    ensures |Wire(columns)| < |s|
  {
    hide ReadRow, Wire;
    DecodeSound(s, columns);
  }

  /** A row comes back as it was exactly when it does not look like a header. */
  lemma DecodeWire(columns: seq<Column>)
    requires Fits(columns)
    ensures Decode(Wire(columns)) == Ok(Columns(columns)) <==> !LikeHeader(columns)
  {
    hide ReadRow, Wire, LikeHeader;
    LooksLikeHeader(columns);
    var s := Wire(columns);
    assert s[0..] == s;
    if SIGNATURE <= s {
      if Decode(s) == Ok(Columns(columns)) {
        HeaderIsDropped(s, columns);
      }
    } else {
      RowRun(s, 0, columns);
    }
  }

  /** The one row that looks like a header: 0x5047 columns, the first with 0x434F5059 bytes that go on like one. */
  lemma LooksLikeHeader(columns: seq<Column>)
    requires Fits(columns)
    ensures SIGNATURE <= Wire(columns) <==> LikeHeader(columns)
  {
    if SIGNATURE <= Wire(columns) {
      HeaderLooks(columns);
    }
    if LikeHeader(columns) {
      LooksMakeHeader(columns);
    }
  }

  predicate LikeHeader(columns: seq<Column>) {
    && |columns| == 0x5047
    && columns[0].Data?
    && |columns[0].bytes| == 0x434F5059
    && columns[0].bytes[..5] == [10, 255, 13, 10, 0]
  }

  lemma HeaderLooks(columns: seq<Column>)
    requires Fits(columns) && SIGNATURE <= Wire(columns)
    ensures LikeHeader(columns)
  {
    hide Body;
    var s := Wire(columns);
    assert s[..2] == Nbo16(|columns|) && s[2..] == Body(columns);
    assert s[..2] == SIGNATURE[..2] == [80, 71];
    Nbo16RoundTrip(|columns|, [0, 0]);
    LongEnough(columns);
    FirstColumn(columns, s[2..]);
  }

  lemma LooksMakeHeader(columns: seq<Column>)
    requires Fits(columns) && LikeHeader(columns)
    ensures SIGNATURE <= Wire(columns)
  {
    var s := Wire(columns);
    assert Nbo16(0x5047) == [80, 71];
    assert Nbo32(0x434F5059) == [67, 79, 80, 89];
    var t := ColumnBytes(columns[0]);
    assert t[..4] == [67, 79, 80, 89] && t[4..9] == [10, 255, 13, 10, 0];
    assert s[2..11] == t[..9];
    assert s[..11] == s[..2] + s[2..11];
    assert s[..11] == SIGNATURE;
  }

  /** There is such a row, and it does not come back: 0x5047 columns, of which all but the first are nil. */
  lemma Collision() returns (columns: seq<Column>)
    ensures Fits(columns) && LikeHeader(columns) && Decode(Wire(columns)) != Ok(Columns(columns))
  {
    hide Decode, Wire;
    var bytes: seq<byte> := [10, 255, 13, 10, 0] + seq(0x434F5054, _ => 0);
    columns := [Data(bytes)] + seq(0x5046, _ => Null);
    assert bytes[..5] == [10, 255, 13, 10, 0];
    assert |bytes| == 0x434F5059;
    DecodeWire(columns);
  }

  lemma SignatureSize()
    ensures Nbo32(0x434F5059) == [67, 79, 80, 89] == SIGNATURE[2..6]
  {
  }

  /** The start of a body that goes on like a header. */
  lemma FirstColumn(columns: seq<Column>, body: seq<byte>)
    requires |columns| > 0 && ColumnFits(columns[0]) && body == Body(columns) && |body| >= 9
    requires body[..9] == SIGNATURE[2..]
    ensures columns[0].Data? && |columns[0].bytes| == 0x434F5059 && columns[0].bytes[..5] == SIGNATURE[6..]
  {
    hide Nbo32, ReadNbo32;
    var t, n := ColumnBytes(columns[0]), if columns[0].Null? then -1 else |columns[0].bytes|;
    SignatureSize();
    assert body[..4] == body[..9][..4] == SIGNATURE[2..6];
    assert body[..4] == t[..4] == Nbo32(n);
    Nbo32RoundTrip(0x434F5059);
    Nbo32RoundTrip(n);
    if columns[0].Data? {
      assert columns[0].bytes[..5] == body[4..9] == body[..9][4..9];
    }
  }

  lemma {:induction false} LongEnough(columns: seq<Column>)
    ensures |Body(columns)| >= 4 * |columns|
  {
    if |columns| > 0 {
      LongEnough(columns[1..]);
    }
  }

  /** A header: the signature, four bytes of flags, and an extension with its length. */
  function Header(flags: seq<byte>, extension: seq<byte>): seq<byte> {
    SIGNATURE + flags + Nbo32(|extension|) + extension
  }

  /** A header in front changes nothing, whatever the row looks like. */
  lemma BehindHeader(flags: seq<byte>, extension: seq<byte>, columns: seq<Column>)
    requires Fits(columns) && |flags| == 4 && |extension| <= INT32_MAX
    ensures Decode(Header(flags, extension) + Wire(columns)) == Ok(Columns(columns))
  {
    hide ReadRow, Wire, Nbo32, ReadNbo32;
    var h := Header(flags, extension);
    var s := h + Wire(columns);
    HeaderStart(flags, extension, Wire(columns));
    assert s[|h|..] == Wire(columns);
    RowRun(s, |h|, columns);
  }

  lemma HeaderStart(flags: seq<byte>, extension: seq<byte>, rest: seq<byte>)
    requires |flags| == 4 && |extension| <= INT32_MAX
    ensures RowStart(Header(flags, extension) + rest) == Ok(|Header(flags, extension)|)
  {
    hide Nbo32, ReadNbo32;
    var s := Header(flags, extension) + rest;
    assert s[..11] == SIGNATURE;
    assert s[15..19] == Nbo32(|extension|);
    Nbo32RoundTrip(|extension|);
  }

  /** The data ends with a row of two bytes of 255, and only with that one, behind a header or not. */
  lemma TrailerExact(s: seq<byte>)
    ensures Decode(s) == Ok(Trailer) <==> RowStart(s).Ok? && s[RowStart(s).value..] == [255, 255]
  {
    hide ReadColumns, RowStart;
    if RowStart(s).Ok? {
      var i := RowStart(s).value;
      var t := s[i..];
      assert Nbo16(-1) == [255, 255];
      if |t| >= 2 {
        assert s[i..i + 2] == t[..2];
        Nbo16RoundTrip(-1, t[..2]);
        assert |t| == 2 ==> t[..2] == t;
      }
    }
  }

  /** Where a row begins: at the start, or behind the eleven bytes of the signature, the flags and the extension. */
  lemma RowStartIs(s: seq<byte>)
    ensures |s| < 11 || s[..11] != [80, 71, 67, 79, 80, 89, 10, 255, 13, 10, 0] ==> RowStart(s) == Ok(0)
    ensures |s| >= 19 && s[..11] == [80, 71, 67, 79, 80, 89, 10, 255, 13, 10, 0] ==>
              var n := Unsigned32(s[15..19]);
              RowStart(s) == if n > 2147483647 || 19 + n > |s| then Err(PrematureEnd) else Ok(19 + n)
    ensures 11 <= |s| < 19 && s[..11] == [80, 71, 67, 79, 80, 89, 10, 255, 13, 10, 0] ==> RowStart(s).Err?
  {
    hide Unsigned32;
    assert SIGNATURE <= s <==> |s| >= 11 && s[..11] == SIGNATURE;
  }

  /** The printer takes up to 32767 columns, and puts their number in front, the higher byte first. */
  lemma CountIs(elements: seq<Element>)
    ensures Encode(elements).Ok? <==> |elements| <= 32767
    ensures Encode(elements).Err? ==> Encode(elements).error == TooManyColumns
    ensures Encode(elements).Ok? ==>
              var s := Encode(elements).value;
              |s| >= 2 && s[0] as int * 256 + s[1] == |elements|
  {
    hide ElementsBody;
    if |elements| <= 32767 {
      DivIs(|elements| / 256, 256, 0, |elements| / 256);
    }
  }

  // ---------------------------------------------------------------- damaged data

  /** Every proper prefix of a row's wire form is refused, and so is everything that goes on behind it. */
  lemma DamageIsNoticed(columns: seq<Column>, m: nat, more: seq<byte>)
    requires Fits(columns) && !LikeHeader(columns)
    ensures m < |Wire(columns)| ==> Decode(Wire(columns)[..m]).Err?
    ensures |more| > 0 ==> Decode(Wire(columns) + more) == Err(TrailingData)
  {
    hide LikeHeader;
    LooksLikeHeader(columns);
    var s := Wire(columns);
    assert s[0..] == s;
    if m < |s| {
      if SIGNATURE <= s[..m] {
        SignatureBefore(s, m);
      } else {
        RowCut(s, 0, m, columns);
      }
    }
    if |more| > 0 {
      if SIGNATURE <= s + more {
        SignatureWithin(columns, more);
      } else {
        assert Occurs(s + more, 0, s) by { assert (s + more)[0..|s|] == s; }
        RowExtended(s + more, 0, columns);
      }
    }
  }

  lemma SignatureBefore(s: seq<byte>, m: nat)
    requires m <= |s| && SIGNATURE <= s[..m]
    ensures SIGNATURE <= s
  {
    assert s[..m][..11] == s[..11];
  }

  lemma RowCut(s: seq<byte>, i: nat, m: nat, columns: seq<Column>)
    requires Fits(columns) && i <= m < |s| && s[i..] == Wire(columns)
    ensures ReadRow(s[..m], i).Err?
  {
    hide ReadColumns, Body, Nbo16, ReadNbo16;
    assert Occurs(s, i, Wire(columns)) by { assert s[i..i + |Wire(columns)|] == s[i..]; }
    OccursConcat(s, i, Nbo16(|columns|), Body(columns));
    OccursText(s, i, Nbo16(|columns|));
    if i + 2 <= m {
      Nbo16RoundTrip(|columns|, [0, 0]);
      assert s[..m][i..i + 2] == s[i..i + 2];
      ColumnsCut(s, i + 2, m, columns, []);
    }
  }

  lemma RowExtended(s: seq<byte>, i: nat, columns: seq<Column>)
    requires Fits(columns) && i + |Wire(columns)| < |s| && Occurs(s, i, Wire(columns))
    ensures ReadRow(s, i) == Err(TrailingData)
  {
    hide ReadColumns, Body, Nbo16, ReadNbo16;
    OccursConcat(s, i, Nbo16(|columns|), Body(columns));
    OccursText(s, i, Nbo16(|columns|));
    Nbo16RoundTrip(|columns|, [0, 0]);
    ColumnsRun(s, i + 2, columns, []);
  }

  /** A row too short for a header does not become one by what follows. */
  lemma SignatureWithin(columns: seq<Column>, more: seq<byte>)
    requires Fits(columns) && SIGNATURE <= Wire(columns) + more
    ensures SIGNATURE <= Wire(columns)
  {
    hide Body;
    var s := Wire(columns);
    assert (s + more)[..2] == s[..2] == Nbo16(|columns|);
    assert (s + more)[..11][..2] == SIGNATURE[..2] == [80, 71];
    Nbo16RoundTrip(|columns|, [0, 0]);
    assert |columns| == 0x5047;
    LongEnough(columns);
    assert (s + more)[..11] == s[..11];
  }

  /** Neither is a damaged row accepted behind a header, nor a damaged header. */
  lemma DamageBehindHeader(flags: seq<byte>, extension: seq<byte>, columns: seq<Column>, m: nat, more: seq<byte>)
    requires Fits(columns) && |flags| == 4 && |extension| <= INT32_MAX
    ensures var s := Header(flags, extension) + Wire(columns);
            && (m < |s| ==> Decode(s[..m]).Err?)
            && (|more| > 0 ==> Decode(s + more) == Err(TrailingData))
  {
    hide ReadRow, Wire, Header;
    var h, w := Header(flags, extension), Wire(columns);
    var s := h + w;
    assert s[|h|..] == w;
    if m < |h| {
      assert s[..m] == h[..m];
      HeaderCut(flags, extension, m);
    } else if m < |s| {
      assert s[..m] == h + w[..m - |h|];
      HeaderStart(flags, extension, w[..m - |h|]);
      RowCut(s, |h|, m, columns);
    }
    if |more| > 0 {
      Assoc(h, w, more);
      HeaderStart(flags, extension, w + more);
      assert Occurs(s + more, |h|, w) by { assert (s + more)[|h|..|h| + |w|] == w; }
      RowExtended(s + more, |h|, columns);
    }
  }

  lemma HeaderCut(flags: seq<byte>, extension: seq<byte>, m: nat)
    requires |flags| == 4 && |extension| <= INT32_MAX && m < |Header(flags, extension)|
    ensures Decode(Header(flags, extension)[..m]).Err?
  {
    hide Nbo32, ReadNbo32;
    var h := Header(flags, extension);
    var s := h[..m];
    assert h[..11] == SIGNATURE;
    if m >= 19 {
      assert s[..11] == h[..11];
      assert s[15..19] == h[15..19] == Nbo32(|extension|);
      Nbo32RoundTrip(|extension|);
    } else if m >= 11 {
      assert s[..11] == h[..11];
    } else {
      SignatureCut(m);
      assert s == SIGNATURE[..m];
    }
  }

  /** The signature itself does not pass for a row. */
  lemma SignatureCut(m: nat)
    requires m < |SIGNATURE|
    ensures Decode(SIGNATURE[..m]).Err?
  {
    var s := SIGNATURE[..m];
    assert |s| == m;
    if m >= 2 {
      assert s[0..2] == [80, 71];
      if m >= 6 {
        assert s[2..6] == [67, 79, 80, 89];
      }
      assert ReadColumn(s, 2).Err?;
    }
  }

  // ---------------------------------------------------------------- elements of two passes

  lemma {:induction false} ExactBody(elements: seq<Element>)
    requires forall k :: 0 <= k < |elements| ==> elements[k].Exact()
    ensures ElementsBody(elements) == Body(ColumnsOf(elements))
  {
    if |elements| > 0 {
      assert elements[0].Exact();
      ExactBody(elements[1..]);
      assert ColumnsOf(elements)[1..] == ColumnsOf(elements[1..]);
    }
  }

  /** A first pass that asks for too much puts another length on the wire. */
  lemma {:induction false} InexactBody(elements: seq<Element>)
    requires forall k :: 0 <= k < |elements| ==> elements[k].Valid()
    requires exists k :: 0 <= k < |elements| && !elements[k].Exact()
    ensures ElementsBody(elements) != Body(ColumnsOf(elements))
    ensures |ElementsBody(elements)| == |Body(ColumnsOf(elements))|
  {
    hide Nbo32;
    var e, rest := elements[0], elements[1..];
    var columns := ColumnsOf(elements);
    assert columns[1..] == ColumnsOf(rest);
    BodySizes(rest);
    BodySizes(elements);
    var a, b := ElementBytes(e), ColumnBytes(e.Column());
    assert ElementsBody(elements) == a + ElementsBody(rest) && Body(columns) == b + Body(ColumnsOf(rest));
    assert |a| == |b|;
    if e.Exact() {
      var k :| 0 <= k < |elements| && !elements[k].Exact();
      assert rest[k - 1] == elements[k];
      InexactBody(rest);
      assert (a + ElementsBody(rest))[|a|..] == ElementsBody(rest);
      assert (b + Body(ColumnsOf(rest)))[|a|..] == Body(ColumnsOf(rest));
    } else {
      Nbo32RoundTrip(e.size);
      Nbo32RoundTrip(|e.text|);
      assert Nbo32(e.size) != Nbo32(|e.text|);
      assert (a + ElementsBody(rest))[..4] == a[..4] == Nbo32(e.size);
      assert (b + Body(ColumnsOf(rest)))[..4] == b[..4] == Nbo32(|e.text|);
    }
  }

  lemma {:induction false} BodySizes(elements: seq<Element>)
    ensures |ElementsBody(elements)| == |Body(ColumnsOf(elements))|
  {
    if |elements| > 0 {
      BodySizes(elements[1..]);
      assert ColumnsOf(elements)[1..] == ColumnsOf(elements[1..]);
    }
  }

  lemma {:induction false} ColumnsOfFit(elements: seq<Element>)
    requires forall k :: 0 <= k < |elements| ==> elements[k].Valid()
    ensures forall k :: 0 <= k < |elements| ==> ColumnFits(ColumnsOf(elements)[k])
  {
    if |elements| > 0 {
      assert elements[0].Valid();
      ColumnsOfFit(elements[1..]);
    }
  }

  lemma SizeDecides(s: seq<byte>, columns: seq<Column>)
    requires Decode(s) == Ok(Columns(columns)) && |s| == |Wire(columns)|
    ensures s == Wire(columns)
  {
    hide ReadRow, Wire;
    DecodeSound(s, columns);
    assert s[0..] == s;
  }

  /**
   The round trip of what the encoder is given: up to 32767 elements come back exactly when every first pass gave
   the length that the second pass wrote, and the columns are not those that look like a header.
   */
  lemma DecodeEncode(elements: seq<Element>)
    requires |elements| < MAX_COLUMNS && forall k :: 0 <= k < |elements| ==> elements[k].Valid()
    ensures Encode(elements).Ok?
    ensures Decode(Encode(elements).value) == Ok(Columns(ColumnsOf(elements))) <==>
            && (forall k :: 0 <= k < |elements| ==> elements[k].Exact())
            && !LikeHeader(ColumnsOf(elements))
  {
    hide Decode, Body, ElementsBody, LikeHeader;
    var columns := ColumnsOf(elements);
    ColumnsOfFit(elements);
    var s := Encode(elements).value;
    if forall k :: 0 <= k < |elements| ==> elements[k].Exact() {
      ExactBody(elements);
      DecodeWire(columns);
    } else {
      InexactBody(elements);
      assert s[2..] == ElementsBody(elements) && Wire(columns)[2..] == Body(columns);
      if Decode(s) == Ok(Columns(columns)) {
        SizeDecides(s, columns);
      }
    }
  }

  // ---------------------------------------------------------------- the loops

  /** The row as `pg_bin_enc_copy_row` builds it: lengths first, finished strings copied, second passes in place. */
  method EncodeRow(elements: seq<Element>) returns (r: Result<seq<byte>>)
    requires forall k :: 0 <= k < |elements| ==> elements[k].Valid()
    ensures r == Encode(elements)
  {
    hide ElementsBody, Nbo16;
    if |elements| >= MAX_COLUMNS {
      return Err(TooManyColumns);
    }
    var out := new OutString();
    out.EnsureCapa(2);
    out.Copy(Nbo16(|elements|));
    ghost var done := Nbo16(|elements|);
    assert elements[0..] == elements;
    for i := 0 to |elements|
      invariant out.Valid() && fresh(out) && fresh(out.data)
      invariant out.Contents() == done
      invariant Encode(elements) == Ok(done + ElementsBody(elements[i..]))
    {
      WriteElement(elements[i], out);
      ElementStep(elements, i);
      Assoc(done, ElementBytes(elements[i]), ElementsBody(elements[i + 1..]));
      done := done + ElementBytes(elements[i]);
    }
    BodyDone(elements, done);
    r := Ok(out.data[..out.len]);
  }

  lemma ElementStep(elements: seq<Element>, i: nat)
    requires i < |elements|
    ensures ElementsBody(elements[i..]) == ElementBytes(elements[i]) + ElementsBody(elements[i + 1..])
  {
    assert elements[i..][1..] == elements[i + 1..];
  }

  lemma BodyDone(elements: seq<Element>, done: seq<byte>)
    ensures done + ElementsBody(elements[|elements|..]) == done
  {
    assert elements[|elements|..] == [];
    NoText(done);
  }

  method WriteElement(element: Element, out: OutString)
    requires out.Valid() && element.Valid()
    modifies out, out.data
    ensures out.Valid() && (out.data == old(out.data) || fresh(out.data))
    ensures out.Contents() == old(out.Contents()) + ElementBytes(element)
  {
    hide Splice, Nbo32;
    ghost var before := out.Contents();
    match element
    case NilElement =>
      out.EnsureCapa(4);
      out.Copy(Nbo32(-1));
    case Finished(text) =>
      out.EnsureCapa(4 + |text|);
      out.Copy(Nbo32(|text|));
      out.Copy(text);
      Assoc(before, Nbo32(|text|), text);
    case TwoPass(text, size) =>
      out.EnsureCapa(4 + size);
      out.Copy(Nbo32(size));
      ghost var mem := out.data[..];
      StoreText(text, out.data, out.len);
      out.Extend(mem, text, |text|);
      Assoc(before, Nbo32(size), text);
  }

  /** The row parsed as `pg_bin_dec_copy_row` does. */
  method DecodeRow(s: seq<byte>) returns (r: Result<Row>)
    ensures r == Decode(s)
  {
    hide ReadColumn;
    var cur := 0;
    if |s| - cur >= 11 && s[..11] == SIGNATURE {
      cur := cur + 11;
      if |s| - cur < 4 {
        return Err(PrematureEnd);
      }
      cur := cur + 4;
      if |s| - cur < 4 {
        return Err(PrematureEnd);
      }
      var extension := ReadNbo32(s[cur..cur + 4]);
      if extension < 0 {
        return Err(PrematureEnd);
      }
      cur := cur + 4;
      if |s| - cur < extension {
        return Err(PrematureEnd);
      }
      cur := cur + extension;
    }
    assert RowStart(s) == Ok(cur);
    if |s| - cur < 2 {
      return Err(PrematureEnd);
    }
    var n := ReadNbo16(s[cur..cur + 2]);
    cur := cur + 2;
    var row := Trailer;
    if n < 0 {
      if n != -1 {
        return Err(PrematureEnd);
      }
    } else {
      var columns;
      cur, columns :- ReadFields(s, cur, n);
      row := Columns(columns);
    }
    if cur < |s| {
      return Err(TrailingData);
    }
    r := Ok(row);
  }

  /** The loop over the fields; the field string is copied out before it is used again. */
  method ReadFields(s: seq<byte>, start: nat, n: nat)
    returns (status: Result<nat>, columns: seq<Column>)
    requires start <= |s|
    ensures status.Ok? ==> ReadColumns(s, start, n, []) == Ok((status.value, columns))
    ensures status.Err? ==> ReadColumns(s, start, n, []) == Err(status.error)
  {
    var cur := start;
    columns := [];
    for fieldNumber := 0 to n
      invariant 0 <= cur <= |s|
      invariant ReadColumns(s, start, n, []) == ReadColumns(s, cur, n - fieldNumber, columns)
    {
      if |s| - cur < 4 {
        status := Err(PrematureEnd);
        return;
      }
      var inputLen := ReadNbo32(s[cur..cur + 4]);
      if inputLen < 0 {
        if inputLen != -1 {
          status := Err(PrematureEnd);
          return;
        }
        cur := cur + 4;
        columns := columns + [Null];
      } else {
        if |s| - (cur + 4) < inputLen {
          status := Err(PrematureEnd);
          return;
        }
        columns := columns + [Data(s[cur + 4..cur + 4 + inputLen])];
        cur := cur + 4 + inputLen;
      }
    }
    status := Ok(cur);
  }
}
