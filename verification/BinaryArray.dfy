/**
 Arrays in the binary format (ext/pg_binary_encoder.c, ext/pg_binary_decoder.c): a header with the sizes of up to six
 dimensions, and the elements in row-major order as fields.
 */
module BinaryArray {
  import opened Bytes
  import opened BinaryFields
  import opened FieldValues
  import opened NestedArray

  /** Any element coder, given by its two encoder passes and its decoder. */
  datatype Coder = Coder(oid: int, first: Value -> FirstPass<seq<byte>>, second: (Value, seq<byte>) -> seq<byte>,
                         decode: seq<byte> -> Value)
  {
    function Text(x: Value): seq<byte> {
      match first(x)
      case OnePass(text) => text
      case Needs(_, held) => second(x, held)
    }

    /** The space the first pass asks for. */
    function Size(x: Value): nat {
      match first(x)
      case OnePass(text) => |text|
      case Needs(size, _) => size
    }

    /** The second pass keeps to the space the first pass asked for. */
    predicate Fits(x: Value) { !x.Nil? ==> |Text(x)| <= Size(x) <= INT32_MAX }

    function Column(x: Value): Column { if x.Nil? then Null else Data(Text(x)) }

    function Element(column: Column): Value { if column.Null? then Nil else decode(column.bytes) }

    /** The element coder itself gives back what it was given. */
    predicate GivesBack(x: Value) { x.Nil? || decode(Text(x)) == x }
  }

  function ColumnsOf(c: Coder, items: seq<Value>): (columns: seq<Column>)
    ensures |columns| == |items|
  {
    if |items| == 0 then [] else [c.Column(items[0])] + ColumnsOf(c, items[1..])
  }

  function ElementsOf(c: Coder, columns: seq<Column>): (items: seq<Value>)
    ensures |items| == |columns|
  {
    if |columns| == 0 then [] else [c.Element(columns[0])] + ElementsOf(c, columns[1..])
  }

  // ---------------------------------------------------------------- printing

  /** The sizes along the first entries, down to an entry that is no array or to the wanted depth. */
  function LeadSizes(dimensions: int, kids: seq<Value>, depth: nat): (r: Result<seq<nat>>)
    requires depth <= MAXDIM
    ensures r.Ok? ==> 0 < |r.value| <= MAXDIM - depth + 1 && r.value[0] == |kids|
    decreases MAXDIM - depth
  {
    if |kids| > INT32_MAX then Err(UnsupportedSize)
    else if (dimensions < 0 || depth < dimensions) && |kids| > 0 && kids[0].List? then
      if depth + 1 > MAXDIM then Err(WrongDimensions)
      else
        var rest :- LeadSizes(dimensions, kids[0].kids, depth + 1);
        Ok([|kids|] + rest)
    else Ok([|kids|])
  }

  /** The sizes of the dimensions that go into the header. */
  function Sizes(dimensions: int, kids: seq<Value>): (r: Result<seq<nat>>)
    ensures r.Ok? ==> |r.value| <= MAXDIM
  {
    var dims :- if |kids| == 0 then Ok([]) else LeadSizes(dimensions, kids, 1);
    if dimensions >= 0 && (if |dims| == 0 then 1 else |dims|) != dimensions then Err(WrongDimensions) else Ok(dims)
  }

  /** The sizes the walk over the elements goes by: an array without dimensions has a single empty one. */
  function Walked(dims: seq<nat>): (r: seq<nat>)
    ensures |r| > 0
  {
    if |dims| == 0 then [0] else dims
  }

  function DimBytes(dims: seq<nat>): (r: seq<byte>)
    ensures |r| == 8 * |dims|
  {
    if |dims| == 0 then [] else Nbo32(dims[0]) + Nbo32(1) + DimBytes(dims[1..])
  }

  function Header(dims: seq<nat>, oid: int): (r: seq<byte>)
    ensures |r| == 12 + 8 * |dims|
  {
    Nbo32(|dims|) + Nbo32(1) + Nbo32(oid) + DimBytes(dims)
  }

  /** `pg_bin_enc_array` on a Ruby array. */
  function Encode(c: Coder, dimensions: int, kids: seq<Value>): Result<seq<byte>> {
    var dims :- Sizes(dimensions, kids);
    var items :- Collect(kids, Walked(dims));
    Ok(Header(dims, c.oid) + Body(ColumnsOf(c, items)))
  }

  // ---------------------------------------------------------------- parsing

  /** The sizes of `k` dimensions and their product, which must stay a 32-bit integer all along. */
  function ReadDims(s: seq<byte>, i: nat, k: nat, product: nat, dims: seq<nat>): (r: Result<(seq<nat>, nat)>)
    requires i <= |s|
    ensures r.Ok? ==> i + 8 * k <= |s| && |r.value.0| == |dims| + k
    decreases k
  {
    if k == 0 then Ok((dims, product))
    else if |s| - i < 8 then Err(PrematureEnd)
    else
      var size := ReadNbo32(s[i..i + 4]);
      if size < 0 || product * size > INT32_MAX then Err(UnsupportedSize)
      else ReadDims(s, i + 8, k - 1, product * size, dims + [size])
  }

  /** The sizes of the dimensions and the number of elements. */
  function ReadHeader(s: seq<byte>): (r: Result<(seq<nat>, nat)>)
    ensures r.Ok? ==> 12 + 8 * |r.value.0| <= |s|
  {
    if |s| < 4 then Err(PrematureEnd)
    else
      var ndim := ReadNbo32(s[0..4]);
      if ndim < 0 || ndim > MAXDIM then Err(UnsupportedSize)
      else if |s| < 8 then Err(PrematureEnd)
      else
        var flags := ReadNbo32(s[4..8]);
        if flags != 0 && flags != 1 then Err(Malformed)
        else if |s| < 12 then Err(PrematureEnd)
        else ReadDims(s, 12, ndim, if ndim == 0 then 0 else 1, [])
  }

  /** The nested array of the given sizes; without elements it is an empty array whatever the sizes. */
  function Nested(dims: seq<nat>, items: seq<Value>): seq<Value> {
    if |dims| == 0 || |items| == 0 || |items| != Product(dims) then [] else Build(dims[0], dims, items)
  }

  /** `pg_bin_dec_array`. */
  function Decode(c: Coder, s: seq<byte>): Result<seq<Value>> {
    var (dims, n) :- ReadHeader(s);
    var (j, columns) :- ReadColumns(s, 12 + 8 * |dims|, n, []);
    if j < |s| then Err(TrailingData) else Ok(Nested(dims, ElementsOf(c, columns)))
  }

  // ---------------------------------------------------------------- the sizes

  /** Only the innermost dimension can be empty. */
  ghost predicate Leading(dims: seq<nat>) {
    forall k :: 0 <= k < |dims| ==> dims[k] <= INT32_MAX && (k < |dims| - 1 ==> dims[k] > 0)
  }

  lemma {:induction false} LeadSizesLeading(dimensions: int, kids: seq<Value>, depth: nat)
    requires depth <= MAXDIM && LeadSizes(dimensions, kids, depth).Ok?
    ensures Leading(LeadSizes(dimensions, kids, depth).value)
    decreases MAXDIM - depth
  {
    if (dimensions < 0 || depth < dimensions) && |kids| > 0 && kids[0].List? {
      LeadSizesLeading(dimensions, kids[0].kids, depth + 1);
    }
  }

  /** A shape the encoder can write: as deep as is asked for, or as deep as the first entries go. */
  ghost predicate Shape(dimensions: int, kids: seq<Value>, depth: nat, dims: seq<nat>) {
    && 0 < |dims| <= 7 - depth
    && Leading(dims)
    && Rect(kids, dims)
    && (dimensions >= 0 ==> depth + |dims| - 1 == dimensions)
    && (dimensions < 0 ==> !FirstElement(kids, |dims|).List?)
  }

  /** The first element at a depth. */
  function FirstElement(kids: seq<Value>, depth: nat): Value
    decreases depth
  {
    if |kids| == 0 || depth == 0 then Nil
    else if depth == 1 || !kids[0].List? then kids[0]
    else FirstElement(kids[0].kids, depth - 1)
  }

  lemma {:induction false} SizesOfShape(dimensions: int, kids: seq<Value>, depth: nat, dims: seq<nat>)
    requires depth <= MAXDIM && Shape(dimensions, kids, depth, dims)
    ensures LeadSizes(dimensions, kids, depth) == Ok(dims)
    decreases |dims|
  {
    if |dims| > 1 {
      assert CollectOne(kids[0], dims).Ok?;
      SizesOfShape(dimensions, kids[0].kids, depth + 1, dims[1..]);
      assert dims == [dims[0]] + dims[1..];
    } else {
      assert dims == [|kids|];
    }
  }

  lemma {:induction false} FirstElementStops(dimensions: int, kids: seq<Value>, depth: nat)
    requires depth <= MAXDIM && LeadSizes(dimensions, kids, depth).Ok?
    ensures dimensions < 0 ==> !FirstElement(kids, |LeadSizes(dimensions, kids, depth).value|).List?
    decreases MAXDIM - depth
  {
    if (dimensions < 0 || depth < dimensions) && |kids| > 0 && kids[0].List? {
      FirstElementStops(dimensions, kids[0].kids, depth + 1);
    }
  }

  /** The encoder takes exactly the empty array and the rectangular ones, of the depth that is asked for. */
  lemma EncodeAccepts(c: Coder, dimensions: int, kids: seq<Value>)
    ensures Encode(c, dimensions, kids).Ok? <==>
            if |kids| == 0 then dimensions < 0 || dimensions == 1
            else exists dims :: Shape(dimensions, kids, 1, dims)
  {
    if |kids| == 0 {
      assert Collect(kids, [0]).Ok?;
    } else {
      if Encode(c, dimensions, kids).Ok? {
        var dims := Sizes(dimensions, kids).value;
        LeadSizesLeading(dimensions, kids, 1);
        FirstElementStops(dimensions, kids, 1);
        assert Shape(dimensions, kids, 1, dims);
      }
      forall dims | Shape(dimensions, kids, 1, dims)
        ensures Encode(c, dimensions, kids).Ok?
      {
        SizesOfShape(dimensions, kids, 1, dims);
      }
    }
  }

  // ---------------------------------------------------------------- the bytes of an encoded array

  lemma {:induction false} DimBytesAt(dims: seq<nat>, k: nat)
    requires k < |dims|
    ensures DimBytes(dims)[8 * k..8 * k + 4] == Nbo32(dims[k])
    ensures DimBytes(dims)[8 * k + 4..8 * k + 8] == Nbo32(1)
  {
    hide Nbo32;
    var first, rest := Nbo32(dims[0]) + Nbo32(1), DimBytes(dims[1..]);
    var s := first + rest;
    assert s == DimBytes(dims);
    if k == 0 {
      assert s[0..4] == Nbo32(dims[0]) && s[4..8] == Nbo32(1);
    } else {
      DimBytesAt(dims[1..], k - 1);
      assert s[8 * k..8 * k + 4] == rest[8 * (k - 1)..8 * (k - 1) + 4];
      assert s[8 * k + 4..8 * k + 8] == rest[8 * (k - 1) + 4..8 * (k - 1) + 8];
    }
  }

  /** The field of an element: nil, the string of its first pass, or what the second one makes of what that held. */
  function FieldOf(c: Coder, x: Value): Column {
    if x.Nil? then Null
    else
      match c.first(x)
      case OnePass(text) => Data(text)
      case Needs(_, held) => Data(c.second(x, held))
  }

  /**
   What the server is given: the number of dimensions, a flag for nil of 1, the OID of the elements, for each dimension
   its size and 1 as its lower bound, and the fields. The array is rectangular with these sizes.
   */
  lemma EncodedIs(c: Coder, dimensions: int, kids: seq<Value>) returns (dims: seq<nat>, columns: seq<Column>)
    requires Encode(c, dimensions, kids).Ok?
    ensures if |kids| == 0 then |dims| == 0 else 0 < |dims| <= 6 && Rect(kids, dims)
    ensures var s := Encode(c, dimensions, kids).value;
            && |s| >= 12 + 8 * |dims|
            && Unsigned32(s[0..4]) == |dims|
            && Unsigned32(s[4..8]) == 1
            && (0 <= c.oid < 0x1_0000_0000 ==> Unsigned32(s[8..12]) == c.oid)
            && (forall k :: 0 <= k < |dims| ==> Unsigned32(s[12 + 8 * k..16 + 8 * k]) == dims[k])
            && (forall k :: 0 <= k < |dims| ==> Unsigned32(s[16 + 8 * k..20 + 8 * k]) == 1)
            && s[12 + 8 * |dims|..] == Body(columns)
    ensures forall path :: Within(path, dims) && |path| > 0 ==>
              var x := ElementAt(kids, path);
              && Position(path, dims) < |columns|
              && columns[Position(path, dims)] == FieldOf(c, x)
  {
    hide Nbo32, Unsigned32, DimBytes, Body, Collect, Position, ElementAt;
    dims := Sizes(dimensions, kids).value;
    var items := Collect(kids, Walked(dims)).value;
    columns := ColumnsOf(c, items);
    var s, rest := Encode(c, dimensions, kids).value, Body(columns);
    if |kids| > 0 {
      LeadSizesLeading(dimensions, kids, 1);
    }
    HeaderParts(dims, c.oid, rest);
    assert s[8..12] == Nbo32(c.oid);
    assert s[12..12 + 8 * |dims|] == DimBytes(dims) by { OccursText(s, 12, DimBytes(dims)); }
    Nbo32Unsigned(|dims|);
    Nbo32Unsigned(1);
    if 0 <= c.oid < 0x1_0000_0000 {
      Nbo32Unsigned(c.oid);
    }
    forall k | 0 <= k < |dims|
      ensures Unsigned32(s[12 + 8 * k..16 + 8 * k]) == dims[k] && Unsigned32(s[16 + 8 * k..20 + 8 * k]) == 1
    {
      DimBytesAt(dims, k);
      var h := s[12..12 + 8 * |dims|];
      assert s[12 + 8 * k..16 + 8 * k] == h[8 * k..8 * k + 4];
      assert s[16 + 8 * k..20 + 8 * k] == h[8 * k + 4..8 * k + 8];
      Nbo32Unsigned(dims[k]);
    }
    forall path | Within(path, dims) && |path| > 0
      ensures var x := ElementAt(kids, path);
              && Position(path, dims) < |columns|
              && columns[Position(path, dims)] == FieldOf(c, x)
    {
      PathSize(path, dims);
      RowMajor(kids, dims, path);
      ColumnAt(c, items, Position(path, dims));
    }
  }

  lemma PathSize(path: seq<nat>, dims: seq<nat>)
    requires Within(path, dims)
    ensures |path| == |dims|
  {
  }

  lemma {:induction false} ColumnAt(c: Coder, items: seq<Value>, k: nat)
    requires k < |items|
    ensures ColumnsOf(c, items)[k] == c.Column(items[k])
  {
    if k > 0 {
      ColumnAt(c, items[1..], k - 1);
    }
  }

  // ---------------------------------------------------------------- the round trip

  /** The header's sizes are read as they are, as long as their product is a 32-bit integer. */
  lemma {:induction false} DimsRun(s: seq<byte>, i: nat, dims: seq<nat>, product: nat, before: seq<nat>)
    requires i <= |s| && Occurs(s, i, DimBytes(dims)) && product <= INT32_MAX
    requires forall k :: 0 <= k < |dims| ==> dims[k] <= INT32_MAX
    ensures var r := ReadDims(s, i, |dims|, product, before);
            && (r.Ok? ==> r.value == (before + dims, product * Product(dims)) && product * Product(dims) <= INT32_MAX)
            && (AllPositive(dims) && product * Product(dims) <= INT32_MAX ==> r.Ok?)
    decreases |dims|
  {
    hide Occurs, Nbo32, ReadNbo32, Product;
    if |dims| == 0 {
      assert before + dims == before;
      assert Product(dims) == 1 by { NoProduct(dims); }
    } else {
      var size, rest := dims[0], dims[1..];
      OccursSize(s, i, DimBytes(dims));
      Assoc(Nbo32(size), Nbo32(1), DimBytes(rest));
      OccursConcat(s, i, Nbo32(size), Nbo32(1) + DimBytes(rest));
      OccursConcat(s, i + 4, Nbo32(1), DimBytes(rest));
      OccursText(s, i, Nbo32(size));
      Nbo32RoundTrip(size);
      DimsStep(product, dims);
      if product * size <= INT32_MAX {
        DimsRun(s, i + 8, rest, product * size, before + [size]);
        assert before + [size] + rest == before + dims;
      }
    }
  }

  lemma NoProduct(dims: seq<nat>)
    requires |dims| == 0
    ensures Product(dims) == 1
  {
  }

  lemma DimsStep(product: nat, dims: seq<nat>)
    requires |dims| > 0
    ensures product * Product(dims) == product * dims[0] * Product(dims[1..])
    ensures AllPositive(dims) ==> AllPositive(dims[1..]) && product * dims[0] <= product * Product(dims)
  {
    ProductUnfold(dims);
    ProductPositive(dims[1..]);
    hide Product;
    Multiply(product, dims[0], Product(dims[1..]));
    assert forall k :: 0 <= k < |dims| - 1 ==> dims[1..][k] == dims[k + 1];
  }

  lemma Multiply(a: nat, b: nat, c: nat)
    ensures a * (b * c) == a * b * c
    ensures c > 0 ==> a * b <= a * b * c
  {
    var p := a * b;
    if c > 0 {
      assert p * c == p + p * (c - 1);
    }
  }

  lemma HeaderParts(dims: seq<nat>, oid: int, rest: seq<byte>)
    ensures var s := Header(dims, oid) + rest;
            && |s| >= 12 + 8 * |dims|
            && s[0..4] == Nbo32(|dims|)
            && s[4..8] == Nbo32(1)
            && Occurs(s, 12, DimBytes(dims))
  {
    hide Nbo32, DimBytes;
    var s := Header(dims, oid) + rest;
    assert s[12..12 + 8 * |dims|] == DimBytes(dims);
  }

  /** A header of at most six dimensions is read as it is. */
  lemma HeaderRun(dims: seq<nat>, oid: int, rest: seq<byte>)
    requires |dims| <= MAXDIM && Leading(dims)
    ensures var r := ReadHeader(Header(dims, oid) + rest);
            && (r.Ok? ==> r.value == (dims, if |dims| == 0 then 0 else Product(dims)) && r.value.1 <= INT32_MAX)
            && (AllPositive(dims) && Product(dims) <= INT32_MAX ==> r.Ok?)
  {
    hide ReadDims, Nbo32, ReadNbo32, Header, Product, DimBytes, Occurs;
    var s := Header(dims, oid) + rest;
    HeaderParts(dims, oid, rest);
    Nbo32RoundTrip(|dims|);
    Nbo32RoundTrip(1);
    assert [] + dims == dims;
    var product := if |dims| == 0 then 0 else 1;
    DimsRun(s, 12, dims, product, []);
    assert |dims| == 0 ==> ReadDims(s, 12, 0, 0, []).Ok? by { NoDims(s); }
  }

  lemma NoDims(s: seq<byte>)
    requires |s| >= 12
    ensures ReadDims(s, 12, 0, 0, []) == Ok(([], 0))
  {
  }

  lemma {:induction false} ColumnsFit(c: Coder, items: seq<Value>)
    requires forall k :: 0 <= k < |items| ==> c.Fits(items[k])
    ensures forall k :: 0 <= k < |items| ==> ColumnFits(ColumnsOf(c, items)[k])
  {
    if |items| > 0 {
      assert c.Fits(items[0]);
      ColumnsFit(c, items[1..]);
    }
  }

  lemma {:induction false} ElementsGivenBack(c: Coder, items: seq<Value>)
    requires forall k :: 0 <= k < |items| ==> c.GivesBack(items[k])
    ensures ElementsOf(c, ColumnsOf(c, items)) == items
  {
    if |items| > 0 {
      assert c.GivesBack(items[0]);
      ElementsGivenBack(c, items[1..]);
      assert ColumnsOf(c, items)[1..] == ColumnsOf(c, items[1..]);
    }
  }

  /** What is decoded from an encoded array, when its header is accepted. */
  lemma DecodeBody(c: Coder, dims: seq<nat>, items: seq<Value>)
    requires |dims| <= MAXDIM && Leading(dims)
    requires |items| == if |dims| == 0 then 0 else Product(dims)
    requires forall k :: 0 <= k < |items| ==> c.Fits(items[k]) && c.GivesBack(items[k])
    ensures var s := Header(dims, c.oid) + Body(ColumnsOf(c, items));
            && (ReadHeader(s).Ok? ==> Decode(c, s) == Ok(Nested(dims, items)))
            && (ReadHeader(s).Err? ==> Decode(c, s).Err?)
  {
    hide ReadHeader, Header, ReadColumns, Body, Nested, Product, Leading, ColumnsOf, ElementsOf;
    var columns := ColumnsOf(c, items);
    var h, b := Header(dims, c.oid), Body(columns);
    var s := h + b;
    HeaderRun(dims, c.oid, b);
    if ReadHeader(s).Ok? {
      FieldsBehind(h, columns) by { ColumnsFit(c, items); }
      ElementsGivenBack(c, items);
    }
  }

  lemma FieldsBehind(h: seq<byte>, columns: seq<Column>)
    requires forall k :: 0 <= k < |columns| ==> ColumnFits(columns[k])
    ensures ReadColumns(h + Body(columns), |h|, |columns|, []) == Ok((|h + Body(columns)|, columns))
  {
    hide ReadColumns, Body;
    var b := Body(columns);
    assert Occurs(h + b, |h|, b) by { assert (h + b)[|h|..|h| + |b|] == b; }
    ColumnsRun(h + b, |h|, columns, []);
    assert [] + columns == columns;
  }

  /**
   The round trip over any element coder: a nested array the encoder takes comes back exactly when it is empty, or
   no array in it is empty and it has no more elements than a 32-bit integer counts.
   */
  lemma DecodeEncode(c: Coder, dimensions: int, kids: seq<Value>)
    requires Encode(c, dimensions, kids).Ok?
    requires forall x :: x in Collect(kids, Walked(Sizes(dimensions, kids).value)).value ==> c.Fits(x) && c.GivesBack(x)
    ensures var dims := Sizes(dimensions, kids).value;
            Decode(c, Encode(c, dimensions, kids).value) == Ok(kids) <==>
            kids == [] || (AllPositive(dims) && Product(dims) <= INT32_MAX)
  {
    hide Decode, Header, Body, Collect;
    var dims := Sizes(dimensions, kids).value;
    var items := Collect(kids, Walked(dims)).value;
    if kids == [] {
      assert items == [] by { CollectSize(kids, [0]); }
      HeaderRun([], c.oid, Body([]));
      DecodeBody(c, [], []);
    } else {
      LeadSizesLeading(dimensions, kids, 1);
      RectSize(kids, dims);
      HeaderRun(dims, c.oid, Body(ColumnsOf(c, items)));
      DecodeBody(c, dims, items);
      ProductPositive(dims);
      if AllPositive(dims) {
        BuildOfCollect(kids, dims);
      }
    }
  }

  /** The smallest array that does not come back. */
  lemma EmptyInside(c: Coder)
    ensures Encode(c, -1, [List([])]) == Ok(Header([1, 0], c.oid))
    ensures Decode(c, Header([1, 0], c.oid)) == Ok([])
  {
    hide Decode, Header;
    var kids := [List([])];
    assert LeadSizes(-1, kids[0].kids, 2) == Ok([0]);
    assert [1] + [0] == [1, 0];
    assert LeadSizes(-1, kids, 1) == Ok([1, 0]);
    assert [1, 0][1..] == [0] && kids[1..] == [];
    assert CollectOne(kids[0], [1, 0]) == Ok([]) && Collect([], [1, 0]) == Ok([]);
    assert Collect(kids, [1, 0]) == Join(Ok([]), Ok([]));
    JoinNothing(Ok([]));
    assert Product([1, 0]) == 0;
    HeaderRun([1, 0], c.oid, []);
    NoText(Header([1, 0], c.oid));
    DecodeBody(c, [1, 0], []);
    HeaderOfEmpty(c);
  }

  lemma HeaderOfEmpty(c: Coder)
    ensures ReadHeader(Header([1, 0], c.oid)).Ok?
  {
    hide Nbo32, ReadNbo32;
    var s := Header([1, 0], c.oid);
    assert [1, 0][1..] == [0] && [0][1..] == [];
    assert DimBytes([0]) == Nbo32(0) + Nbo32(1) + [];
    assert s[0..4] == Nbo32(2) && s[4..8] == Nbo32(1) && s[12..16] == Nbo32(1) && s[20..24] == Nbo32(0);
    Nbo32RoundTrip(2);
    Nbo32RoundTrip(1);
    Nbo32RoundTrip(0);
    assert ReadDims(s, 28, 0, 0, [1, 0]).Ok?;
    assert ReadDims(s, 20, 1, 1, [1]).Ok?;
  }

  // ---------------------------------------------------------------- whatever is accepted

  /** The sizes the header declares, read one by one. */
  function Declared(s: seq<byte>, i: nat, k: nat): (dims: seq<int>)
    requires i + 8 * k <= |s|
    ensures |dims| == k
    decreases k
  {
    if k == 0 then [] else [ReadNbo32(s[i..i + 4])] + Declared(s, i + 8, k - 1)
  }

  lemma {:induction false} DimsSound(s: seq<byte>, i: nat, k: nat, product: nat, before: seq<nat>)
    requires i <= |s| && ReadDims(s, i, k, product, before).Ok? && product <= INT32_MAX
    ensures ReadDims(s, i, k, product, before).value.0 == before + Declared(s, i, k)
    ensures var (dims, n) := ReadDims(s, i, k, product, before).value;
            n == product * Product(dims[|before|..]) && n <= INT32_MAX
    decreases k
  {
    hide ReadNbo32, Product, ReadDims;
    var (dims, n) := ReadDims(s, i, k, product, before).value;
    if k == 0 {
      ReadNone(s, i, product, before);
      assert before + [] == before;
      NoProduct(dims[|before|..]);
    } else {
      var size, more := ReadOne(s, i, k, product, before);
      DimsSound(s, i + 8, k - 1, more, before + [size]);
      assert before + [size] + Declared(s, i + 8, k - 1) == before + Declared(s, i, k);
      ProductSplit(product, dims, |before|);
    }
  }

  lemma ReadNone(s: seq<byte>, i: nat, product: nat, before: seq<nat>)
    requires i <= |s|
    ensures ReadDims(s, i, 0, product, before) == Ok((before, product))
  {
  }

  lemma ReadOne(s: seq<byte>, i: nat, k: nat, product: nat, before: seq<nat>) returns (size: nat, more: nat)
    requires i <= |s| && k > 0 && ReadDims(s, i, k, product, before).Ok?
    ensures i + 8 <= |s| && size == ReadNbo32(s[i..i + 4]) && more == product * size <= INT32_MAX
    ensures ReadDims(s, i, k, product, before) == ReadDims(s, i + 8, k - 1, more, before + [size])
  {
    hide ReadNbo32;
    size := ReadNbo32(s[i..i + 4]);
    more := product * size;
  }

  lemma ProductSplit(product: nat, dims: seq<nat>, k: nat)
    requires k < |dims|
    ensures product * dims[k] * Product(dims[k + 1..]) == product * Product(dims[k..])
  {
    ProductUnfold(dims[k..]);
    assert dims[k..][1..] == dims[k + 1..];
    hide Product;
    Multiply(product, dims[k], Product(dims[k + 1..]));
  }

  /**
   Whatever bytes are accepted: the product of the declared sizes is a 32-bit integer, the bytes behind the header
   are exactly that many fields, and the result has the declared shape with those elements in row-major order.
   */
  lemma DecodeSound(c: Coder, s: seq<byte>) returns (dims: seq<nat>, columns: seq<Column>)
    requires Decode(c, s).Ok?
    ensures |s| >= 12 + 8 * |dims| && |dims| == ReadNbo32(s[0..4]) && |dims| <= MAXDIM
    ensures dims == Declared(s, 12, |dims|)
    ensures |columns| == (if |dims| == 0 then 0 else Product(dims)) && |columns| <= INT32_MAX
    ensures s[12 + 8 * |dims|..] == Body(columns)
    ensures |columns| == 0 ==> Decode(c, s).value == []
    ensures |columns| > 0 ==> AllPositive(dims) && Rect(Decode(c, s).value, dims)
                              && Collect(Decode(c, s).value, dims).value == ElementsOf(c, columns)
  {
    hide ReadDims, ReadColumns, Body, ReadNbo32, Declared, Build, Collect;
    var ndim := ReadNbo32(s[0..4]);
    dims := ReadHeader(s).value.0;
    DimsSound(s, 12, ndim, if ndim == 0 then 0 else 1, []);
    assert [] + Declared(s, 12, ndim) == Declared(s, 12, ndim);
    assert dims[0..] == dims;
    var start := 12 + 8 * |dims|;
    columns := ColumnsSound(s, start, ReadHeader(s).value.1, []);
    assert [] + columns == columns;
    OccursText(s, start, Body(columns));
    assert s[start..] == s[start..start + |Body(columns)|];
    if |columns| > 0 {
      ProductPositive(dims);
      ProductUnfold(dims);
      BuildCollect(dims[0], dims, ElementsOf(c, columns));
    }
  }

  /** Each size is not negative, and the product so far is a 32-bit integer. */
  ghost predicate SizesFit(product: int, dims: seq<int>)
    decreases |dims|
  {
    |dims| == 0 ||
    (dims[0] >= 0 && product * dims[0] <= 0x7FFF_FFFF && SizesFit(product * dims[0], dims[1..]))
  }

  function IntProduct(dims: seq<int>): int {
    if |dims| == 0 then 1 else dims[0] * IntProduct(dims[1..])
  }

  lemma {:induction false} DimsExact(s: seq<byte>, i: nat, k: nat, product: nat, before: seq<nat>)
    requires i + 8 * k <= |s|
    ensures ReadDims(s, i, k, product, before).Ok? <==> SizesFit(product, Declared(s, i, k))
    ensures ReadDims(s, i, k, product, before).Ok? ==>
              ReadDims(s, i, k, product, before).value.1 == product * IntProduct(Declared(s, i, k))
    decreases k
  {
    hide ReadNbo32;
    if k > 0 {
      var size := ReadNbo32(s[i..i + 4]);
      var rest := Declared(s, i + 8, k - 1);
      assert Declared(s, i, k)[1..] == rest;
      if size >= 0 && product * size <= INT32_MAX {
        DimsExact(s, i + 8, k - 1, product * size, before + [size]);
        var p := IntProduct(rest);
        assert product * size * p == product * (size * p);
      }
    }
  }

  /** The fields behind a header: exactly these many up to the end. */
  ghost predicate HasFields(s: seq<byte>, start: nat, n: int) {
    exists columns :: FieldsAre(s, start, n, columns)
  }

  ghost predicate FieldsAre(s: seq<byte>, start: nat, n: int, columns: seq<Column>) {
    |columns| == n && (forall k :: 0 <= k < n ==> ColumnFits(columns[k])) && start <= |s| && s[start..] == Body(columns)
  }

  lemma FieldsExact(s: seq<byte>, start: nat, n: nat)
    requires start <= |s|
    ensures HasFields(s, start, n) <==>
            ReadColumns(s, start, n, []).Ok? && ReadColumns(s, start, n, []).value.0 == |s|
  {
    hide ReadColumns, Body;
    if ReadColumns(s, start, n, []).Ok? && ReadColumns(s, start, n, []).value.0 == |s| {
      var columns := ColumnsSound(s, start, n, []);
      OccursText(s, start, Body(columns));
      assert FieldsAre(s, start, n, columns);
    }
    if HasFields(s, start, n) {
      var columns :| FieldsAre(s, start, n, columns);
      assert Occurs(s, start, Body(columns));
      ColumnsRun(s, start, columns, []);
    }
  }

  /**
   Exactly these texts are accepted: up to six dimensions, a flag of 0 or 1, sizes with a 32-bit product, and as many
   fields as they multiply to. The OID and the lower bounds may be anything.
   */
  lemma DecodeExact(c: Coder, s: seq<byte>)
    ensures Decode(c, s).Ok? <==>
            && |s| >= 12
            && 0 <= ReadNbo32(s[0..4]) <= 6
            && (ReadNbo32(s[4..8]) == 0 || ReadNbo32(s[4..8]) == 1)
            && |s| >= 12 + 8 * ReadNbo32(s[0..4])
            && var n := ReadNbo32(s[0..4]);
               && SizesFit(1, Declared(s, 12, n))
               && HasFields(s, 12 + 8 * n, if n == 0 then 0 else IntProduct(Declared(s, 12, n)))
  {
    hide ReadDims, ReadColumns, ReadNbo32, Declared, IntProduct, HasFields, Nested;
    if |s| >= 12 && 0 <= ReadNbo32(s[0..4]) <= 6 {
      var n: nat := ReadNbo32(s[0..4]);
      var start := 12 + 8 * n;
      if |s| >= start {
        if n == 0 {
          NoDims(s);
          FieldsExact(s, start, 0);
          NoneDeclared(s);
        } else {
          DimsExact(s, 12, n, 1, []);
          if ReadDims(s, 12, n, 1, []).Ok? {
            FieldsExact(s, start, ReadDims(s, 12, n, 1, []).value.1);
          }
        }
      } else {
        DimsMissing(s, 12, n, if n == 0 then 0 else 1, []);
      }
    }
  }

  lemma NoneDeclared(s: seq<byte>)
    requires |s| >= 12
    ensures Declared(s, 12, 0) == []
  {
  }

  lemma {:induction false} DimsMissing(s: seq<byte>, i: nat, k: nat, product: nat, before: seq<nat>)
    requires i <= |s| < i + 8 * k
    ensures ReadDims(s, i, k, product, before).Err?
    decreases k
  {
    hide ReadNbo32;
    if |s| - i >= 8 {
      var size := ReadNbo32(s[i..i + 4]);
      if size >= 0 {
        DimsMissing(s, i + 8, k - 1, product * size, before + [size]);
      }
    }
  }
}
