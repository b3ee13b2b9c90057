/**
 `pg_bin_dec_array` with its stack of open arrays. Ruby arrays are kept in a store and refer to each other by their
 addresses: an array is pushed into its parent when it is still empty, and filled afterwards.
 */
module BinaryArrayDecoder {
  import opened Bytes
  import opened BinaryFields
  import opened FieldValues
  import opened NestedArray
  import opened BinaryArray

  /** An entry of a Ruby array: a value of the element decoder, or another array. */
  datatype Cell = Atom(value: Value) | Ref(address: nat)

  type Store = seq<seq<Cell>>

  /** `rb_ary_push`. */
  function Push(store: Store, a: nat, cell: Cell): (r: Store)
    requires a < |store|
    ensures |r| == |store|
  {
    store[a := store[a] + [cell]]
  }

  /** The array at `a` holds `kids`, with everything below at addresses between `a` and `limit`. */
  ghost predicate Stored(store: Store, kids: seq<Value>, depth: nat, a: nat, limit: nat)
    decreases depth, 1
  {
    && a < limit <= |store|
    && |store[a]| == |kids|
    && forall k :: 0 <= k < |kids| ==> Holds(store, store[a][k], kids[k], depth, a, limit)
  }

  /** An entry stands for a value. */
  ghost predicate Holds(store: Store, cell: Cell, v: Value, depth: nat, a: nat, limit: nat)
    decreases depth, 0
  {
    if depth <= 1 then cell == Atom(v)
    else cell.Ref? && v.List? && a < cell.address && Stored(store, v.kids, depth - 1, cell.address, limit)
  }

  /** Only addresses between `a` and `limit` matter. */
  lemma {:induction false} HoldsFrame(store: Store, store': Store, cell: Cell, v: Value, depth: nat, a: nat,
                                      limit: nat, limit': nat)
    requires Holds(store, cell, v, depth, a, limit) && limit <= |store|
    requires limit <= limit' <= |store'| && forall x :: a < x < limit ==> store[x] == store'[x]
    ensures Holds(store', cell, v, depth, a, limit')
    decreases depth
  {
    if depth > 1 {
      forall k | 0 <= k < |v.kids|
        ensures Holds(store', store'[cell.address][k], v.kids[k], depth - 1, cell.address, limit')
      {
        HoldsFrame(store, store', store[cell.address][k], v.kids[k], depth - 1, cell.address, limit, limit');
      }
    }
  }

  /** What a store holds at an address is one value. */
  lemma {:induction false} StoredOnce(store: Store, v: seq<Value>, w: seq<Value>, depth: nat, a: nat, limit: nat)
    requires Stored(store, v, depth, a, limit) && Stored(store, w, depth, a, limit)
    ensures v == w
    decreases depth
  {
    forall k | 0 <= k < |v|
      ensures v[k] == w[k]
    {
      assert Holds(store, store[a][k], v[k], depth, a, limit) && Holds(store, store[a][k], w[k], depth, a, limit);
      if depth > 1 {
        StoredOnce(store, v[k].kids, w[k].kids, depth - 1, store[a][k].address, limit);
      }
    }
  }

  // ---------------------------------------------------------------- the stack of open arrays

  function LimitOf(store: Store, arrays: seq<nat>, top: nat, e: nat): nat
    requires e <= top < |arrays|
  {
    if e < top then arrays[e + 1] else |store|
  }

  /** In dimension `e` the values `kids` are complete; behind them is the next open array. */
  ghost predicate OpenAt(store: Store, arrays: seq<nat>, kids: seq<Value>, ndim: nat, top: nat, e: nat)
    requires e <= top < |arrays| && top < ndim
  {
    var a, limit := arrays[e], LimitOf(store, arrays, top, e);
    && a < limit <= |store|
    && |store[a]| == |kids| + (if e < top then 1 else 0)
    && (e < top ==> store[a][|kids|] == Ref(arrays[e + 1]))
    && forall k :: 0 <= k < |kids| ==> Holds(store, store[a][k], kids[k], ndim - e, a, limit)
  }

  /** The arrays on the stack, with the values that are complete in each of them. */
  ghost predicate Open(store: Store, arrays: seq<nat>, open: seq<seq<Value>>, ndim: nat) {
    && 0 < |open| <= ndim <= |arrays|
    && forall e :: 0 <= e < |open| ==> OpenAt(store, arrays, open[e], ndim, |open| - 1, e)
  }

  /** The next array below lies behind. */
  lemma {:induction false} Ascending(store: Store, arrays: seq<nat>, open: seq<seq<Value>>, ndim: nat, e: nat, f: nat)
    requires Open(store, arrays, open, ndim) && e < f < |open|
    ensures arrays[e + 1] <= arrays[f] < |store|
    decreases f - e
  {
    assert OpenAt(store, arrays, open[f], ndim, |open| - 1, f);
    if e + 1 < f {
      assert OpenAt(store, arrays, open[e + 1], ndim, |open| - 1, e + 1);
      Ascending(store, arrays, open, ndim, e + 1, f);
    }
  }

  /** A new array is pushed into the innermost open one and opened. */
  lemma OpenDown(store: Store, arrays: seq<nat>, open: seq<seq<Value>>, ndim: nat)
    requires Open(store, arrays, open, ndim) && |open| < ndim
    ensures var top := |open| - 1;
            && arrays[top] < |store|
            && Open(Push(store + [[]], arrays[top], Ref(|store|)), arrays[top + 1 := |store|], open + [[]], ndim)
  {
    hide Holds;
    var top := |open| - 1;
    assert OpenAt(store, arrays, open[top], ndim, top, top);
    var store' := Push(store + [[]], arrays[top], Ref(|store|));
    var arrays', open' := arrays[top + 1 := |store|], open + [[]];
    forall e | 0 <= e < |open'|
      ensures OpenAt(store', arrays', open'[e], ndim, top + 1, e)
    {
      if e <= top {
        assert OpenAt(store, arrays, open[e], ndim, top, e);
        if e < top {
          Ascending(store, arrays, open, ndim, e, top);
        }
        LevelFrame(store, store', store[arrays[e]], open[e], ndim - e, arrays[e], LimitOf(store, arrays, top, e),
                   LimitOf(store', arrays', top + 1, e));
      }
    }
  }

  lemma LevelFrame(store: Store, store': Store, cells: seq<Cell>, kids: seq<Value>, depth: nat, a: nat, limit: nat,
                   limit': nat)
    requires |kids| <= |cells| && forall k :: 0 <= k < |kids| ==> Holds(store, cells[k], kids[k], depth, a, limit)
    requires limit <= |store| && limit <= limit' <= |store'| && forall x :: a < x < limit ==> store[x] == store'[x]
    ensures forall k :: 0 <= k < |kids| ==> Holds(store', cells[k], kids[k], depth, a, limit')
  {
    hide Holds;
    forall k | 0 <= k < |kids|
      ensures Holds(store', cells[k], kids[k], depth, a, limit')
    {
      HoldsFrame(store, store', cells[k], kids[k], depth, a, limit, limit');
    }
  }

  /** An element is pushed into an array of the innermost dimension. */
  lemma OpenPush(store: Store, arrays: seq<nat>, open: seq<seq<Value>>, ndim: nat, v: Value)
    requires Open(store, arrays, open, ndim) && |open| == ndim
    ensures var top := ndim - 1;
            && arrays[top] < |store|
            && Open(Push(store, arrays[top], Atom(v)), arrays, open[top := open[top] + [v]], ndim)
  {
    var top := |open| - 1;
    assert OpenAt(store, arrays, open[top], ndim, top, top);
    var store', open' := Push(store, arrays[top], Atom(v)), open[top := open[top] + [v]];
    forall e | 0 <= e < |open'|
      ensures OpenAt(store', arrays, open'[e], ndim, top, e)
    {
      if e < top {
        hide Holds;
        assert OpenAt(store, arrays, open[e], ndim, top, e);
        Ascending(store, arrays, open, ndim, e, top);
        LevelFrame(store, store', store[arrays[e]], open[e], ndim - e, arrays[e], arrays[e + 1], arrays[e + 1]);
      }
    }
  }

  function Closed(open: seq<seq<Value>>): seq<seq<Value>>
    requires |open| > 1
  {
    var top := |open| - 1;
    open[..top][top - 1 := open[top - 1] + [List(open[top])]]
  }

  /** The innermost open array is left: it is complete, and one more value of its parent. */
  lemma OpenUp(store: Store, arrays: seq<nat>, open: seq<seq<Value>>, ndim: nat)
    requires Open(store, arrays, open, ndim) && |open| > 1
    ensures Open(store, arrays, Closed(open), ndim)
  {
    var top, open' := |open| - 1, Closed(open);
    assert OpenAt(store, arrays, open[top], ndim, top, top);
    forall e | 0 <= e < |open'|
      ensures OpenAt(store, arrays, open'[e], ndim, top - 1, e)
    {
      assert OpenAt(store, arrays, open[e], ndim, top, e);
      if e == top - 1 {
        assert Holds(store, Ref(arrays[top]), List(open[top]), ndim - e, arrays[e], |store|);
        hide Holds;
        LevelFrame(store, store, store[arrays[e]], open[e], ndim - e, arrays[e], arrays[top], |store|);
      }
    }
  }

  // ---------------------------------------------------------------- the elements gathered so far

  /** The elements in the open arrays, from the outermost to the innermost. */
  function Gathered(dims: seq<nat>, open: seq<seq<Value>>): Result<seq<Value>>
    requires |open| <= |dims|
    decreases |open|
  {
    if |open| == 0 then Ok([])
    else
      var top := |open| - 1;
      Join(Gathered(dims, open[..top]), Collect(open[top], dims[top..]))
  }

  lemma GatheredDown(dims: seq<nat>, open: seq<seq<Value>>)
    requires |open| < |dims|
    ensures Gathered(dims, open + [[]]) == Gathered(dims, open)
  {
    hide Join;
    var more := open + [[]];
    assert more[..|open|] == open;
    assert Collect([], dims[|open|..]) == Ok([]);
    JoinNothing(Gathered(dims, open));
  }

  lemma GatheredPush(dims: seq<nat>, open: seq<seq<Value>>, v: Value)
    requires |open| == |dims| > 0
    ensures Gathered(dims, open[|open| - 1 := open[|open| - 1] + [v]]) == Join(Gathered(dims, open), Ok([v]))
  {
    hide Join;
    var top := |open| - 1;
    var more := open[top := open[top] + [v]];
    assert more[..top] == open[..top];
    JoinAssoc(Gathered(dims, open[..top]), Ok(open[top]), Ok([v]));
    assert Ok(open[top] + [v]) == Join(Ok(open[top]), Ok([v])) by { JoinOk(open[top], [v]); }
  }

  lemma JoinOk(a: seq<Value>, b: seq<Value>)
    ensures Join(Ok(a), Ok(b)) == Ok(a + b)
  {
  }

  lemma GatheredUp(dims: seq<nat>, open: seq<seq<Value>>)
    requires 1 < |open| <= |dims| && |open[|open| - 1]| == dims[|open| - 1]
    ensures Gathered(dims, Closed(open)) == Gathered(dims, open)
  {
    hide Join;
    var top := |open| - 1;
    var outer, upper, inner := open[..top - 1], open[top - 1], open[top];
    var d := dims[top - 1..];
    assert Closed(open)[..top - 1] == outer;
    assert open[..top][..top - 1] == outer;
    assert d[1] == dims[top] && d[1..] == dims[top..];
    hide Gathered;
    CollectLast(upper, inner, d);
    GatheredUnfold(dims, open);
    GatheredUnfold(dims, open[..top]);
    GatheredUnfold(dims, Closed(open));
    JoinAssoc(Gathered(dims, outer), Collect(upper, d), Collect(inner, dims[top..]));
  }

  lemma GatheredUnfold(dims: seq<nat>, open: seq<seq<Value>>)
    requires 0 < |open| <= |dims|
    ensures var top := |open| - 1;
            Gathered(dims, open) == Join(Gathered(dims, open[..top]), Collect(open[top], dims[top..]))
  {
    hide Join, Collect;
  }

  lemma CollectLast(kids: seq<Value>, inner: seq<Value>, dims: seq<nat>)
    requires |dims| > 1 && |inner| == dims[1]
    ensures Collect(kids + [List(inner)], dims) == Join(Collect(kids, dims), Collect(inner, dims[1..]))
  {
    hide Join;
    var last := [List(inner)];
    CollectConcat(kids, last, dims);
    assert last[1..] == [];
    JoinNothing(CollectOne(last[0], dims));
  }

  /** There is room in every open array. */
  ghost predicate Room(dims: seq<nat>, open: seq<seq<Value>>) {
    |open| <= |dims| && forall e :: 0 <= e < |open| ==> |open[e]| + 1 <= dims[e]
  }

  lemma Times(a: nat, b: nat, p: nat)
    ensures a < b ==> a * p + p <= b * p
    ensures a <= b ==> a * p <= b * p
  {
    if a <= b {
      var c := b - a;
      assert b * p == a * p + c * p;
      assert c > 0 ==> c * p == p + (c - 1) * p;
    }
  }

  /** As long as there is, elements are missing: another innermost open array's entry at least. */
  lemma {:induction false} Missing(dims: seq<nat>, open: seq<seq<Value>>)
    requires Room(dims, open) && Gathered(dims, open).Ok?
    ensures |Gathered(dims, open).value| + Product(dims[|open|..]) <= Product(dims)
    decreases |open|
  {
    if |open| == 0 {
      assert dims[0..] == dims;
    } else {
      var top := |open| - 1;
      Missing(dims, open[..top]);
      CollectSize(open[top], dims[top..]);
      ProductUnfold(dims[top..]);
      assert dims[top..][1..] == dims[|open|..];
      hide Product, Collect;
      Times(|open[top]|, dims[top], Product(dims[|open|..]));
    }
  }

  /** With fewer elements than the shape has there is room in the outermost array. */
  lemma RoomOutside(dims: seq<nat>, kids: seq<Value>)
    requires |dims| > 0 && Collect(kids, dims).Ok? && |Collect(kids, dims).value| < Product(dims)
    ensures |kids| < dims[0]
  {
    CollectSize(kids, dims);
    ProductUnfold(dims);
    hide Product, Collect;
    Times(dims[0], |kids|, Product(dims[1..]));
  }

  /** With all elements the outermost array is complete, and all the others are closed. */
  lemma AllDone(dims: seq<nat>, open: seq<seq<Value>>, items: seq<Value>)
    requires 0 < |open| <= |dims| && Gathered(dims, open) == Ok(items) && |items| == Product(dims) > 0
    requires Room(dims, open[..|open| - 1]) && |open[0]| <= dims[0]
    requires |open| > 1 ==> Room(dims, open)
    ensures |open| == 1 && open[0] == Build(dims[0], dims, items)
  {
    hide Build, Product, Collect, Gathered;
    ProductPositive(dims);
    if |open| > 1 {
      ProductPositive(dims[|open|..]);
      Missing(dims, open);
    } else {
      OneOpen(dims, open);
      CollectSize(open[0], dims);
      ProductUnfold(dims);
      ProductPositive(dims[1..]);
      Times(|open[0]|, dims[0], Product(dims[1..]));
      BuildOfCollect(open[0], dims);
    }
  }

  lemma OneOpen(dims: seq<nat>, open: seq<seq<Value>>)
    requires |open| == 1 <= |dims|
    ensures Gathered(dims, open) == Collect(open[0], dims)
  {
    assert dims[0..] == dims && open[..0] == [];
    JoinNothing(Collect(open[0], dims));
  }

  // ---------------------------------------------------------------- the loops

  /** The header, with the check of each product. */
  method HeaderOf(s: seq<byte>) returns (r: Result<(seq<nat>, nat)>)
    ensures r == ReadHeader(s)
  {
    hide ReadNbo32;
    var cur := 0;
    if |s| - cur < 4 {
      return Err(PrematureEnd);
    }
    var ndim := ReadNbo32(s[cur..cur + 4]);
    if ndim < 0 || ndim > MAXDIM {
      return Err(UnsupportedSize);
    }
    cur := cur + 4;
    if |s| - cur < 4 {
      return Err(PrematureEnd);
    }
    var flags := ReadNbo32(s[cur..cur + 4]);
    if flags != 0 && flags != 1 {
      return Err(Malformed);
    }
    cur := cur + 4;
    if |s| - cur < 4 {
      return Err(PrematureEnd);
    }
    cur := cur + 4;
    var nitems32: int, dimSizes: seq<nat> := if ndim == 0 then 0 else 1, [];
    for i := 0 to ndim
      invariant cur == 12 + 8 * i <= |s| && 0 <= nitems32 <= INT32_MAX
      invariant ReadHeader(s) == ReadDims(s, cur, ndim - i, nitems32, dimSizes)
    {
      if |s| - cur < 8 {
        return Err(PrematureEnd);
      }
      var size := ReadNbo32(s[cur..cur + 4]);
      Product64(nitems32, size);
      var prod := nitems32 * size;
      nitems32 := Truncate32(prod);
      TruncateFinds(prod);
      if size < 0 || nitems32 != prod {
        return Err(UnsupportedSize);
      }
      dimSizes := dimSizes + [size];
      cur := cur + 8;
    }
    r := Ok((dimSizes, nitems32));
  }

  /** The product fits into 64 bits, and is not negative when the size is not. */
  lemma Product64(n: nat, size: int)
    requires n <= INT32_MAX && INT32_MIN <= size <= INT32_MAX
    ensures -0x8000_0000_0000_0000 <= n * size <= 0x7FFF_FFFF_FFFF_FFFF
    ensures size >= 0 ==> n * size >= 0
  {
    if size < 0 {
      var k := -size;
      assert n * k <= 0x8000_0000 * 0x8000_0000 by { Times(n, 0x8000_0000, k); Times(k, 0x8000_0000, 0x8000_0000); }
      assert n * size == -(n * k);
    } else {
      Times(n, 0x8000_0000, size);
      Times(size, 0x8000_0000, 0x8000_0000);
    }
  }

  /** `while (dim < ndim - 1)`: new arrays down to the innermost dimension. */
  method GoDown(store: Store, arrays: array<nat>, dims: seq<nat>, dim: nat, ghost open: seq<seq<Value>>)
    returns (store': Store, dim': nat, ghost open': seq<seq<Value>>)
    requires |open| == dim + 1 && Open(store, arrays[..], open, |dims|)
    requires Room(dims, open) && AllPositive(dims)
    modifies arrays
    ensures dim' == |dims| - 1 && |open'| == |dims| && Open(store', arrays[..], open', |dims|)
    ensures Room(dims, open') && Gathered(dims, open') == Gathered(dims, open)
    ensures arrays[0] == old(arrays[0])
  {
    hide Open, Gathered;
    store', dim', open' := store, dim, open;
    OpenBounds(store, arrays[..], open, |dims|);
    while dim' < |dims| - 1
      invariant |open'| == dim' + 1 <= |dims| <= arrays.Length && Open(store', arrays[..], open', |dims|)
      invariant Room(dims, open') && Gathered(dims, open') == Gathered(dims, open)
      invariant arrays[0] == old(arrays[0])
    {
      OpenDown(store', arrays[..], open', |dims|);
      GatheredDown(dims, open');
      ghost var before := arrays[..];
      dim' := dim' + 1;
      arrays[dim'] := |store'|;
      store' := store' + [[]];
      store' := Push(store', arrays[dim' - 1], Ref(arrays[dim']));
      assert arrays[..] == before[dim' := arrays[dim']];
      open' := open' + [[]];
    }
  }

  lemma OpenBounds(store: Store, arrays: seq<nat>, open: seq<seq<Value>>, ndim: nat)
    requires Open(store, arrays, open, ndim)
    ensures 0 < |open| <= ndim <= |arrays|
    ensures var top := |open| - 1; arrays[top] < |store| && |store[arrays[top]]| == |open[top]|
  {
    assert OpenAt(store, arrays, open[|open| - 1], ndim, |open| - 1, |open| - 1);
  }

  /** The loop up over the arrays that are complete. */
  method GoUp(store: Store, arrays: array<nat>, dims: seq<nat>, dim: nat, ghost open: seq<seq<Value>>)
    returns (dim': nat, ghost open': seq<seq<Value>>)
    requires |open| == dim + 1 && Open(store, arrays[..], open, |dims|)
    requires Room(dims, open[..dim]) && |open[dim]| <= dims[dim]
    ensures dim' <= dim && |open'| == dim' + 1 && Open(store, arrays[..], open', |dims|)
    ensures Room(dims, open'[..dim']) && |open'[dim']| <= dims[dim'] && (dim' > 0 ==> Room(dims, open'))
    ensures Gathered(dims, open') == Gathered(dims, open)
  {
    hide Open, Gathered;
    dim', open' := dim, open;
    OpenBounds(store, arrays[..], open, |dims|);
    while |store[arrays[dim']]| >= dims[dim'] && dim' > 0
      invariant dim' <= dim && |open'| == dim' + 1 && Open(store, arrays[..], open', |dims|)
      invariant Room(dims, open'[..dim']) && |open'[dim']| <= dims[dim']
      invariant Gathered(dims, open') == Gathered(dims, open)
      invariant arrays[dim'] < |store| && |store[arrays[dim']]| == |open'[dim']|
      decreases dim'
    {
      OpenUp(store, arrays[..], open', |dims|);
      GatheredUp(dims, open');
      assert |open'[..dim'][dim' - 1]| + 1 <= dims[dim' - 1];
      assert Closed(open')[..dim' - 1] == open'[..dim'][..dim' - 1];
      open' := Closed(open');
      dim' := dim' - 1;
      OpenBounds(store, arrays[..], open', |dims|);
    }
  }

  lemma {:induction false} ElementsNext(c: Coder, columns: seq<Column>, column: Column)
    ensures ElementsOf(c, columns + [column]) == ElementsOf(c, columns) + [c.Element(column)]
  {
    if |columns| == 0 {
      assert columns + [column] == [column] && [column][1..] == [];
    } else {
      ElementsNext(c, columns[1..], column);
      assert (columns + [column])[1..] == columns[1..] + [column];
    }
  }

  /** Before an element is read there is room for it everywhere on the stack. */
  lemma RoomForOne(dims: seq<nat>, open: seq<seq<Value>>, items: seq<Value>)
    requires 0 < |open| <= |dims| && Gathered(dims, open) == Ok(items) && |items| < Product(dims)
    requires |open| > 1 ==> Room(dims, open)
    ensures Room(dims, open)
  {
    hide Gathered, Collect, Product;
    if |open| == 1 {
      OneOpen(dims, open);
      RoomOutside(dims, open[0]);
    }
  }

  /** `pg_bin_dec_array`: the address of the decoded array, and the store it lies in. */
  method DecodeArray(c: Coder, s: seq<byte>) returns (r: Result<nat>, store: Store)
    ensures r.Err? ==> Decode(c, s) == Err(r.error)
    ensures r.Ok? ==> Decode(c, s).Ok? &&
                      Stored(store, Decode(c, s).value, |Walked(ReadHeader(s).value.0)|, r.value, |store|)
  {
    hide ReadHeader, ReadColumn, Gathered, Collect, Product, Stored, Holds, Open, Room, Nested;
    store := [[]];
    var header :- HeaderOf(s);
    var (dims, nitems) := header;
    HeaderCounts(s);
    var cur: nat := 12 + 8 * |dims|;
    var arrays := new nat[MAXDIM](_ => 0);
    var dim: nat := 0;
    ghost var open: seq<seq<Value>> := [[]];
    ghost var columns: seq<Column> := [];
    Beginning(store, arrays[..], dims);
    for i := 0 to nitems
      invariant cur <= |s| && |columns| == i
      invariant ReadColumns(s, 12 + 8 * |dims|, nitems, []) == ReadColumns(s, cur, nitems - i, columns)
      invariant |open| == dim + 1 <= |Walked(dims)| && Open(store, arrays[..], open, |Walked(dims)|)
      invariant |dims| > 0 ==> Gathered(dims, open) == Ok(ElementsOf(c, columns))
      invariant |dims| > 0 ==> Room(dims, open[..dim]) && |open[dim]| <= dims[dim] && (dim > 0 ==> Room(dims, open))
      invariant nitems == 0 ==> open == [[]]
      invariant arrays[0] == 0
    {
      RoomForOne(dims, open, ElementsOf(c, columns));
      store, dim, open := GoDown(store, arrays, dims, dim, open);
      var field :- ReadColumn(s, cur);
      var column := field.1;
      cur := field.0;
      ghost var items := ElementsOf(c, columns);
      OpenPush(store, arrays[..], open, |dims|, c.Element(column));
      GatheredPush(dims, open, c.Element(column));
      ElementsNext(c, columns, column);
      JoinOk(items, [c.Element(column)]);
      RoomTaken(dims, open, c.Element(column));
      store := Push(store, arrays[dim], Atom(c.Element(column)));
      open := open[dim := open[dim] + [c.Element(column)]];
      columns := columns + [column];
      dim, open := GoUp(store, arrays, dims, dim, open);
    }
    if cur < |s| {
      return Err(TrailingData), store;
    }
    Ending(c, store, arrays[..], dims, open, ElementsOf(c, columns));
    r := Ok(arrays[0]);
  }

  lemma HeaderCounts(s: seq<byte>)
    requires ReadHeader(s).Ok?
    ensures var (dims, n) := ReadHeader(s).value;
            |dims| <= MAXDIM && n == (if |dims| == 0 then 0 else Product(dims)) && (n > 0 ==> AllPositive(dims))
  {
    hide ReadDims, ReadNbo32, Product;
    var (dims, n) := ReadHeader(s).value;
    var ndim := ReadNbo32(s[0..4]);
    DimsSound(s, 12, ndim, if ndim == 0 then 0 else 1, []);
    assert dims[0..] == dims;
    ProductPositive(dims);
  }

  lemma Beginning(store: Store, arrays: seq<nat>, dims: seq<nat>)
    requires store == [[]] && |arrays| == MAXDIM && |dims| <= MAXDIM && arrays[0] == 0
    ensures Open(store, arrays, [[]], |Walked(dims)|)
    ensures |dims| > 0 ==> Gathered(dims, [[]]) == Ok([]) && Room(dims, [[]][..0])
  {
    assert OpenAt(store, arrays, [], |Walked(dims)|, 0, 0);
    if |dims| > 0 {
      var open: seq<seq<Value>> := [[]];
      assert open[..0] == [];
      assert Collect([], dims[0..]) == Ok([]);
      assert Gathered(dims, []) == Ok([]);
      JoinNothing(Ok([]));
    }
  }

  lemma RoomTaken(dims: seq<nat>, open: seq<seq<Value>>, v: Value)
    requires |open| == |dims| > 0 && Room(dims, open)
    ensures var top := |open| - 1; var open' := open[top := open[top] + [v]];
            Room(dims, open'[..top]) && |open'[top]| <= dims[top]
  {
  }

  lemma Ending(c: Coder, store: Store, arrays: seq<nat>, dims: seq<nat>, open: seq<seq<Value>>, items: seq<Value>)
    requires 0 < |open| <= |Walked(dims)| && Open(store, arrays, open, |Walked(dims)|) && |dims| <= MAXDIM
    requires |items| == (if |dims| == 0 then 0 else Product(dims)) && (|items| == 0 ==> open == [[]])
    requires |dims| > 0 ==> Gathered(dims, open) == Ok(items) && |open[|open| - 1]| <= dims[|open| - 1]
                            && Room(dims, open[..|open| - 1]) && (|open| > 1 ==> Room(dims, open))
    ensures Stored(store, Nested(dims, items), |Walked(dims)|, arrays[0], |store|)
  {
    hide Gathered, Product, Build, Holds;
    if |items| > 0 {
      if |open| > 1 {
        assert |open[0]| <= dims[0];
      }
      AllDone(dims, open, items);
    }
    assert OpenAt(store, arrays, open[0], |Walked(dims)|, 0, 0);
  }
}
