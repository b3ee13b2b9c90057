/**
 The two passes of `pg_bin_enc_array`: both walk over the nested array with one position per dimension, the first
 to measure and to gather what the element encoder's first pass gives, the second to write.
 */
module BinaryArrayEncoder {
  import opened Bytes
  import opened BinaryFields
  import opened NestedArray
  import opened BinaryArray
  import opened RubyString

  /** An entry of the array of intermediates; there are two for each element that is not nil. */
  datatype Entry = IsOnePass(flag: bool) | Held(text: seq<byte>)

  function EntriesOf(c: Coder, x: Value): seq<Entry> {
    if x.Nil? then []
    else match c.first(x)
      case OnePass(text) => [IsOnePass(true), Held(text)]
      case Needs(_, held) => [IsOnePass(false), Held(held)]
  }

  function Entries(c: Coder, items: seq<Value>): seq<Entry> {
    if |items| == 0 then [] else EntriesOf(c, items[0]) + Entries(c, items[1..])
  }

  function Space(c: Coder, x: Value): nat {
    4 + (if x.Nil? then 0 else c.Size(x))
  }

  function SpaceFor(c: Coder, items: seq<Value>): nat {
    if |items| == 0 then 0 else Space(c, items[0]) + SpaceFor(c, items[1..])
  }

  /** The bytes of the elements. */
  function ItemsBytes(c: Coder, items: seq<Value>): seq<byte> {
    Body(ColumnsOf(c, items))
  }

  /** What the first pass answers for the whole array. */
  function TotalSpace(c: Coder, dims: seq<nat>, items: seq<Value>): nat {
    12 + 8 * |dims| + SpaceFor(c, items)
  }

  lemma {:induction false} EntriesConcat(c: Coder, a: seq<Value>, b: seq<Value>)
    ensures Entries(c, a + b) == Entries(c, a) + Entries(c, b)
  {
    hide EntriesOf;
    if |a| == 0 {
      assert a + b == b;
    } else {
      EntriesConcat(c, a[1..], b);
      assert (a + b)[1..] == a[1..] + b;
    }
  }

  lemma {:induction false} SpaceConcat(c: Coder, a: seq<Value>, b: seq<Value>)
    ensures SpaceFor(c, a + b) == SpaceFor(c, a) + SpaceFor(c, b)
  {
    hide Space;
    if |a| == 0 {
      assert a + b == b;
    } else {
      SpaceConcat(c, a[1..], b);
      assert (a + b)[1..] == a[1..] + b;
    }
  }

  lemma {:induction false} ItemsConcat(c: Coder, a: seq<Value>, b: seq<Value>)
    ensures ItemsBytes(c, a + b) == ItemsBytes(c, a) + ItemsBytes(c, b)
  {
    hide ColumnBytes;
    if |a| == 0 {
      assert a + b == b;
      NoText(ItemsBytes(c, b));
    } else {
      ItemsConcat(c, a[1..], b);
      assert (a + b)[1..] == a[1..] + b;
      ItemsFirst(c, a);
      ItemsFirst(c, a + b);
      Assoc(ColumnBytes(c.Column(a[0])), ItemsBytes(c, a[1..]), ItemsBytes(c, b));
    }
  }

  lemma NothingYet(c: Coder)
    ensures SpaceFor(c, []) == 0 && Entries(c, []) == [] && ItemsBytes(c, []) == []
  {
  }

  lemma ItemsFirst(c: Coder, items: seq<Value>)
    requires |items| > 0
    ensures ItemsBytes(c, items) == ColumnBytes(c.Column(items[0])) + ItemsBytes(c, items[1..])
  {
    hide ColumnBytes;
    assert ColumnsOf(c, items)[1..] == ColumnsOf(c, items[1..]);
  }

  /** The first pass asks for enough, and for exactly enough where the element encoder does. */
  lemma {:induction false} SpaceSuffices(c: Coder, items: seq<Value>)
    requires forall k :: 0 <= k < |items| ==> c.Fits(items[k])
    ensures |ItemsBytes(c, items)| <= SpaceFor(c, items)
    ensures (forall x :: x in items && !x.Nil? ==> |c.Text(x)| == c.Size(x)) ==>
            |ItemsBytes(c, items)| == SpaceFor(c, items)
  {
    if |items| > 0 {
      assert c.Fits(items[0]);
      ItemsFirst(c, items);
      SpaceSuffices(c, items[1..]);
      assert items[0] in items;
      assert forall x :: x in items[1..] ==> x in items;
    }
  }

  // ---------------------------------------------------------------- the walk

  /**
   The walk stands in dimension `d`: `arrays` are the arrays it came through, `pos` are the positions in them. The
   positions of deeper dimensions are zero.
   */
  ghost predicate Path(dims: seq<nat>, arrays: seq<seq<Value>>, pos: seq<nat>, d: nat) {
    && d < |dims| <= MAXDIM == |arrays| == |pos|
    && (forall e :: 0 <= e <= d ==> |arrays[e]| == dims[e])
    && (forall e :: 0 <= e < d ==> pos[e] < dims[e])
    && (forall e :: d < e < |dims| ==> pos[e] == 0)
  }

  /** The elements that are still to come once the array in dimension `d` is done with. */
  ghost function Above(dims: seq<nat>, arrays: seq<seq<Value>>, pos: seq<nat>, d: nat): Result<seq<Value>>
    requires Path(dims, arrays, pos, d)
    decreases d
  {
    if d == 0 then Ok([])
    else Join(Collect(arrays[d - 1][pos[d - 1] + 1..], dims[d - 1..]), Above(dims, arrays, pos[d := 0], d - 1))
  }

  /** The elements that are still to come from the position in dimension `d` on. */
  ghost function Here(dims: seq<nat>, arrays: seq<seq<Value>>, pos: seq<nat>, d: nat): Result<seq<Value>>
    requires Path(dims, arrays, pos, d) && pos[d] <= dims[d]
  {
    Join(Collect(arrays[d][pos[d]..], dims[d..]), Above(dims, arrays, pos, d))
  }

  /** Only what lies above matters. */
  lemma {:induction false} AboveFrame(dims: seq<nat>, arrays: seq<seq<Value>>, pos: seq<nat>,
                                      arrays': seq<seq<Value>>, pos': seq<nat>, d: nat)
    requires Path(dims, arrays, pos, d) && Path(dims, arrays', pos', d)
    requires forall e :: 0 <= e < d ==> arrays[e] == arrays'[e] && pos[e] == pos'[e]
    ensures Above(dims, arrays, pos, d) == Above(dims, arrays', pos', d)
    decreases d
  {
    hide Collect, Join;
    if d > 0 {
      AboveFrame(dims, arrays, pos[d := 0], arrays', pos'[d := 0], d - 1);
    }
  }

  /** One step down into an array. */
  lemma DownStep(dims: seq<nat>, arrays: seq<seq<Value>>, pos: seq<nat>, d: nat)
    requires Path(dims, arrays, pos, d) && d + 1 < |dims| && pos[d] < dims[d]
    ensures var kid := arrays[d][pos[d]];
            && (!kid.List? ==> Here(dims, arrays, pos, d) == Err(WrongType))
            && (kid.List? && |kid.kids| != dims[d + 1] ==> Here(dims, arrays, pos, d) == Err(WrongDimensions))
            && (kid.List? && |kid.kids| == dims[d + 1] ==>
                  && Path(dims, arrays[d + 1 := kid.kids], pos, d + 1)
                  && Here(dims, arrays[d + 1 := kid.kids], pos, d + 1) == Here(dims, arrays, pos, d))
  {
    hide Collect, Join, Above;
    var kid, rest := arrays[d][pos[d]], arrays[d][pos[d]..];
    assert rest[0] == kid && rest[1..] == arrays[d][pos[d] + 1..];
    assert dims[d..][1] == dims[d + 1] && dims[d..][1..] == dims[d + 1..];
    CollectUnfold(rest, dims[d..]);
    var one, more, above := CollectOne(kid, dims[d..]), Collect(rest[1..], dims[d..]), Above(dims, arrays, pos, d);
    JoinAssoc(one, more, above);
    if kid.List? && |kid.kids| == dims[d + 1] {
      var arrays' := arrays[d + 1 := kid.kids];
      AboveFrame(dims, arrays, pos, arrays', pos, d);
      AboveUnfold(dims, arrays', pos, d + 1);
      assert kid.kids[0..] == kid.kids;
    } else {
      JoinFails(one, more);
      JoinFails(one, Join(more, above));
    }
  }

  lemma JoinFails(a: Result<seq<Value>>, b: Result<seq<Value>>)
    ensures a.Err? ==> Join(a, b) == a
    ensures a.Ok? && b.Err? ==> Join(a, b) == b
  {
  }

  lemma CollectUnfold(kids: seq<Value>, dims: seq<nat>)
    requires |dims| > 1
    ensures |kids| == 0 ==> Collect(kids, dims) == Ok([])
    ensures |kids| > 0 ==> Collect(kids, dims) == Join(CollectOne(kids[0], dims), Collect(kids[1..], dims))
  {
  }

  lemma AboveUnfold(dims: seq<nat>, arrays: seq<seq<Value>>, pos: seq<nat>, d: nat)
    requires Path(dims, arrays, pos, d) && d > 0 && pos[d] == 0
    ensures Above(dims, arrays, pos, d) ==
            Join(Collect(arrays[d - 1][pos[d - 1] + 1..], dims[d - 1..]), Above(dims, arrays, pos, d - 1))
  {
    hide Collect, Join;
    assert pos[d := 0] == pos;
  }

  /** One step up and on to the next sibling. */
  lemma UpStep(dims: seq<nat>, arrays: seq<seq<Value>>, pos: seq<nat>, d: nat)
    requires Path(dims, arrays, pos, d) && d > 0
    ensures var pos' := pos[d := 0][d - 1 := pos[d - 1] + 1];
            && Path(dims, arrays, pos', d - 1) && pos'[d - 1] <= dims[d - 1]
            && Here(dims, arrays, pos', d - 1) == Above(dims, arrays, pos, d)
            && (pos'[d - 1] == dims[d - 1] ==> Above(dims, arrays, pos', d - 1) == Above(dims, arrays, pos, d))
  {
    hide Collect, Join;
    var pos' := pos[d := 0][d - 1 := pos[d - 1] + 1];
    AboveFrame(dims, arrays, pos[d := 0], arrays, pos', d - 1);
    if pos'[d - 1] == dims[d - 1] {
      assert arrays[d - 1][pos'[d - 1]..] == [];
      CollectUnfold([], dims[d - 1..]);
      JoinNothing(Above(dims, arrays, pos', d - 1));
    }
  }

  /** What is left in dimension `e` of the walk. */
  ghost function Left(dims: seq<nat>, pos: seq<nat>, e: nat): nat {
    if e + 1 < |dims| && e < |pos| && pos[e] <= dims[e] then dims[e] - pos[e] else 0
  }

  /** `while( dim < ndim - 1 )` of the first pass, with its checks. */
  method DescendChecked(dims: seq<nat>, arrays: array<seq<Value>>, pos: array<nat>, dim: nat)
    returns (status: Result<nat>)
    requires Path(dims, arrays[..], pos[..], dim) && pos[dim] <= dims[dim] && Leading(dims)
    requires dim < |dims| - 1 ==> pos[dim] < dims[dim]
    requires pos[|dims| - 1] == 0
    modifies arrays
    ensures status.Ok? ==> status.value == |dims| - 1 && Path(dims, arrays[..], pos[..], status.value)
                           && pos[status.value] == 0
                           && Here(dims, arrays[..], pos[..], status.value) ==
                              old(Here(dims, arrays[..], pos[..], dim))
    ensures status.Err? ==> old(Here(dims, arrays[..], pos[..], dim)) == Err(status.error)
  {
    hide Here;
    var d := dim;
    ghost var here := Here(dims, arrays[..], pos[..], dim);
    while d < |dims| - 1
      invariant Path(dims, arrays[..], pos[..], d) && pos[d] <= dims[d]
      invariant d < |dims| - 1 ==> pos[d] < dims[d]
      invariant Here(dims, arrays[..], pos[..], d) == here
    {
      ghost var before := arrays[..];
      DownStep(dims, before, pos[..], d);
      var next := arrays[d][pos[d]];
      if !next.List? {
        return Err(WrongType);
      }
      if dims[d + 1] != |next.kids| {
        return Err(WrongDimensions);
      }
      arrays[d + 1] := next.kids;
      assert arrays[..] == before[d + 1 := next.kids];
      d := d + 1;
    }
    status := Ok(d);
  }

  /** The same loop in the second pass, where nothing is left to check. */
  method Descend(dims: seq<nat>, arrays: array<seq<Value>>, pos: array<nat>, dim: nat) returns (d: nat)
    requires Path(dims, arrays[..], pos[..], dim) && pos[dim] <= dims[dim] && Leading(dims)
    requires dim < |dims| - 1 ==> pos[dim] < dims[dim]
    requires pos[|dims| - 1] == 0
    requires Here(dims, arrays[..], pos[..], dim).Ok?
    modifies arrays
    ensures d == |dims| - 1 && Path(dims, arrays[..], pos[..], d) && pos[d] == 0
    ensures Here(dims, arrays[..], pos[..], d) == old(Here(dims, arrays[..], pos[..], dim))
  {
    hide Here;
    d := dim;
    ghost var here := Here(dims, arrays[..], pos[..], dim);
    while d < |dims| - 1
      invariant Path(dims, arrays[..], pos[..], d) && pos[d] <= dims[d]
      invariant d < |dims| - 1 ==> pos[d] < dims[d]
      invariant Here(dims, arrays[..], pos[..], d) == here
    {
      ghost var before := arrays[..];
      DownStep(dims, before, pos[..], d);
      arrays[d + 1] := arrays[d][pos[d]].kids;
      assert arrays[..] == before[d + 1 := before[d][pos[d]].kids];
      d := d + 1;
    }
  }

  /** The loop up to the next sibling array; `finished` when there is none. */
  method Ascend(dims: seq<nat>, ghost arrays: seq<seq<Value>>, pos: array<nat>, dim: nat)
    returns (d: nat, finished: bool)
    requires Path(dims, arrays, pos[..], dim)
    modifies pos
    ensures finished ==> old(Above(dims, arrays, pos[..], dim)) == Ok([])
    ensures !finished ==> d < dim && Path(dims, arrays, pos[..], d) && pos[d] < dims[d]
                          && Here(dims, arrays, pos[..], d) == old(Above(dims, arrays, pos[..], dim))
                          && pos[d] == old(pos[d]) + 1 && (forall e :: 0 <= e < d ==> pos[e] == old(pos[e]))
  {
    hide Here;
    d := dim;
    ghost var above := Above(dims, arrays, pos[..], dim);
    while true
      invariant d <= dim && Path(dims, arrays, pos[..], d)
      invariant Above(dims, arrays, pos[..], d) == above
      invariant forall e :: 0 <= e < d ==> pos[e] == old(pos[e])
      decreases d
    {
      if d == 0 {
        return d, true;
      }
      ghost var before := pos[..];
      UpStep(dims, arrays, before, d);
      pos[d] := 0;
      d := d - 1;
      pos[d] := pos[d] + 1;
      assert pos[..] == before[d + 1 := 0][d := before[d] + 1];
      if pos[d] < dims[d] {
        return d, false;
      }
    }
  }

  // ---------------------------------------------------------------- the sizes of the dimensions

  /** The loop down the first entries. */
  method Dimensions(dimensions: int, kids: seq<Value>) returns (r: Result<seq<nat>>)
    ensures r == Sizes(dimensions, kids)
  {
    var dimSizes: seq<nat> := [];
    if |kids| > 0 {
      var el1, ndim := kids, 1;
      PrefixedNothing([], LeadSizes(dimensions, kids, 1));
      while true
        invariant 1 <= ndim <= MAXDIM
        invariant LeadSizes(dimensions, kids, 1) == Prefixed(dimSizes, LeadSizes(dimensions, el1, ndim))
        invariant |dimSizes| == ndim - 1
        decreases MAXDIM - ndim
      {
        if |el1| > INT32_MAX {
          return Err(UnsupportedSize);
        }
        ghost var front := dimSizes;
        dimSizes := dimSizes + [|el1|];
        if !((dimensions < 0 || ndim < dimensions) && |el1| > 0 && el1[0].List?) {
          break;
        }
        ndim := ndim + 1;
        if ndim > MAXDIM {
          return Err(WrongDimensions);
        }
        PrefixedNext(front, |el1|, LeadSizes(dimensions, el1[0].kids, ndim));
        el1 := el1[0].kids;
      }
    }
    if dimensions >= 0 && (if |dimSizes| == 0 then 1 else |dimSizes|) != dimensions {
      return Err(WrongDimensions);
    }
    r := Ok(dimSizes);
  }

  // ---------------------------------------------------------------- the first pass

  /** The loop over the elements of an innermost array in the first pass. */
  method MeasureRow(c: Coder, row: seq<Value>, entriesBefore: seq<Entry>, sizeBefore: nat)
    returns (sizeSum: nat, entries: seq<Entry>)
    ensures sizeSum == sizeBefore + SpaceFor(c, row)
    ensures entries == entriesBefore + Entries(c, row)
  {
    sizeSum, entries := sizeBefore, entriesBefore;
    for i := 0 to |row|
      invariant sizeSum == sizeBefore + SpaceFor(c, row[..i])
      invariant entries == entriesBefore + Entries(c, row[..i])
    {
      var item := row[i];
      OneMore(c, row, i);
      assert entriesBefore + (Entries(c, row[..i]) + EntriesOf(c, item)) == entries + EntriesOf(c, item);
      if item.Nil? {
        sizeSum := sizeSum + 4;
      } else {
        match c.first(item)
        case OnePass(text) =>
          entries := entries + [IsOnePass(true), Held(text)];
          sizeSum := sizeSum + 4 + |text|;
        case Needs(size, held) =>
          entries := entries + [IsOnePass(false), Held(held)];
          sizeSum := sizeSum + 4 + size;
      }
    }
    assert row[..|row|] == row;
  }

  lemma OneMore(c: Coder, row: seq<Value>, i: nat)
    requires i < |row|
    ensures SpaceFor(c, row[..i + 1]) == SpaceFor(c, row[..i]) + Space(c, row[i])
    ensures Entries(c, row[..i + 1]) == Entries(c, row[..i]) + EntriesOf(c, row[i])
    ensures ItemsBytes(c, row[..i + 1]) == ItemsBytes(c, row[..i]) + ColumnBytes(c.Column(row[i]))
  {
    hide Space, EntriesOf, ColumnBytes;
    assert row[..i + 1] == row[..i] + [row[i]];
    assert [row[i]][1..] == [];
    SpaceConcat(c, row[..i], [row[i]]);
    EntriesConcat(c, row[..i], [row[i]]);
    ItemsConcat(c, row[..i], [row[i]]);
    ItemsFirst(c, [row[i]]);
    NoText(ColumnBytes(c.Column(row[i])));
  }

  /** A row that the walk has come to is visited, and what lies above is still to come. */
  lemma RowVisited(dims: seq<nat>, arrays: seq<seq<Value>>, pos: seq<nat>, d: nat, visited: seq<Value>)
    requires Path(dims, arrays, pos, d) && d == |dims| - 1 && pos[d] == 0
    ensures Join(Ok(visited), Here(dims, arrays, pos, d)) ==
            Join(Ok(visited + arrays[d]), Above(dims, arrays, pos, d))
  {
    hide Above;
    assert arrays[d][0..] == arrays[d];
    JoinAssoc(Ok(visited), Ok(arrays[d]), Above(dims, arrays, pos, d));
  }

  /** Where the walk begins, everything is still to come. */
  lemma WalkBegins(kids: seq<Value>, dims: seq<nat>, arrays: seq<seq<Value>>, pos: seq<nat>)
    requires 0 < |dims| <= MAXDIM == |arrays| == |pos| && arrays[0] == kids && |kids| == dims[0]
    requires forall e :: 0 <= e < MAXDIM ==> pos[e] == 0
    ensures Path(dims, arrays, pos, 0)
    ensures Collect(kids, dims) == Join(Ok([]), Here(dims, arrays, pos, 0))
  {
    hide Collect;
    assert kids[0..] == kids && dims[0..] == dims;
    JoinNothing(Collect(kids, dims));
  }

  lemma SizesFacts(dimensions: int, kids: seq<Value>)
    requires Sizes(dimensions, kids).Ok?
    ensures var dims := Walked(Sizes(dimensions, kids).value);
            0 < |dims| <= MAXDIM && dims[0] == |kids| && Leading(dims)
  {
    if |kids| > 0 {
      LeadSizesLeading(dimensions, kids, 1);
    }
  }

  /** The first pass of `pg_bin_enc_array`. */
  method Measure(c: Coder, dimensions: int, kids: seq<Value>) returns (r: Result<nat>, entries: seq<Entry>)
    ensures r.Err? ==> Encode(c, dimensions, kids) == Err(r.error)
    ensures r.Ok? ==> Encode(c, dimensions, kids).Ok?
    ensures r.Ok? ==> var dims := Sizes(dimensions, kids).value;
                      var items := Collect(kids, Walked(dims)).value;
                      r.value == TotalSpace(c, dims, items) && entries == Entries(c, items)
  {
    hide Collect, Here, Above, Path, SpaceFor, Entries, Sizes, Header, Body, ColumnsOf, Leading, Left;
    entries := [];
    var header :- Dimensions(dimensions, kids);
    SizesFacts(dimensions, kids);
    var dims := Walked(header);
    var pos, arrays := new nat[MAXDIM](_ => 0), new seq<Value>[MAXDIM](_ => []);
    arrays[0] := kids;
    var dim: nat, sizeSum: nat := 0, 0;
    ghost var visited: seq<Value> := [];
    WalkBegins(kids, dims, arrays[..], pos[..]);
    NothingYet(c);
    while true
      invariant dim < |dims| && Path(dims, arrays[..], pos[..], dim) && pos[dim] <= dims[dim]
      invariant dim < |dims| - 1 ==> pos[dim] < dims[dim]
      invariant pos[|dims| - 1] == 0
      invariant Collect(kids, dims) == Join(Ok(visited), Here(dims, arrays[..], pos[..], dim))
      invariant sizeSum == SpaceFor(c, visited) && entries == Entries(c, visited)
      decreases Left(dims, pos[..], 0), Left(dims, pos[..], 1), Left(dims, pos[..], 2), Left(dims, pos[..], 3),
                Left(dims, pos[..], 4)
    {
      dim :- DescendChecked(dims, arrays, pos, dim);
      RowVisited(dims, arrays[..], pos[..], dim, visited);
      SpaceConcat(c, visited, arrays[dim]);
      EntriesConcat(c, visited, arrays[dim]);
      sizeSum, entries := MeasureRow(c, arrays[dim], entries, sizeSum);
      visited := visited + arrays[dim];
      ghost var before := pos[..];
      var finished;
      dim, finished := Ascend(dims, arrays[..], pos, dim);
      if finished {
        JoinNothing(Ok(visited));
        break;
      }
      Advanced(dims, arrays[..], before, pos[..], dim);
    }
    r := Ok(4 + 4 + 4 + |header| * (4 + 4) + sizeSum);
  }

  /** The positions have grown in the lexicographic order: what is left has become less in a dimension. */
  lemma Advanced(dims: seq<nat>, arrays: seq<seq<Value>>, before: seq<nat>, pos: seq<nat>, d: nat)
    requires Path(dims, arrays, pos, d) && d < |dims| - 1 && |before| == |pos|
    requires pos[d] == before[d] + 1 && pos[d] < dims[d]
    requires forall e :: 0 <= e < d ==> pos[e] == before[e]
    ensures pos[|dims| - 1] == 0 && d <= 4
    ensures Left(dims, pos, d) < Left(dims, before, d)
    ensures forall e :: 0 <= e < d ==> Left(dims, pos, e) == Left(dims, before, e)
  {
  }

  // ---------------------------------------------------------------- the second pass

  /** The entries `x` stand in `entries` at position `i`. */
  ghost predicate StandAt(entries: seq<Entry>, i: nat, x: seq<Entry>) {
    i + |x| <= |entries| && entries[i..i + |x|] == x
  }

  lemma StandConcat(entries: seq<Entry>, i: nat, x: seq<Entry>, y: seq<Entry>)
    requires StandAt(entries, i, x + y)
    ensures StandAt(entries, i, x) && StandAt(entries, i + |x|, y)
  {
    var t := entries[i..i + |x + y|];
    assert entries[i..i + |x|] == t[..|x|] == x;
    assert entries[i + |x|..i + |x| + |y|] == t[|x|..] == y;
  }

  /** An element at `p`: its bytes behind the place of their length, then the length. */
  method WriteItem(c: Coder, item: Value, entries: seq<Entry>, index: nat, out: array<byte>, p: nat)
    returns (end: nat, next: nat)
    requires c.Fits(item) && StandAt(entries, index, EntriesOf(c, item)) && p + Space(c, item) <= out.Length
    modifies out
    ensures var bytes := ColumnBytes(c.Column(item));
            |bytes| <= Space(c, item) && end == p + |bytes| && out[..] == Splice(old(out[..]), p, bytes)
    ensures next == index + |EntriesOf(c, item)|
  {
    hide Splice, Nbo32;
    next := index;
    if item.Nil? {
      StoreText(Nbo32(-1), out, p);
      end := p + 4;
    } else {
      ghost var before := out[..];
      assert entries[index..index + 2] == EntriesOf(c, item);
      assert entries[index] == EntriesOf(c, item)[0] && entries[index + 1] == EntriesOf(c, item)[1];
      var isOnePass := entries[next];
      next := next + 1;
      var subint := entries[next];
      next := next + 1;
      var text: seq<byte>;
      if isOnePass == IsOnePass(true) {
        text := subint.text;
      } else {
        text := c.second(item, subint.text);
      }
      assert text == c.Text(item);
      StoreText(text, out, p + 4);
      StoreText(Nbo32(|text|), out, p);
      SpliceLeft(before, p + 4, text, Nbo32(|text|));
      end := p + 4 + |text|;
    }
  }

  /** The loop over the elements of an innermost array in the second pass. */
  method WriteRow(c: Coder, row: seq<Value>, entries: seq<Entry>, index: nat, out: array<byte>, start: nat)
    returns (end: nat, next: nat)
    requires StandAt(entries, index, Entries(c, row)) && start + SpaceFor(c, row) <= out.Length
    requires forall k :: 0 <= k < |row| ==> c.Fits(row[k])
    modifies out
    ensures |ItemsBytes(c, row)| <= SpaceFor(c, row) && end == start + |ItemsBytes(c, row)|
    ensures out[..] == Splice(old(out[..]), start, ItemsBytes(c, row))
    ensures next == index + |Entries(c, row)|
  {
    hide Splice, StandAt, Entries, EntriesOf, SpaceFor, Space, ItemsBytes, ColumnBytes;
    ghost var before := out[..];
    end, next := start, index;
    NothingYet(c);
    SpliceNothing(before, start);
    for i := 0 to |row|
      invariant |ItemsBytes(c, row[..i])| <= SpaceFor(c, row[..i])
      invariant start + |ItemsBytes(c, row[..i])| <= out.Length
      invariant out[..] == Splice(before, start, ItemsBytes(c, row[..i]))
      invariant end == start + |ItemsBytes(c, row[..i])| && next == index + |Entries(c, row[..i])|
    {
      ghost var done := row[..i];
      RowSplit(c, row, i, entries, index);
      assert c.Fits(row[i]);
      ghost var now := out[..];
      end, next := WriteItem(c, row[i], entries, next, out, end);
      SpliceRight(before, start, ItemsBytes(c, done), ColumnBytes(c.Column(row[i])));
    }
    assert row[..|row|] == row;
  }

  /** What a row has left when its first `i` elements are done. */
  lemma RowSplit(c: Coder, row: seq<Value>, i: nat, entries: seq<Entry>, index: nat)
    requires i < |row| && StandAt(entries, index, Entries(c, row))
    ensures StandAt(entries, index + |Entries(c, row[..i])|, EntriesOf(c, row[i]))
    ensures Entries(c, row[..i + 1]) == Entries(c, row[..i]) + EntriesOf(c, row[i])
    ensures SpaceFor(c, row[..i + 1]) == SpaceFor(c, row[..i]) + Space(c, row[i]) <= SpaceFor(c, row)
    ensures ItemsBytes(c, row[..i + 1]) == ItemsBytes(c, row[..i]) + ColumnBytes(c.Column(row[i]))
  {
    hide StandAt, Entries, EntriesOf, SpaceFor, Space, ItemsBytes, ColumnBytes;
    OneMore(c, row, i);
    assert row == row[..i + 1] + row[i + 1..];
    SpaceConcat(c, row[..i + 1], row[i + 1..]);
    EntriesConcat(c, row[..i + 1], row[i + 1..]);
    StandConcat(entries, index, Entries(c, row[..i + 1]), Entries(c, row[i + 1..]));
    StandConcat(entries, index, Entries(c, row[..i]), EntriesOf(c, row[i]));
  }

  lemma DimBytesNext(dims: seq<nat>, i: nat)
    requires i < |dims|
    ensures DimBytes(dims[..i + 1]) == DimBytes(dims[..i]) + Nbo32(dims[i]) + Nbo32(1)
  {
    hide Nbo32;
    assert dims[..i + 1][1..] == dims[1..][..i];
    if i == 0 {
      assert dims[..1][1..] == [];
      NoText(Nbo32(dims[0]) + Nbo32(1));
      NoText(Nbo32(dims[0]));
      assert DimBytes(dims[..1]) == Nbo32(dims[0]) + Nbo32(1) + [];
      assert DimBytes([]) == [];
    } else {
      DimBytesNext(dims[1..], i - 1);
      assert dims[..i][1..] == dims[1..][..i - 1];
      var first, rest := Nbo32(dims[0]) + Nbo32(1), DimBytes(dims[1..][..i - 1]);
      Assoc(first, rest, Nbo32(dims[i]));
      Assoc(first, rest + Nbo32(dims[i]), Nbo32(1));
    }
  }

  /** The header at `start`. */
  method WriteHeader(dims: seq<nat>, oid: int, out: array<byte>, start: nat) returns (end: nat)
    requires start + 12 + 8 * |dims| <= out.Length
    modifies out
    ensures end == start + |Header(dims, oid)| && out[..] == Splice(old(out[..]), start, Header(dims, oid))
  {
    hide Splice, Nbo32, DimBytes;
    ghost var before := out[..];
    ghost var fixed := Nbo32(|dims|) + Nbo32(1) + Nbo32(oid);
    end := start;
    StoreText(Nbo32(|dims|), out, end);
    end := end + 4;
    StoreText(Nbo32(1), out, end);
    SpliceRight(before, start, Nbo32(|dims|), Nbo32(1));
    end := end + 4;
    StoreText(Nbo32(oid), out, end);
    SpliceRight(before, start, Nbo32(|dims|) + Nbo32(1), Nbo32(oid));
    end := end + 4;
    NoText(fixed);
    assert DimBytes(dims[..0]) == [] by { NoDimBytes(dims[..0]); }
    for i := 0 to |dims|
      invariant end == start + 12 + 8 * i
      invariant out[..] == Splice(before, start, fixed + DimBytes(dims[..i]))
    {
      ghost var done := fixed + DimBytes(dims[..i]);
      StoreText(Nbo32(dims[i]), out, end);
      SpliceRight(before, start, done, Nbo32(dims[i]));
      end := end + 4;
      StoreText(Nbo32(1), out, end);
      SpliceRight(before, start, done + Nbo32(dims[i]), Nbo32(1));
      end := end + 4;
      DimBytesNext(dims, i);
      Assoc(fixed, DimBytes(dims[..i]), Nbo32(dims[i]));
      Assoc(fixed, DimBytes(dims[..i]) + Nbo32(dims[i]), Nbo32(1));
    }
    assert dims[..|dims|] == dims;
  }

  lemma NoDimBytes(dims: seq<nat>)
    requires |dims| == 0
    ensures DimBytes(dims) == []
  {
  }

  /** What the walk has in hand for its next row. */
  lemma RowInHand(c: Coder, items: seq<Value>, visited: seq<Value>, row: seq<Value>, above: Result<seq<Value>>,
                  entries: seq<Entry>)
    requires Join(Ok(visited + row), above) == Ok(items) && entries == Entries(c, items)
    ensures above.Ok? && items == visited + row + above.value
    ensures StandAt(entries, |Entries(c, visited)|, Entries(c, row))
    ensures SpaceFor(c, visited + row) == SpaceFor(c, visited) + SpaceFor(c, row) <= SpaceFor(c, items)
    ensures Entries(c, visited + row) == Entries(c, visited) + Entries(c, row)
    ensures ItemsBytes(c, visited + row) == ItemsBytes(c, visited) + ItemsBytes(c, row)
  {
    hide Entries, SpaceFor, ItemsBytes, StandAt, Join;
    JoinParts(visited + row, above, items);
    var rest := above.value;
    EntriesConcat(c, visited, row);
    EntriesConcat(c, visited + row, rest);
    SpaceConcat(c, visited, row);
    SpaceConcat(c, visited + row, rest);
    ItemsConcat(c, visited, row);
    StandWhole(entries);
    StandConcat(entries, 0, Entries(c, visited + row), Entries(c, rest));
    StandConcat(entries, 0, Entries(c, visited), Entries(c, row));
  }

  lemma JoinParts(a: seq<Value>, b: Result<seq<Value>>, items: seq<Value>)
    requires Join(Ok(a), b) == Ok(items)
    ensures b.Ok? && items == a + b.value
  {
  }

  lemma RowFits(c: Coder, visited: seq<Value>, row: seq<Value>, rest: seq<Value>)
    requires forall x :: x in visited + row + rest ==> c.Fits(x)
    ensures forall k :: 0 <= k < |row| ==> c.Fits(row[k])
  {
    var items := visited + row + rest;
    assert forall k :: 0 <= k < |row| ==> row[k] == items[|visited| + k];
  }

  lemma EncodeIs(c: Coder, dimensions: int, kids: seq<Value>)
    requires Encode(c, dimensions, kids).Ok?
    ensures Sizes(dimensions, kids).Ok? && Collect(kids, Walked(Sizes(dimensions, kids).value)).Ok?
    ensures var dims := Sizes(dimensions, kids).value;
            Encode(c, dimensions, kids).value ==
            Header(dims, c.oid) + ItemsBytes(c, Collect(kids, Walked(dims)).value)
  {
  }

  lemma StandWhole(entries: seq<Entry>)
    ensures StandAt(entries, 0, entries)
  {
  }

  /**
   The second pass of `pg_bin_enc_array`, given the intermediates of the first. Nothing is written outside the
   space the first pass asked for.
   */
  method Write(c: Coder, dimensions: int, kids: seq<Value>, entries: seq<Entry>, out: array<byte>, start: nat)
    returns (size: nat)
    requires Encode(c, dimensions, kids).Ok?
    requires var items := Collect(kids, Walked(Sizes(dimensions, kids).value)).value;
             && (forall x :: x in items ==> c.Fits(x))
             && entries == Entries(c, items)
             && start + TotalSpace(c, Sizes(dimensions, kids).value, items) <= out.Length
    modifies out
    ensures var bytes := Encode(c, dimensions, kids).value;
            size == |bytes| && start + size <= out.Length && out[..] == Splice(old(out[..]), start, bytes)
  {
    hide Collect, Here, Above, Path, SpaceFor, Entries, Sizes, Header, Leading, Left, ItemsBytes, Splice,
         StandAt, DimBytes, Encode, Join, Walked;
    EncodeIs(c, dimensions, kids);
    var sizes := Dimensions(dimensions, kids);
    var header := sizes.value;
    SizesFacts(dimensions, kids);
    var dims := Walked(header);
    ghost var items, before, h := Collect(kids, dims).value, out[..], Header(header, c.oid);
    var p := WriteHeader(header, c.oid, out, start);
    var pos, arrays := new nat[MAXDIM](_ => 0), new seq<Value>[MAXDIM](_ => []);
    arrays[0] := kids;
    var dim: nat, itemIndex: nat := 0, 0;
    ghost var visited: seq<Value> := [];
    WalkBegins(kids, dims, arrays[..], pos[..]);
    NothingYet(c);
    NoText(h);
    while true
      invariant dim < |dims| && Path(dims, arrays[..], pos[..], dim) && pos[dim] <= dims[dim]
      invariant dim < |dims| - 1 ==> pos[dim] < dims[dim]
      invariant pos[|dims| - 1] == 0
      invariant Ok(items) == Join(Ok(visited), Here(dims, arrays[..], pos[..], dim))
      invariant itemIndex == |Entries(c, visited)| && p == start + |h| + |ItemsBytes(c, visited)|
      invariant |ItemsBytes(c, visited)| <= SpaceFor(c, visited)
      invariant p <= |before| && out[..] == Splice(before, start, h + ItemsBytes(c, visited))
      decreases Left(dims, pos[..], 0), Left(dims, pos[..], 1), Left(dims, pos[..], 2), Left(dims, pos[..], 3),
                Left(dims, pos[..], 4)
    {
      JoinFails(Ok(visited), Here(dims, arrays[..], pos[..], dim));
      dim := Descend(dims, arrays, pos, dim);
      RowVisited(dims, arrays[..], pos[..], dim, visited);
      RowInHand(c, items, visited, arrays[dim], Above(dims, arrays[..], pos[..], dim), entries);
      RowFits(c, visited, arrays[dim], Above(dims, arrays[..], pos[..], dim).value);
      p, itemIndex := WriteRow(c, arrays[dim], entries, itemIndex, out, p);
      SpliceRight(before, start, h + ItemsBytes(c, visited), ItemsBytes(c, arrays[dim]));
      Assoc(h, ItemsBytes(c, visited), ItemsBytes(c, arrays[dim]));
      visited := visited + arrays[dim];
      ghost var previous := pos[..];
      var finished;
      dim, finished := Ascend(dims, arrays[..], pos, dim);
      if finished {
        JoinNothing(Ok(visited));
        assert visited == items;
        break;
      }
      Advanced(dims, arrays[..], previous, pos[..], dim);
    }
    size := p - start;
  }

  /** Both passes as `pg_coder_encode` runs them: the string made by the first is filled by the second and cut. */
  method EncodeArray(c: Coder, dimensions: int, kids: seq<Value>) returns (r: Result<seq<byte>>)
    requires Encode(c, dimensions, kids).Ok? ==>
             forall x :: x in Collect(kids, Walked(Sizes(dimensions, kids).value)).value ==> c.Fits(x)
    ensures r == Encode(c, dimensions, kids)
  {
    hide Encode, Collect, Sizes, Entries, TotalSpace, Splice;
    var len, entries :- Measure(c, dimensions, kids);
    var res := new byte[len](_ => 0);
    ghost var before := res[..];
    var len2 := Write(c, dimensions, kids, entries, res, 0);
    SplicePart(before, 0, Encode(c, dimensions, kids).value);
    r := Ok(res[..len2]);
  }
}
