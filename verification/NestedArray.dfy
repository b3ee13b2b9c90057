/**
 Nested Ruby arrays as the binary array coder sees them: rectangular down to a number of dimensions, with elements
 below. What lies at the elements' depth belongs to the element coder, even when it is an array itself.
 */
module NestedArray {
  import opened Bytes

  datatype Value = Nil | Item(bytes: seq<byte>) | List(kids: seq<Value>)

  /** `MAXDIM`. */
  const MAXDIM := 6

  /** One sequence behind another, unless one of them failed; the first failure counts. */
  function Join(a: Result<seq<Value>>, b: Result<seq<Value>>): Result<seq<Value>> {
    var x :- a;
    var y :- b;
    Ok(x + y)
  }

  lemma JoinAssoc(a: Result<seq<Value>>, b: Result<seq<Value>>, c: Result<seq<Value>>)
    ensures Join(Join(a, b), c) == Join(a, Join(b, c))
  {
    if a.Ok? && b.Ok? && c.Ok? {
      assert a.value + b.value + c.value == a.value + (b.value + c.value);
    }
  }

  lemma JoinNothing(a: Result<seq<Value>>)
    ensures Join(a, Ok([])) == a && Join(Ok([]), a) == a
  {
    if a.Ok? {
      assert a.value + [] == a.value && [] + a.value == a.value;
    }
  }

  /**
   The elements of `kids` in row-major order, where every array in dimension k has dims[k] entries. Failures are
   those of the encoder: an element where an array is due, or an array of another size.
   */
  function Collect(kids: seq<Value>, dims: seq<nat>): Result<seq<Value>>
    requires |dims| > 0
    decreases |dims|, |kids|
  {
    if |dims| == 1 then Ok(kids)
    else if |kids| == 0 then Ok([])
    else Join(CollectOne(kids[0], dims), Collect(kids[1..], dims))
  }

  function CollectOne(kid: Value, dims: seq<nat>): Result<seq<Value>>
    requires |dims| > 1
    decreases |dims|, 0
  {
    if !kid.List? then Err(WrongType)
    else if |kid.kids| != dims[1] then Err(WrongDimensions)
    else Collect(kid.kids, dims[1..])
  }

  /** The shape: `kids` are dims[0] values, rectangular all the way down. */
  predicate Rect(kids: seq<Value>, dims: seq<nat>)
    requires |dims| > 0
  {
    |kids| == dims[0] && Collect(kids, dims).Ok?
  }

  function Product(dims: seq<nat>): nat {
    if |dims| == 0 then 1 else dims[0] * Product(dims[1..])
  }

  predicate AllPositive(dims: seq<nat>) {
    forall k :: 0 <= k < |dims| ==> dims[k] > 0
  }

  lemma OneDimension(dims: seq<nat>)
    requires |dims| == 1
    ensures Product(dims[1..]) == 1
  {
  }

  lemma {:induction false} ProductPositive(dims: seq<nat>)
    ensures Product(dims) > 0 <==> AllPositive(dims)
  {
    if |dims| > 0 {
      ProductPositive(dims[1..]);
      var p := Product(dims[1..]);
      assert dims[0] > 0 && p > 0 ==> dims[0] * p > 0;
      assert dims[0] == 0 || p == 0 ==> dims[0] * p == 0;
      assert forall k :: 1 <= k < |dims| ==> dims[k] == dims[1..][k - 1];
      assert forall k :: 0 <= k < |dims| - 1 ==> dims[1..][k] == dims[k + 1];
    }
  }

  lemma {:induction false} CollectConcat(a: seq<Value>, b: seq<Value>, dims: seq<nat>)
    requires |dims| > 0
    ensures Collect(a + b, dims) == Join(Collect(a, dims), Collect(b, dims))
    decreases |a|
  {
    hide CollectOne;
    if |dims| > 1 {
      if |a| == 0 {
        assert a + b == b;
        JoinNothing(Collect(b, dims));
      } else {
        assert (a + b)[1..] == a[1..] + b;
        CollectConcat(a[1..], b, dims);
        JoinAssoc(CollectOne(a[0], dims), Collect(a[1..], dims), Collect(b, dims));
      }
    }
  }

  /** Each of the values in dimension 0 holds as many elements as the other dimensions multiply to. */
  lemma {:induction false} CollectSize(kids: seq<Value>, dims: seq<nat>)
    requires |dims| > 0 && Collect(kids, dims).Ok?
    ensures |Collect(kids, dims).value| == |kids| * Product(dims[1..])
    decreases |dims|, |kids|
  {
    hide Product;
    if |dims| == 1 {
      OneDimension(dims);
    } else if |kids| > 0 {
      CollectOneSize(kids[0], dims);
      CollectSize(kids[1..], dims);
      var p := Product(dims[1..]);
      assert |kids| * p == p + (|kids| - 1) * p;
    }
  }

  lemma {:induction false} CollectOneSize(kid: Value, dims: seq<nat>)
    requires |dims| > 1 && CollectOne(kid, dims).Ok?
    ensures |CollectOne(kid, dims).value| == Product(dims[1..])
    decreases |dims|, 0
  {
    CollectSize(kid.kids, dims[1..]);
  }

  lemma RectSize(kids: seq<Value>, dims: seq<nat>)
    requires |dims| > 0 && Rect(kids, dims)
    ensures |Collect(kids, dims).value| == Product(dims)
  {
    CollectSize(kids, dims);
  }

  /** Shape and elements determine the nested array. */
  lemma {:induction false} CollectUnique(a: seq<Value>, b: seq<Value>, dims: seq<nat>)
    requires |dims| > 0 && |a| == |b|
    requires Collect(a, dims).Ok? && Collect(a, dims) == Collect(b, dims)
    ensures a == b
    decreases |dims|, |a|
  {
    if |dims| > 1 && |a| > 0 {
      CollectOneSize(a[0], dims);
      CollectOneSize(b[0], dims);
      var whole := Collect(a, dims).value;
      var p := Product(dims[1..]);
      hide Product;
      assert whole[..p] == CollectOne(a[0], dims).value == CollectOne(b[0], dims).value;
      assert whole[p..] == Collect(a[1..], dims).value == Collect(b[1..], dims).value;
      CollectUnique(a[0].kids, b[0].kids, dims[1..]);
      CollectUnique(a[1..], b[1..], dims);
      assert a == [a[0]] + a[1..] && b == [b[0]] + b[1..];
    }
  }

  /** The element that a path of indices leads to, from the outermost array inwards. */
  function ElementAt(kids: seq<Value>, path: seq<nat>): Value
    decreases |path|
  {
    if |path| == 0 || path[0] >= |kids| then Nil
    else if |path| == 1 then kids[path[0]]
    else if kids[path[0]].List? then ElementAt(kids[path[0]].kids, path[1..])
    else Nil
  }

  /** How many elements come before the one at a path, when the last index changes first. */
  function Position(path: seq<nat>, dims: seq<nat>): nat
    requires |path| == |dims|
  {
    if |path| == 0 then 0 else path[0] * Product(dims[1..]) + Position(path[1..], dims[1..])
  }

  ghost predicate Within(path: seq<nat>, dims: seq<nat>) {
    |path| == |dims| && forall k :: 0 <= k < |path| ==> path[k] < dims[k]
  }

  /** The elements of the array at index `i` stand together. */
  lemma {:induction false} CollectAt(kids: seq<Value>, dims: seq<nat>, i: nat)
    requires |dims| > 1 && Collect(kids, dims).Ok? && i < |kids|
    ensures CollectOne(kids[i], dims).Ok?
    ensures var p, all := Product(dims[1..]), Collect(kids, dims).value;
            (i + 1) * p <= |all| && 0 <= i * p <= (i + 1) * p && |CollectOne(kids[i], dims).value| == p
            && all[i * p..(i + 1) * p] == CollectOne(kids[i], dims).value
    decreases i
  {
    hide Product, CollectOne;
    var p, all := Product(dims[1..]), Collect(kids, dims).value;
    var first, rest := CollectOne(kids[0], dims).value, Collect(kids[1..], dims).value;
    CollectOneSize(kids[0], dims);
    CollectSize(kids, dims);
    assert all == first + rest;
    if i == 0 {
      assert (first + rest)[..p] == first;
      assert |kids| * p == p + (|kids| - 1) * p;
    } else {
      CollectAt(kids[1..], dims, i - 1);
      assert i * p == p + (i - 1) * p && (i + 1) * p == p + i * p;
      Behind(first, rest, (i - 1) * p, i * p);
    }
  }

  lemma Behind(first: seq<Value>, rest: seq<Value>, lo: nat, hi: nat)
    requires lo <= hi <= |rest|
    ensures (first + rest)[|first| + lo..|first| + hi] == rest[lo..hi]
  {
  }

  /** Row-major order: the element at a path is where the sizes say. */
  lemma {:induction false} RowMajor(kids: seq<Value>, dims: seq<nat>, path: seq<nat>)
    requires |dims| > 0 && Rect(kids, dims) && Within(path, dims)
    ensures Position(path, dims) < |Collect(kids, dims).value|
    ensures Collect(kids, dims).value[Position(path, dims)] == ElementAt(kids, path)
    decreases |dims|
  {
    if |dims| == 1 {
      OneDimension(dims);
      assert Position(path[1..], dims[1..]) == 0;
    } else {
      var i, p, all := path[0], Product(dims[1..]), Collect(kids, dims).value;
      CollectAt(kids, dims, i);
      assert Within(path[1..], dims[1..]);
      RowMajor(kids[i].kids, dims[1..], path[1..]);
      hide Product, Collect;
      var k := Position(path[1..], dims[1..]);
      assert (i + 1) * p == i * p + p;
      assert all[i * p..(i + 1) * p][k] == all[i * p + k];
    }
  }

  /** `n` values of the shape `dims[1..]` with the given elements. */
  function Build(n: nat, dims: seq<nat>, items: seq<Value>): seq<Value>
    requires |dims| > 0 && |items| == n * Product(dims[1..])
    decreases |dims|, n
  {
    if |dims| == 1 then items
    else if n == 0 then []
    else
      var p := Product(dims[1..]);
      assert |items| == p + (n - 1) * p;
      [List(Build(dims[1], dims[1..], items[..p]))] + Build(n - 1, dims, items[p..])
  }

  lemma {:induction false} BuildCollect(n: nat, dims: seq<nat>, items: seq<Value>)
    requires |dims| > 0 && |items| == n * Product(dims[1..])
    ensures |Build(n, dims, items)| == n && Collect(Build(n, dims, items), dims) == Ok(items)
    decreases |dims|, n
  {
    hide Product;
    if |dims| == 1 {
      OneDimension(dims);
    } else if n > 0 {
      var p := Product(dims[1..]);
      assert |items| == p + (n - 1) * p;
      ProductUnfold(dims[1..]);
      BuildCollect(dims[1], dims[1..], items[..p]);
      BuildCollect(n - 1, dims, items[p..]);
      var first, rest := List(Build(dims[1], dims[1..], items[..p])), Build(n - 1, dims, items[p..]);
      assert ([first] + rest)[1..] == rest;
      assert items[..p] + items[p..] == items;
    }
  }

  lemma ProductUnfold(dims: seq<nat>)
    requires |dims| > 0
    ensures Product(dims) == dims[0] * Product(dims[1..])
  {
  }

  /** The nested array of a shape is the only one of that shape with its elements. */
  lemma BuildOfCollect(kids: seq<Value>, dims: seq<nat>)
    requires |dims| > 0 && Rect(kids, dims)
    ensures |Collect(kids, dims).value| == dims[0] * Product(dims[1..])
    ensures Build(dims[0], dims, Collect(kids, dims).value) == kids
  {
    hide Build, Collect;
    CollectSize(kids, dims);
    BuildCollect(dims[0], dims, Collect(kids, dims).value);
    CollectUnique(kids, Build(dims[0], dims, Collect(kids, dims).value), dims);
  }
}
