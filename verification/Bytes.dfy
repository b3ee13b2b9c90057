/** Bytes, results, and the network-byte-order macros of ext/pg_util.h. */
module Bytes {

  type byte = b: int | 0 <= b < 256

  datatype Option<+T> = None | Some(value: T)

  /** What a coder raises, reduced to the kinds a caller can tell apart. */
  datatype Error =
    | PrematureEnd
    | TrailingData
    | Malformed
    | TooManyColumns
    | WrongDimensions
    | UnsupportedSize
    | WrongType

  datatype Result<+T> = Ok(value: T) | Err(error: Error)
  {
    predicate IsFailure() {
      Err?
    }

    function PropagateFailure<U>(): Result<U>
      requires Err?
    {
      Err(error)
    }

    function Extract(): T
      requires Ok?
    {
      value
    }
  }

  /** A sequence put in front of the result of what follows, unless that failed. */
  function Prefixed<T>(front: seq<T>, r: Result<seq<T>>): Result<seq<T>> {
    var rest :- r;
    Ok(front + rest)
  }

  lemma PrefixedNext<T>(front: seq<T>, x: T, r: Result<seq<T>>)
    ensures Prefixed(front, Prefixed([x], r)) == Prefixed(front + [x], r)
  {
    if r.Ok? {
      assert front + ([x] + r.value) == front + [x] + r.value;
    }
  }

  lemma PrefixedNothing<T>(front: seq<T>, r: Result<seq<T>>)
    ensures Prefixed([], r) == r && Prefixed(front, Ok([])) == Ok(front)
  {
    if r.Ok? {
      assert [] + r.value == r.value;
    }
    assert front + [] == front;
  }

  /** Reading a zero-terminated string: past its end there is a zero byte. */
  function At(s: seq<byte>, i: nat): byte { if i < |s| then s[i] else 0 }

  const INT32_MIN := -0x8000_0000
  const INT32_MAX := 0x7FFF_FFFF

  /** Conversion to an unsigned 32-bit integer. */
  function U32(x: int): (r: nat)
    ensures r < 0x1_0000_0000
  {
    x % 0x1_0000_0000
  }

  /** Conversion to a signed 32-bit integer, in two's complement. */
  function Truncate32(x: int): (r: int)
    ensures INT32_MIN <= r <= INT32_MAX
  {
    var u := U32(x);
    if u > INT32_MAX then u - 0x1_0000_0000 else u
  }

  /** The conversion changes exactly the numbers that are no 32-bit integers. */
  lemma TruncateFinds(x: int)
    ensures Truncate32(x) == x <==> INT32_MIN <= x <= INT32_MAX
  {
  }

  /** It may be left for later in a sum. */
  lemma TruncateSum(x: int, y: int)
    ensures Truncate32(Truncate32(x) + y) == Truncate32(x + y)
  {
    var q, z := x / 0x1_0000_0000, Truncate32(x) + y;
    var p := if U32(x) > INT32_MAX then q + 1 else q;
    assert x == p * 0x1_0000_0000 + Truncate32(x);
    DivIs(x + y, 0x1_0000_0000, p + z / 0x1_0000_0000, U32(z));
  }

  lemma TruncateBoth(x: int, y: int)
    ensures Truncate32(Truncate32(x) + Truncate32(y)) == Truncate32(x + y)
  {
    hide Truncate32;
    TruncateSum(x, Truncate32(y));
    TruncateSum(y, x);
  }

  /** `write_nbo16`: the low 16 bits, most significant byte first. */
  function Nbo16(v: int): (r: seq<byte>)
    ensures |r| == 2
  {
    [v / 0x100 % 0x100, v % 0x100]
  }

  /** `write_nbo32`: the low 32 bits, most significant byte first. */
  function Nbo32(v: int): (r: seq<byte>)
    ensures |r| == 4
  {
    [v / 0x100_0000 % 0x100, v / 0x1_0000 % 0x100, v / 0x100 % 0x100, v % 0x100]
  }

  /** `read_nbo16`: two bytes as a signed 16-bit integer. */
  function ReadNbo16(s: seq<byte>): (v: int)
    requires |s| == 2
    ensures -0x8000 <= v < 0x8000
  {
    var u := s[0] as int * 0x100 + s[1];
    if u >= 0x8000 then u - 0x1_0000 else u
  }

  function Unsigned32(s: seq<byte>): (u: int)
    requires |s| == 4
    ensures 0 <= u < 0x1_0000_0000
  {
    s[0] as int * 0x100_0000 + s[1] as int * 0x1_0000 + s[2] as int * 0x100 + s[3]
  }

  /** `read_nbo32`: four bytes as a signed 32-bit integer. */
  function ReadNbo32(s: seq<byte>): (v: int)
    requires |s| == 4
    ensures INT32_MIN <= v <= INT32_MAX
  {
    var u := Unsigned32(s);
    if u >= 0x8000_0000 then u - 0x1_0000_0000 else u
  }

  lemma Nbo16RoundTrip(v: int, s: seq<byte>)
    requires -0x8000 <= v < 0x8000 && |s| == 2
    ensures ReadNbo16(Nbo16(v)) == v
    ensures Nbo16(ReadNbo16(s)) == s
  {
  }

  lemma Nbo32RoundTrip(v: int)
    requires INT32_MIN <= v <= INT32_MAX
    ensures ReadNbo32(Nbo32(v)) == v
  {
    var q1 := v / 0x100;
    var q2 := q1 / 0x100;
    var q3 := q2 / 0x100;
    DivIs(v, 0x1_0000, q2, q1 % 0x100 * 0x100 + v % 0x100);
    DivIs(v, 0x100_0000, q3, q2 % 0x100 * 0x1_0000 + q1 % 0x100 * 0x100 + v % 0x100);
    assert -0x80 <= q3 < 0x80;
    DivIs(q3, 0x100, if q3 < 0 then -1 else 0, if q3 < 0 then q3 + 0x100 else q3);
  }

  /** The bytes of an unsigned number, most significant first. */
  lemma Nbo32Unsigned(v: int)
    requires 0 <= v < 0x1_0000_0000
    ensures Unsigned32(Nbo32(v)) == v
  {
    var q1 := v / 0x100;
    var q2 := q1 / 0x100;
    var q3 := q2 / 0x100;
    DivIs(v, 0x1_0000, q2, q1 % 0x100 * 0x100 + v % 0x100);
    DivIs(v, 0x100_0000, q3, q2 % 0x100 * 0x1_0000 + q1 % 0x100 * 0x100 + v % 0x100);
    DivIs(q3, 0x100, 0, q3);
  }

  lemma Nbo32Canonical(s: seq<byte>)
    requires |s| == 4
    ensures Nbo32(ReadNbo32(s)) == s
  {
    var u, v := Unsigned32(s), ReadNbo32(s);
    var wrap := if u == v then 0 else 1;
    DivIs(v, 0x100, s[0] as int * 0x1_0000 + s[1] as int * 0x100 + s[2] - wrap * 0x100_0000, s[3]);
    DivIs(v, 0x1_0000, s[0] as int * 0x100 + s[1] - wrap * 0x1_0000, s[2] as int * 0x100 + s[3]);
    DivIs(v, 0x100_0000, s[0] as int - wrap * 0x100, s[1] as int * 0x1_0000 + s[2] as int * 0x100 + s[3]);
    DivIs(v / 0x100, 0x100, s[0] as int * 0x100 + s[1] - wrap * 0x1_0000, s[2]);
    DivIs(v / 0x1_0000, 0x100, s[0] as int - wrap * 0x100, s[1]);
    DivIs(v / 0x100_0000, 0x100, -wrap, s[0]);
  }

  /** Quotient and remainder are the only pair that recombine to the dividend. */
  lemma DivIs(x: int, d: int, q: int, r: int)
    requires d > 0 && x == q * d + r && 0 <= r < d
    ensures x / d == q && x % d == r
  {
    var e := x / d - q;
    assert x / d * d + x % d == x;
    assert e * d == r - x % d;
    assert e >= 1 ==> e * d >= d;
    assert e <= -1 ==> e * d <= -d;
  }

  lemma Assoc(a: seq<byte>, b: seq<byte>, c: seq<byte>)
    ensures a + b + c == a + (b + c)
  {
  }

  lemma NoText(a: seq<byte>)
    ensures a + [] == a && [] + a == a
  {
  }

  // ---------------------------------------------------------------- buffers

  /** The buffer `m` after `x` has been stored at position `lo`. */
  function Splice(m: seq<byte>, lo: nat, x: seq<byte>): (r: seq<byte>)
    requires lo + |x| <= |m|
    ensures |r| == |m|
  {
    m[..lo] + x + m[lo + |x|..]
  }

  lemma SpliceAt(m: seq<byte>, lo: nat, x: seq<byte>)
    requires lo + |x| <= |m|
    ensures forall k :: 0 <= k < lo || lo + |x| <= k < |m| ==> Splice(m, lo, x)[k] == m[k]
    ensures forall k :: lo <= k < lo + |x| ==> Splice(m, lo, x)[k] == x[k - lo]
  {
  }

  lemma SplicePart(m: seq<byte>, lo: nat, x: seq<byte>)
    requires lo + |x| <= |m|
    ensures Splice(m, lo, x)[lo..lo + |x|] == x
  {
  }

  lemma SpliceNothing(m: seq<byte>, lo: nat)
    requires lo <= |m|
    ensures Splice(m, lo, []) == m
  {
  }

  lemma SpliceSame(m: seq<byte>, lo: nat, x: seq<byte>)
    requires lo + |x| <= |m| && m[lo..lo + |x|] == x
    ensures Splice(m, lo, x) == m
  {
  }

  /** Storing `y` behind what was stored last. */
  lemma SpliceRight(m: seq<byte>, lo: nat, x: seq<byte>, y: seq<byte>)
    requires lo + |x| + |y| <= |m|
    ensures Splice(Splice(m, lo, x), lo + |x|, y) == Splice(m, lo, x + y)
  {
  }

  /** Storing `y` in front of what was stored last. */
  lemma SpliceLeft(m: seq<byte>, lo: nat, x: seq<byte>, y: seq<byte>)
    requires |y| <= lo && lo + |x| <= |m|
    ensures Splice(Splice(m, lo, x), lo - |y|, y) == Splice(m, lo - |y|, y + x)
  {
  }

  /** Storing `y` over `x`, when it covers it. */
  lemma SpliceOver(m: seq<byte>, lo: nat, x: seq<byte>, y: seq<byte>)
    requires |x| <= |y| && lo + |y| <= |m|
    ensures Splice(Splice(m, lo, x), lo, y) == Splice(m, lo, y)
  {
  }

  lemma StoreRange(before: seq<byte>, now: seq<byte>, p: nat, x: seq<byte>)
    requires p + |x| <= |before| && now == before[..p] + x + before[p + |x|..]
    ensures now == Splice(before, p, x)
  {
  }

  lemma StoreOne(before: seq<byte>, now: seq<byte>, p: nat, c: byte)
    requires p < |before| && now == before[p := c]
    ensures now == Splice(before, p, [c])
  {
  }

  /** One byte stored behind what was stored last. */
  lemma StoreNext(before: seq<byte>, now: seq<byte>, start: nat, done: seq<byte>, c: byte)
    requires start + |done| < |before| && now == Splice(before, start, done)
    ensures now[start + |done| := c] == Splice(before, start, done + [c])
  {
  }

  // ---------------------------------------------------------------- texts within texts

  /** The text `x` stands in `s` at position `i`. */
  ghost predicate Occurs(s: seq<byte>, i: nat, x: seq<byte>) {
    i + |x| <= |s| && s[i..i + |x|] == x
  }

  lemma OccursConcat(s: seq<byte>, i: nat, x: seq<byte>, y: seq<byte>)
    requires Occurs(s, i, x + y)
    ensures Occurs(s, i, x) && Occurs(s, i + |x|, y)
  {
    var t := s[i..i + |x + y|];
    assert s[i..i + |x|] == t[..|x|] == x;
    assert s[i + |x|..i + |x| + |y|] == t[|x|..] == y;
  }

  lemma OccursJoin(s: seq<byte>, i: nat, x: seq<byte>, y: seq<byte>)
    requires Occurs(s, i, x) && Occurs(s, i + |x|, y)
    ensures Occurs(s, i, x + y)
  {
    assert s[i..i + |x + y|] == s[i..i + |x|] + s[i + |x|..i + |x| + |y|];
  }

  lemma OccursFirst(s: seq<byte>, i: nat, x: seq<byte>)
    requires Occurs(s, i, x) && |x| > 0
    ensures i < |s| && s[i] == x[0] && Occurs(s, i + 1, x[1..])
  {
    assert x == [x[0]] + x[1..];
    OccursConcat(s, i, [x[0]], x[1..]);
    assert s[i..i + 1] == [x[0]];
  }

  lemma OccursWhole(s: seq<byte>)
    ensures Occurs(s, 0, s)
  {
  }

  lemma OccursText(s: seq<byte>, i: nat, x: seq<byte>)
    requires Occurs(s, i, x)
    ensures i + |x| <= |s| && s[i..i + |x|] == x
  {
  }

  lemma OccursSize(s: seq<byte>, i: nat, x: seq<byte>)
    requires Occurs(s, i, x)
    ensures i + |x| <= |s|
  {
  }
}
