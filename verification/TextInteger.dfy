/**
 The integer coders of ext/pg_text_encoder.c and ext/pg_text_decoder.c: digits are written lowest first and
 reversed in place, after a first pass that only estimates how many there are; short numbers are read by hand.
 */
module TextInteger {
  import opened Bytes

  const MINUS: byte := '-' as int
  const ZERO: byte := '0' as int

  // Ruby's immediate integers on a 64-bit system.
  const FIXNUM_MAX := 0x3FFF_FFFF_FFFF_FFFF
  const FIXNUM_MIN := -0x4000_0000_0000_0000

  predicate IsDigit(c: byte) { ZERO <= c <= ZERO + 9 }

  /** Decimal digits, highest first, without leading zeros. */
  function Digits(n: nat): (r: seq<byte>)
    ensures |r| > 0
  {
    if n < 10 then [ZERO + n] else Digits(n / 10) + [ZERO + n % 10]
  }

  function Decimal(n: int): (r: seq<byte>)
    ensures |r| > 0
  {
    if n < 0 then [MINUS] + Digits(-n) else Digits(n)
  }

  /** The number that a run of digits denotes, when it is one. */
  function Number(s: seq<byte>): Option<nat> {
    if |s| == 0 then Some(0)
    else
      var d := s[|s| - 1];
      match Number(s[..|s| - 1])
      case None => None
      case Some(n) => if IsDigit(d) then Some(n * 10 + (d - ZERO)) else None
  }

  lemma {:induction false} NumberOfDigits(n: nat)
    ensures Number(Digits(n)) == Some(n)
  {
    var s := Digits(n);
    if n < 10 {
      assert s[..0] == [];
    } else {
      NumberOfDigits(n / 10);
      assert s[..|s| - 1] == Digits(n / 10);
    }
  }

  // ---------------------------------------------------------------- decoding

  function Negated(n: int): int { -n }

  /** A decimal number with an optional minus sign; the sign alone counts as zero. */
  function Signed(s: seq<byte>): Option<int> {
    if |s| == 0 then None
    else if s[0] == MINUS then
      match Number(s[1..])
      case None => None
      case Some(n) => Some(Negated(n))
    else
      match Number(s)
      case None => None
      case Some(n) => Some(n)
  }

  /** `rb_cstr2inum`, Ruby's own parser of integers. It takes any text. */
  type RubyParser = seq<byte> -> int

  /** All that is assumed of it: it reads plain decimal numbers. */
  ghost predicate ReadsDecimals(ruby: RubyParser) {
    forall n: int :: ruby(Decimal(n)) == n
  }

  /** The digit loop of the fast path, from position `pos` on. */
  function FastDigits(s: seq<byte>, pos: nat, i: nat): Option<nat>
    decreases |s| - pos
  {
    var digit := At(s, pos);
    if digit == 0 then Some(i)
    else if IsDigit(digit) then FastDigits(s, pos + 1, i * 10 + (digit - ZERO))
    else None
  }

  function Fast(s: seq<byte>): Option<int> {
    var digit := At(s, 0);
    if digit == MINUS then
      match FastDigits(s, 1, 0)
      case None => None
      case Some(n) => Some(Negated(n))
    else if IsDigit(digit) then FastDigits(s, 1, digit - ZERO)
    else None
  }

  /** `pg_text_dec_integer`. */
  function Decode(ruby: RubyParser, s: seq<byte>): int {
    if |s| <= 18 && Fast(s).Some? then Fast(s).value else ruby(s)
  }

  lemma NumberStep(s: seq<byte>, i: nat)
    requires i < |s|
    ensures Number(s[..i + 1]) ==
            match Number(s[..i]) {
              case None => None
              case Some(n) => if IsDigit(s[i]) then Some(n * 10 + (s[i] - ZERO)) else None
            }
  {
    assert s[..i + 1][..i] == s[..i];
  }

  lemma {:induction false} NotANumber(s: seq<byte>, i: nat)
    requires i <= |s| && Number(s[..i]).None?
    ensures Number(s).None?
    decreases |s| - i
  {
    if i < |s| {
      NumberStep(s, i);
      NotANumber(s, i + 1);
    } else {
      assert s[..i] == s;
    }
  }

  lemma {:induction false} FastIsNumber(s: seq<byte>, first: nat, pos: nat, i: nat)
    requires first <= pos <= |s|
    requires forall k :: pos <= k < |s| ==> s[k] != 0
    requires Number(s[first..pos]) == Some(i)
    ensures FastDigits(s, pos, i) == Number(s[first..])
    decreases |s| - pos
  {
    if pos < |s| {
      var t := s[first..];
      assert t[..pos - first] == s[first..pos] && t[..pos + 1 - first] == s[first..pos + 1];
      NumberStep(t, pos - first);
      if IsDigit(s[pos]) {
        FastIsNumber(s, first, pos + 1, i * 10 + (s[pos] - ZERO));
      } else {
        NotANumber(t, pos + 1 - first);
      }
    } else {
      assert s[first..pos] == s[first..];
    }
  }

  /** The fast path reads what it says: an optional minus sign and a run of digits. */
  lemma FastMeaning(s: seq<byte>)
    requires forall k :: 0 <= k < |s| ==> s[k] != 0
    ensures Fast(s) == Signed(s)
  {
    if |s| > 0 {
      if s[0] == MINUS {
        FastIsNumber(s, 1, 1, 0);
      } else {
        assert s[0..1][..0] == [] && s[0..] == s;
        NumberStep(s, 0);
        assert s[..1] == s[0..1];
        if IsDigit(s[0]) {
          FastIsNumber(s, 0, 1, s[0] - ZERO);
        } else {
          NotANumber(s, 1);
        }
      }
    }
  }

  lemma {:induction false} DigitsAreDigits(n: nat)
    ensures forall k :: 0 <= k < |Digits(n)| ==> IsDigit(Digits(n)[k])
  {
    if n >= 10 {
      DigitsAreDigits(n / 10);
    }
  }

  /** Decoding an encoded integer gives it back, on either path. */
  lemma DecodeEncode(ruby: RubyParser, n: int)
    requires ReadsDecimals(ruby)
    ensures Decode(ruby, Decimal(n)) == n
  {
    var s := Decimal(n);
    var m := if n < 0 then -n else n;
    NumberOfDigits(m);
    DigitsAreDigits(m);
    assert n < 0 ==> s[1..] == Digits(m);
    FastMeaning(s);
  }

  /** The number that a run of ASCII digits denotes. */
  function Value(s: seq<byte>): int {
    if |s| == 0 then 0 else Value(s[..|s| - 1]) * 10 + (s[|s| - 1] as int - 48)
  }

  ghost predicate AllDigits(s: seq<byte>) {
    forall k :: 0 <= k < |s| ==> 48 <= s[k] <= 57
  }

  lemma {:induction false} NumberIs(s: seq<byte>)
    ensures Number(s) == if AllDigits(s) then Some(Value(s)) else None
    ensures AllDigits(s) ==> Value(s) >= 0
    decreases |s|
  {
    if |s| > 0 {
      var t := s[..|s| - 1];
      NumberIs(t);
      assert forall k :: 0 <= k < |t| ==> t[k] == s[k];
      assert AllDigits(s) <==> AllDigits(t) && 48 <= s[|s| - 1] <= 57;
    }
  }

  /** An integer's text: a minus sign if it is negative, and the digits of its amount without zeros in front. */
  lemma {:induction false} DecimalIs(n: int)
    ensures var s := Decimal(n);
            var digits := if n < 0 then s[1..] else s;
            && (n < 0 ==> s[0] == 45)
            && |digits| > 0 && AllDigits(digits) && Value(digits) == (if n < 0 then -n else n)
            && (|digits| > 1 ==> digits[0] != 48)
  {
    var m := if n < 0 then -n else n;
    NumberOfDigits(m);
    NumberIs(Digits(m));
    NoZeroInFront(m);
    assert n < 0 ==> Decimal(n)[1..] == Digits(m);
  }

  lemma {:induction false} NoZeroInFront(n: nat)
    ensures n > 0 ==> Digits(n)[0] != 48
  {
    if n >= 10 {
      NoZeroInFront(n / 10);
    }
  }

  /**
   Up to 18 bytes of digits are read as their number whatever Ruby's parser does, and with a minus sign in front as its
   negative; all other texts are that parser's, unless a zero byte ends them for the fast path.
   */
  lemma DecodeIs(ruby: RubyParser, s: seq<byte>)
    requires forall k :: 0 <= k < |s| ==> s[k] != 0
    ensures Decode(ruby, s) ==
            if 0 < |s| <= 18 && AllDigits(s) then Value(s)
            else if 0 < |s| <= 18 && s[0] == 45 && AllDigits(s[1..]) then -Value(s[1..])
            else ruby(s)
  {
    FastMeaning(s);
    NumberIs(s);
    if |s| > 0 {
      NumberIs(s[1..]);
    }
  }

  /** A parser of that kind: decimal numbers, and zero for any other text. */
  function ReadSigned(s: seq<byte>): int {
    if Signed(s).Some? then Signed(s).value else 0
  }

  lemma SignedReads()
    ensures ReadsDecimals(ReadSigned)
  {
    forall n: int
      ensures ReadSigned(Decimal(n)) == n
    {
      var s, m := Decimal(n), if n < 0 then -n else n;
      NumberOfDigits(m);
      DigitsAreDigits(m);
      assert n < 0 ==> s[1..] == Digits(m);
    }
  }

  function Pow10(k: nat): nat { if k == 0 then 1 else 10 * Pow10(k - 1) }

  /** The hand-made conversion of `pg_text_dec_integer`: no value overflows an immediate integer. */
  method DecodeFast(s: seq<byte>) returns (r: Option<int>)
    requires |s| <= 18
    ensures r == Fast(s)
    ensures r.Some? ==> FIXNUM_MIN < r.value < FIXNUM_MAX
  {
    var pos := 0;
    var digit := At(s, pos);
    var neg := false;
    var i := 0;
    if digit == MINUS {
      neg := true;
    } else if IsDigit(digit) {
      i := digit - ZERO;
    } else {
      return None;
    }
    pos := pos + 1;
    digit := At(s, pos);
    while digit != 0
      invariant 1 <= pos <= |s| && digit == At(s, pos)
      invariant 0 <= i < Pow10(pos)
      invariant FastDigits(s, 1, if neg then 0 else s[0] - ZERO) == FastDigits(s, pos, i)
      decreases |s| - pos
    {
      if !IsDigit(digit) {
        return None;
      }
      i := i * 10 + (digit - ZERO);
      pos := pos + 1;
      digit := At(s, pos);
    }
    Pow10Bound(pos);
    return Some(if neg then -i else i);
  }

  lemma {:induction false} Pow10Monotone(a: nat, b: nat)
    requires a <= b
    ensures Pow10(a) <= Pow10(b)
  {
    if a < b {
      Pow10Monotone(a, b - 1);
    }
  }

  lemma Pow10Bound(k: nat)
    requires k <= 18
    ensures Pow10(k) < FIXNUM_MAX
  {
    Pow10Monotone(k, 18);
    assert Pow10(6) == 1_000_000;
    assert Pow10(12) == 1_000_000_000_000;
    assert Pow10(18) == 1_000_000_000_000_000_000;
  }

  // ---------------------------------------------------------------- encoding

  /** The number of bits of `n` without leading zeros. */
  function BitLength(n: nat): nat { if n == 0 then 0 else 1 + BitLength(n / 2) }

  /** `count_leading_zero_bits` of a 64-bit word, 64 for zero. */
  function LeadingZeroBits(n: nat): int { 64 - BitLength(n) }

  function Magnitude(n: int): nat { if n < 0 then -n else n }

  /** The size that the first encoder pass asks for: one digit for every three bits, and one more. */
  function Estimate(n: int): int {
    (64 - LeadingZeroBits(Magnitude(n))) / 3 + if n < 0 then 2 else 1
  }

  function Pow2(k: nat): nat { if k == 0 then 1 else 2 * Pow2(k - 1) }

  /** For a number below 2 to the power of `b`, and no smaller power, the size is `b` thirds, and one or two more. */
  lemma EstimateIs(n: int, b: nat)
    requires Magnitude(n) < Pow2(b) && (b > 0 ==> Pow2(b - 1) <= Magnitude(n))
    ensures Estimate(n) == b / 3 + if n < 0 then 2 else 1
  {
    BitLengthIs(Magnitude(n), b);
  }

  lemma {:induction false} BitLengthIs(n: nat, b: nat)
    requires n < Pow2(b) && (b > 0 ==> Pow2(b - 1) <= n)
    ensures BitLength(n) == b
    decreases b
  {
    if b > 0 {
      BitLengthIs(n / 2, b - 1);
    }
  }

  lemma {:induction false} BitLengthMonotone(a: nat, b: nat)
    requires a <= b
    ensures BitLength(a) <= BitLength(b)
  {
    if a > 0 {
      BitLengthMonotone(a / 2, b / 2);
    }
  }

  lemma {:induction false} DigitsPerBits(n: nat)
    ensures |Digits(n)| <= BitLength(n) / 3 + 1
  {
    if n >= 10 {
      DigitsPerBits(n / 10);
      BitLengthMonotone(n / 10, n / 2 / 2 / 2);
      assert BitLength(n) == 3 + BitLength(n / 2 / 2 / 2);
    }
  }

  /** The estimate of the first pass is never below what the second pass writes. */
  lemma EstimateSuffices(n: int)
    ensures |Decimal(n)| <= Estimate(n)
  {
    DigitsPerBits(Magnitude(n));
  }

  /** Decimal digits, lowest first: the order in which the encoder produces them. */
  function LowFirst(n: nat): (r: seq<byte>)
    ensures |r| > 0
  {
    [ZERO + n % 10] + if n < 10 then [] else LowFirst(n / 10)
  }

  function Reversed(s: seq<byte>): (r: seq<byte>)
    ensures |r| == |s|
  {
    if |s| == 0 then [] else Reversed(s[1..]) + [s[0]]
  }

  lemma {:induction false} ReversedAt(s: seq<byte>, k: nat)
    requires k < |s|
    ensures Reversed(s)[k] == s[|s| - 1 - k]
  {
    if k < |s| - 1 {
      ReversedAt(s[1..], k);
    }
  }

  lemma {:induction false} ReversedConcat(a: seq<byte>, b: seq<byte>)
    ensures Reversed(a + b) == Reversed(b) + Reversed(a)
  {
    if |a| == 0 {
      assert a + b == b;
    } else {
      ReversedConcat(a[1..], b);
      assert (a + b)[1..] == a[1..] + b;
    }
  }

  lemma {:induction false} LowFirstReversed(n: nat)
    ensures Reversed(LowFirst(n)) == Digits(n)
  {
    var low := ZERO + n % 10;
    assert Reversed([low]) == [low] by { assert [low][1..] == []; }
    if n >= 10 {
      LowFirstReversed(n / 10);
      ReversedConcat([low], LowFirst(n / 10));
    } else {
      assert LowFirst(n) == [low];
    }
  }

  /** Reversing a stretch of a buffer by swapping its ends. */
  method ReverseInPlace(buf: array<byte>, lo: nat, hi: nat)
    requires lo <= hi <= buf.Length
    modifies buf
    ensures buf[..] == Splice(old(buf[..]), lo, Reversed(old(buf[lo..hi])))
  {
    hide Splice, Reversed;
    ghost var before := buf[..];
    var a, b := lo, hi;
    while b - a > 1
      invariant lo <= a && b <= hi && a - lo == hi - b && a <= b + 1
      invariant forall k :: 0 <= k < buf.Length && !(lo <= k < a || b <= k < hi) ==> buf[k] == before[k]
      invariant forall k :: lo <= k < a || b <= k < hi ==> buf[k] == before[lo + hi - 1 - k]
    {
      b := b - 1;
      buf[a], buf[b] := buf[b], buf[a];
      a := a + 1;
    }
    MirroredIsReversed(before, buf[..], lo, hi);
  }

  lemma MirroredIsReversed(before: seq<byte>, now: seq<byte>, lo: nat, hi: nat)
    requires lo <= hi <= |before| == |now|
    requires forall k :: 0 <= k < lo || hi <= k < |now| ==> now[k] == before[k]
    requires forall k :: lo <= k < hi ==> now[k] == before[lo + hi - 1 - k]
    ensures now == Splice(before, lo, Reversed(before[lo..hi]))
  {
    var s := before[lo..hi];
    forall k | lo <= k < hi
      ensures now[k] == Reversed(s)[k - lo]
    {
      ReversedAt(s, k - lo);
    }
    assert now[lo..hi] == Reversed(s);
    assert now == now[..lo] + now[lo..hi] + now[hi..];
    assert now[..lo] == before[..lo] && now[hi..] == before[hi..];
  }

  /**
   The second pass of `pg_text_enc_integer`, for an immediate integer: digits lowest first, then the sign, then
   all of it reversed. It stays inside the space that the first pass asked for.
   */
  method EncodeInto(n: int, out: array<byte>, start: nat) returns (len: nat)
    requires FIXNUM_MIN <= n <= FIXNUM_MAX
    requires start + Estimate(n) <= out.Length
    modifies out
    ensures len == |Decimal(n)| <= Estimate(n)
    ensures out[..] == Splice(old(out[..]), start, Decimal(n))
  {
    hide Splice, Estimate, LowFirst, Digits, Reversed, Decimal, Magnitude;
    ghost var before, done := out[..], LowFirst(Magnitude(n));
    EstimateSuffices(n);
    DecimalReversed(n);
    var pos := WriteDigits(Magnitude(n), out, start);
    if n < 0 {
      StoreNext(before, out[..], start, done, MINUS);
      out[pos] := MINUS;
      pos := pos + 1;
      done := done + [MINUS];
    } else {
      NoText(done);
    }
    len := pos - start;
    SplicePart(before, start, done);
    ReverseInPlace(out, start, pos);
    SpliceOver(before, start, done, Decimal(n));
  }

  /** The digits, lowest first; at least one. */
  method WriteDigits(n: nat, out: array<byte>, start: nat) returns (pos: nat)
    requires start + |LowFirst(n)| <= out.Length
    modifies out
    ensures pos == start + |LowFirst(n)| && out[..] == Splice(old(out[..]), start, LowFirst(n))
  {
    hide Splice, LowFirst;
    ghost var before := out[..];
    SpliceNothing(before, start);
    var ll := n;
    pos := start;
    ghost var done: seq<byte> := [];
    NoText(LowFirst(n));
    while true
      invariant done + LowFirst(ll) == LowFirst(n)
      invariant pos == start + |done|
      invariant out[..] == Splice(before, start, done)
      decreases ll
    {
      ghost var oldval := ll;
      var digit;
      ll, digit := LowDigit(ll);
      assert |LowFirst(oldval)| >= 1;
      StoreNext(before, out[..], start, done, digit);
      out[pos] := digit;
      pos := pos + 1;
      if ll == 0 {
        return;
      }
      Assoc(done, [digit], LowFirst(ll));
      done := done + [digit];
    }
  }

  /** The lowest digit, from what is lost in the division. */
  method LowDigit(oldval: nat) returns (ll: nat, digit: byte)
    ensures LowFirst(oldval) == if ll == 0 then [digit] else [digit] + LowFirst(ll)
    ensures ll < oldval || ll == 0
  {
    ll := oldval / 10;
    var remainder := oldval - ll * 10;
    digit := ZERO + remainder;
    NoText([digit]);
  }

  lemma DecimalReversed(n: int)
    ensures Reversed(LowFirst(Magnitude(n)) + if n < 0 then [MINUS] else []) == Decimal(n)
    ensures |LowFirst(Magnitude(n))| + (if n < 0 then 1 else 0) == |Decimal(n)|
  {
    var s := LowFirst(Magnitude(n));
    LowFirstReversed(Magnitude(n));
    if n < 0 {
      ReversedConcat(s, [MINUS]);
      assert Reversed([MINUS]) == [MINUS] by { assert [MINUS][1..] == []; }
    } else {
      assert s + [] == s;
    }
  }
}
