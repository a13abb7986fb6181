/**
 * RebornCore's fluid quantity: an immutable amount of fluid held as one signed
 * 64-bit count of droplets, with clamping arithmetic, comparisons, two codecs
 * and a parser for the JSON shapes recipes use.
 */
module FluidValues {
  import opened JavaNumbers
  import opened Results

  /** Droplets per bucket, the host's `FluidConstants.BUCKET` (81000 on Fabric). */
  const BUCKET_DROPLETS: Long := 81000

  /** Droplets per millibucket, the legacy unit. */
  const DROPLETS_PER_MILLIBUCKET: Long := 81

  /** An amount of fluid. The record's constructor does not clamp: `rawValue` may be negative. */
  datatype FluidValue = FluidValue(rawValue: Long)

  const EMPTY: FluidValue := FluidValue(0)
  const BUCKET_QUARTER: FluidValue := FluidValue(BUCKET_DROPLETS / 4)
  const BUCKET: FluidValue := FluidValue(BUCKET_DROPLETS)

  /** What Java's `/` throws for a zero divisor. */
  datatype ArithmeticException = DivideByZero

  /** The clamping factory every arithmetic operation goes through. */
  function FromRaw(n: Long): (v: FluidValue)
    ensures v.rawValue >= 0
    ensures n >= 0 ==> v.rawValue == n
    ensures n <= 0 ==> v == EMPTY
  {
    if n < 0 then FluidValue(0) else FluidValue(n)
  }

  /** `millibuckets * 81` in `long` arithmetic, through the raw constructor: no clamping. */
  function FromMillibuckets(millibuckets: Long): (v: FluidValue)
    ensures (v.rawValue - millibuckets * DROPLETS_PER_MILLIBUCKET) % TWO_TO_64 == 0
    ensures InLongRange(millibuckets * DROPLETS_PER_MILLIBUCKET) ==>
              v.rawValue == millibuckets * DROPLETS_PER_MILLIBUCKET
  {
    FluidValue(WrapLong(millibuckets * DROPLETS_PER_MILLIBUCKET))
  }

  /** The product in `long` arithmetic, clamped at zero. */
  function Multiply(v: FluidValue, factor: Long): (r: FluidValue)
    ensures r.rawValue >= 0
    ensures InLongRange(v.rawValue * factor) && v.rawValue * factor >= 0 ==>
              r.rawValue == v.rawValue * factor
    ensures InLongRange(v.rawValue * factor) && v.rawValue * factor <= 0 ==> r == EMPTY
  {
    FromRaw(WrapLong(v.rawValue * factor))
  }

  /**
   * The quotient under Java's `long` division (rounded toward zero, and
   * `Long.MIN_VALUE / -1` wraps), clamped at zero; a zero divisor throws.
   */
  function Fraction(v: FluidValue, divider: Long): (r: Result<FluidValue, ArithmeticException>)
    ensures r.Failure? <==> divider == 0
    ensures r.Success? ==> r.value.rawValue >= 0
    ensures r.Success? && v.rawValue >= 0 && divider > 0 ==>
              r.value.rawValue * divider <= v.rawValue < (r.value.rawValue + 1) * divider
    ensures r.Success? && (v.rawValue > 0) != (divider > 0) ==> r.value == EMPTY
    ensures r.Success? && v.rawValue == 0 ==> r.value == EMPTY
    ensures r.Success? && v.rawValue < 0 && divider < 0 && !(v.rawValue == LONG_MIN && divider == -1) ==>
              r.value.rawValue * -(divider as int) <= -(v.rawValue as int) < (r.value.rawValue + 1) * -(divider as int)
  {
    if divider == 0 then
      Failure(DivideByZero)
    else
      var q := TruncDiv(v.rawValue, divider);
      QuotientFacts(v.rawValue, divider, q);
      Success(FromRaw(WrapLong(q)))
  }

  /** What the remainder bounds of a truncated quotient say about it, sign by sign. */
  lemma QuotientFacts(a: Long, d: Long, q: int)
    requires d != 0
    requires a >= 0 ==> 0 <= a - q * d < Abs(d)
    requires a < 0 ==> -Abs(d) < a - q * d <= 0
    ensures a >= 0 && d > 0 ==> 0 <= q <= a && q * d <= a < (q + 1) * d
    ensures (a > 0) != (d > 0) ==> q <= 0 && InLongRange(q)
    ensures a == 0 ==> q == 0
    ensures a < 0 && d < 0 && !(a == LONG_MIN && d == -1) ==>
              0 <= q <= LONG_MAX && q * -(d as int) <= -(a as int) < (q + 1) * -(d as int)
  {
    PositiveQuotientFacts(a, d, q);
    ZeroDividendFacts(a, d, q);
    OppositeSignsFacts(a, d, q);
    NegativeQuotientFacts(a, d, q);
  }

  lemma PositiveQuotientFacts(a: Long, d: Long, q: int)
    requires d != 0
    requires a >= 0 ==> 0 <= a - q * d < Abs(d)
    ensures a >= 0 && d > 0 ==> 0 <= q <= a && q * d <= a < (q + 1) * d
  {
    if a >= 0 && d > 0 {
      QuotientBounds(a, d, q);
    }
  }

  lemma ZeroDividendFacts(a: Long, d: Long, q: int)
    requires d != 0
    requires a >= 0 ==> 0 <= a - q * d < Abs(d)
    ensures a == 0 ==> q == 0
  {
    if a == 0 {
      ZeroDividend(d, q);
    }
  }

  /** Zero divided by anything non-zero truncates to zero, whatever the divisor's sign. */
  lemma ZeroDividend(d: int, q: int)
    requires d != 0 && 0 <= -(q * d) < Abs(d)
    ensures q == 0
  {
    NegateFactor(d, q);
    if q > 0 && d > 0 {
      ProductAtLeastFactor(d, q);
      assert false;
    } else if q > 0 && d < 0 {
      ProductAtLeastFactor(-d, q);
      assert false;
    } else if q < 0 && d > 0 {
      ProductAtLeastFactor(d, -q);
      assert false;
    } else if q < 0 && d < 0 {
      ProductAtLeastFactor(-d, -q);
      assert false;
    }
  }

  lemma OppositeSignsFacts(a: Long, d: Long, q: int)
    requires d != 0
    requires a >= 0 ==> 0 <= a - q * d < Abs(d)
    requires a < 0 ==> -Abs(d) < a - q * d <= 0
    ensures (a > 0) != (d > 0) ==> q <= 0 && InLongRange(q)
  {
    if (a > 0) != (d > 0) {
      OppositeSignsQuotient(a, d, q);
      if a < 0 {
        NegativeOverPositive(a, d, q);
      } else if d < 0 {
        NonNegativeOverNegative(a, d, q);
      } else {
        QuotientBounds(a, d, q);
      }
    }
  }

  lemma NegativeQuotientFacts(a: Long, d: Long, q: int)
    requires d != 0
    requires a < 0 ==> -Abs(d) < a - q * d <= 0
    ensures a < 0 && d < 0 && !(a == LONG_MIN && d == -1) ==>
              0 <= q <= LONG_MAX && q * -(d as int) <= -(a as int) < (q + 1) * -(d as int)
  {
    if a < 0 && d < 0 {
      NegativeQuotientBounds(a, d, q);
    }
  }

  lemma NegativeOverPositive(a: int, d: int, q: int)
    requires a < 0 && d > 0 && -d < a - q * d <= 0 && q <= 0
    ensures q >= a
  {
    if q < a {
      NegateFactor(q, d);
      ProductAtLeastFactor(-q, d);
      assert false;
    }
  }

  lemma NonNegativeOverNegative(a: int, d: int, q: int)
    requires a >= 0 && d < 0 && 0 <= a - q * d && q <= 0
    ensures q >= -a
  {
    if q < -a {
      NegateFactor(q, d);
      ProductAtLeastFactor(-q, -d);
      assert false;
    }
  }

  /** When dividend and divisor differ in sign (or the dividend is 0), the truncated quotient is at most 0. */
  lemma OppositeSignsQuotient(a: int, d: int, q: int)
    requires d != 0 && (a > 0) != (d > 0)
    requires a >= 0 ==> 0 <= a - q * d < Abs(d)
    requires a < 0 ==> -Abs(d) < a - q * d <= 0
    ensures q <= 0
  {
    if q > 0 {
      if d > 0 {
        ProductAtLeastFactor(d, q);
        assert false;
      } else {
        ProductAtLeastFactor(-d, q);
        NegateFactor(d, q);
        assert false;
      }
    }
  }

  /** For a negative dividend and divisor, the truncated quotient is the quotient of their magnitudes. */
  lemma NegativeQuotientBounds(a: int, d: int, q: int)
    requires a < 0 && d < 0 && d < a - q * d <= 0
    ensures 0 <= q <= -a && q * (-d) <= -a < (q + 1) * (-d)
    ensures q == -a ==> d == -1
  {
    NegateFactor(q, d);
    QuotientBounds(-a, -d, q);
    if q == -a && d < -1 {
      ProductAtLeastFactor(q, -d - 1);
      AddOneFactor(-d - 1, q);
      assert false;
    }
  }

  /** For a non-negative dividend and a positive divisor, a truncated quotient lies in `0..a` and brackets `a`. */
  lemma QuotientBounds(a: int, d: int, q: int)
    requires a >= 0 && d > 0 && 0 <= a - q * d < d
    ensures 0 <= q <= a && q * d <= a < (q + 1) * d
  {
    if q < 0 {
      ProductAtLeastFactor(d, -q);
      NegateRight(d, q);
      assert false;
    }
    if q > a {
      ProductAtLeastFactor(q, d);
      assert false;
    }
    AddOneFactor(q, d);
  }

  lemma NegateRight(x: int, y: int)
    ensures x * (-y) == -(y * x)
  {
  }

  lemma AddOneFactor(x: int, y: int)
    ensures (x + 1) * y == x * y + y
  {
  }

  lemma ProductAtLeastFactor(x: int, y: int)
    requires x >= 0 && y >= 1
    ensures x * y >= x
  {
    assert x * y == x * (y - 1) + x;
  }

  function Add(a: FluidValue, b: FluidValue): (r: FluidValue)
    ensures r.rawValue >= 0
    ensures a.rawValue >= 0 && b.rawValue >= 0 && InLongRange(a.rawValue + b.rawValue) ==>
              r.rawValue == a.rawValue + b.rawValue
    ensures InLongRange(a.rawValue + b.rawValue) ==>
              r.rawValue == if a.rawValue + b.rawValue < 0 then 0 else a.rawValue + b.rawValue
  {
    FromRaw(WrapLong(a.rawValue + b.rawValue))
  }

  function Subtract(a: FluidValue, b: FluidValue): (r: FluidValue)
    ensures r.rawValue >= 0
    ensures 0 <= b.rawValue <= a.rawValue ==> r.rawValue == a.rawValue - b.rawValue
    ensures 0 <= a.rawValue < b.rawValue ==> r == EMPTY
    ensures InLongRange(a.rawValue - b.rawValue) ==>
              r.rawValue == if a.rawValue - b.rawValue < 0 then 0 else a.rawValue - b.rawValue
  {
    FromRaw(WrapLong(a.rawValue - b.rawValue))
  }

  /** The smaller of the two amounts (`Math.min`), clamped at zero. */
  function Min(a: FluidValue, b: FluidValue): (r: FluidValue)
    ensures r.rawValue >= 0
    ensures a.rawValue >= 0 && b.rawValue >= 0 ==>
              (r == a || r == b) && r.rawValue <= a.rawValue && r.rawValue <= b.rawValue
    ensures a.rawValue < 0 || b.rawValue < 0 ==> r == EMPTY
  {
    FromRaw(if a.rawValue <= b.rawValue then a.rawValue else b.rawValue)
  }

  predicate IsEmpty(v: FluidValue)
    ensures IsEmpty(v) <==> v == EMPTY
  {
    v.rawValue == 0
  }

  predicate MoreThan(a: FluidValue, b: FluidValue)
    ensures MoreThan(a, b) <==> LessThan(b, a)
  {
    a.rawValue > b.rawValue
  }

  predicate EqualOrMoreThan(a: FluidValue, b: FluidValue)
    ensures EqualOrMoreThan(a, b) <==> LessThanOrEqual(b, a)
  {
    a.rawValue >= b.rawValue
  }

  /** For non-negative amounts, `a` is less exactly when taking it from `b` leaves something. */
  predicate LessThan(a: FluidValue, b: FluidValue)
    ensures a.rawValue >= 0 && b.rawValue >= 0 ==> (LessThan(a, b) <==> !IsEmpty(Subtract(b, a)))
  {
    a.rawValue < b.rawValue
  }

  predicate LessThanOrEqual(a: FluidValue, b: FluidValue)
    ensures LessThanOrEqual(a, b) <==> a == b || LessThan(a, b)
  {
    a.rawValue <= b.rawValue
  }

  // ---------------------------------------------------------------------------
  // Codecs

  /** The one field of the structured codec's record. */
  const VALUE_FIELD: string := "value"

  /** Why the structured codec cannot decode a record. */
  datatype DecodeError = MissingField(name: string)

  /** The structured codec writes the raw droplet count to the field `value`. */
  function EncodeRecord(v: FluidValue): (record: map<string, Long>)
    ensures record.Keys == {VALUE_FIELD}
    ensures record[VALUE_FIELD] == v.rawValue
  {
    map[VALUE_FIELD := v.rawValue]
  }

  /** The structured codec reads the field `value` and clamps it through `FromRaw`. */
  function DecodeRecord(record: map<string, Long>): (r: Result<FluidValue, DecodeError>)
    ensures r.Failure? <==> VALUE_FIELD !in record
    ensures r.Success? ==> r.value.rawValue >= 0
    ensures r.Success? && record[VALUE_FIELD] < 0 ==> r.value == EMPTY
    ensures r.Success? && record[VALUE_FIELD] >= 0 ==> r.value.rawValue == record[VALUE_FIELD]
  {
    if VALUE_FIELD in record then Success(FromRaw(record[VALUE_FIELD])) else Failure(MissingField(VALUE_FIELD))
  }

  /** The packet codec writes the raw droplet count as its one `long`. */
  function EncodePacket(v: FluidValue): (raw: Long)
    ensures DecodePacket(raw) == v
  {
    v.rawValue
  }

  /** The packet codec rebuilds the value through the raw constructor, without clamping. */
  function DecodePacket(raw: Long): (v: FluidValue)
    ensures v.rawValue == raw
    ensures raw < 0 ==> v != FromRaw(raw)
  {
    FluidValue(raw)
  }

  // ---------------------------------------------------------------------------
  // Parsing

  /**
   * A JSON element as the parser sees it: an object, a number (integral,
   * already read as an integer), or anything else (string, boolean, array, null).
   */
  datatype Json = Object(members: map<string, Json>) | Number(value: int) | Other

  /** The `JsonSyntaxException`s the parser and `JsonHelper` throw. */
  datatype JsonSyntaxException = CouldNotParseFluidValue | ExpectedNumber(member: string)

  /** `JsonHelper.getInt`: the member's number narrowed to a Java `int`. */
  function GetInt(members: map<string, Json>, key: string): (r: Result<Int, JsonSyntaxException>)
    requires key in members
    ensures r.Success? <==> members[key].Number?
    ensures r.Success? && InIntRange(members[key].value) ==> r.value == members[key].value
  {
    match members[key]
    case Number(n) => Success(WrapInt(n))
    case _ => Failure(ExpectedNumber(key))
  }

  /** `JsonHelper.getLong`: the member's number narrowed to a Java `long`. */
  function GetLong(members: map<string, Json>, key: string): (r: Result<Long, JsonSyntaxException>)
    requires key in members
    ensures r.Success? <==> members[key].Number?
    ensures r.Success? && InLongRange(members[key].value) ==> r.value == members[key].value
  {
    match members[key]
    case Number(n) => Success(WrapLong(n))
    case _ => Failure(ExpectedNumber(key))
  }

  /**
   * `{"buckets": n}` is `n` buckets, and wins over `droplets`; `{"droplets": n}`
   * is `n` droplets, clamped; a bare number is millibuckets, read as an `int`;
   * everything else is rejected.
   */
  function ParseFluidValue(json: Json): (r: Result<FluidValue, JsonSyntaxException>)
    ensures json.Object? && r.Success? ==> r.value.rawValue >= 0
    ensures json.Other? ==> r == Failure(CouldNotParseFluidValue)
  {
    match json
    case Object(members) =>
      if "buckets" in members then
        match GetInt(members, "buckets")
        case Success(buckets) => Success(Multiply(BUCKET, buckets))
        case Failure(e) => Failure(e)
      else if "droplets" in members then
        match GetLong(members, "droplets")
        case Success(droplets) => Success(FromRaw(droplets))
        case Failure(e) => Failure(e)
      else
        Failure(CouldNotParseFluidValue)
    case Number(n) => Success(FromMillibuckets(WrapInt(n)))
    case Other => Failure(CouldNotParseFluidValue)
  }

  // ---------------------------------------------------------------------------
  // Properties of the arithmetic

  /** A clamped value passes through the clamping factory unchanged. */
  lemma FromRawIdempotent(n: Long)
    ensures FromRaw(FromRaw(n).rawValue) == FromRaw(n)
  {
  }

  /** A millibucket count that fits a Java `int` never overflows the `long` product. */
  lemma MillibucketsOfIntAreExact(millibuckets: Int)
    ensures FromMillibuckets(millibuckets).rawValue == millibuckets * DROPLETS_PER_MILLIBUCKET
  {
  }

  /** Subtracting an amount no larger than `a`, then adding it back, gives `a` again. */
  lemma SubtractThenAdd(a: FluidValue, b: FluidValue)
    requires 0 <= b.rawValue <= a.rawValue
    ensures Add(Subtract(a, b), b) == a
  {
  }

  /** Adding `b` and then subtracting it gives `a` back, unless the sum overflows. */
  lemma AddThenSubtract(a: FluidValue, b: FluidValue)
    requires a.rawValue >= 0 && b.rawValue >= 0 && InLongRange(a.rawValue + b.rawValue)
    ensures Subtract(Add(a, b), b) == a
  {
  }

  /** Subtraction bottoms out at empty exactly when the subtrahend is at least as large. */
  lemma SubtractEmptyIffLessOrEqual(a: FluidValue, b: FluidValue)
    requires a.rawValue >= 0 && b.rawValue >= 0
    ensures IsEmpty(Subtract(a, b)) <==> LessThanOrEqual(a, b)
  {
  }

  /** Dividing a product by its positive factor gives the original amount back. */
  lemma MultiplyThenFraction(v: FluidValue, factor: Long)
    requires v.rawValue >= 0 && factor > 0 && InLongRange(v.rawValue * factor)
    ensures Fraction(Multiply(v, factor), factor) == Success(v)
  {
    ProductAtLeastFactor(v.rawValue, factor);
    var p := Multiply(v, factor);
    assert p.rawValue == v.rawValue * factor;
    var q := Fraction(p, factor).value.rawValue;
    assert q * factor <= v.rawValue * factor < (q + 1) * factor;
    FactorCancels(q, v.rawValue, factor);
  }

  lemma FactorCancels(q: int, x: int, k: int)
    requires k > 0 && q * k <= x * k < (q + 1) * k
    ensures q == x
  {
    if q < x {
      AddOneFactor(q, k);
      assert false;
    }
    if q > x {
      assert false;
    }
  }

  /** Java's `/` rounds toward zero: `-3 / -2` is 1, where Euclidean division gives 2. */
  lemma FractionTruncatesTowardZero()
    ensures Fraction(FluidValue(-3), -2) == Success(FluidValue(1))
    ensures Fraction(FluidValue(-3), 2) == Success(EMPTY)
    ensures Fraction(FluidValue(10), -3) == Success(EMPTY)
    ensures Fraction(FluidValue(-7), -2) == Success(FluidValue(3))
  {
  }

  /** `Long.MIN_VALUE / -1` wraps back to `Long.MIN_VALUE`, which clamps to empty. */
  lemma FractionOfMinimumByMinusOne()
    ensures Fraction(FluidValue(LONG_MIN), -1) == Success(EMPTY)
  {
  }

  /** An overflowing product wraps before it is clamped: it may come out empty or as a wrong positive amount. */
  lemma MultiplyOverflowWraps()
    ensures Multiply(FluidValue(LONG_MAX), 2) == EMPTY
    ensures Multiply(FluidValue(LONG_MAX), 3) == FluidValue(LONG_MAX - 2)
  {
  }

  // ---------------------------------------------------------------------------
  // Properties of the comparisons

  /** The four comparisons are the strict and non-strict orders on `rawValue` and their converses. */
  lemma ComparisonDuality(a: FluidValue, b: FluidValue)
    ensures MoreThan(a, b) == !LessThanOrEqual(a, b)
    ensures EqualOrMoreThan(a, b) == !LessThan(a, b)
    ensures LessThan(a, b) == MoreThan(b, a)
    ensures LessThanOrEqual(a, b) == EqualOrMoreThan(b, a)
  {
  }

  /** `lessThanOrEqual` is a total order on fluid values. */
  lemma LessThanOrEqualIsTotalOrder(a: FluidValue, b: FluidValue, c: FluidValue)
    ensures LessThanOrEqual(a, a)
    ensures LessThanOrEqual(a, b) && LessThanOrEqual(b, a) ==> a == b
    ensures LessThanOrEqual(a, b) && LessThanOrEqual(b, c) ==> LessThanOrEqual(a, c)
    ensures LessThanOrEqual(a, b) || LessThanOrEqual(b, a)
  {
  }

  /** Among non-negative amounts, empty is the least. */
  lemma EmptyIsLeast(v: FluidValue)
    requires v.rawValue >= 0
    ensures LessThanOrEqual(EMPTY, v)
    ensures IsEmpty(v) <==> LessThanOrEqual(v, EMPTY)
  {
  }

  // ---------------------------------------------------------------------------
  // Properties of the codecs

  /** The structured codec round-trips every non-negative amount; a negative one comes back empty. */
  lemma RecordRoundTrip(v: FluidValue)
    ensures DecodeRecord(EncodeRecord(v)) == Success(if v.rawValue >= 0 then v else EMPTY)
  {
  }

  /** Decoding a record with a non-negative `value` and encoding again yields that one field. */
  lemma RecordDecodeThenEncode(record: map<string, Long>)
    requires VALUE_FIELD in record && record[VALUE_FIELD] >= 0
    ensures EncodeRecord(DecodeRecord(record).value) == map[VALUE_FIELD := record[VALUE_FIELD]]
  {
  }

  /** The packet codec round-trips every amount, negative ones included, in both directions. */
  lemma PacketRoundTrip(v: FluidValue, raw: Long)
    ensures DecodePacket(EncodePacket(v)) == v
    ensures EncodePacket(DecodePacket(raw)) == raw
  {
  }

  // ---------------------------------------------------------------------------
  // Properties of the parser

  /** The JSON shapes the parser accepts, stated independently of its branches. */
  ghost predicate RecognisedShape(json: Json) {
    || json.Number?
    || (json.Object? && "buckets" in json.members && json.members["buckets"].Number?)
    || (json.Object? && "buckets" !in json.members
          && "droplets" in json.members && json.members["droplets"].Number?)
  }

  /** Parsing succeeds exactly on the recognised shapes and fails on every other input. */
  lemma ParseSucceedsIffRecognised(json: Json)
    ensures ParseFluidValue(json).Success? <==> RecognisedShape(json)
    ensures json.Other? || (json.Object? && "buckets" !in json.members && "droplets" !in json.members) ==>
              ParseFluidValue(json) == Failure(CouldNotParseFluidValue)
  {
  }

  /** `{"buckets": n}` is `BUCKET.multiply(n)`: `n` buckets of droplets, clamped at zero, never overflowing. */
  lemma ParseBuckets(members: map<string, Json>, buckets: int)
    requires "buckets" in members && members["buckets"] == Number(buckets)
    ensures ParseFluidValue(Object(members)) == Success(Multiply(BUCKET, WrapInt(buckets)))
    ensures ParseFluidValue(Object(members)).value.rawValue ==
              if WrapInt(buckets) > 0 then WrapInt(buckets) * BUCKET_DROPLETS else 0
    ensures InIntRange(buckets) ==>
              ParseFluidValue(Object(members)).value.rawValue == if buckets > 0 then buckets * BUCKET_DROPLETS else 0
  {
  }

  /** When `buckets` is present, `droplets` and every other member are ignored. */
  lemma ParseBucketsTakesPrecedence(members: map<string, Json>)
    requires "buckets" in members
    ensures ParseFluidValue(Object(members)) == ParseFluidValue(Object(map["buckets" := members["buckets"]]))
  {
  }

  /** `{"droplets": n}` without `buckets` is `fromRaw(n)`. */
  lemma ParseDroplets(members: map<string, Json>, droplets: int)
    requires "buckets" !in members && "droplets" in members && members["droplets"] == Number(droplets)
    requires InLongRange(droplets)
    ensures ParseFluidValue(Object(members)) == Success(FromRaw(droplets))
  {
  }

  /** A bare number within `int` range is that many millibuckets, negative ones unclamped. */
  lemma ParseBareNumber(millibuckets: int)
    requires InIntRange(millibuckets)
    ensures ParseFluidValue(Number(millibuckets)) == Success(FluidValue(millibuckets * DROPLETS_PER_MILLIBUCKET))
  {
  }

  /** A bare number outside `int` range is cut to its low 32 bits by `getAsInt`. */
  lemma ParseBareNumberNarrowsToInt()
    ensures ParseFluidValue(Number(TWO_TO_32 + 1)) == Success(FluidValue(DROPLETS_PER_MILLIBUCKET))
    ensures ParseFluidValue(Number(-1)) == Success(FluidValue(-DROPLETS_PER_MILLIBUCKET))
  {
  }
}
