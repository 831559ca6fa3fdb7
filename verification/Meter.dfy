/**
 Progress metering of a transfer: after each piece the percentage is recomputed and reported
 when it has grown. `length` divides, so it is never zero. Signed overflow of `count * 100`
 is modelled as two's-complement wrap-around and `int prog` as a 32-bit truncation.
 */
module Meter {
  import opened Bytes

  type NonZero = x: int | x != 0 witness 1

  const TWO_31: int := 0x8000_0000
  const TWO_32: int := 0x1_0000_0000

  datatype Report = Report(prog: int, count: int, length: int)

  /** `prog` is the field of fs_send/fs_recv; `reports` are the callbacks made so far. */
  datatype Gauge = Gauge(prog: int, reports: seq<Report>)

  const ZERO_GAUGE := Gauge(0, [])

  /**
   Division of naturals. It is spelled out as repeated subtraction so that proofs in which quotients
   play no part stay linear; QuotientIsDivision ties it to `/`.
   */
  function Quotient(n: nat, d: nat): nat
    requires d > 0
  {
    if n < d then 0 else 1 + Quotient(n - d, d)
  }

  lemma MulSucc(q: int, d: int)
    ensures (q + 1) * d == q * d + d
  {
  }

  lemma MulMonotone(a: int, b: int, d: int)
    requires a <= b && d > 0
    ensures a * d <= b * d
  {
  }

  lemma {:induction false} QuotientBounds(n: nat, d: nat)
    requires d > 0
    ensures Quotient(n, d) * d <= n < (Quotient(n, d) + 1) * d
  {
    MulSucc(0, d);
    if n >= d {
      var q := Quotient(n - d, d);
      QuotientBounds(n - d, d);
      MulSucc(q, d);
      MulSucc(q + 1, d);
    }
  }

  lemma QuotientIsDivision(n: nat, d: nat)
    requires d > 0
    ensures Quotient(n, d) == n / d
  {
    hide Quotient;
    var p, q := Quotient(n, d), n / d;
    QuotientBounds(n, d);
    assert n == q * d + n % d;
    MulSucc(q, d);
    if p < q {
      MulMonotone(p + 1, q, d);
    } else if q < p {
      MulMonotone(q + 1, p, d);
    }
  }

  /** C++ integer division truncates toward zero. */
  function TruncDiv(a: int, b: NonZero): int {
    var d: int := b;
    var q: int := Quotient(if a < 0 then -a else a, if d < 0 then -d else d);
    if (a < 0) == (d < 0) then q else -q
  }

  function WrapInt64(x: int): Int64 {
    (x + TWO_63) % TWO_64 - TWO_63
  }

  function WrapInt32(x: int): int {
    (x + TWO_31) % TWO_32 - TWO_31
  }

  /** The quotient drops the fraction: what is left has the dividend's sign and is smaller than the divisor. */
  lemma TruncatesTowardZero(a: int, b: NonZero)
    ensures var d: int := b;
            var rest := a - TruncDiv(a, b) * d;
            && (if a < 0 then rest <= 0 else rest >= 0)
            && (if d < 0 then d < rest < -d else -d < rest < d)
  {
    hide Quotient;
    var e: int := b;
    var m: int, d: int := if a < 0 then -a else a, if e < 0 then -e else e;
    QuotientBounds(m, d);
    var q := Quotient(m, d);
    MulSucc(q, d);
    var p: int := TruncDiv(a, b);
    if (a < 0) == (e < 0) {
      assert p == q && (if e < 0 then p * e == -(q * d) else p * e == q * d);
    } else {
      assert p == -q && (if e < 0 then p * e == q * d else p * e == -(q * d));
    }
  }

  /** The overflowed value is the one in range that differs by a multiple of the modulus. */
  lemma WrapsAround(x: int, k: int)
    ensures -TWO_63 <= x + k * TWO_64 < TWO_63 ==> WrapInt64(x) == x + k * TWO_64
    ensures -TWO_31 <= x + k * TWO_32 < TWO_31 ==> WrapInt32(x) == x + k * TWO_32
  {
    ModuloIs(x + TWO_63, TWO_64, k);
    ModuloIs(x + TWO_31, TWO_32, k);
  }

  lemma ModuloIs(y: int, m: nat, k: int)
    requires m > 0
    ensures 0 <= y + k * m < m ==> y % m == y + k * m
  {
    if 0 <= y + k * m < m {
      var q, r := y / m, y % m;
      assert y == m * q + r;
      assert (q + k) * m == q * m + k * m;
      if q + k >= 1 {
        MulMonotone(1, q + k, m);
      } else if q + k <= -1 {
        MulMonotone(q + k, -1, m);
      }
    }
  }

  function Percent(count: int, length: NonZero): int {
    WrapInt32(TruncDiv(WrapInt64(count * 100), length))
  }

  function Tick(g: Gauge, count: int, length: NonZero): Gauge {
    var prog := Percent(count, length);
    if prog > g.prog then Gauge(prog, g.reports + [Report(prog, count, length)]) else g
  }

  /** Lengths for which `count * 100` stays inside int64 up to the end of the file. */
  predicate Measurable(length: int) {
    0 < length <= (TWO_63 - 1) / 100
  }

  /** The report made at `count` is the exact floor of the percentage, and 100 means complete. */
  ghost predicate Exact(r: Report, length: NonZero) {
    && r.length == length
    && 0 < r.count <= length
    && 1 <= r.prog <= 100
    && r.prog == Quotient(100 * r.count, length)
    && (r.prog == 100 <==> r.count == length)
  }

  /**
   What the reports of a transfer look like once `count` of `length` bytes have gone by:
   exact, strictly increasing, and up to date.
   */
  ghost predicate Faithful(g: Gauge, count: int, length: NonZero) {
    && 0 <= count <= length
    && 0 <= g.prog <= 100
    && g.prog == Quotient(100 * count, length)
    && (forall i :: 0 <= i < |g.reports| ==> Exact(g.reports[i], length) && g.reports[i].count <= count)
    && (forall i, j :: 0 <= i < j < |g.reports| ==> g.reports[i].prog < g.reports[j].prog)
    && (if g.reports == [] then g.prog == 0 else g.prog == g.reports[|g.reports| - 1].prog)
  }

  lemma {:induction false} QuotientMonotone(n: nat, m: nat, d: nat)
    requires d > 0 && n <= m
    ensures Quotient(n, d) <= Quotient(m, d)
  {
    if n >= d {
      QuotientMonotone(n - d, m - d, d);
    }
  }

  lemma {:induction false} QuotientOfMultiple(k: nat, d: nat)
    requires d > 0
    ensures Quotient(k * d, d) == k
  {
    if k > 0 {
      assert k * d - d == (k - 1) * d;
      QuotientOfMultiple(k - 1, d);
    }
  }

  lemma PercentIsFloor(count: int, length: NonZero)
    requires Measurable(length) && 0 <= count <= length
    ensures Percent(count, length) == Quotient(100 * count, length) <= 100
  {
    QuotientMonotone(100 * count, 100 * length, length);
    QuotientOfMultiple(100, length);
  }

  /** A length that is too large for `count * 100` never reports completion. */
  lemma TooLongNeverHundred(length: NonZero)
    requires length > 0 && !Measurable(length)
    ensures Percent(length, length) != 100
  {
    hide WrapInt64, TruncDiv;
    var l: int := length;
    WrapBounds(l * 100);
    WrappedQuotient(WrapInt64(l * 100), length);
    assert TWO_63 <= 100 * l;
  }

  lemma WrapBounds(x: int)
    ensures -TWO_63 <= WrapInt64(x) < TWO_63
  {
  }

  lemma WrappedQuotient(v: int, length: NonZero)
    requires -TWO_63 <= v < TWO_63 <= 100 * length
    ensures -100 <= TruncDiv(v, length) < 100
  {
    hide Quotient;
    var d: int := length;
    var m: int := if v < 0 then -v else v;
    QuotientBounds(m, d);
    var q: int := Quotient(m, d);
    if q > 100 {
      MulMonotone(101, q, d);
    } else if q == 100 {
      assert 100 * d <= m;
    }
  }

  /** Progress is the exact percentage up to the end of the file for measurable lengths and no others. */
  lemma PercentIsFloorIff(length: NonZero)
    requires length > 0
    ensures (forall count :: 0 <= count <= length ==> Percent(count, length) == Quotient(100 * count, length))
            <==> Measurable(length)
  {
    hide Percent, Quotient;
    if Measurable(length) {
      forall count | 0 <= count <= length
        ensures Percent(count, length) == Quotient(100 * count, length)
      {
        PercentIsFloor(count, length);
      }
    } else {
      TooLongNeverHundred(length);
      QuotientOfMultiple(100, length);
    }
  }

  lemma HundredMeansAll(count: int, length: NonZero)
    requires 0 <= count <= length
    ensures Quotient(100 * count, length) == 100 <==> count == length
    ensures Quotient(100 * count, length) > 0 ==> count > 0
  {
    QuotientBounds(100 * count, length);
    QuotientOfMultiple(100, length);
  }

  /** One more piece keeps the whole report log faithful. */
  lemma TickKeepsFaithful(g: Gauge, count: int, count': int, length: NonZero)
    requires Measurable(length) && Faithful(g, count, length)
    requires count <= count' <= length
    ensures Faithful(Tick(g, count', length), count', length)
  {
    hide Percent, Quotient;
    PercentIsFloor(count', length);
    QuotientMonotone(100 * count, 100 * count', length);
    HundredMeansAll(count', length);
    var p := Percent(count', length);
    if p > g.prog {
      assert Exact(Report(p, count', length), length);
    }
  }

  /**
   At the end of the file 100 has been reported, and only by the last report.
   */
  lemma CompleteReportsHundredOnce(g: Gauge, length: NonZero)
    requires Measurable(length) && Faithful(g, length, length)
    ensures g.prog == 100 && g.reports != []
    ensures g.reports[|g.reports| - 1] == Report(100, length, length)
    ensures forall i :: 0 <= i < |g.reports| - 1 ==> g.reports[i].prog < 100 && g.reports[i].count < length
  {
    HundredMeansAll(length, length);
  }
}
