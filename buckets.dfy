/** The fixed histogram ladder, the rule that picks the buckets an observation
    falls into, and the decimal names the buckets are exposed under. */
module Buckets {
  import opened Sequences

  /** A bucket's upper bound: a whole number of seconds, or `+Inf`. */
  datatype Bound = Finite(seconds: nat) | Inf

  /** The finite upper bounds, in seconds. */
  const DurationBuckets: seq<nat> := [180, 300, 600, 900, 1200, 1500, 1800, 2100, 2400, 2700]

  /** The finite bounds followed by `+Inf`. */
  const Ladder: seq<Bound> := Finites(DurationBuckets) + [Inf]

  function Finites(xs: seq<nat>): seq<Bound>
  {
    seq(|xs|, i requires 0 <= i < |xs| => Finite(xs[i]))
  }

  /** `duration < float(bucket)`: every finite duration is below `+Inf`. */
  predicate Below(duration: int, b: Bound)
  {
    match b
    case Finite(s) => duration < s
    case Inf => true
  }

  /** `a` is a strictly smaller bound than `b`. */
  predicate Precedes(a: Bound, b: Bound)
  {
    match (a, b)
    case (Finite(x), Finite(y)) => x < y
    case (Finite(_), Inf) => true
    case (Inf, _) => false
  }

  predicate StrictlyAscending(l: seq<Bound>)
  {
    forall i, j :: 0 <= i < j < |l| ==> Precedes(l[i], l[j])
  }

  /** The ladder has eleven strictly ascending bounds and ends with `+Inf`. */
  lemma LadderShape()
    ensures |Ladder| == 11 && Ladder[10] == Inf
    ensures forall i :: 0 <= i < 10 ==> Ladder[i] == Finite(DurationBuckets[i])
    ensures StrictlyAscending(Ladder)
  {
  }

  /** An observation below a bound is below every larger bound. */
  lemma BelowUpward(d: int, a: Bound, b: Bound)
    requires Precedes(a, b) && Below(d, a)
    ensures Below(d, b)
  {
  }

  /** The entries of `l` that `d` is below, in the order of `l`. */
  function Applicable(l: seq<Bound>, d: int): (r: seq<Bound>)
    ensures forall b :: b in r <==> b in l && Below(d, b)
  {
    if l == [] then []
    else (if Below(d, l[0]) then [l[0]] else []) + Applicable(l[1..], d)
  }

  /** The index of the first entry of `l` that `d` is below, or `|l|`. */
  function FirstAbove(l: seq<Bound>, d: int): (k: nat)
    ensures k <= |l|
    ensures forall i :: 0 <= i < k ==> !Below(d, l[i])
    ensures k < |l| ==> Below(d, l[k])
  {
    if l == [] || Below(d, l[0]) then 0 else 1 + FirstAbove(l[1..], d)
  }

  /** On a strictly ascending ladder the applicable entries are a suffix. */
  lemma {:induction false} ApplicableIsSuffix(l: seq<Bound>, d: int)
    requires StrictlyAscending(l)
    ensures Applicable(l, d) == l[FirstAbove(l, d)..]
  {
    if l != [] {
      if Below(d, l[0]) {
        AllApplicable(l, d);
      } else {
        ApplicableIsSuffix(l[1..], d);
      }
    }
  }

  lemma {:induction false} AllApplicable(l: seq<Bound>, d: int)
    requires StrictlyAscending(l) && l != [] && Below(d, l[0])
    ensures Applicable(l, d) == l
  {
    if |l| > 1 {
      BelowUpward(d, l[0], l[1]);
      AllApplicable(l[1..], d);
    }
  }

  /** `find_applicable_buckets(duration)`: the ladder entries strictly
      greater than the duration, in ladder order. */
  function FindApplicableBuckets(duration: int): (r: seq<Bound>)
    ensures forall b :: b in r <==> b in Ladder && Below(duration, b)
  {
    Applicable(Ladder, duration)
  }

  /** The buckets of any duration form a non-empty suffix of the ladder that
      ends with `+Inf`. */
  lemma FindApplicableBucketsSuffix(duration: int)
    ensures FirstAbove(Ladder, duration) < |Ladder|
    ensures FindApplicableBuckets(duration) == Ladder[FirstAbove(Ladder, duration)..]
    ensures FindApplicableBuckets(duration) != [] && Inf in FindApplicableBuckets(duration)
  {
    LadderShape();
    ApplicableIsSuffix(Ladder, duration);
    assert Inf in FindApplicableBuckets(duration);
  }

  /** No bucket is yielded twice, so one observation adds at most one to
      each count. */
  lemma FindApplicableBucketsDistinct(duration: int)
    ensures Distinct(FindApplicableBuckets(duration))
  {
    LadderShape();
    ApplicableIsSuffix(Ladder, duration);
    var r := FindApplicableBuckets(duration);
    var k := FirstAbove(Ladder, duration);
    forall i, j | 0 <= i < j < |r|
      ensures r[i] != r[j]
    {
      assert Precedes(Ladder[k + i], Ladder[k + j]);
    }
  }

  /** A duration of 250 seconds falls into every bucket from 300 upwards. */
  lemma FindApplicableBucketsExample()
    ensures FindApplicableBuckets(250) ==
      [Finite(300), Finite(600), Finite(900), Finite(1200), Finite(1500), Finite(1800),
       Finite(2100), Finite(2400), Finite(2700), Inf]
  {
    FindApplicableBucketsSuffix(250);
    LadderShape();
    assert FirstAbove(Ladder, 250) == 1;
  }

  function DigitChar(n: nat): char
    requires n < 10
  {
    "0123456789"[n]
  }

  /** `str(n)` for a natural number: its decimal digits, most significant
      first, without leading zeros. */
  function DecimalString(n: nat): string
  {
    if n < 10 then [DigitChar(n)] else DecimalString(n / 10) + [DigitChar(n % 10)]
  }

  /** A decimal name is a non-empty string of digits with no leading zero. */
  lemma {:induction false} DecimalDigits(n: nat)
    ensures |DecimalString(n)| >= 1
    ensures forall c :: c in DecimalString(n) ==> '0' <= c <= '9'
    ensures n >= 10 ==> DecimalString(n)[0] != '0'
  {
    if n >= 10 {
      DecimalDigits(n / 10);
    }
  }

  /** The number a string of decimal digits denotes. */
  function DecimalValue(s: string): nat
  {
    if s == [] then 0
    else
      var c := s[|s| - 1];
      var digit := if '0' <= c <= '9' then (c as int) - ('0' as int) else 0;
      10 * DecimalValue(s[..|s| - 1]) + digit
  }

  /** Reading back a decimal name gives the number. */
  lemma {:induction false} DecimalRoundTrip(n: nat)
    ensures DecimalValue(DecimalString(n)) == n
  {
    if n >= 10 {
      DecimalRoundTrip(n / 10);
      var s := DecimalString(n);
      assert s[..|s| - 1] == DecimalString(n / 10);
    }
  }

  /** `str(bucket)`: the exposed name of a bucket. */
  function BucketName(b: Bound): string
  {
    match b
    case Finite(s) => DecimalString(s)
    case Inf => "+Inf"
  }

  /** Different bounds get different names. */
  lemma BucketNameInjective(a: Bound, b: Bound)
    ensures BucketName(a) == BucketName(b) ==> a == b
  {
    match (a, b)
    case (Finite(x), Finite(y)) =>
      DecimalRoundTrip(x);
      DecimalRoundTrip(y);
    case (Finite(x), Inf) =>
      DecimalDigits(x);
      assert '+' !in BucketName(a);
    case (Inf, Finite(y)) =>
      DecimalDigits(y);
      assert '+' !in BucketName(b);
    case (Inf, Inf) =>
  }

  /** The decimal names of the three-digit bounds. */
  lemma ThreeDigitNames()
    ensures DecimalString(180) == "180" && DecimalString(300) == "300"
    ensures DecimalString(600) == "600" && DecimalString(900) == "900"
  {
    assert DigitChar(0) == '0' && DigitChar(1) == '1' && DigitChar(3) == '3';
    assert DigitChar(6) == '6' && DigitChar(8) == '8' && DigitChar(9) == '9';
  }

  /** The decimal names of the four-digit bounds. */
  lemma FourDigitNames()
    ensures DecimalString(1200) == "1200" && DecimalString(1500) == "1500"
    ensures DecimalString(1800) == "1800" && DecimalString(2100) == "2100"
    ensures DecimalString(2400) == "2400" && DecimalString(2700) == "2700"
  {
    assert DigitChar(0) == '0' && DigitChar(1) == '1' && DigitChar(2) == '2';
    assert DigitChar(4) == '4' && DigitChar(5) == '5' && DigitChar(7) == '7';
    assert DigitChar(8) == '8';
  }

  /** The names of the ladder, in order. */
  lemma LadderNames()
    ensures seq(|Ladder|, i requires 0 <= i < |Ladder| => BucketName(Ladder[i])) ==
      ["180", "300", "600", "900", "1200", "1500", "1800", "2100", "2400", "2700", "+Inf"]
  {
    LadderShape();
    ThreeDigitNames();
    FourDigitNames();
  }
}
