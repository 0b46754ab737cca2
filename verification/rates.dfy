/** Human-readable rates: the unit choice behind `AvgHumanize`. Values are
    bytes per second; the base is 1000, or 1024 when binary multiples are
    selected. */
module Rates {
  import opened RealArith

  datatype Unit = Bytes | Kilo | Mega | Giga

  /** The printed unit. The source uses the same labels in both bases. */
  function Label(u: Unit): string {
    match u
    case Bytes => "bytes/s"
    case Kilo => "KB/s"
    case Mega => "MB/s"
    case Giga => "GB/s"
  }

  /** How many times the base divides the value for this unit. */
  function Exponent(u: Unit): nat {
    match u
    case Bytes => 0
    case Kilo => 1
    case Mega => 2
    case Giga => 3
  }

  function Base(mebi: bool): real {
    if mebi then 1024.0 else 1000.0
  }

  /** The number of bytes per second one of `u` stands for: the base raised
      to the unit's exponent. */
  function Scale(u: Unit, mebi: bool): (s: real)
    ensures s >= 1.0
  {
    match u
    case Bytes => 1.0
    case Kilo => if mebi then 1024.0 else 1000.0
    case Mega => if mebi then 1048576.0 else 1000000.0
    case Giga => if mebi then 1073741824.0 else 1000000000.0
  }

  lemma ScaleIsPower(u: Unit, mebi: bool)
    ensures Scale(u, mebi) == Power(Base(mebi), Exponent(u))
  {
    var b := Base(mebi);
    assert Power(b, 1) == b * Power(b, 0);
    assert Power(b, 2) == b * Power(b, 1);
    assert Power(b, 3) == b * Power(b, 2);
  }

  function Power(b: real, k: nat): real {
    if k == 0 then 1.0 else b * Power(b, k - 1)
  }

  /** A value and the unit it is expressed in (the source prints it with
      two decimals, which this model leaves out). */
  datatype Rate = Rate(value: real, unit: Unit)

  /** `r` expresses `val` in the smallest unit, up to GB, whose value is
      below the base: scaling back gives `val`, every smaller unit would
      show a value of at least the base, and only GB may exceed it. */
  ghost predicate Expresses(r: Rate, val: real, mebi: bool) {
    && r.value * Scale(r.unit, mebi) == val
    && (r.unit != Giga ==> r.value < Base(mebi))
    && forall u :: Exponent(u) < Exponent(r.unit) ==> val >= Base(mebi) * Scale(u, mebi)
  }

  /** The unit selection of `AvgHumanize`: divide by the base until the
      quotient is below it, stopping at GB. */
  function Humanize(val: real, mebi: bool): (r: Rate)
    ensures Expresses(r, val, mebi)
  {
    Select(val, Base(mebi))
  }

  /** The source's cascade of comparisons against base `b`. */
  function Select(val: real, b: real): Rate
    requires b > 0.0
  {
    if val < b then Rate(val, Bytes)
    else if val / b < b then Rate(val / b, Kilo)
    else if val / b / b < b then Rate(val / b / b, Mega)
    else Rate(val / b / b / b, Giga)
  }

  /** `Expresses` pins the rate down: there is one way to express a value. */
  lemma ExpressesUnique(r1: Rate, r2: Rate, val: real, mebi: bool)
    requires Expresses(r1, val, mebi) && Expresses(r2, val, mebi)
    ensures r1 == r2
  {
    if Exponent(r1.unit) < Exponent(r2.unit) {
      BelowNextUnit(r1, val, mebi);
    } else if Exponent(r2.unit) < Exponent(r1.unit) {
      BelowNextUnit(r2, val, mebi);
    }
    assert r1.unit == r2.unit;
  }

  lemma BelowNextUnit(r: Rate, val: real, mebi: bool)
    requires Expresses(r, val, mebi) && r.unit != Giga
    ensures val < Base(mebi) * Scale(r.unit, mebi)
  {
    ScaleLt(r.value, Base(mebi), Scale(r.unit, mebi));
  }

  /** A larger rate is never shown in a smaller unit. */
  lemma HumanizeMonotone(v1: real, v2: real, mebi: bool)
    requires v1 <= v2
    ensures Exponent(Humanize(v1, mebi).unit) <= Exponent(Humanize(v2, mebi).unit)
  {
    var b := Base(mebi);
    assert v1 / b <= v2 / b;
    assert v1 / b / b <= v2 / b / b;
  }

  /** Decimal and binary examples, one per unit. */
  lemma HumanizeExamples()
    ensures Humanize(500.0, false) == Rate(500.0, Bytes)
    ensures Humanize(5000.0, false) == Rate(5.0, Kilo)
    ensures Humanize(5000000.0, false) == Rate(5.0, Mega)
    ensures Humanize(5000000000.0, false) == Rate(5.0, Giga)
    ensures Humanize(5000000000000.0, false) == Rate(5000.0, Giga)
    ensures Humanize(1000.0, true) == Rate(1000.0, Bytes)
    ensures Humanize(5120.0, true) == Rate(5.0, Kilo)
  {
  }

  /** The four labels are distinct, so the printed label names the unit. */
  lemma LabelInjective(u: Unit, v: Unit)
    ensures Label(u) == Label(v) <==> u == v
  {
  }

  /** Each unit prints with the same label whichever base is in use. */
  lemma HumanizeLabels()
    ensures Label(Humanize(500.0, false).unit) == "bytes/s" && Label(Humanize(1000.0, true).unit) == "bytes/s"
    ensures Label(Humanize(5000.0, false).unit) == "KB/s" && Label(Humanize(5120.0, true).unit) == "KB/s"
    ensures Label(Humanize(5000000.0, false).unit) == "MB/s" && Label(Humanize(5242880.0, true).unit) == "MB/s"
    ensures Label(Humanize(5000000000.0, false).unit) == "GB/s" && Label(Humanize(5368709120.0, true).unit) == "GB/s"
  {
    HumanizeExamples();
    assert Humanize(5242880.0, true).unit == Mega;
    assert Humanize(5368709120.0, true).unit == Giga;
  }
}
