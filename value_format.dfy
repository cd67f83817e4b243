/**
 * The billions/trillions rule both charts apply to a value in billions of
 * US dollars: from 1000 on, the value is divided by 1000 and shown with a
 * trillion unit; below it, it is shown as it is with a billion unit.
 *
 * Values are exact fixed-point numbers in hundredths of a billion (7.3
 * billion is 730), so the division by 1000 only moves the decimal point.
 */
module ValueFormat {
  import opened Wrappers
  import opened Decimal

  /** Fraction digits of a chart value: values count hundredths of a billion. */
  const ValueExp: nat := 2

  /** 1000 billion, in hundredths of a billion: the first value shown in trillions. */
  const TrillionThreshold: nat := 100000

  datatype Unit = Billion | Trillion

  /** How the amount is printed: `${x}` or `x.toFixed(places)`. */
  datatype Notation = Plain | FixedPlaces(places: nat)

  /**
   * One of the page's formatter callbacks: the text before the dollar sign,
   * how an amount in trillions is printed, and whether the unit is spelled out
   * (" Trillion" / " Billion") or abbreviated ("T" / "B").
   */
  datatype Site = Site(lead: string, trillionNotation: Notation, longUnit: bool)

  /** A value brought to its display unit, before it is printed. */
  datatype Scaled = Scaled(lead: string, amount: Dec, notation: Notation, unit: Unit, longUnit: bool)

  /** The size of a unit, in billions. */
  function UnitBillions(u: Unit): nat {
    if u == Billion then 1 else 1000
  }

  /** Picks the unit for `value` and expresses the value in it. */
  function Scale(site: Site, value: nat): (r: Scaled)
    ensures r.unit == Trillion <==> value >= TrillionThreshold
    ensures r.amount.mantissa * Pow10(ValueExp) * UnitBillions(r.unit) == value * Pow10(r.amount.exp)
    ensures r.unit == Billion ==> r.notation == Plain
    ensures r.unit == Trillion ==> r.notation == site.trillionNotation
    ensures r.lead == site.lead && r.longUnit == site.longUnit
  {
    Pow10Table();
    if value >= TrillionThreshold then
      Scaled(site.lead, Dec(value, ValueExp + 3), site.trillionNotation, Trillion, site.longUnit)
    else
      Scaled(site.lead, Dec(value, ValueExp), Plain, Billion, site.longUnit)
  }

  function AmountText(s: Scaled): string {
    match s.notation
    case Plain => ShortestText(s.amount)
    case FixedPlaces(p) => FixedText(s.amount, p)
  }

  function UnitText(u: Unit, longUnit: bool): string {
    match u
    case Billion => if longUnit then " Billion" else "B"
    case Trillion => if longUnit then " Trillion" else "T"
  }

  function Display(s: Scaled): string {
    s.lead + "$" + AmountText(s) + UnitText(s.unit, s.longUnit)
  }

  /** What the callback of `site` returns for `value`. */
  function Format(site: Site, value: nat): string {
    Display(Scale(site, value))
  }

  /**
   * The printed amount reads back as the value in its unit: exactly for `${x}`
   * (so always in billions), and for `toFixed(places)` when the amount has at most
   * `places` fraction digits; otherwise rounded to the nearest multiple of
   * 10^-places, ties upward.
   */
  lemma AmountReadsBack(site: Site, value: nat)
    ensures var s := Scale(site, value);
      && Format(site, value) == site.lead + "$" + AmountText(s) + UnitText(s.unit, site.longUnit)
      && Parse(AmountText(s)).Some?
      && (s.notation == Plain ==> SameValue(Parse(AmountText(s)).value, s.amount))
      && (s.notation.FixedPlaces? ==> Parse(AmountText(s)).value.exp == s.notation.places)
      && (s.notation.FixedPlaces? && s.notation.places >= s.amount.exp ==>
            SameValue(Parse(AmountText(s)).value, s.amount))
      && (s.notation.FixedPlaces? && s.notation.places < s.amount.exp ==>
            var p := Pow10(s.amount.exp - s.notation.places);
            var q := Parse(AmountText(s)).value.mantissa;
            2 * value < 2 * (q * p) + p && 2 * (q * p) <= 2 * value + p)
  {
    var s := Scale(site, value);
    match s.notation
    case Plain =>
      ShortestTextParses(s.amount);
    case FixedPlaces(places) =>
      FixedTextParses(s.amount, places);
  }

  /** Every call site picks the same unit for a value and scales it the same way. */
  lemma SitesAgree(a: Site, b: Site, value: nat)
    ensures Scale(a, value).unit == Scale(b, value).unit
    ensures Scale(a, value).amount == Scale(b, value).amount
  {
  }
}
