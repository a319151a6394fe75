/** The Money value object (model/Money.java): an exact decimal amount tagged
    with a currency code. Every operation returns a new value; arithmetic and
    comparison across currencies is refused, and a subtraction whose result
    would fail validation (negative, or an invalid currency) throws. */
module MoneyValue {
  import opened Base

  /** `BigDecimal` amounts are exact decimals, modelled as reals. */
  datatype Money = Money(amount: real, currency: string)

  /** `new Money(long, currency)`: the long counts minor units (cents). */
  function FromMinorUnits(units: int, currency: string): (m: Money)
    ensures m.amount * 100.0 == units as real
    ensures m.currency == currency
  {
    Money(units as real / 100.0, currency)
  }

  /** `validate()`: amount first, then presence and length of the currency. */
  function Validate(m: Money): (c: Check)
    ensures c.Pass? <==> m.amount >= 0.0 && IsIsoCurrency(Some(m.currency))
    ensures m.amount < 0.0 ==> c == Fail(IllegalArgument(NegativeAmount))
    ensures m.amount >= 0.0 && IsBlank(m.currency) ==> c == Fail(IllegalArgument(CurrencyRequired))
    ensures m.amount >= 0.0 && !IsBlank(m.currency) && |m.currency| != 3
            ==> c == Fail(IllegalArgument(CurrencyNotIso4217))
  {
    if m.amount < 0.0 then Fail(IllegalArgument(NegativeAmount))
    else if IsBlank(m.currency) then Fail(IllegalArgument(CurrencyRequired))
    else if |m.currency| != 3 then Fail(IllegalArgument(CurrencyNotIso4217))
    else Pass
  }

  /** `add`: same currency only; the sum is not validated. */
  function Add(a: Money, b: Money): (r: Result<Money>)
    ensures r.Ok? <==> a.currency == b.currency
    ensures r.Ok? ==> r.value.amount == a.amount + b.amount && r.value.currency == a.currency
    ensures r.Err? ==> r.failure == IllegalArgument(AddCurrencyMismatch)
  {
    if a.currency != b.currency then Err(IllegalArgument(AddCurrencyMismatch))
    else Ok(Money(a.amount + b.amount, a.currency))
  }

  /** `subtract`: same currency only, and the difference must validate, so a
      successful subtraction is never negative. */
  function Subtract(a: Money, b: Money): (r: Result<Money>)
    ensures r.Ok? <==> a.currency == b.currency && a.amount >= b.amount && IsIsoCurrency(Some(a.currency))
    ensures r.Ok? ==> r.value.amount == a.amount - b.amount && r.value.currency == a.currency
    ensures r.Ok? ==> r.value.amount >= 0.0
    ensures a.currency != b.currency ==> r == Err(IllegalArgument(SubtractCurrencyMismatch))
    ensures a.currency == b.currency && a.amount < b.amount ==> r == Err(IllegalArgument(NegativeAmount))
  {
    if a.currency != b.currency then Err(IllegalArgument(SubtractCurrencyMismatch))
    else
      var difference := Money(a.amount - b.amount, a.currency);
      match Validate(difference)
      case Fail(e) => Err(e)
      case Pass => Ok(difference)
  }

  /** `isGreaterThanOrEqual`: `compareTo >= 0`, same currency only. */
  function IsGreaterThanOrEqual(a: Money, b: Money): (r: Result<bool>)
    ensures r.Ok? <==> a.currency == b.currency
    ensures r.Ok? ==> (r.value <==> a.amount >= b.amount)
    ensures r.Err? ==> r.failure == IllegalArgument(CompareCurrencyMismatch)
  {
    if a.currency != b.currency then Err(IllegalArgument(CompareCurrencyMismatch))
    else Ok(a.amount >= b.amount)
  }

  /** `isGreaterThan`: `compareTo > 0`, same currency only. */
  function IsGreaterThan(a: Money, b: Money): (r: Result<bool>)
    ensures r.Ok? <==> a.currency == b.currency
    ensures r.Ok? ==> (r.value <==> a.amount > b.amount)
    ensures r.Err? ==> r.failure == IllegalArgument(CompareCurrencyMismatch)
  {
    if a.currency != b.currency then Err(IllegalArgument(CompareCurrencyMismatch))
    else Ok(a.amount > b.amount)
  }

  /** `isZero`: `compareTo(ZERO) == 0`, so the scale of the decimal is ignored. */
  predicate IsZero(m: Money) {
    m.amount == 0.0
  }

  /** Subtracting and adding back the same amount restores the original value. */
  lemma SubtractThenAdd(m: Money, x: Money)
    requires Subtract(m, x).Ok?
    ensures Add(Subtract(m, x).value, x) == Ok(m)
  {
  }

  /** For operands in a valid currency, `isGreaterThanOrEqual` answers exactly
      whether `subtract` would succeed. */
  lemma GreaterOrEqualIffSubtractSucceeds(m: Money, x: Money)
    requires m.currency == x.currency && IsIsoCurrency(Some(m.currency))
    ensures IsGreaterThanOrEqual(m, x) == Ok(Subtract(m, x).Ok?)
  {
  }

  /** The strict comparison is the non-strict one minus equality, and the two
      refuse exactly the same (mismatched) operands. */
  lemma StrictVersusNonStrict(m: Money, x: Money)
    ensures IsGreaterThan(m, x).Ok? <==> IsGreaterThanOrEqual(m, x).Ok?
    ensures IsGreaterThan(m, x).Ok? ==>
      (IsGreaterThan(m, x).value <==> IsGreaterThanOrEqual(m, x).value && m.amount != x.amount)
  {
  }

  /** A value is zero exactly when it is at least, and not more than, zero of
      its own currency. */
  lemma IsZeroByComparison(m: Money)
    ensures IsZero(m) <==>
              (IsGreaterThanOrEqual(m, Money(0.0, m.currency)) == Ok(true)
               && IsGreaterThan(m, Money(0.0, m.currency)) == Ok(false))
  {
  }

  /** Minor units add like the amounts they stand for, and a non-negative
      count of minor units in a valid currency is valid money. */
  lemma MinorUnitsArithmetic(a: int, b: int, currency: string)
    ensures Add(FromMinorUnits(a, currency), FromMinorUnits(b, currency)) == Ok(FromMinorUnits(a + b, currency))
    ensures IsIsoCurrency(Some(currency)) ==> (Validate(FromMinorUnits(a, currency)).Pass? <==> a >= 0)
  {
  }
}
