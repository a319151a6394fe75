/** The Card value object (model/Card.java): a masked card number bound to an
    account, with an expiry date and a status. The current date is a parameter. */
module Cards {
  import opened Base

  datatype CardType = Debit | Credit
  datatype CardStatus = Active | Blocked | Expired

  datatype Card = Card(
    cardType: Option<CardType>,
    maskedNumber: Option<string>,
    accountId: Option<Uuid>,
    expiresAt: Option<Time>,
    status: Option<CardStatus>)

  predicate IsAsciiDigit(c: char) { '0' <= c <= '9' }

  /** The language of `^\*{0,}?[0-9]{4}$` under `String.matches`: any number of
      '*' followed by exactly four ASCII digits, and nothing else. */
  predicate IsMaskedNumber(s: string) {
    && |s| >= 4
    && (forall i | 0 <= i < |s| - 4 :: s[i] == '*')
    && (forall i | |s| - 4 <= i < |s| :: IsAsciiDigit(s[i]))
  }

  /** The pattern match as a single left-to-right scan: a run of '*' while no
      digit has been seen, then digits, and exactly four of them at the end. */
  method MatchesMaskedNumber(s: string) returns (ok: bool)
    ensures ok <==> IsMaskedNumber(s)
  {
    var i := 0;
    while i < |s| && s[i] == '*'
      invariant 0 <= i <= |s|
      invariant forall k | 0 <= k < i :: s[k] == '*'
    {
      i := i + 1;
    }
    assert IsMaskedNumber(s) ==> i == |s| - 4 by {
      // s[|s| - 4] is a digit, so the run of '*' ends exactly there.
      if IsMaskedNumber(s) {
        assert IsAsciiDigit(s[|s| - 4]);
      }
    }
    var digits := 0;
    while i + digits < |s| && digits < 5 && IsAsciiDigit(s[i + digits])
      invariant 0 <= digits <= 5 && i + digits <= |s|
      invariant forall k | i <= k < i + digits :: IsAsciiDigit(s[k])
    {
      digits := digits + 1;
    }
    ok := digits == 4 && i + digits == |s|;
  }

  /** `validate()`: type, a non-blank number in the masked pattern, account,
      expiry date and status, in that order. */
  function Validate(c: Card): (r: Check)
    ensures r.Pass? <==>
              && c.cardType.Some?
              && c.maskedNumber.Some? && IsMaskedNumber(c.maskedNumber.value)
              && c.accountId.Some? && c.expiresAt.Some? && c.status.Some?
    ensures c.cardType.None? ==> r == Fail(IllegalArgument(CardTypeRequired))
    ensures c.cardType.Some? && (c.maskedNumber.None? || IsBlank(c.maskedNumber.value))
            ==> r == Fail(IllegalArgument(MaskedNumberRequired))
    ensures c.cardType.Some? && c.maskedNumber.Some? && !IsBlank(c.maskedNumber.value)
            && !IsMaskedNumber(c.maskedNumber.value)
            ==> r == Fail(IllegalArgument(MaskedNumberPattern))
    ensures c.cardType.Some? && c.maskedNumber.Some? && IsMaskedNumber(c.maskedNumber.value) ==>
              && (c.accountId.None? ==> r == Fail(IllegalArgument(CardAccountRequired)))
              && (c.accountId.Some? && c.expiresAt.None? ==> r == Fail(IllegalArgument(ExpiryRequired)))
              && (c.accountId.Some? && c.expiresAt.Some? && c.status.None? ==> r == Fail(IllegalArgument(CardStatusRequired)))
  {
    if c.cardType.None? then Fail(IllegalArgument(CardTypeRequired))
    else if c.maskedNumber.None? then Fail(IllegalArgument(MaskedNumberRequired))
    else
      MaskedNumbersAreNotBlank(c.maskedNumber.value);
      if IsBlank(c.maskedNumber.value) then Fail(IllegalArgument(MaskedNumberRequired))
      else if !IsMaskedNumber(c.maskedNumber.value) then Fail(IllegalArgument(MaskedNumberPattern))
      else if c.accountId.None? then Fail(IllegalArgument(CardAccountRequired))
      else if c.expiresAt.None? then Fail(IllegalArgument(ExpiryRequired))
      else if c.status.None? then Fail(IllegalArgument(CardStatusRequired))
      else Pass
  }

  /** `isExpired()` on `today`: the expiry date lies strictly before it; a
      missing expiry date throws on dereference. */
  function IsExpired(c: Card, today: Time): (r: Result<bool>)
    ensures c.expiresAt.None? ==> r == Err(NullPointer)
    ensures c.expiresAt.Some? ==> r == Ok(c.expiresAt.value < today)
  {
    match c.expiresAt
    case None => Err(NullPointer)
    case Some(d) => Ok(d < today)
  }

  /** `isActive()` on `today`: ACTIVE status and not expired; the status is
      tested first, so a non-ACTIVE card never reads its expiry date. */
  function IsActive(c: Card, today: Time): (r: Result<bool>)
    ensures c.status != Some(Active) ==> r == Ok(false)
    ensures c.status == Some(Active) ==> r == (match IsExpired(c, today) case Ok(x) => Ok(!x) case Err(e) => Err(e))
  {
    if c.status != Some(Active) then Ok(false)
    else match IsExpired(c, today)
      case Err(e) => Err(e)
      case Ok(expired) => Ok(!expired)
  }

  /** A card that expires today is still valid today, and an active card is
      never expired. */
  lemma ActiveImpliesNotExpired(c: Card, today: Time)
    ensures c.expiresAt == Some(today) ==> IsExpired(c, today) == Ok(false)
    ensures IsActive(c, today) == Ok(true) ==> IsExpired(c, today) == Ok(false)
  {
  }

  /** BLOCKED and EXPIRED cards are inactive whatever the date, even without one. */
  lemma BlockedOrExpiredNeverActive(c: Card, today: Time)
    requires c.status == Some(Blocked) || c.status == Some(Expired)
    ensures IsActive(c, today) == Ok(false)
  {
  }

  /** A number in the masked pattern is never blank, so the pattern check alone
      decides validity of a present number. */
  lemma MaskedNumbersAreNotBlank(s: string)
    ensures IsMaskedNumber(s) ==> !IsBlank(s)
  {
    if IsMaskedNumber(s) {
      assert !IsWhitespace(s[|s| - 1]);
    }
  }
}
