/**
 * Account records: the user manager's `create_user` guard, e-mail
 * normalisation, username generation and its collision-suffix search,
 * `save`, the early return of `create_stripe_customer`, the displayed
 * monthly price of a plan, and the e-mail verification-code check of the
 * settings page.
 */
module Accounts {
  import opened Wrappers
  import Text

  /** The columns of `CustomUser` these operations read or write. */
  datatype UserRecord = UserRecord(
    email: string, username: Option<string>, customer: Option<string>, emailVerified: bool)

  /** `ValueError` for a missing e-mail; `IntegrityError` from the unique e-mail column. */
  datatype AccountError = EmailRequired | DuplicateEmail

  /**
   * The `**extra_fields` of `create_user`, as far as these columns go: a
   * username, a customer id and the verified flag. A column that is not
   * passed keeps its default (None, None, false).
   */
  datatype ExtraFields = ExtraFields(username: Option<string>, customer: Option<string>, emailVerified: bool)

  /** `if x:` on a nullable text column. */
  predicate Present(x: Option<string>) {
    x.Some? && Text.Truthy(x.value)
  }

  // ---------------------------------------------------------------------
  // E-mail normalisation

  /** `s.rsplit('@', 1)` for an `s` that contains an '@'. */
  function SplitAtLastAt(s: string): (parts: (string, string))
    requires '@' in s
    ensures s == parts.0 + "@" + parts.1
    ensures '@' !in parts.1
  {
    var domain := Text.AfterLast(s, '@');
    var local := s[..|s| - |domain| - 1];
    assert s == local + "@" + domain;
    (local, domain)
  }

  /**
   * `BaseUserManager.normalize_email`: split the stripped address at its last
   * '@' and lower-case the domain. Without an '@' the address is returned as
   * given, not even stripped.
   */
  function NormalizeEmail(email: string): (r: string)
    ensures '@' !in Text.Strip(email) ==> r == email
    ensures '@' in Text.Strip(email) ==> '@' in r && |r| == |Text.Strip(email)|
  {
    var s := Text.Strip(email);
    if '@' !in s then email
    else
      var (local, domain) := SplitAtLastAt(s);
      local + "@" + Text.Lower(domain)
  }

  /**
   * Against an independent description: for any way of writing the stripped
   * address as `local@domain` with no '@' in `domain`, the result is
   * `local@` followed by the lower-cased domain.
   */
  lemma NormalizeEmailMeaning(email: string, local: string, domain: string)
    requires Text.Strip(email) == local + "@" + domain
    requires '@' !in domain
    ensures NormalizeEmail(email) == local + "@" + Text.Lower(domain)
  {
    var s := Text.Strip(email);
    assert s[|local|] == '@';
    Text.AfterLastOfJoin(local, '@', domain);
    assert local + "@" + domain == local + ['@'] + domain;
    var parts := SplitAtLastAt(s);
    assert parts.1 == domain;
    assert parts.0 == s[..|local|] == local;
  }

  lemma LowerHasNoAt(d: string)
    requires '@' !in d
    ensures '@' !in Text.Lower(d)
  {
  }

  /** Normalising a normalised address changes nothing. */
  lemma NormalizeEmailIdempotent(email: string)
    ensures NormalizeEmail(NormalizeEmail(email)) == NormalizeEmail(email)
  {
    var s := Text.Strip(email);
    if '@' in s {
      var (local, domain) := SplitAtLastAt(s);
      var r := NormalizeEmail(email);
      var low := Text.Lower(domain);
      assert r == local + "@" + low;
      assert !Text.IsSpace(r[0]) by {
        if local != [] { assert r[0] == s[0]; } else { assert r[0] == '@'; }
      }
      assert !Text.IsSpace(r[|r| - 1]) by {
        if domain != [] {
          Text.LowerKeepsSpaces(domain);
          assert r[|r| - 1] == low[|low| - 1];
          assert domain[|domain| - 1] == s[|s| - 1];
        } else {
          assert r[|r| - 1] == '@';
        }
      }
      Text.StripOfTrimmed(r);
      LowerHasNoAt(domain);
      NormalizeEmailMeaning(r, local, low);
      Text.LowerIdempotent(domain);
    }
  }

  // ---------------------------------------------------------------------
  // Username generation

  /** `base` itself, then `base1`, `base2`, ... */
  function Candidate(base: string, k: nat): string {
    if k == 0 then base else base + Text.NatToString(k)
  }

  lemma CandidateLonger(base: string, k: nat)
    ensures k != 0 ==> |Candidate(base, k)| > |base|
  {
  }

  /** The counter value at which the search gives up. */
  const SearchLimit: nat := 10000

  /**
   * The `while` loop of `generate_username`, entered with `counter` and the
   * candidate for `counter - 1`: it advances while that candidate is taken
   * and `counter` is below the limit, and returns the final counter.
   */
  function SuffixSearch(base: string, taken: set<string>, counter: nat): (c: nat)
    requires 1 <= counter <= SearchLimit
    ensures counter <= c <= SearchLimit
    ensures forall j :: counter - 1 <= j < c - 1 ==> Candidate(base, j) in taken
    ensures c < SearchLimit ==> Candidate(base, c - 1) !in taken
    decreases SearchLimit - counter
  {
    if Candidate(base, counter - 1) in taken && counter < SearchLimit then
      SuffixSearch(base, taken, counter + 1)
    else counter
  }

  /** The fallback name `user_<token>`, where `token` stands for eight random hex digits. */
  function Fallback(token: string): string {
    "user_" + token
  }

  /**
   * `generate_username` for a user without a username: the text of the e-mail
   * before the first '@', with the smallest free numeric suffix, or the
   * fallback once the counter reaches 10000.
   */
  function GenerateUsername(email: string, taken: set<string>, token: string): (r: string)
    ensures var base := Text.BeforeFirst(email, '@');
            base !in taken ==> r == base
  {
    var base := Text.BeforeFirst(email, '@');
    var c := SuffixSearch(base, taken, 1);
    if c >= SearchLimit then Fallback(token) else Candidate(base, c - 1)
  }

  /** `base<k>` is free and every earlier candidate is taken. */
  predicate FirstFree(base: string, taken: set<string>, k: nat) {
    k < SearchLimit - 1 && Candidate(base, k) !in taken
    && forall j :: 0 <= j < k ==> Candidate(base, j) in taken
  }

  /** `r` is the first free candidate, or the fallback when `base` .. `base9998` are all taken. */
  predicate ChosenName(base: string, taken: set<string>, token: string, r: string) {
    (r == Fallback(token) && forall j :: 0 <= j < SearchLimit - 1 ==> Candidate(base, j) in taken)
    || (exists k :: 0 <= k < SearchLimit && FirstFree(base, taken, k) && r == Candidate(base, k))
  }

  /**
   * What the search returns, against an independent description: the first
   * free candidate among `base`, `base1`, ..., `base9998`, or the fallback
   * when all of them are taken (`base9999` is never tried).
   */
  lemma GenerateUsernameMeaning(email: string, taken: set<string>, token: string)
    ensures ChosenName(Text.BeforeFirst(email, '@'), taken, token, GenerateUsername(email, taken, token))
  {
    var base := Text.BeforeFirst(email, '@');
    var c := SuffixSearch(base, taken, 1);
    if c < SearchLimit {
      var r := GenerateUsername(email, taken, token);
      assert FirstFree(base, taken, c - 1) && r == Candidate(base, c - 1);
    } else {
      assert Candidate(base, SearchLimit - 2) in taken;
    }
  }

  /** An e-mail whose local part is taken gets the suffix 1 when that is free. */
  lemma TakenBaseGetsSuffixOne()
    ensures GenerateUsername("a@x.com", {"a"}, "0123abcd") == "a1"
  {
    assert Text.BeforeFirst("a@x.com", '@') == "a";
    assert Candidate("a", 1) == "a1";
    assert SuffixSearch("a", {"a"}, 2) == 2;
  }

  /** `generate_username`: a user that already has a username is left alone. */
  function EnsureUsername(user: UserRecord, taken: set<string>, token: string): (r: UserRecord)
    ensures Present(user.username) ==> r == user
    ensures !Present(user.username) ==> r == user.(username := Some(GenerateUsername(user.email, taken, token)))
  {
    if Present(user.username) then user
    else user.(username := Some(GenerateUsername(user.email, taken, token)))
  }

  /** `save`: the record written always carries a username; nothing else is altered. */
  function Save(user: UserRecord, taken: set<string>, token: string): (r: UserRecord)
    ensures r.username.Some?
    ensures r.(username := user.username) == user
    ensures Present(user.username) ==> r == user
  {
    EnsureUsername(user, taken, token)
  }

  /** Saving twice is saving once. */
  lemma SaveIdempotent(user: UserRecord, taken: set<string>, token: string, token2: string)
    ensures Save(Save(user, taken, token), taken, token2) == Save(user, taken, token)
  {
    if !Present(user.username) {
      var r := GenerateUsername(user.email, taken, token);
      if r == [] {
        // An empty name is only ever the free, empty local part, which a second search finds again.
        GenerateUsernameMeaning(user.email, taken, token);
        var base := Text.BeforeFirst(user.email, '@');
        assert r != Fallback(token);
        var k :| FirstFree(base, taken, k) && r == Candidate(base, k);
        CandidateLonger(base, k);
        assert k == 0;
        assert GenerateUsername(user.email, taken, token2) == base;
      }
    }
  }

  /**
   * `create_user`: an empty e-mail raises; otherwise the address is
   * normalised, the record built from it and the extra fields, a username
   * generated unless one was given, and the user saved. `emails` are the
   * addresses already stored: the unique column refuses a second row with
   * the same address.
   */
  function CreateUser(email: string, extra: ExtraFields, emails: set<string>, taken: set<string>, token: string)
    : (r: Result<UserRecord, AccountError>)
    ensures r == Err(EmailRequired) <==> email == []
    ensures email != [] ==> (r == Err(DuplicateEmail) <==> NormalizeEmail(email) in emails)
    ensures r.Ok? ==> r.value.email == NormalizeEmail(email) && r.value.email !in emails
                      && r.value.username.Some?
    ensures r.Ok? ==> r.value.customer == extra.customer && r.value.emailVerified == extra.emailVerified
    ensures r.Ok? && Present(extra.username) ==> r.value.username == extra.username
    ensures r.Ok? ==> NormalizeEmail(r.value.email) == r.value.email
  {
    NormalizeEmailIdempotent(email);
    if email == [] then Err(EmailRequired)
    else
      var user := EnsureUsername(UserRecord(NormalizeEmail(email), extra.username, extra.customer, extra.emailVerified),
                                 taken, token);
      if user.email in emails then Err(DuplicateEmail) else Ok(Save(user, taken, token))
  }

  /** A user created without a username gets the first free name derived from the address. */
  lemma CreateUserMeaning(email: string, extra: ExtraFields, emails: set<string>, taken: set<string>, token: string)
    ensures var r := CreateUser(email, extra, emails, taken, token);
            r.Ok? && !Present(extra.username) ==>
              ChosenName(Text.BeforeFirst(r.value.email, '@'), taken, token, r.value.username.value)
  {
    GenerateUsernameMeaning(NormalizeEmail(email), taken, token);
  }

  // ---------------------------------------------------------------------
  // Payment-provider customer

  /** The customer id in use, the updated record, and whether a new customer was created. */
  datatype CustomerOutcome = CustomerOutcome(id: string, user: UserRecord, created: bool)

  /**
   * `create_stripe_customer`; `newId` is the id the provider's
   * `Customer.create` returns, or None when that call raises. The exception
   * propagates out of the method before anything is saved, so a None result
   * leaves the stored user as it was.
   */
  function CreateStripeCustomer(user: UserRecord, newId: Option<string>): (r: Option<CustomerOutcome>)
    ensures Present(user.customer) ==> r == Some(CustomerOutcome(user.customer.value, user, false))
    ensures !Present(user.customer) ==> (r.None? <==> newId.None?)
    ensures !Present(user.customer) && newId.Some? ==> r.Some? && r.value.created && r.value.id == newId.value
    ensures r.Some? ==> r.value.user.customer == Some(r.value.id)
    ensures r.Some? ==> r.value.user.(customer := user.customer) == user
  {
    if Present(user.customer) then Some(CustomerOutcome(user.customer.value, user, false))
    else if newId.None? then None
    else Some(CustomerOutcome(newId.value, user.(customer := Some(newId.value)), true))
  }

  /**
   * A second call returns the customer the first one created and creates
   * nothing; it does not reach the provider, so it succeeds even when the
   * provider would fail.
   */
  lemma CreateStripeCustomerOnce(user: UserRecord, newId: string, otherId: Option<string>)
    requires newId != []
    ensures var first := CreateStripeCustomer(user, Some(newId));
            first.Some? && CreateStripeCustomer(first.value.user, otherId) == Some(CustomerOutcome(first.value.id, first.value.user, false))
  {
  }

  // ---------------------------------------------------------------------
  // Displayed monthly price

  /** `f"{cents / 100:.2f}"` for a whole number of cents. */
  function FormatCents(cents: nat): (r: string)
    ensures |r| >= 4 && r[|r| - 3] == '.'
    ensures r[..|r| - 3] == Text.NatToString(cents / 100)
    ensures Text.IsDigit(r[|r| - 2]) && Text.IsDigit(r[|r| - 1])
    ensures 10 * Text.DigitValue(r[|r| - 2]) + Text.DigitValue(r[|r| - 1]) == cents % 100
  {
    var frac := cents % 100;
    Text.NatToString(cents / 100) + "." + [Text.DigitChar(frac / 10), Text.DigitChar(frac % 10)]
  }

  /**
   * The yearly plan's monthly figure, `price / 12 * 0.8`, in cents: the nearest
   * whole number to `cents / 15`. No price lies exactly half-way, so the
   * rounding mode does not matter.
   */
  function YearlyMonthlyCents(cents: nat): (r: nat)
    ensures -7 <= 15 * r - cents <= 7
  {
    var q := cents / 15;
    if cents % 15 <= 7 then q else q + 1
  }

  /**
   * `get_monthly_price` for a price given in cents: a 30-day plan shows its
   * price, a 365-day plan 80% of a twelfth of it, any other duration nothing.
   */
  function GetMonthlyPrice(durationDays: int, priceCents: nat): (r: Option<string>)
    ensures durationDays == 30 ==> r == Some(FormatCents(priceCents))
    ensures durationDays == 365 ==> r.Some? && exists m: nat :: r.value == FormatCents(m) && -7 <= 15 * m - priceCents <= 7
    ensures durationDays != 30 && durationDays != 365 ==> r.None?
  {
    if durationDays == 30 then Some(FormatCents(priceCents))
    else if durationDays == 365 then Some(FormatCents(YearlyMonthlyCents(priceCents)))
    else None
  }

  /** The yearly plan's monthly figure is never above the plan's price. */
  lemma YearlyMonthlyBelowPrice(cents: nat)
    ensures YearlyMonthlyCents(cents) <= cents
  {
  }

  /** The displayed price reads back as the amount: whole units before the point, cents after it. */
  lemma FormatCentsReadsBack(cents: nat)
    ensures var r := FormatCents(cents);
            (forall i :: 0 <= i < |r| - 3 ==> Text.IsDigit(r[i]))
            && 100 * Text.ParseDigits(r[..|r| - 3]) + 10 * Text.DigitValue(r[|r| - 2]) + Text.DigitValue(r[|r| - 1]) == cents
  {
    Text.ParseNatToString(cents / 100);
  }

  /** Distinct cent amounts are displayed differently. */
  lemma {:induction false} FormatCentsInjective(a: nat, b: nat)
    requires FormatCents(a) == FormatCents(b)
    ensures a == b
  {
    var sa := Text.NatToString(a / 100);
    var sb := Text.NatToString(b / 100);
    var fa := FormatCents(a);
    assert fa[..|fa| - 3] == sa;
    assert FormatCents(b)[..|fa| - 3] == sb;
    Text.NatToStringInjective(a / 100, b / 100);
    assert Text.DigitValue(fa[|fa| - 2]) == (a % 100) / 10 == (b % 100) / 10;
    assert Text.DigitValue(fa[|fa| - 1]) == (a % 100) % 10 == (b % 100) % 10;
  }

  // ---------------------------------------------------------------------
  // Verification code

  /** The reply, the user's verified flag afterwards, and the code left in the session. */
  datatype VerifyOutcome = VerifyOutcome(success: bool, emailVerified: bool, sessionCode: Option<string>)

  /**
   * The `verify_code` branch of the settings page as written: the posted
   * `code` (None when absent) is compared with the session's code (None when
   * none was sent), so two absent codes compare equal.
   */
  function VerifyCodeAsWritten(entered: Option<string>, session: Option<string>, verified: bool): (r: VerifyOutcome)
    ensures r.success <==> entered == session
    ensures r.success ==> r.emailVerified && r.sessionCode.None?
    ensures !r.success ==> r.emailVerified == verified && r.sessionCode == session
  {
    if entered == session then VerifyOutcome(true, true, None)
    else VerifyOutcome(false, verified, session)
  }

  /** With no code ever sent and none posted, the code as written marks the address verified. */
  lemma VerifiedWithoutAnyCode()
    ensures VerifyCodeAsWritten(None, None, false).emailVerified
  {
  }

  /** The check as intended: only a posted code equal to a code that was sent verifies the address. */
  function VerifyCode(entered: Option<string>, session: Option<string>, verified: bool): (r: VerifyOutcome)
    ensures r.success <==> session.Some? && entered == session
    ensures r.success ==> r.emailVerified && r.sessionCode.None?
    ensures !r.success ==> r.emailVerified == verified && r.sessionCode == session
  {
    if session.Some? && entered == session then VerifyOutcome(true, true, None)
    else VerifyOutcome(false, verified, session)
  }

  /** A code is good for one use: once it succeeds, a repeat of the same request fails. */
  lemma VerifyCodeSingleUse(entered: Option<string>, session: Option<string>, verified: bool)
    requires VerifyCode(entered, session, verified).success
    ensures !VerifyCode(entered, VerifyCode(entered, session, verified).sessionCode, true).success
  {
  }

  /** The two agree whenever a code was sent. */
  lemma VerifyCodeAgreesWhenSent(entered: Option<string>, code: string, verified: bool)
    ensures VerifyCode(entered, Some(code), verified) == VerifyCodeAsWritten(entered, Some(code), verified)
  {
  }
}
