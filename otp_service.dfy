/**
 * OtpServiceImpl: one-time codes keyed by email. The otp_codes table is a
 * map from email to its row; the wall clock is an integer number of seconds
 * passed in by the caller; the code generator and the notification sender
 * are inputs (the generated code, and whether delivery succeeded).
 */
module OtpService {
  import opened Wrappers
  import opened Failures
  import opened JavaText

  /** Duration.ofMinutes(3), in seconds. */
  const OTP_VALIDITY_SECONDS: int := 180

  /** A Java int, the type of the submitted code. */
  type JavaInt = x: int | -0x8000_0000 <= x <= 0x7FFF_FFFF

  /** A row of the otp table; `used` is the column markOtpAsUsed writes. */
  datatype OtpRow = OtpRow(otp: string, createdAt: int, expiresAt: int, used: bool)

  /** The OtpCode entity the DAO hands back: it has no used flag. */
  datatype OtpCode = OtpCode(otp: string, email: string, createdAt: int, expiresAt: int)

  datatype OtpValidationStatus = VALID | INVALID | EXPIRED | NOT_FOUND

  /**
   * processOtpValidation's classifier, checks in source order: absent record,
   * then expiry (strictly before now), then the code against the decimal
   * rendering of the submitted int.
   */
  function Classify(code: Option<OtpCode>, submitted: JavaInt, now: int): (status: OtpValidationStatus)
    ensures status == NOT_FOUND <==> code.None?
    ensures status == EXPIRED <==> code.Some? && code.value.expiresAt < now
    ensures status == VALID <==> code.Some? && now <= code.value.expiresAt && code.value.otp == DecimalString(submitted)
    ensures status == INVALID <==> code.Some? && now <= code.value.expiresAt && code.value.otp != DecimalString(submitted)
  {
    if code.None? then NOT_FOUND
    else if code.value.expiresAt < now then EXPIRED
    else if code.value.otp != DecimalString(submitted) then INVALID
    else VALID
  }

  /** The record as otpDao.findByEmail returns it. */
  function Lookup(rows: map<string, OtpRow>, email: string): (code: Option<OtpCode>)
    ensures code.Some? <==> email in rows
    ensures code.Some? ==> code.value.email == email && code.value.otp == rows[email].otp
                           && code.value.expiresAt == rows[email].expiresAt
  {
    if email in rows then Some(OtpCode(rows[email].otp, email, rows[email].createdAt, rows[email].expiresAt)) else None
  }

  /** The row a code gets when it is created at `now`. */
  function FreshRow(otp: string, now: int): OtpRow {
    OtpRow(otp, now, now + OTP_VALIDITY_SECONDS, false)
  }

  /** markOtpAsUsed: set used on the row matching both email and code. */
  function MarkedUsed(rows: map<string, OtpRow>, email: string, otp: string): (marked: map<string, OtpRow>)
    ensures marked.Keys == rows.Keys
    ensures forall e :: e in rows && e != email ==> marked[e] == rows[e]
    ensures email in rows && rows[email].otp == otp ==> marked[email] == rows[email].(used := true)
    ensures !(email in rows && rows[email].otp == otp) ==> marked == rows
  {
    if email in rows && rows[email].otp == otp then rows[email := rows[email].(used := true)] else rows
  }

  /** validateOtp on the table: the status (or the exception) and the table afterwards. */
  function ValidationStep(rows: map<string, OtpRow>, email: string, submitted: JavaInt, now: int)
    : (step: (Result<OtpValidationStatus, Error>, map<string, OtpRow>))
  {
    match Lookup(rows, email)
    case None => (Failure(ServiceLayer(None)), rows)
    case Some(code) =>
      var status := Classify(Some(code), submitted, now);
      (Success(status), if status == VALID then MarkedUsed(rows, email, code.otp) else rows)
  }

  /** sendOtpToEmail on the table: the outcome and the table afterwards. */
  function SendStep(rows: map<string, OtpRow>, email: string, generated: Option<string>, delivered: bool, now: int)
    : (step: (Result<(), Error>, map<string, OtpRow>))
  {
    if generated.None? || IsBlank(generated.value) then (Failure(ServiceLayer(Some(OtpGenerationFailed))), rows)
    else
      var stored := rows[email := FreshRow(generated.value, now)];
      if delivered then (Success(()), stored) else (Failure(ServiceLayer(Some(EmailService))), stored)
  }

  class OtpStore {
    /** The otp table, one row per email. */
    var rows: map<string, OtpRow>

    constructor ()
      ensures rows == map[]
    {
      rows := map[];
    }

    /** create: a row for the email with the code, created now, expiring 3 minutes later, not used. */
    method Create(email: string, otp: string, now: int)
      modifies this
      ensures rows == old(rows)[email := FreshRow(otp, now)]
      ensures rows[email].expiresAt - rows[email].createdAt == OTP_VALIDITY_SECONDS
    {
      var otpCode := OtpRow(otp, now, now + OTP_VALIDITY_SECONDS, false);
      rows := rows[email := otpCode];
    }

    /** find: the email's record, or ResourceNotFoundException. */
    function Find(email: string): (r: Result<OtpCode, Error>)
      reads this
      ensures r.Success? <==> email in rows
      ensures r.Failure? ==> r.error == ResourceNotFound
      ensures r.Success? ==> Some(r.value) == Lookup(rows, email)
    {
      match Lookup(rows, email)
      case None => Failure(ResourceNotFound)
      case Some(code) => Success(code)
    }

    /** update: replace the code and set expiry to now + 3 minutes on that email's row only. */
    method Update(email: string, otp: string, now: int)
      modifies this
      ensures email in old(rows) ==>
                rows == old(rows)[email := old(rows)[email].(otp := otp, expiresAt := now + OTP_VALIDITY_SECONDS)]
      ensures email !in old(rows) ==> rows == old(rows)
    {
      if email in rows {
        rows := rows[email := rows[email].(otp := otp, expiresAt := now + OTP_VALIDITY_SECONDS)];
      }
    }

    /** delete: remove the email's row. */
    method Delete(email: string)
      modifies this
      ensures rows == old(rows) - {email}
    {
      rows := rows - {email};
    }

    /** markOtpAsUsed: `UPDATE ... SET used = 'true' WHERE email = ? AND otp = ?`. */
    method MarkOtpAsUsed(otpCode: OtpCode)
      modifies this
      ensures rows == MarkedUsed(old(rows), otpCode.email, otpCode.otp)
    {
      if otpCode.email in rows && rows[otpCode.email].otp == otpCode.otp {
        rows := rows[otpCode.email := rows[otpCode.email].(used := true)];
      }
    }

    /** processOtpValidation: classify, and on VALID only, mark the record used. */
    method ProcessOtpValidation(otpCode: Option<OtpCode>, submitted: JavaInt, now: int) returns (status: OtpValidationStatus)
      modifies this
      ensures status == Classify(otpCode, submitted, now)
      ensures status == VALID ==> rows == MarkedUsed(old(rows), otpCode.value.email, otpCode.value.otp)
      ensures status != VALID ==> rows == old(rows)
    {
      if otpCode.None? {
        return NOT_FOUND;
      }
      if otpCode.value.expiresAt < now {
        return EXPIRED;
      }
      if otpCode.value.otp != DecimalString(submitted) {
        return INVALID;
      }
      status := VALID;
      MarkOtpAsUsed(otpCode.value);
    }

    /** validateOtp: find, then processOtpValidation; a missing record surfaces as ServiceLayerException. */
    method ValidateOtp(email: string, submitted: JavaInt, now: int) returns (r: Result<OtpValidationStatus, Error>)
      modifies this
      ensures (r, rows) == ValidationStep(old(rows), email, submitted, now)
    {
      var found := Find(email);
      if found.Failure? {
        return Failure(ServiceLayer(None));
      }
      var status := ProcessOtpValidation(Some(found.value), submitted, now);
      r := Success(status);
    }

    /** sendOtpToEmail: reject a null or blank code; store it; then notify. */
    method SendOtpToEmail(email: string, generated: Option<string>, delivered: bool, now: int) returns (r: Result<(), Error>)
      modifies this
      ensures (r, rows) == SendStep(old(rows), email, generated, delivered, now)
    {
      if generated.None? || IsBlank(generated.value) {
        return Failure(ServiceLayer(Some(OtpGenerationFailed)));
      }
      Create(email, generated.value, now);
      if !delivered {
        return Failure(ServiceLayer(Some(EmailService)));
      }
      r := Success(());
    }

    method SendOtp(email: string, generated: Option<string>, delivered: bool, now: int) returns (r: Result<(), Error>)
      modifies this
      ensures (r, rows) == SendStep(old(rows), email, generated, delivered, now)
    {
      r := SendOtpToEmail(email, generated, delivered, now);
    }

    method ResendOtp(email: string, generated: Option<string>, delivered: bool, now: int) returns (r: Result<(), Error>)
      modifies this
      ensures (r, rows) == SendStep(old(rows), email, generated, delivered, now)
    {
      r := SendOtpToEmail(email, generated, delivered, now);
    }
  }

  /** A matching code that is past its expiry reports EXPIRED, never VALID. */
  lemma ExpiryCheckedBeforeCode(code: OtpCode, submitted: JavaInt, now: int)
    requires code.otp == DecimalString(submitted) && code.expiresAt < now
    ensures Classify(Some(code), submitted, now) == EXPIRED
  {
  }

  /** At exactly its expiry instant a record is still compared, so a matching code is VALID. */
  lemma ExpiryInstantStillValid(code: OtpCode, submitted: JavaInt)
    requires code.otp == DecimalString(submitted)
    ensures Classify(Some(code), submitted, code.expiresAt) == VALID
  {
  }

  /** A stored code with a leading zero (and more than one digit) never validates. */
  lemma LeadingZeroCodeNeverValid(code: OtpCode, submitted: JavaInt, now: int)
    requires |code.otp| >= 2 && code.otp[0] == '0'
    ensures Classify(Some(code), submitted, now) != VALID
  {
    LeadingZeroNeverRendered(code.otp, submitted);
  }

  /** At most one submitted integer validates a given record. */
  lemma AtMostOneValidSubmission(code: OtpCode, a: JavaInt, b: JavaInt, now: int)
    requires Classify(Some(code), a, now) == VALID && Classify(Some(code), b, now) == VALID
    ensures a == b
  {
    DecimalStringInjective(a, b);
  }

  /** Only VALID writes the table; every other outcome leaves it as it was. */
  lemma OnlyValidWrites(rows: map<string, OtpRow>, email: string, submitted: JavaInt, now: int)
    ensures var (r, after) := ValidationStep(rows, email, submitted, now);
            r != Success(VALID) ==> after == rows
    ensures var (r, after) := ValidationStep(rows, email, submitted, now);
            r == Success(VALID) ==> email in rows && after == rows[email := rows[email].(used := true)]
  {
  }

  /** validateOtp never reports NOT_FOUND: an unknown email fails with ServiceLayerException instead. */
  lemma ValidateNeverReportsNotFound(rows: map<string, OtpRow>, email: string, submitted: JavaInt, now: int)
    ensures ValidationStep(rows, email, submitted, now).0 != Success(NOT_FOUND)
    ensures email !in rows ==> ValidationStep(rows, email, submitted, now).0 == Failure(ServiceLayer(None))
  {
  }

  /**
   * The classifier never reads the used flag: a code that validated once
   * validates again, at any instant up to its expiry.
   */
  lemma {:induction false} ReplayAfterValid(rows: map<string, OtpRow>, email: string, submitted: JavaInt, now: int, later: int)
    requires ValidationStep(rows, email, submitted, now).0 == Success(VALID)
    requires later <= rows[email].expiresAt
    ensures ValidationStep(ValidationStep(rows, email, submitted, now).1, email, submitted, later).0 == Success(VALID)
  {
    var after := ValidationStep(rows, email, submitted, now).1;
    assert after[email].otp == rows[email].otp && after[email].expiresAt == rows[email].expiresAt;
  }

  /**
   * Resending replaces the code in place: after a resend at `now`, the
   * previous code submitted within the new validity window reports INVALID,
   * and the new code reports VALID.
   */
  lemma {:induction false} ResendReplacesCode(rows: map<string, OtpRow>, email: string, newCode: JavaInt, oldCode: JavaInt, now: int, later: int)
    requires oldCode != newCode
    requires now <= later <= now + OTP_VALIDITY_SECONDS
    ensures var after := SendStep(rows, email, Some(DecimalString(newCode)), true, now).1;
            && ValidationStep(after, email, oldCode, later).0 == Success(INVALID)
            && ValidationStep(after, email, newCode, later).0 == Success(VALID)
  {
    var s := DecimalString(newCode);
    DecimalStringNotBlank(newCode);
    var after := SendStep(rows, email, Some(s), true, now).1;
    assert after == rows[email := FreshRow(s, now)];
    assert Lookup(after, email) == Some(OtpCode(s, email, now, now + OTP_VALIDITY_SECONDS));
    if DecimalString(oldCode) == s {
      DecimalStringInjective(oldCode, newCode);
    }
  }

  /** A null or blank generated code fails and stores nothing; otherwise the code is stored even if delivery fails. */
  lemma SendStoresBeforeNotifying(rows: map<string, OtpRow>, email: string, generated: Option<string>, delivered: bool, now: int)
    ensures generated.None? || IsBlank(generated.value) ==>
              SendStep(rows, email, generated, delivered, now) == (Failure(ServiceLayer(Some(OtpGenerationFailed))), rows)
    ensures generated.Some? && !IsBlank(generated.value) ==>
              && SendStep(rows, email, generated, delivered, now).1 == rows[email := FreshRow(generated.value, now)]
              && (SendStep(rows, email, generated, delivered, now).0.Success? <==> delivered)
  {
  }
}
