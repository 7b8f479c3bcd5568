/** The one-time-code registry: a map from email to the code last issued for it and
    the instant it stops being valid. `Issue`, `Check` and `AfterVerify` state the
    rules the controller applies to it; `OtpStore` is the shared, mutable map. */
module OtpRegistry {
  import opened Models
  import Decimal

  /** A code stays valid for one minute after it is issued. */
  const OtpLifetime: int := TicksPerMinute

  /** `Random.Next(100000, 999999)` draws from [MinCode, CodeBound): the upper bound
      is exclusive, so 999999 itself is never drawn. */
  const MinCode: int := 100000
  const CodeBound: int := 999999

  datatype OtpEntry = OtpEntry(otp: string, expiry: Instant)

  /** The four outcomes of a verification. */
  datatype Verdict = NotFound | Expired | Verified | Mismatch

  /** The code text for a drawn number: six decimal digits. */
  function CodeText(code: int): (otp: string)
    requires MinCode <= code < CodeBound
    ensures |otp| == 6 && Decimal.AllDigits(otp)
    ensures Decimal.ParseDecimal(otp) == code
  {
    assert Decimal.Pow10(5) == 100000 && Decimal.Pow10(6) == 1000000;
    Decimal.DecimalStringLength(code, 6);
    Decimal.ParseDecimalString(code);
    Decimal.DecimalString(code)
  }

  /** The registry after issuing `otp` to `email` at `now`: any earlier entry for that
      email is replaced, every other email keeps its entry. */
  function Issue(store: map<string, OtpEntry>, email: string, otp: string, now: Instant): (s: map<string, OtpEntry>)
    ensures s.Keys == store.Keys + {email}
    ensures s[email] == OtpEntry(otp, now + OtpLifetime)
    ensures forall e :: e in store && e != email ==> s[e] == store[e]
  {
    store[email := OtpEntry(otp, now + OtpLifetime)]
  }

  /** The verdict on `otp` for `email` at `now`. Expiry is checked first and strictly:
      a code is still good at its expiry instant, and a late code is `Expired`
      whether or not it matches. */
  function Check(store: map<string, OtpEntry>, email: string, otp: string, now: Instant): (v: Verdict)
    ensures v == NotFound <==> email !in store
    ensures v == Expired ==> email in store && store[email].expiry < now
    ensures v == Mismatch ==> email in store && store[email].otp != otp && now <= store[email].expiry
  {
    if email !in store then NotFound
    else if now > store[email].expiry then Expired
    else if store[email].otp == otp then Verified
    else Mismatch
  }

  /** The registry after a verification: only a successful one removes the entry. */
  function AfterVerify(store: map<string, OtpEntry>, email: string, otp: string, now: Instant): (s: map<string, OtpEntry>)
    ensures Check(store, email, otp, now) == Verified ==> email !in s
    ensures Check(store, email, otp, now) != Verified ==> (email in s <==> email in store)
    ensures forall e :: e in store && (e != email || Check(store, email, otp, now) != Verified) ==> e in s
    ensures forall e :: e in s ==> e in store && s[e] == store[e]
  {
    if Check(store, email, otp, now) == Verified then store - {email} else store
  }

  /** Verification succeeds exactly when there is an entry, it has not expired, and its
      code is the one supplied. */
  lemma VerifiedIff(store: map<string, OtpEntry>, email: string, otp: string, now: Instant)
    ensures Check(store, email, otp, now) == Verified <==>
      email in store && now <= store[email].expiry && store[email].otp == otp
  {
  }

  /** With no entry for the email, the verdict is `NotFound` and the registry is kept. */
  lemma NoEntryNotFound(store: map<string, OtpEntry>, email: string, otp: string, now: Instant)
    requires email !in store
    ensures Check(store, email, otp, now) == NotFound
    ensures AfterVerify(store, email, otp, now) == store
  {
  }

  /** After expiry every code, the right one included, is refused as `Expired`, and
      the entry stays. */
  lemma ExpiredEvenIfMatching(store: map<string, OtpEntry>, email: string, otp: string, now: Instant)
    requires email in store && now > store[email].expiry
    ensures Check(store, email, otp, now) == Expired
    ensures Check(store, email, store[email].otp, now) == Expired
    ensures AfterVerify(store, email, otp, now) == store
  {
  }

  /** Once expired, an entry never verifies again at any later time, with any code. */
  lemma ExpiryIsFinal(store: map<string, OtpEntry>, email: string, otp: string, now: Instant, otp2: string, later: Instant)
    requires Check(store, email, otp, now) == Expired && now <= later
    ensures Check(store, email, otp2, later) == Expired
  {
  }

  /** A wrong code before expiry is refused as `Mismatch`, the entry stays, and the
      right code still verifies afterwards until expiry. */
  lemma MismatchAllowsRetry(store: map<string, OtpEntry>, email: string, wrong: string, now: Instant, later: Instant)
    requires email in store && wrong != store[email].otp
    requires now <= later <= store[email].expiry
    ensures Check(store, email, wrong, now) == Mismatch
    ensures AfterVerify(store, email, wrong, now) == store
    ensures Check(AfterVerify(store, email, wrong, now), email, store[email].otp, later) == Verified
  {
  }

  /** A freshly issued code verifies up to and including its expiry instant, and not
      one tick later. */
  lemma IssuedCodeVerifiesWithinLifetime(store: map<string, OtpEntry>, email: string, otp: string, issuedAt: Instant, now: Instant)
    ensures Check(Issue(store, email, otp, issuedAt), email, otp, now) == Verified <==> now <= issuedAt + OtpLifetime
  {
  }

  /** Verification is single use: after a success the entry is gone, so any further
      verification for that email, with any code at any time, finds nothing. */
  lemma SingleUse(store: map<string, OtpEntry>, email: string, otp: string, now: Instant, otp2: string, later: Instant)
    requires Check(store, email, otp, now) == Verified
    ensures Check(AfterVerify(store, email, otp, now), email, otp2, later) == NotFound
  {
  }

  /** Issuing again supersedes the earlier code: when the two drawn numbers differ, the
      first code no longer verifies (their texts differ because each reads back as its
      number, see `CodeText`). */
  lemma ReissueSupersedes(store: map<string, OtpEntry>, email: string, first: int, second: int, t1: Instant, t2: Instant, now: Instant)
    requires MinCode <= first < CodeBound && MinCode <= second < CodeBound && first != second
    ensures Check(Issue(Issue(store, email, CodeText(first), t1), email, CodeText(second), t2), email, CodeText(first), now) != Verified
  {
  }

  /** A verification changes only the entry of its own email. */
  lemma VerifyIsolated(store: map<string, OtpEntry>, email: string, otp: string, now: Instant, other: string)
    requires other != email
    ensures other in AfterVerify(store, email, otp, now) <==> other in store
    ensures other in store ==> AfterVerify(store, email, otp, now)[other] == store[other]
  {
  }

  /** The process-wide registry (a static concurrent dictionary in the service): one
      object, shared by every controller that holds a reference to it. */
  class OtpStore {
    var entries: map<string, OtpEntry>

    /** The registry starts empty: no email has a code. */
    constructor ()
      ensures entries == map[]
    {
      entries := map[];
    }
  }
}
