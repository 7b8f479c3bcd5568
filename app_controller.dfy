/** `UsersController`: the signup, login and one-time-code endpoints. Each request
    is one call; the controller keeps no state of its own beyond references to the
    repository, the shared code registry and the token service. */
module Controllers {
  import opened Wrappers
  import opened Models
  import Hashing
  import Repository
  import OtpRegistry

  const DuplicateEmailMessage: string := "Email already exists with another account"
  const SignupErrorMessage: string := "Unexpected error in Signup: "
  const UnknownEmailMessage: string := "Email does not exist"
  const WrongPasswordMessage: string := "Password Incorrect"
  const LoggedInMessage: string := "Logged In"
  const LoginErrorMessage: string := "Unexpected error in Login: "
  const NoSuchEmailMessage: string := "No such email exists"
  const OtpSentMessage: string := "OTP sent successfully"
  const SendOtpErrorMessage: string := "Unexpected error in SendOtp: "
  const OtpExpiredMessage: string := "OTP expired"
  const OtpVerifiedMessage: string := "OTP verified successfully"
  const InvalidOtpMessage: string := "Invalid OTP"
  const NoOtpMessage: string := "No OTP found for this email"

  /** The response the verify endpoint gives for each verdict. */
  function VerifyResponse(v: OtpRegistry.Verdict): (r: ApiResponse)
    ensures r.status == Success <==> v == OtpRegistry.Verified
  {
    match v
    case NotFound => ApiResponse(Failure, NoOtpMessage)
    case Expired => ApiResponse(Failure, OtpExpiredMessage)
    case Verified => ApiResponse(Success, OtpVerifiedMessage)
    case Mismatch => ApiResponse(Failure, InvalidOtpMessage)
  }

  /** Each verdict has its own message, so the caller can tell the four apart. */
  lemma VerifyResponsesDistinct(v: OtpRegistry.Verdict, w: OtpRegistry.Verdict)
    requires v != w
    ensures VerifyResponse(v).message != VerifyResponse(w).message
  {
  }

  class UsersController {
    const repo: Repository.UserRepository
    const otpStore: OtpRegistry.OtpStore
    /** `TokenService.CreateToken(user).token`; the service is not part of this model. */
    const createToken: User -> string

    constructor (repo: Repository.UserRepository, otpStore: OtpRegistry.OtpStore, createToken: User -> string)
      ensures this.repo == repo && this.otpStore == otpStore && this.createToken == createToken
    {
      this.repo := repo;
      this.otpStore := otpStore;
      this.createToken := createToken;
    }

    /** Refuses an email some row already has, without calling create; otherwise
        creates the user. An exception escaping create is answered as an unexpected
        error. Signups that see the table keep emails unique, as long as the email fits
        its column (see `Repository.PaddedEmailCollides` for one that does not). */
    method Signup(dto: SignupDto, salt: Hashing.Salt, now: Instant, queryThrows: bool,
                  outage: Repository.Outage, rollbackThrows: bool)
      returns (r: ApiResponse)
      requires repo.Valid()
      modifies repo
      ensures repo.Valid()
      ensures old(repo.CheckEmailExists(dto.email, queryThrows)) ==>
        r == ApiResponse(Failure, DuplicateEmailMessage) && repo.table == old(repo.table) && repo.nextId == old(repo.nextId)
      ensures !old(repo.CheckEmailExists(dto.email, queryThrows)) ==>
        var password := repo.hasher.hash(salt, dto.password);
        if Repository.CreateSucceeds(dto, old(repo.nextId), password, now, outage) then
          && r == ApiResponse(Success, Repository.CreatedMessage)
          && repo.table == old(repo.table) + [Repository.CreatedRow(dto, old(repo.nextId), password, now)]
          && repo.nextId == old(repo.nextId) + 1
        else
          && r == ApiResponse(Failure, if outage == Repository.BeginThrows || rollbackThrows
                                       then SignupErrorMessage else Repository.CreateErrorMessage)
          && repo.table == old(repo.table)
          && repo.nextId == old(repo.nextId) + (if Repository.CreateInserts(dto, old(repo.nextId), password, now, outage) then 1 else 0)
      ensures !queryThrows && old(Repository.HasEmail(repo.table, dto.email)) ==> r.status == Failure
      ensures !queryThrows && |dto.email| <= 255 && Repository.UniqueEmails(old(repo.table)) ==>
        Repository.UniqueEmails(repo.table)
    {
      if repo.CheckEmailExists(dto.email, queryThrows) {
        return ApiResponse(Failure, DuplicateEmailMessage);
      }
      var created := repo.CreateUser(dto, salt, now, outage, rollbackThrows);
      match created
      case Normal(response) => r := response;
      case Escaped => r := ApiResponse(Failure, SignupErrorMessage);
    }

    /** Looks the email up and checks the password. A token is returned only when both
        succeed and the token service does not throw (`tokenThrows`); an unknown email, a
        wrong password and a failing token service fail with different messages. */
    function Login(dto: LoginDto, queryThrows: bool, tokenThrows: bool): (r: AuthResponse)
      reads repo
      ensures r.token.Some? <==> r.status == Success
      ensures repo.GetByEmail(dto.email, queryThrows).None? ==> r == AuthResponse(None, Failure, UnknownEmailMessage)
      ensures repo.GetByEmail(dto.email, queryThrows).Some? ==>
        var user := repo.GetByEmail(dto.email, queryThrows).value;
        if !repo.VerifyPassword(user, dto.password) then r == AuthResponse(None, Failure, WrongPasswordMessage)
        else if tokenThrows then r == AuthResponse(None, Failure, LoginErrorMessage)
        else r == AuthResponse(Some(createToken(user)), Success, LoggedInMessage)
    {
      match repo.GetByEmail(dto.email, queryThrows)
      case None => AuthResponse(None, Failure, UnknownEmailMessage)
      case Some(user) =>
        if !repo.VerifyPassword(user, dto.password) then AuthResponse(None, Failure, WrongPasswordMessage)
        else if tokenThrows then AuthResponse(None, Failure, LoginErrorMessage)  // caught by the endpoint
        else AuthResponse(Some(createToken(user)), Success, LoggedInMessage)
    }

    /** Issues a code only to an email already in the table: stores the code with an
        expiry one minute from now, replacing any earlier one, then mails it. A failed
        mail is reported as failure, but the stored code stays. */
    method SendOtp(email: string, code: int, now: Instant, queryThrows: bool, mailSent: bool) returns (r: ApiResponse)
      requires OtpRegistry.MinCode <= code < OtpRegistry.CodeBound
      modifies otpStore
      ensures !repo.CheckEmailExists(email, queryThrows) ==>
        r == ApiResponse(Failure, NoSuchEmailMessage) && otpStore.entries == old(otpStore.entries)
      ensures repo.CheckEmailExists(email, queryThrows) ==>
        && otpStore.entries == OtpRegistry.Issue(old(otpStore.entries), email, OtpRegistry.CodeText(code), now)
        && r == if mailSent then ApiResponse(Success, OtpSentMessage) else ApiResponse(Failure, SendOtpErrorMessage)
    {
      if !repo.CheckEmailExists(email, queryThrows) {
        return ApiResponse(Failure, NoSuchEmailMessage);
      }
      var otp := OtpRegistry.CodeText(code);
      otpStore.entries := otpStore.entries[email := OtpRegistry.OtpEntry(otp, now + OtpRegistry.OtpLifetime)];
      if !mailSent {
        return ApiResponse(Failure, SendOtpErrorMessage);
      }
      r := ApiResponse(Success, OtpSentMessage);
    }

    /** Looks up the entry for the email; refuses it when absent, expired or different,
        and removes it when the code matches. */
    method VerifyOtp(email: string, otp: string, now: Instant) returns (r: ApiResponse)
      modifies otpStore
      ensures r == VerifyResponse(OtpRegistry.Check(old(otpStore.entries), email, otp, now))
      ensures otpStore.entries == OtpRegistry.AfterVerify(old(otpStore.entries), email, otp, now)
    {
      if email in otpStore.entries {
        var entry := otpStore.entries[email];
        if now > entry.expiry {
          return ApiResponse(Failure, OtpExpiredMessage);
        }
        if entry.otp == otp {
          otpStore.entries := otpStore.entries - {email};
          return ApiResponse(Success, OtpVerifiedMessage);
        } else {
          return ApiResponse(Failure, InvalidOtpMessage);
        }
      }
      r := ApiResponse(Failure, NoOtpMessage);
    }
  }

  /** With a sound hasher, a login with the password whose hash the email's only row
      stores succeeds and carries that user's token, unless the token service throws,
      which is answered as an unexpected error without a token. */
  lemma LoginWithOwnPassword(c: UsersController, i: nat, salt: Hashing.Salt, password: string, tokenThrows: bool)
    requires i < |c.repo.table| && Repository.EmailIsUnique(c.repo.table, c.repo.table[i].email)
    requires c.repo.table[i].password == c.repo.hasher.hash(salt, password)
    requires Hashing.Sound(c.repo.hasher)
    ensures c.Login(LoginDto(c.repo.table[i].email, password), false, tokenThrows)
      == if tokenThrows then AuthResponse(None, Failure, LoginErrorMessage)
         else AuthResponse(Some(c.createToken(c.repo.table[i])), Success, LoggedInMessage)
  {
  }

  /** With an exact hasher, any other password is refused as incorrect, without a token,
      before the token service is reached. */
  lemma LoginWithOtherPassword(c: UsersController, i: nat, salt: Hashing.Salt, password: string, attempt: string,
                               tokenThrows: bool)
    requires i < |c.repo.table| && Repository.EmailIsUnique(c.repo.table, c.repo.table[i].email)
    requires c.repo.table[i].password == c.repo.hasher.hash(salt, password)
    requires Hashing.Exact(c.repo.hasher) && attempt != password
    ensures c.Login(LoginDto(c.repo.table[i].email, attempt), false, tokenThrows)
      == AuthResponse(None, Failure, WrongPasswordMessage)
  {
  }

  /** Nothing in the table stops two rows sharing an email (the existence check can fail
      open, and the store has no unique index). Once two do, every login for that email
      is answered "Email does not exist", whatever the password. */
  lemma DuplicateEmailBlocksLogin(c: UsersController, i: nat, j: nat, password: string, tokenThrows: bool)
    requires i < j < |c.repo.table| && c.repo.table[i].email == c.repo.table[j].email
    ensures c.Login(LoginDto(c.repo.table[i].email, password), false, tokenThrows)
      == AuthResponse(None, Failure, UnknownEmailMessage)
  {
  }

  /** A client of the contracts above: one account through signup, a repeated signup
      and two logins. */
  method AccountWalkthrough(hasher: Hashing.PasswordHasher, createToken: User -> string, salt: Hashing.Salt, now: Instant)
    requires Hashing.Sound(hasher) && Hashing.Exact(hasher)
  {
    var repo := new Repository.UserRepository(hasher);
    var store := new OtpRegistry.OtpStore();
    var c := new UsersController(repo, store, createToken);
    var dto := SignupDto("Ada", None, None, "a@x.com", "5550100", Some(0), "secret1");

    assert Repository.FitsColumns(Repository.NewUser(dto, hasher.hash(salt, dto.password), now));
    assert Repository.StoredRow(Repository.NewUser(dto, hasher.hash(salt, dto.password), now)).Some?;
    assert !repo.CheckEmailExists(dto.email, false);
    var first := c.Signup(dto, salt, now, false, Repository.NoOutage, false);
    assert first.status == Success;
    assert repo.CheckEmailExists(dto.email, false) by {
      assert repo.table[0].email == dto.email;
    }
    var second := c.Signup(dto, salt, now, false, Repository.NoOutage, false);
    assert second == ApiResponse(Failure, DuplicateEmailMessage);

    assert |repo.table| == 1 && repo.table[0].email == "a@x.com";
    LoginWithOtherPassword(c, 0, salt, "secret1", "wrong", false);
    assert c.Login(LoginDto("a@x.com", "wrong"), false, false).token == None;
    LoginWithOwnPassword(c, 0, salt, "secret1", false);
    LoginWithOwnPassword(c, 0, salt, "secret1", true);
    assert c.Login(LoginDto("a@x.com", "secret1"), false, false).status == Success;
    assert c.Login(LoginDto("a@x.com", "secret1"), false, true).token == None;
  }

  /** A client of the contracts above: a code sent to a registered email verifies once,
      and a second verification finds nothing. */
  method OtpWalkthrough(c: UsersController, email: string, drawn: int, now: Instant)
    requires c.repo.CheckEmailExists(email, false)
    requires OtpRegistry.MinCode <= drawn < OtpRegistry.CodeBound
    modifies c.otpStore
  {
    var sent := c.SendOtp(email, drawn, now, false, true);
    assert sent.status == Success;
    var code := OtpRegistry.CodeText(drawn);
    var accepted := c.VerifyOtp(email, code, now);
    assert accepted.status == Success;
    var again := c.VerifyOtp(email, code, now);
    assert again == ApiResponse(Failure, NoOtpMessage);
  }
}
