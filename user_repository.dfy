/** `UserRepository`: the credentials table behind Entity Framework, with its
    transactions. The table is a sequence of rows in storage order; `nextId` is the
    identity sequence that assigns `Id` on insert. A transaction is a snapshot of the
    table taken at `BeginTransaction` and restored on rollback. */
module Repository {
  import opened Wrappers
  import opened Models
  import Hashing
  import Decimal

  /** The largest value of the 32-bit `Id` identity column. */
  const IntMax: int := 2147483647

  /** The placeholder `CreatedBy` of a row between its insert and its patch. */
  const PlaceholderCreatedBy: string := "sample"

  const CreatedMessage: string := "Created Successfully"
  const CreateErrorMessage: string := "Error creating user: "
  const PasswordChangedMessage: string := "Password changed successfully"
  const NoUserMessagePrefix: string := "No user found with email id: "
  const UpdateErrorMessage: string := "Exception Occurred: "

  /** Which database round trip of an operation throws (lost connection, timeout,
      a constraint the store enforces), if any. An operation ignores the steps it
      does not make. Opening the transaction is outside the operation's `try`. */
  datatype Outage = NoOutage | BeginThrows | QueryThrows | FirstSaveThrows | SecondSaveThrows | CommitThrows

  /** How a repository operation ends: with a response, or with an exception that
      escapes it (one raised where no `catch` of the operation covers it). */
  datatype Completion = Normal(response: ApiResponse) | Escaped

  /** The `catch` of a transactional operation: it rolls back, then answers with a
      failure. A rollback that itself throws escapes the operation. */
  function RolledBack(rollbackThrows: bool, message: string): (c: Completion)
    ensures c.Escaped? <==> rollbackThrows
    ensures c.Normal? ==> c.response.status == Failure && c.response.message == message
  {
    if rollbackThrows then Escaped else Normal(ApiResponse(Failure, message))
  }

  predicate AllSpaces(s: string) {
    forall i :: 0 <= i < |s| ==> s[i] == ' '
  }

  /** Storing `s` in a `varchar(n)` column: a value that fits is kept; a longer one
      whose excess characters are all spaces is cut to `n` characters; any other
      longer value is refused with an error. */
  function VarChar(s: string, n: nat): (r: Option<string>)
    ensures |s| <= n ==> r == Some(s)
    ensures r.Some? ==> |r.value| <= n && r.value <= s && AllSpaces(s[|r.value|..])
    ensures |s| > n && r.Some? ==> r.value == s[..n]
    ensures r.None? ==> |s| > n && exists i :: n <= i < |s| && s[i] != ' '
  {
    if |s| <= n then Some(s)
    else if AllSpaces(s[n..]) then Some(s[..n])
    else
      assert exists j :: 0 <= j < |s[n..]| && s[n..][j] != ' ';
      None
  }

  /** `VarChar` for a nullable column: null is stored as null. */
  function NullableVarChar(o: Option<string>, n: nat): (r: Option<Option<string>>)
    ensures o.None? ==> r == Some(None)
    ensures o.Some? ==> (r.Some? <==> VarChar(o.value, n).Some?)
    ensures o.Some? && r.Some? ==> r.value == Some(VarChar(o.value, n).value)
  {
    match o
    case None => Some(None)
    case Some(s) => if VarChar(s, n).Some? then Some(Some(VarChar(s, n).value)) else None
  }

  /** 2000-01-01T00:00Z, the zero of PostgreSQL's timestamps, in ticks since 0001-01-01. */
  const PostgresEpoch: Instant := 630822816000000000
  const TicksPerMicrosecond := 10

  /** Storing an instant in a `timestamp with time zone` column, which counts whole
      microseconds from `PostgresEpoch`: the sub-microsecond ticks of the distance to
      the epoch are dropped, rounding toward the epoch. */
  function StoredInstant(t: Instant): (r: Instant)
    ensures (r - PostgresEpoch) % TicksPerMicrosecond == 0
    ensures t >= PostgresEpoch ==> PostgresEpoch <= r <= t && t - r < TicksPerMicrosecond
    ensures t <= PostgresEpoch ==> t <= r <= PostgresEpoch && r - t < TicksPerMicrosecond
    ensures (t - PostgresEpoch) % TicksPerMicrosecond == 0 ==> r == t
  {
    var d := t - PostgresEpoch;
    if d >= 0 then PostgresEpoch + d / TicksPerMicrosecond * TicksPerMicrosecond
    else PostgresEpoch - (-d) / TicksPerMicrosecond * TicksPerMicrosecond
  }

  /** `StoredInstant` for a nullable column: null is stored as null. */
  function StoredNullableInstant(o: Option<Instant>): (r: Option<Instant>)
    ensures r.Some? <==> o.Some?
    ensures o.Some? ==> r.value == StoredInstant(o.value)
  {
    match o
    case None => None
    case Some(t) => Some(StoredInstant(t))
  }

  /** The time columns already hold whole microseconds, as a row read from the store does. */
  predicate OnMicroseconds(u: User) {
    && (u.createdDate - PostgresEpoch) % TicksPerMicrosecond == 0
    && (u.dob.Some? ==> (u.dob.value - PostgresEpoch) % TicksPerMicrosecond == 0)
    && (u.updatedDate.Some? ==> (u.updatedDate.value - PostgresEpoch) % TicksPerMicrosecond == 0)
  }

  /** The column widths of the table. */
  predicate FitsColumns(u: User) {
    && |u.firstName| <= 50
    && (u.middleName.Some? ==> |u.middleName.value| <= 50)
    && (u.lastName.Some? ==> |u.lastName.value| <= 50)
    && |u.email| <= 255
    && |u.phoneNumber| <= 20
    && |u.createdBy| <= 255
    && (u.updatedBy.Some? ==> |u.updatedBy.value| <= 255)
  }

  /** The row the store keeps when `u` is saved, or `None` when the save is refused:
      each width-limited column goes through `VarChar`, each time column through
      `StoredInstant`, and every other column is kept. */
  function StoredRow(u: User): (r: Option<User>)
    ensures FitsColumns(u) ==> r.Some?
    ensures FitsColumns(u) && OnMicroseconds(u) ==> r == Some(u)
    ensures r.Some? ==> FitsColumns(r.value) && OnMicroseconds(r.value)
    ensures r.Some? ==> (r.value.id == u.id && r.value.password == u.password
      && r.value.isDeleted == u.isDeleted && r.value.dob == StoredNullableInstant(u.dob)
      && r.value.createdDate == StoredInstant(u.createdDate)
      && r.value.updatedDate == StoredNullableInstant(u.updatedDate))
    ensures r.Some? <==> (VarChar(u.firstName, 50).Some? && NullableVarChar(u.middleName, 50).Some?
      && NullableVarChar(u.lastName, 50).Some? && VarChar(u.email, 255).Some?
      && VarChar(u.phoneNumber, 20).Some? && VarChar(u.createdBy, 255).Some?
      && NullableVarChar(u.updatedBy, 255).Some?)
    ensures r.Some? ==> (Some(r.value.firstName) == VarChar(u.firstName, 50)
      && Some(r.value.middleName) == NullableVarChar(u.middleName, 50)
      && Some(r.value.lastName) == NullableVarChar(u.lastName, 50)
      && Some(r.value.email) == VarChar(u.email, 255) && Some(r.value.phoneNumber) == VarChar(u.phoneNumber, 20)
      && Some(r.value.createdBy) == VarChar(u.createdBy, 255)
      && Some(r.value.updatedBy) == NullableVarChar(u.updatedBy, 255))
  {
    var first := VarChar(u.firstName, 50);
    var middle := NullableVarChar(u.middleName, 50);
    var last := NullableVarChar(u.lastName, 50);
    var email := VarChar(u.email, 255);
    var phone := VarChar(u.phoneNumber, 20);
    var createdBy := VarChar(u.createdBy, 255);
    var updatedBy := NullableVarChar(u.updatedBy, 255);
    if first.Some? && middle.Some? && last.Some? && email.Some? && phone.Some? && createdBy.Some? && updatedBy.Some? then
      Some(u.(firstName := first.value, middleName := middle.value, lastName := last.value,
              email := email.value, phoneNumber := phone.value, createdBy := createdBy.value,
              updatedBy := updatedBy.value, dob := StoredNullableInstant(u.dob),
              createdDate := StoredInstant(u.createdDate),
              updatedDate := StoredNullableInstant(u.updatedDate)))
    else None
  }

  ghost predicate HasEmail(rows: seq<User>, email: string) {
    exists i :: 0 <= i < |rows| && rows[i].email == email
  }

  /** At most one row carries `email`. */
  ghost predicate EmailIsUnique(rows: seq<User>, email: string) {
    forall i, j :: 0 <= i < |rows| && 0 <= j < |rows| && rows[i].email == email && rows[j].email == email ==> i == j
  }

  /** No two rows share an email. */
  ghost predicate UniqueEmails(rows: seq<User>) {
    forall i, j :: 0 <= i < j < |rows| ==> rows[i].email != rows[j].email
  }

  /** The positions of the rows whose email is exactly `email`, in storage order:
      what `Where(u => u.Email == email)` selects. */
  function MatchingRows(rows: seq<User>, email: string): (r: seq<nat>)
    ensures forall k :: 0 <= k < |r| ==> r[k] < |rows| && rows[r[k]].email == email
    ensures forall i :: 0 <= i < |rows| && rows[i].email == email ==> i in r
    ensures forall k, l :: 0 <= k < l < |r| ==> r[k] < r[l]
  {
    if rows == [] then []
    else
      var rest := MatchingRows(rows[..|rows| - 1], email);
      if rows[|rows| - 1].email == email then rest + [|rows| - 1] else rest
  }

  /** The position `FirstOrDefault(u => u.Email == email)` finds, taken as the first
      in storage order (the query has no `OrderBy`). */
  function FirstWithEmail(rows: seq<User>, email: string): (i: nat)
    requires HasEmail(rows, email)
    ensures i < |rows| && rows[i].email == email
    ensures forall j :: 0 <= j < i ==> rows[j].email != email
  {
    var m := MatchingRows(rows, email);
    var w :| 0 <= w < |rows| && rows[w].email == email;
    assert w in m;
    m[0]
  }

  /** When only one row has the email, it is the one `FirstWithEmail` finds, whatever
      order the store returns rows in. */
  lemma FirstWithEmailOfUnique(rows: seq<User>, email: string, j: nat)
    requires j < |rows| && rows[j].email == email && EmailIsUnique(rows, email)
    ensures FirstWithEmail(rows, email) == j
  {
  }

  /** The row with primary key `id`, if any: what `Find(id)` returns. */
  function RowWithId(rows: seq<User>, id: int): (r: Option<User>)
    ensures r.Some? ==> r.value in rows && r.value.id == id
    ensures r.None? ==> forall i :: 0 <= i < |rows| ==> rows[i].id != id
  {
    if rows == [] then None
    else if rows[0].id == id then Some(rows[0])
    else RowWithId(rows[1..], id)
  }

  /** The object `CreateUserAsync` builds from the signup data, before the store
      assigns its id: password hashed, `CreatedBy` the placeholder, never updated. */
  function NewUser(dto: SignupDto, password: string, now: Instant): User
    requires dto.dob.Some?
  {
    User(0, dto.firstName, dto.middleName, dto.lastName, dto.email, dto.phoneNumber,
         dto.dob, password, false, PlaceholderCreatedBy, now, None, None)
  }

  /** The row a successful `CreateUserAsync` commits: the new object as the store
      keeps it, with the id the identity sequence gave it and `CreatedBy` patched to
      that id. */
  function CreatedRow(dto: SignupDto, id: nat, password: string, now: Instant): User
    requires dto.dob.Some? && StoredRow(NewUser(dto, password, now)).Some?
  {
    StoredRow(NewUser(dto, password, now)).value.(id := id, createdBy := Decimal.DecimalString(id))
  }

  /** When `CreateUserAsync` commits: the transaction opens, the date of birth is
      present (the code reads `dob.Value`), the identity sequence has a value left, the
      store accepts the row, and no later round trip throws. Email uniqueness is not a
      condition. */
  predicate CreateSucceeds(dto: SignupDto, nextId: int, password: string, now: Instant, outage: Outage) {
    && dto.dob.Some?
    && nextId <= IntMax
    && StoredRow(NewUser(dto, password, now)).Some?
    && outage !in {BeginThrows, FirstSaveThrows, SecondSaveThrows, CommitThrows}
  }

  /** The insert reaches the store and takes an id, even when the transaction is
      later rolled back (an identity sequence is not transactional). */
  predicate CreateInserts(dto: SignupDto, nextId: int, password: string, now: Instant, outage: Outage) {
    && dto.dob.Some?
    && nextId <= IntMax
    && StoredRow(NewUser(dto, password, now)).Some?
    && outage !in {BeginThrows, FirstSaveThrows}
  }

  /** The committed row is the signup data with the password replaced by its hash,
      `CreatedBy` holding its own id as text (it reads back as the id), and no update
      recorded. Text columns hold the data as `varchar` stores it, which is the data
      itself whenever it fits its column. */
  lemma CreatedRowFields(dto: SignupDto, id: nat, password: string, now: Instant)
    requires dto.dob.Some? && StoredRow(NewUser(dto, password, now)).Some?
    ensures var u := CreatedRow(dto, id, password, now);
      && u.id == id && u.password == password && !u.isDeleted
      && Decimal.AllDigits(u.createdBy) && Decimal.ParseDecimal(u.createdBy) == id
      && u.updatedBy.None? && u.updatedDate.None?
      && u.createdDate == StoredInstant(now) && u.dob == Some(StoredInstant(dto.dob.value))
      && Some(u.email) == VarChar(dto.email, 255) && Some(u.firstName) == VarChar(dto.firstName, 50)
      && Some(u.phoneNumber) == VarChar(dto.phoneNumber, 20)
      && Some(u.middleName) == NullableVarChar(dto.middleName, 50)
      && Some(u.lastName) == NullableVarChar(dto.lastName, 50)
  {
    Decimal.ParseDecimalString(id);
  }

  /** The second save never fails on width: a 32-bit id prints in at most ten digits,
      well within the 255-character `CreatedBy` column. */
  lemma CreatedRowFits(dto: SignupDto, id: nat, password: string, now: Instant)
    requires id <= IntMax
    requires dto.dob.Some? && StoredRow(NewUser(dto, password, now)).Some?
    ensures FitsColumns(CreatedRow(dto, id, password, now))
  {
    Decimal.DecimalStringAtMost(id, 10);
  }

  class UserRepository {
    const hasher: Hashing.PasswordHasher
    var table: seq<User>
    var nextId: int

    /** Ids are positive, below the next value of the sequence, and increase in
        storage order (so they are distinct: `Id` is the primary key); every row fits
        the column widths. */
    ghost predicate Valid()
      reads this
    {
      && 1 <= nextId <= IntMax + 1
      && (forall i :: 0 <= i < |table| ==> 1 <= table[i].id < nextId)
      && (forall i, j :: 0 <= i < j < |table| ==> table[i].id < table[j].id)
      && (forall i :: 0 <= i < |table| ==> FitsColumns(table[i]))
    }

    constructor (hasher: Hashing.PasswordHasher)
      ensures Valid()
      ensures this.hasher == hasher && table == [] && nextId == 1
    {
      this.hasher := hasher;
      table := [];
      nextId := 1;
    }

    /** Inserts a user from the signup data inside one transaction, in two saves:
        the insert, which assigns the id, then the patch of `CreatedBy` to that id.
        Either both persist or, on any failure, the table is as it was. A failure to
        open the transaction, or of the rollback, escapes the operation. */
    method CreateUser(dto: SignupDto, salt: Hashing.Salt, now: Instant, outage: Outage, rollbackThrows: bool)
      returns (r: Completion)
      requires Valid()
      modifies this
      ensures Valid()
      ensures var password := hasher.hash(salt, dto.password);
        if CreateSucceeds(dto, old(nextId), password, now, outage) then
          && r == Normal(ApiResponse(Success, CreatedMessage))
          && table == old(table) + [CreatedRow(dto, old(nextId), password, now)]
          && nextId == old(nextId) + 1
        else
          && r == (if outage == BeginThrows then Escaped else RolledBack(rollbackThrows, CreateErrorMessage))
          && table == old(table)
          && nextId == old(nextId) + (if CreateInserts(dto, old(nextId), password, now, outage) then 1 else 0)
    {
      if outage == BeginThrows {
        return Escaped;
      }
      var snapshot := table;  // BeginTransaction
      var password := hasher.hash(salt, dto.password);
      var committed := false;
      if dto.dob.Some? {  // otherwise `dob.Value` throws
        // First SaveChanges: the insert; the identity sequence assigns the id.
        var stored := StoredRow(NewUser(dto, password, now));
        if outage != FirstSaveThrows && nextId <= IntMax && stored.Some? {
          var id := nextId;
          var user := stored.value.(id := id);
          nextId := nextId + 1;
          table := table + [user];

          // Second SaveChanges: CreatedBy becomes the new id, which always fits its column.
          user := user.(createdBy := Decimal.DecimalString(id));
          assert user == CreatedRow(dto, id, password, now);
          CreatedRowFits(dto, id, password, now);
          if outage != SecondSaveThrows {
            table := snapshot + [user];
            committed := outage != CommitThrows;
          }
        }
      }
      if committed {
        return Normal(ApiResponse(Success, CreatedMessage));
      }
      // catch: roll back, then answer with the failure
      table := snapshot;
      r := RolledBack(rollbackThrows, CreateErrorMessage);
    }

    /** `SingleOrDefault(u => u.Email == email)`: the row when exactly one has that
        email; null when none does, and null too when several do, because the
        exception `SingleOrDefault` throws then is swallowed like any other. */
    function GetByEmail(email: string, queryThrows: bool): (r: Option<User>)
      reads this
      ensures r.Some? <==> !queryThrows && HasEmail(table, email) && EmailIsUnique(table, email)
      ensures r.Some? ==> r.value.email == email
      ensures r.Some? ==> forall i :: 0 <= i < |table| && table[i].email == email ==> r.value == table[i]
    {
      if queryThrows then None
      else
        var m := MatchingRows(table, email);
        if |m| == 1 then Some(table[m[0]])
        else
          assert |m| >= 2 ==> m[0] != m[1];
          None
    }

    /** `Find(id)`: the row with that primary key, or null; errors become null. */
    function GetById(id: int, queryThrows: bool): (r: Option<User>)
      reads this
      ensures r.Some? <==> !queryThrows && exists i :: 0 <= i < |table| && table[i].id == id
      ensures r.Some? ==> r.value in table && r.value.id == id
    {
      if queryThrows then None else RowWithId(table, id)
    }

    /** `AnyAsync(u => u.Email == email)`: some row has exactly this email, deleted or
        not; an error reads as "no". */
    function CheckEmailExists(email: string, queryThrows: bool): (r: bool)
      reads this
      ensures r <==> !queryThrows && HasEmail(table, email)
    {
      if queryThrows then false
      else
        var m := MatchingRows(table, email);
        assert |m| > 0 ==> table[m[0]].email == email;
        |m| > 0
    }

    /** The user's stored hash accepts the password; a throwing hasher means no. */
    function VerifyPassword(user: User, password: string): (r: bool)
      ensures r ==> hasher.verify(user.password, password).Returned?
      ensures hasher.verify(user.password, password).Returned? ==> (r <==> hasher.verify(user.password, password).result != Hashing.Failed)
    {
      match hasher.verify(user.password, password)
      case Threw => false
      case Returned(result) => result != Hashing.Failed
    }

    /** Sets the password hash of the first row with this email, in a transaction.
        No such row: failure and nothing changes. Any other field and row is kept. A
        failure to open the transaction, or of the rollback, escapes the operation. */
    method UpdatePassword(email: string, pass: string, salt: Hashing.Salt, outage: Outage, rollbackThrows: bool)
      returns (r: Completion)
      requires Valid()
      modifies this
      ensures Valid()
      ensures nextId == old(nextId)
      ensures outage == BeginThrows ==> r == Escaped && table == old(table)
      ensures outage == QueryThrows ==> r == RolledBack(rollbackThrows, UpdateErrorMessage) && table == old(table)
      ensures outage !in {BeginThrows, QueryThrows} && !HasEmail(old(table), email) ==>
        r == Normal(ApiResponse(Failure, NoUserMessagePrefix + email)) && table == old(table)
      ensures outage !in {BeginThrows, QueryThrows} && HasEmail(old(table), email) ==>
        if outage in {FirstSaveThrows, CommitThrows} then
          r == RolledBack(rollbackThrows, UpdateErrorMessage) && table == old(table)
        else
          var i := FirstWithEmail(old(table), email);
          && r == Normal(ApiResponse(Success, PasswordChangedMessage))
          && table == old(table)[i := old(table)[i].(password := hasher.hash(salt, pass))]
    {
      if outage == BeginThrows {
        return Escaped;
      }
      var snapshot := table;  // BeginTransaction
      var committed := false;
      if outage != QueryThrows {
        var m := MatchingRows(table, email);
        if |m| == 0 {
          // Returned before any write; disposing the transaction discards it.
          assert !HasEmail(table, email);
          return Normal(ApiResponse(Failure, NoUserMessagePrefix + email));
        }
        var i := m[0];
        assert i == FirstWithEmail(table, email);
        var toBeChanged := table[i].(password := hasher.hash(salt, pass));
        assert FitsColumns(toBeChanged) && toBeChanged.id == table[i].id;  // `Password` has no width
        if outage != FirstSaveThrows {
          table := table[i := toBeChanged];
          committed := outage != CommitThrows;
        }
      }
      if committed {
        return Normal(ApiResponse(Success, PasswordChangedMessage));
      }
      // catch: roll back, then answer with the failure
      table := snapshot;
      r := RolledBack(rollbackThrows, UpdateErrorMessage);
    }
  }

  /** With a sound hasher, a row whose stored hash was made from a password accepts that
      password. */
  lemma VerifyPasswordAcceptsOwnHash(repo: UserRepository, user: User, salt: Hashing.Salt, password: string)
    requires Hashing.Sound(repo.hasher) && user.password == repo.hasher.hash(salt, password)
    ensures repo.VerifyPassword(user, password)
  {
  }

  /** The existence check compares the email as sent, but the store keeps it cut to its
      column. An email that fills the column exactly, sent again with a trailing space,
      is a different string to the check, and no row has it (every stored email fits
      its column, as `UserRepository.Valid` keeps), yet the row stored for it
      duplicates the existing email. */
  lemma PaddedEmailCollides(rows: seq<User>, i: nat, u: User)
    requires i < |rows| && |rows[i].email| == 255
    requires forall k :: 0 <= k < |rows| ==> FitsColumns(rows[k])
    requires Some(u.email) == VarChar(rows[i].email + " ", 255)
    ensures !HasEmail(rows, rows[i].email + " ")
    ensures u.email == rows[i].email
    ensures !UniqueEmails(rows + [u])
  {
    var e := rows[i].email;
    assert (e + " ")[..255] == e;
    assert (e + " ")[255..] == " ";
    assert (rows + [u])[i] == rows[i] && (rows + [u])[|rows|] == u;
  }
}
