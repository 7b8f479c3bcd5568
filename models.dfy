/** Record shapes shared by the repository and the controller: the `User` row of the
    credentials table and the request and response objects of the HTTP API. */
module Models {
  import opened Wrappers

  /** A point in time on the UTC clock, counted in 100-nanosecond ticks as `DateTime` does. */
  type Instant = int

  /** `TimeSpan.FromMinutes(1)` in ticks. */
  const TicksPerMinute: int := 600_000_000

  /** One row of the `DbCredentials` table. Nullable columns are `Option`s. */
  datatype User = User(
    id: int,
    firstName: string,
    middleName: Option<string>,
    lastName: Option<string>,
    email: string,
    phoneNumber: string,
    dob: Option<Instant>,
    password: string,
    isDeleted: bool,
    createdBy: string,
    createdDate: Instant,
    updatedBy: Option<string>,
    updatedDate: Option<Instant>)

  /** The body of a signup request. The optional fields may arrive as null. */
  datatype SignupDto = SignupDto(
    firstName: string,
    middleName: Option<string>,
    lastName: Option<string>,
    email: string,
    phoneNumber: string,
    dob: Option<Instant>,
    password: string)

  /** The body of a login request. */
  datatype LoginDto = LoginDto(email: string, password: string)

  /** The `status` discriminator of every response: "Success" or "Failure". */
  datatype Status = Success | Failure

  /** The uniform `{status, message}` response. */
  datatype ApiResponse = ApiResponse(status: Status, message: string)

  /** The login response: a token (null unless the login succeeded), status and message. */
  datatype AuthResponse = AuthResponse(token: Option<string>, status: Status, message: string)
}
