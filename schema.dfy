// The rows of the four SQL tables the handlers read and write. Timestamps
// are milliseconds since the epoch; a column that may hold NULL is an Option.
module Schema {
  import opened Js

  datatype User = User(
    id: int,
    fullName: string,
    email: string,
    password: string,
    role: string,
    department: Option<string>,
    createdAt: int)

  datatype Checkin = Checkin(
    id: int,
    userId: int,
    mood: string,
    notes: Option<string>,
    createdAt: int)

  datatype SupportRequest = SupportRequest(
    id: int,
    userId: int,
    requestType: string,
    subject: Option<string>,
    message: string,
    urgency: string,
    phoneContact: Option<string>,
    status: string,
    createdAt: int,
    updatedAt: int)

  datatype DiaryEntry = DiaryEntry(
    id: int,
    userId: int,
    emotion: Option<string>,
    content: Option<string>,
    isShareable: Option<bool>,
    createdAt: int,
    updatedAt: int)

  /** The created_at column of each table, as the key of `ORDER BY created_at DESC`. */
  function CheckinTime(c: Checkin): int {
    c.createdAt
  }

  function RequestTime(r: SupportRequest): int {
    r.createdAt
  }

  function EntryTime(e: DiaryEntry): int {
    e.createdAt
  }

  const MillisPerDay := 86400000

  /** `DATE(ts)`: the day number of a timestamp (one fixed time zone). */
  function DayOf(ms: int): (day: int)
    ensures day * MillisPerDay <= ms < (day + 1) * MillisPerDay
  {
    ms / MillisPerDay
  }

  /** The role gate every HR endpoint applies: `req.userRole !== "HR"` is refused. */
  predicate IsHR(role: Option<string>): (hr: bool)
    ensures hr <==> role.Some? && role.value == "HR"
    ensures hr ==> Truthy(role)
  {
    role == Some("HR")
  }
}
