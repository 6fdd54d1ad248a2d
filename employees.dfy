// HR views (routes/employees.routes.js): every endpoint is refused unless
// the caller's role is "HR"; the rest are read-only queries over the users,
// checkins and support_requests tables, with the current day as a parameter.
module Employees {
  import opened Js
  import opened Schema
  import Order
  import Checkins

  /** What an HR endpoint answers: 403 for any other role, else 200 with the query's rows. */
  datatype HrResult<T> = Forbidden | Ok(value: T)
  {
    function Status(): int {
      if Forbidden? then 403 else 200
    }
  }

  predicate IsEmployee(u: User) {
    u.role == "EMPLOYEE"
  }

  /** The columns the employee listings select: never the password. */
  datatype EmployeeView = EmployeeView(
    id: int,
    email: string,
    fullName: string,
    department: Option<string>,
    role: string,
    createdAt: int)

  function View(u: User): EmployeeView {
    EmployeeView(u.id, u.email, u.fullName, u.department, u.role, u.createdAt)
  }

  function Views(users: seq<User>): (r: seq<EmployeeView>)
    ensures |r| == |users|
    ensures forall i :: 0 <= i < |users| ==> r[i] == View(users[i])
    ensures forall v :: v in r <==> exists u :: u in users && v == View(u)
  {
    if users == [] then []
    else
      assert forall u :: u in users[1..] ==> u in users;
      assert users == [users[0]] + users[1..];
      [View(users[0])] + Views(users[1..])
  }

  // ---- ORDER BY full_name ASC (code-point order) ----

  /** Lexicographic order on strings by character code. */
  predicate LexLe(a: string, b: string)
    decreases |a|
  {
    a == [] || (b != [] && (a[0] < b[0] || (a[0] == b[0] && LexLe(a[1..], b[1..]))))
  }

  lemma {:induction false} LexLeTotal(a: string, b: string)
    ensures LexLe(a, b) || LexLe(b, a)
    decreases |a|
  {
    if a != [] && b != [] && a[0] == b[0] {
      LexLeTotal(a[1..], b[1..]);
    }
  }

  lemma {:induction false} LexLeTransitive(a: string, b: string, c: string)
    requires LexLe(a, b) && LexLe(b, c)
    ensures LexLe(a, c)
    decreases |a|
  {
    if a != [] && a[0] == b[0] && b[0] == c[0] {
      LexLeTransitive(a[1..], b[1..], c[1..]);
    }
  }

  predicate ByName(a: EmployeeView, b: EmployeeView) {
    LexLe(a.fullName, b.fullName)
  }

  lemma ByNameIsPreorder()
    ensures Order.Total(ByName) && Order.Transitive(ByName)
  {
    forall a: EmployeeView, b: EmployeeView ensures ByName(a, b) || ByName(b, a) {
      LexLeTotal(a.fullName, b.fullName);
    }
    forall a: EmployeeView, b: EmployeeView, c: EmployeeView | ByName(a, b) && ByName(b, c)
      ensures ByName(a, c)
    {
      LexLeTransitive(a.fullName, b.fullName, c.fullName);
    }
  }

  /** Employee rows selected by `where`, projected and ordered by name. */
  function ListByName(users: seq<User>, where: User -> bool): (r: seq<EmployeeView>)
    ensures multiset(r) == multiset(Views(Order.Filter(users, where)))
    ensures |r| == |Order.Filter(users, where)|
    ensures forall v :: v in r <==> exists u :: u in users && where(u) && v == View(u)
    ensures Order.SortedBy(r, ByName)
  {
    var views := Views(Order.Filter(users, where));
    ByNameIsPreorder();
    Order.SortSorted(views, ByName);
    Order.SortPermutes(views, ByName);
    Order.Sort(views, ByName)
  }

  /** GET /all: exactly the users whose role is EMPLOYEE, by name. */
  function AllEmployees(users: seq<User>, role: Option<string>): (r: HrResult<seq<EmployeeView>>)
    ensures r.Forbidden? <==> !IsHR(role)
    ensures r.Ok? ==> multiset(r.value) == multiset(Views(Order.Filter(users, IsEmployee)))
    ensures r.Ok? ==> |r.value| == |Order.Filter(users, IsEmployee)|
    ensures r.Ok? ==> forall v :: v in r.value <==> exists u :: u in users && IsEmployee(u) && v == View(u)
    ensures r.Ok? ==> Order.SortedBy(r.value, ByName)
  {
    if !IsHR(role) then Forbidden else Ok(ListByName(users, IsEmployee))
  }

  function InDepartment(department: string): User -> bool {
    (u: User) => IsEmployee(u) && u.department == Some(department)
  }

  /** GET /by-department/:department: the employees of that department, by name. */
  function ByDepartment(users: seq<User>, role: Option<string>, department: string): (r: HrResult<seq<EmployeeView>>)
    ensures r.Forbidden? <==> !IsHR(role)
    ensures r.Ok? ==> multiset(r.value) == multiset(Views(Order.Filter(users, InDepartment(department))))
    ensures r.Ok? ==> |r.value| == |Order.Filter(users, InDepartment(department))|
    ensures r.Ok? ==> forall v :: v in r.value <==>
      exists u :: u in users && IsEmployee(u) && u.department == Some(department) && v == View(u)
    ensures r.Ok? ==> Order.SortedBy(r.value, ByName)
  {
    if !IsHR(role) then Forbidden else Ok(ListByName(users, InDepartment(department)))
  }

  // ---- Presence today ----

  /** `SELECT DISTINCT user_id FROM checkins WHERE DATE(created_at) = CURDATE()`. */
  function TodayUserIds(checkins: seq<Checkin>, today: int): set<int> {
    set c | c in checkins && DayOf(c.createdAt) == today :: c.userId
  }

  function EmployeeIds(users: seq<User>): set<int> {
    set u | u in users && IsEmployee(u) :: u.id
  }

  /** One row of /present-today: the employee's columns and one check-in time. */
  datatype PresentRow = PresentRow(
    id: int,
    email: string,
    fullName: string,
    department: Option<string>,
    role: string,
    checkinTime: int)

  /** The inner join condition of /present-today. */
  predicate Joined(u: User, c: Checkin, today: int) {
    IsEmployee(u) && c.userId == u.id && DayOf(c.createdAt) == today
  }

  function Pair(u: User, c: Checkin): PresentRow {
    PresentRow(u.id, u.email, u.fullName, u.department, u.role, c.createdAt)
  }

  ghost predicate PairOf(users: seq<User>, checkins: seq<Checkin>, today: int, row: PresentRow) {
    exists u, c :: u in users && c in checkins && Joined(u, c, today) && row == Pair(u, c)
  }

  function JoinUser(u: User, checkins: seq<Checkin>, today: int): (r: seq<PresentRow>)
    ensures forall row :: row in r <==> exists c :: c in checkins && Joined(u, c, today) && row == Pair(u, c)
  {
    if checkins == [] then []
    else
      var rest := JoinUser(u, checkins[1..], today);
      assert forall c :: c in checkins[1..] ==> c in checkins;
      assert checkins == [checkins[0]] + checkins[1..];
      if Joined(u, checkins[0], today) then [Pair(u, checkins[0])] + rest else rest
  }

  /** `users u INNER JOIN checkins c ON u.id = c.user_id WHERE employee AND today`. */
  function JoinAll(users: seq<User>, checkins: seq<Checkin>, today: int): (r: seq<PresentRow>)
    ensures forall row :: row in r <==> PairOf(users, checkins, today, row)
  {
    if users == [] then []
    else
      var rest := JoinAll(users[1..], checkins, today);
      assert forall u :: u in users[1..] ==> u in users;
      assert users == [users[0]] + users[1..];
      JoinUser(users[0], checkins, today) + rest
  }

  predicate RowByName(a: PresentRow, b: PresentRow) {
    LexLe(a.fullName, b.fullName)
  }

  lemma RowByNameIsPreorder()
    ensures Order.Total(RowByName) && Order.Transitive(RowByName)
  {
    forall a: PresentRow, b: PresentRow ensures RowByName(a, b) || RowByName(b, a) {
      LexLeTotal(a.fullName, b.fullName);
    }
    forall a: PresentRow, b: PresentRow, c: PresentRow | RowByName(a, b) && RowByName(b, c)
      ensures RowByName(a, c)
    {
      LexLeTransitive(a.fullName, b.fullName, c.fullName);
    }
  }

  /**
   * GET /present-today: one row per distinct (employee, check-in time) pair of
   * today, with no repeated row, by name; an employee with several check-ins
   * today appears once per distinct time.
   */
  function PresentToday(users: seq<User>, checkins: seq<Checkin>, today: int, role: Option<string>)
    : (r: HrResult<seq<PresentRow>>)
    ensures r.Forbidden? <==> !IsHR(role)
    ensures r.Ok? ==> forall row :: row in r.value <==> PairOf(users, checkins, today, row)
    ensures r.Ok? ==> Order.NoDuplicates(r.value) && Order.SortedBy(r.value, RowByName)
  {
    if !IsHR(role) then Forbidden
    else
      var distinct := Order.Distinct(JoinAll(users, checkins, today));
      RowByNameIsPreorder();
      Order.SortSorted(distinct, RowByName);
      Order.SortKeepsDistinct(distinct, RowByName);
      Ok(Order.Sort(distinct, RowByName))
  }

  /** The ids listed by /present-today are the employees with a check-in today. */
  lemma PresentIds(users: seq<User>, checkins: seq<Checkin>, today: int)
    ensures var r := PresentToday(users, checkins, today, Some("HR"));
      (set row | row in r.value :: row.id) == EmployeeIds(users) * TodayUserIds(checkins, today)
  {
    var r := PresentToday(users, checkins, today, Some("HR"));
    var ids := set row | row in r.value :: row.id;
    forall x | x in ids ensures x in EmployeeIds(users) * TodayUserIds(checkins, today) {
      var row :| row in r.value && row.id == x;
      assert PairOf(users, checkins, today, row);
      var u, c :| u in users && c in checkins && Joined(u, c, today) && row == Pair(u, c);
    }
    forall x | x in EmployeeIds(users) * TodayUserIds(checkins, today) ensures x in ids {
      var u :| u in users && IsEmployee(u) && u.id == x;
      var c :| c in checkins && DayOf(c.createdAt) == today && c.userId == x;
      assert Joined(u, c, today);
      assert PairOf(users, checkins, today, Pair(u, c));
      assert Pair(u, c) in r.value;
    }
  }

  function Absent(checkins: seq<Checkin>, today: int): User -> bool {
    (u: User) => IsEmployee(u) && u.id !in TodayUserIds(checkins, today)
  }

  /** GET /absent-today: the employees with no check-in today, by name. */
  function AbsentToday(users: seq<User>, checkins: seq<Checkin>, today: int, role: Option<string>)
    : (r: HrResult<seq<EmployeeView>>)
    ensures r.Forbidden? <==> !IsHR(role)
    ensures r.Ok? ==> multiset(r.value) == multiset(Views(Order.Filter(users, Absent(checkins, today))))
    ensures r.Ok? ==> forall v :: v in r.value <==>
      exists u :: u in users && IsEmployee(u) && u.id !in TodayUserIds(checkins, today) && v == View(u)
    ensures r.Ok? ==> Order.SortedBy(r.value, ByName)
  {
    if !IsHR(role) then Forbidden else Ok(ListByName(users, Absent(checkins, today)))
  }

  /** The ids listed by /absent-today are the employees without a check-in today. */
  lemma AbsentViewIds(users: seq<User>, checkins: seq<Checkin>, today: int)
    ensures (set v | v in AbsentToday(users, checkins, today, Some("HR")).value :: v.id)
         == EmployeeIds(users) - TodayUserIds(checkins, today)
  {
    var absentRows := AbsentToday(users, checkins, today, Some("HR")).value;
    var absent := set v | v in absentRows :: v.id;
    var e := EmployeeIds(users);
    var t := TodayUserIds(checkins, today);
    forall x | x in absent ensures x in e - t {
      var v :| v in absentRows && v.id == x;
      var u :| u in users && IsEmployee(u) && u.id !in t && v == View(u);
    }
    forall x | x in e - t ensures x in absent {
      var u :| u in users && IsEmployee(u) && u.id == x;
      assert View(u) in absentRows;
    }
  }

  /** The ids of /present-today and /absent-today split the employees: disjoint, and together all of them. */
  lemma PresentAbsentPartition(users: seq<User>, checkins: seq<Checkin>, today: int)
    ensures var present := set row | row in PresentToday(users, checkins, today, Some("HR")).value :: row.id;
            var absent := set v | v in AbsentToday(users, checkins, today, Some("HR")).value :: v.id;
            present * absent == {} && present + absent == EmployeeIds(users)
  {
    PresentIds(users, checkins, today);
    AbsentViewIds(users, checkins, today);
  }

  // ---- Statistics ----

  ghost predicate UniqueIds(users: seq<User>) {
    forall i, j :: 0 <= i < j < |users| ==> users[i].id != users[j].id
  }

  predicate DifferentId(a: User, b: User) {
    a.id != b.id
  }

  /** The distinct ids of some user rows. */
  function IdSet(users: seq<User>): (ids: set<int>)
    ensures forall x :: x in ids <==> exists u :: u in users && u.id == x
  {
    if users == [] then {}
    else
      assert forall u :: u in users[1..] ==> u in users;
      assert users == [users[0]] + users[1..];
      {users[0].id} + IdSet(users[1..])
  }

  /** With unique ids there are as many distinct ids as rows. */
  lemma {:induction false} IdSetSize(users: seq<User>)
    requires UniqueIds(users)
    ensures |IdSet(users)| == |users|
  {
    if users != [] {
      var tail := users[1..];
      TailUniqueIds(users);
      IdSetSize(tail);
      HeadIdNew(users);
      assert IdSet(users) == {users[0].id} + IdSet(tail);
    }
  }

  lemma TailUniqueIds(users: seq<User>)
    requires users != [] && UniqueIds(users)
    ensures UniqueIds(users[1..])
  {
    var tail := users[1..];
    forall i, j | 0 <= i < j < |tail| ensures tail[i].id != tail[j].id {
      assert tail[i] == users[i + 1] && tail[j] == users[j + 1];
    }
  }

  /** With unique ids, the first row's id is not among the ids of the rest. */
  lemma HeadIdNew(users: seq<User>)
    requires users != [] && UniqueIds(users)
    ensures users[0].id !in IdSet(users[1..])
  {
    var tail := users[1..];
    forall u | u in tail ensures u.id != users[0].id {
      var k :| 0 <= k < |tail| && tail[k] == u;
      assert users[k + 1] == u;
    }
  }

  function IsPositive(c: Checkin): bool {
    c.mood == "happy" || c.mood == "very_happy"
  }

  function TodayOf(u: User, today: int): Checkin -> bool {
    (c: Checkin) => c.userId == u.id && DayOf(c.createdAt) == today
  }

  function PendingOf(u: User): SupportRequest -> bool {
    (r: SupportRequest) => r.userId == u.id && r.status == "pending"
  }

  /** A LEFT JOIN with no match still contributes one row (of NULLs). */
  function AtLeastOne(n: nat): (m: nat)
    ensures m >= 1
  {
    if n == 0 then 1 else n
  }

  lemma ProductPositive(a: nat, b: nat)
    requires a >= 1 && b >= 1
    ensures a * b >= 1
  {
    assert a * b == a * (b - 1) + a;
  }

  /** The rows `users LEFT JOIN checkins(today) LEFT JOIN support_requests(pending)` yields per employee row. */
  function JoinedRows(employees: seq<User>, checkins: seq<Checkin>, requests: seq<SupportRequest>, today: int): (n: nat)
    ensures n >= |employees|
  {
    if employees == [] then 0
    else
      var u := employees[0];
      var mine := AtLeastOne(|Order.Filter(checkins, TodayOf(u, today))|);
      var pending := AtLeastOne(|Order.Filter(requests, PendingOf(u))|);
      ProductPositive(mine, pending);
      mine * pending + JoinedRows(employees[1..], checkins, requests, today)
  }

  /** Of those rows, the ones whose check-in mood is 'happy' or 'very_happy'. */
  function PositiveRows(employees: seq<User>, checkins: seq<Checkin>, requests: seq<SupportRequest>, today: int)
    : (n: nat)
    ensures n <= JoinedRows(employees, checkins, requests, today)
  {
    if employees == [] then 0
    else
      var u := employees[0];
      var mine := Order.Filter(checkins, TodayOf(u, today));
      var pending := AtLeastOne(|Order.Filter(requests, PendingOf(u))|);
      ProductMonotone(|Order.Filter(mine, IsPositive)|, AtLeastOne(|mine|), pending);
      |Order.Filter(mine, IsPositive)| * pending + PositiveRows(employees[1..], checkins, requests, today)
  }

  lemma ProductMonotone(a: nat, b: nat, c: nat)
    requires a <= b
    ensures a * c <= b * c
  {
    assert b * c == a * c + (b - a) * c;
  }

  /** A count of some of n rows, divided by n, is a fraction between 0 and 1. */
  lemma Fraction(k: nat, n: nat)
    requires 0 < n && k <= n
    ensures 0.0 <= k as real / n as real <= 1.0
  {
    assert (k as real / n as real) * (n as real) == k as real;
  }

  datatype Statistics = Statistics(
    totalEmployees: int,
    presentToday: int,
    absentToday: int,
    pendingSupportRequests: int,
    positiveMoodPercentage: Option<real>)  // AVG over no rows is NULL

  /**
   * `COUNT(DISTINCT sr.id)`: the ids of the employees' pending requests, each
   * once however many check-in rows the join repeats it on.
   */
  function PendingIds(users: seq<User>, requests: seq<SupportRequest>): (ids: set<int>)
    ensures forall q :: q in requests && q.status == "pending" && q.userId in EmployeeIds(users) ==> q.id in ids
    ensures forall x :: x in ids ==>
      exists q :: q in requests && q.status == "pending" && q.userId in EmployeeIds(users) && q.id == x
  {
    set r | r in requests && r.status == "pending" && r.userId in EmployeeIds(users) :: r.id
  }

  /**
   * `AVG(CASE WHEN c.mood IN ('happy', 'very_happy') THEN 1 ELSE 0 END)` over
   * the joined rows; NULL when there are none.
   */
  function PositivePercentage(users: seq<User>, checkins: seq<Checkin>, requests: seq<SupportRequest>,
                              today: int): (avg: Option<real>)
    ensures avg.None? <==> Order.Filter(users, IsEmployee) == []
    ensures avg.Some? ==> 0.0 <= avg.value <= 1.0
  {
    var employees := Order.Filter(users, IsEmployee);
    var rows := JoinedRows(employees, checkins, requests, today);
    if rows == 0 then None
    else
      Fraction(PositiveRows(employees, checkins, requests, today), rows);
      Some(PositiveRows(employees, checkins, requests, today) as real / rows as real)
  }

  /** GET /statistics: distinct counts and the average of the positive-mood indicator over the joined rows. */
  function Stats(users: seq<User>, checkins: seq<Checkin>, requests: seq<SupportRequest>, today: int,
                 role: Option<string>): (r: HrResult<Statistics>)
    ensures r.Forbidden? <==> !IsHR(role)
    ensures r.Ok? ==> r.value.totalEmployees == |EmployeeIds(users)|
    ensures r.Ok? ==> r.value.presentToday == |EmployeeIds(users) * TodayUserIds(checkins, today)|
    ensures r.Ok? ==> r.value.absentToday == r.value.totalEmployees - r.value.presentToday >= 0
    ensures r.Ok? ==> r.value.pendingSupportRequests == |PendingIds(users, requests)|
    ensures r.Ok? ==> r.value.positiveMoodPercentage == PositivePercentage(users, checkins, requests, today)
  {
    if !IsHR(role) then Forbidden
    else
      var total := |EmployeeIds(users)|;
      var present := |EmployeeIds(users) * TodayUserIds(checkins, today)|;
      SubsetSize(EmployeeIds(users) * TodayUserIds(checkins, today), EmployeeIds(users));
      Ok(Statistics(total, present, total - present, |PendingIds(users, requests)|,
                    PositivePercentage(users, checkins, requests, today)))
  }

  lemma SubsetSize(a: set<int>, b: set<int>)
    requires a <= b
    ensures |a| <= |b|
  {
    assert b == a + (b - a);
  }

  /** A set loses exactly its common part with another set when that set is taken away. */
  lemma DifferenceSize(e: set<int>, t: set<int>)
    ensures |e - t| == |e| - |e * t|
  {
    assert e == (e - t) + (e * t);
    assert (e - t) * (e * t) == {};
  }

  /** /absent-today lists one row per absent employee row. */
  lemma AbsentListLength(users: seq<User>, checkins: seq<Checkin>, today: int)
    ensures |AbsentToday(users, checkins, today, Some("HR")).value| == |Order.Filter(users, Absent(checkins, today))|
  {
  }

  /** The ids of the absent employee rows are the employee ids without a check-in today. */
  lemma AbsentIds(users: seq<User>, checkins: seq<Checkin>, today: int)
    ensures IdSet(Order.Filter(users, Absent(checkins, today))) == EmployeeIds(users) - TodayUserIds(checkins, today)
  {
    var absentUsers := Order.Filter(users, Absent(checkins, today));
    var e := EmployeeIds(users);
    var t := TodayUserIds(checkins, today);
    forall x | x in IdSet(absentUsers) ensures x in e - t {
      var u :| u in absentUsers && u.id == x;
    }
    forall x | x in e - t ensures x in IdSet(absentUsers) {
      var u :| u in users && IsEmployee(u) && u.id == x;
      assert u in absentUsers;
    }
  }

  /**
   * With unique user ids, the statistics' absent count is the length of the
   * /absent-today list.
   */
  lemma AbsentCountMatchesList(users: seq<User>, checkins: seq<Checkin>, requests: seq<SupportRequest>, today: int)
    requires UniqueIds(users)
    ensures Stats(users, checkins, requests, today, Some("HR")).value.absentToday
         == |AbsentToday(users, checkins, today, Some("HR")).value|
  {
    var absentUsers := Order.Filter(users, Absent(checkins, today));
    assert Order.SortedBy(users, DifferentId);
    Order.FilterKeepsSorted(users, Absent(checkins, today), DifferentId);
    assert UniqueIds(absentUsers);
    IdSetSize(absentUsers);
    AbsentIds(users, checkins, today);
    DifferenceSize(EmployeeIds(users), TodayUserIds(checkins, today));
    AbsentListLength(users, checkins, today);
  }

  /** No check-in POST stores 'happy' or 'very_happy', so no joined row is positive. */
  lemma {:induction false} NoPositiveRows(employees: seq<User>, checkins: seq<Checkin>,
                                          requests: seq<SupportRequest>, today: int)
    requires Checkins.MoodsValid(checkins)
    ensures PositiveRows(employees, checkins, requests, today) == 0
  {
    if employees != [] {
      var u := employees[0];
      var mine := Order.Filter(checkins, TodayOf(u, today));
      forall c | c in mine ensures !IsPositive(c) {
        assert c in checkins;
      }
      Order.FilterNone(mine, IsPositive);
      NoPositiveRows(employees[1..], checkins, requests, today);
    }
  }

  lemma ZeroRatio(n: nat)
    requires n > 0
    ensures (0 as real) / (n as real) == 0.0
  {
  }

  /** Some user is an employee exactly when the employee rows are not empty. */
  lemma EmployeesExist(users: seq<User>)
    ensures (exists u :: u in users && IsEmployee(u)) <==> Order.Filter(users, IsEmployee) != []
  {
    var employees := Order.Filter(users, IsEmployee);
    if employees != [] {
      assert employees[0] in employees;
    }
  }

  /**
   * When every stored mood is one the check-in POST accepts, the positive
   * percentage is 0 as soon as one employee exists, and NULL when none does.
   */
  lemma PositiveMoodIsZero(users: seq<User>, checkins: seq<Checkin>, requests: seq<SupportRequest>, today: int)
    requires Checkins.MoodsValid(checkins)
    ensures PositivePercentage(users, checkins, requests, today) == Some(0.0) <==>
      exists u :: u in users && IsEmployee(u)
    ensures PositivePercentage(users, checkins, requests, today) == None <==>
      forall u :: u in users ==> !IsEmployee(u)
  {
    var employees := Order.Filter(users, IsEmployee);
    NoPositiveRows(employees, checkins, requests, today);
    EmployeesExist(users);
    var rows := JoinedRows(employees, checkins, requests, today);
    assert rows == 0 <==> employees == [];
    if rows != 0 {
      ZeroRatio(rows);
    }
  }

  // ---- /checkins: per-mood counts for today and anonymous recent rows ----

  datatype MoodCount = MoodCount(mood: string, count: nat)

  /** One row of the anonymous feed: no id and no user. */
  datatype AnonymousCheckin = AnonymousCheckin(mood: string, notes: Option<string>, createdAt: int)

  function AddMood(groups: seq<MoodCount>, m: string): (r: seq<MoodCount>)
    ensures forall g :: g in r ==> g in groups || (g.mood == m && g.count >= 1)
  {
    if groups == [] then [MoodCount(m, 1)]
    else if groups[0].mood == m then [MoodCount(m, groups[0].count + 1)] + groups[1..]
    else [groups[0]] + AddMood(groups[1..], m)
  }

  /**
   * `SELECT mood, COUNT(*) ... GROUP BY mood`, groups in order of first
   * appearance; a group exists only for a mood that occurs, so none is empty.
   */
  function GroupByMood(cs: seq<Checkin>): (groups: seq<MoodCount>)
    ensures forall g :: g in groups ==> g.count >= 1
    decreases |cs|
  {
    if cs == [] then [] else AddMood(GroupByMood(cs[..|cs| - 1]), cs[|cs| - 1].mood)
  }

  function CountMood(cs: seq<Checkin>, m: string): nat
    decreases |cs|
  {
    if cs == [] then 0 else CountMood(cs[..|cs| - 1], m) + (if cs[|cs| - 1].mood == m then 1 else 0)
  }

  function SumCounts(groups: seq<MoodCount>): nat {
    if groups == [] then 0 else groups[0].count + SumCounts(groups[1..])
  }

  /** The count a grouping reports for a mood (0 when the mood has no group). */
  function CountIn(groups: seq<MoodCount>, m: string): nat {
    if groups == [] then 0 else (if groups[0].mood == m then groups[0].count else 0) + CountIn(groups[1..], m)
  }

  ghost predicate DistinctMoods(groups: seq<MoodCount>) {
    forall i, j :: 0 <= i < j < |groups| ==> groups[i].mood != groups[j].mood
  }

  /** Counting one more check-in adds one to the total. */
  lemma {:induction false} AddMoodSum(groups: seq<MoodCount>, m: string)
    ensures SumCounts(AddMood(groups, m)) == SumCounts(groups) + 1
  {
    if groups != [] {
      var r := AddMood(groups, m);
      if groups[0].mood == m {
        assert r[1..] == groups[1..];
      } else {
        AddMoodSum(groups[1..], m);
        assert r[1..] == AddMood(groups[1..], m);
      }
    }
  }

  /** Counting one more check-in of mood m adds one to m's count and leaves every other mood's count alone. */
  lemma {:induction false} AddMoodCount(groups: seq<MoodCount>, m: string, x: string)
    ensures CountIn(AddMood(groups, m), x) == CountIn(groups, x) + (if x == m then 1 else 0)
  {
    if groups != [] {
      var r := AddMood(groups, m);
      if groups[0].mood == m {
        assert r[1..] == groups[1..];
      } else {
        AddMoodCount(groups[1..], m, x);
        assert r[1..] == AddMood(groups[1..], m);
      }
    }
  }

  /** The groups after the first of a grouping have other moods than the first, and distinct ones. */
  lemma HeadDistinct(groups: seq<MoodCount>)
    requires groups != [] && DistinctMoods(groups)
    ensures DistinctMoods(groups[1..])
    ensures forall g :: g in groups[1..] ==> g.mood != groups[0].mood
  {
    forall g | g in groups[1..] ensures g.mood != groups[0].mood {
      var k :| 0 <= k < |groups[1..]| && groups[1..][k] == g;
      assert groups[k + 1] == g;
    }
  }

  /** Putting a group of a new mood in front of a grouping keeps the moods distinct. */
  lemma ConsDistinct(h: MoodCount, rest: seq<MoodCount>)
    requires DistinctMoods(rest)
    requires forall g :: g in rest ==> g.mood != h.mood
    ensures DistinctMoods([h] + rest)
  {
    var r := [h] + rest;
    forall i, j | 0 <= i < j < |r| ensures r[i].mood != r[j].mood {
      assert r[j] == rest[j - 1] && r[j] in rest;
      if i > 0 { assert r[i] == rest[i - 1]; }
    }
  }

  /** Counting one more check-in never creates a second group for a mood. */
  lemma {:induction false} AddMoodDistinct(groups: seq<MoodCount>, m: string)
    requires DistinctMoods(groups)
    ensures DistinctMoods(AddMood(groups, m))
  {
    if groups != [] {
      var tail := groups[1..];
      HeadDistinct(groups);
      if groups[0].mood == m {
        ConsDistinct(MoodCount(m, groups[0].count + 1), tail);
      } else {
        AddMoodDistinct(tail, m);
        ConsDistinct(groups[0], AddMood(tail, m));
      }
    }
  }

  /**
   * The grouped counts of today's check-ins: one group per mood, each with the
   * number of check-ins of that mood, summing to the number of check-ins.
   */
  lemma {:induction false} GroupByMoodCounts(cs: seq<Checkin>)
    ensures DistinctMoods(GroupByMood(cs))
    ensures SumCounts(GroupByMood(cs)) == |cs|
    ensures forall m :: CountIn(GroupByMood(cs), m) == CountMood(cs, m)
    decreases |cs|
  {
    if cs != [] {
      var init := cs[..|cs| - 1];
      var m := cs[|cs| - 1].mood;
      GroupByMoodCounts(init);
      AddMoodSum(GroupByMood(init), m);
      AddMoodDistinct(GroupByMood(init), m);
      forall x | true ensures CountIn(GroupByMood(cs), x) == CountMood(cs, x) {
        AddMoodCount(GroupByMood(init), m, x);
      }
    }
  }

  /** `SELECT mood, notes, created_at`: the row without its id and user. */
  function Anonymize(c: Checkin): (a: AnonymousCheckin)
    ensures a.mood == c.mood && a.notes == c.notes && a.createdAt == c.createdAt
  {
    AnonymousCheckin(c.mood, c.notes, c.createdAt)
  }

  /** The anonymous feed cannot tell apart two check-ins that differ only in id and user. */
  lemma AnonymizeHidesIdentity(c: Checkin, id: int, userId: int)
    ensures Anonymize(c.(id := id, userId := userId)) == Anonymize(c)
  {
  }

  datatype CheckinReport = CheckinReport(stats: seq<MoodCount>, recent: seq<AnonymousCheckin>)

  function IsToday(today: int): Checkin -> bool {
    (c: Checkin) => DayOf(c.createdAt) == today
  }

  /** GET /checkins: today's counts per mood, and the 50 newest check-ins of anyone, anonymised. */
  function CheckinsReport(checkins: seq<Checkin>, today: int, role: Option<string>): (r: HrResult<CheckinReport>)
    ensures r.Forbidden? <==> !IsHR(role)
    ensures r.Ok? ==> SumCounts(r.value.stats) == |Order.Filter(checkins, IsToday(today))|
    ensures r.Ok? ==> DistinctMoods(r.value.stats)
    ensures r.Ok? ==> forall g :: g in r.value.stats ==> g.count >= 1
    ensures r.Ok? ==> forall m :: CountIn(r.value.stats, m) == CountMood(Order.Filter(checkins, IsToday(today)), m)
    ensures r.Ok? ==> |r.value.recent| == (if 50 < |checkins| then 50 else |checkins|)
    ensures r.Ok? ==> forall i :: 0 <= i < |r.value.recent| ==>
      r.value.recent[i] == Anonymize(Order.NewestFirst(checkins, CheckinTime)[i])
    ensures r.Ok? ==> forall i, j :: 0 <= i < j < |r.value.recent| ==>
      r.value.recent[i].createdAt >= r.value.recent[j].createdAt
  {
    if !IsHR(role) then Forbidden
    else
      var todays := Order.Filter(checkins, IsToday(today));
      GroupByMoodCounts(todays);
      Order.NewestFirstSorted(checkins, CheckinTime);
      var newest := Order.Take(Order.NewestFirst(checkins, CheckinTime), 50);
      Ok(CheckinReport(GroupByMood(todays), seq(|newest|, i requires 0 <= i < |newest| => Anonymize(newest[i]))))
  }
}
