// Mood check-ins (routes/checkins.routes.js): the admission rule that
// rate-limits submissions per user, the append to the checkins table, the
// read-only /can-submit twin of the rule, and the per-user read queries.
module Checkins {
  import opened Js
  import opened Schema
  import Order

  /** The closed set of moods a check-in may carry. */
  const Moods: seq<string> := ["good", "neutral", "bad", "tired"]

  /** `!mood || !Moods.includes(mood)` is refused. */
  predicate ValidMood(mood: Option<string>) {
    Truthy(mood) && mood.value in Moods
  }

  ghost predicate MoodsValid(rows: seq<Checkin>) {
    forall r :: r in rows ==> r.mood in Moods
  }

  const ProductionInterval: int := 86400
  const DevelopmentInterval: int := 120

  /**
   * Process configuration: whether NODE_ENV is "production", and the parsed
   * CHECKIN_INTERVAL_SECONDS when that variable is set and non-empty.
   */
  datatype Config = Config(production: bool, intervalOverride: Option<int>)

  /** The cooldown in seconds: the override when set, else one day in production and two minutes otherwise. */
  function IntervalSeconds(config: Config): (seconds: int)
    ensures config.intervalOverride.Some? ==> seconds == config.intervalOverride.value
    ensures config.intervalOverride.None? ==> seconds == (if config.production then 86400 else 120)
    ensures config.intervalOverride.None? ==> seconds > 0
  {
    match config.intervalOverride
    case Some(n) => n
    case None => if config.production then ProductionInterval else DevelopmentInterval
  }

  /** `Math.floor((now - last) / 1000)`: whole seconds elapsed, rounded down. */
  function AgeSeconds(last: int, now: int): (age: int)
    ensures age * 1000 <= now - last < age * 1000 + 1000
    ensures last <= now ==> age >= 0
  {
    (now - last) / 1000
  }

  /** The outcome of the admission rule. */
  datatype Verdict = Allowed | Denied(retryAfter: int)

  /**
   * The admission rule: a user with no earlier check-in is admitted; otherwise
   * the check-in is admitted iff its age reaches the interval, and a refusal
   * says how many seconds remain.
   */
  function Admit(last: Option<int>, now: int, interval: int): (v: Verdict)
    ensures last.None? ==> v == Allowed
    ensures last.Some? ==> (v == Allowed <==> AgeSeconds(last.value, now) >= interval)
    ensures v.Denied? ==> last.Some? && v.retryAfter == interval - AgeSeconds(last.value, now)
    ensures v.Denied? ==> v.retryAfter >= 1
    ensures v.Denied? && last.value <= now ==> v.retryAfter <= interval
  {
    match last
    case None => Allowed
    case Some(t) =>
      var age := AgeSeconds(t, now);
      if age < interval then Denied(interval - age) else Allowed
  }

  /** An age exactly equal to the interval is admitted. */
  lemma BoundaryIsAdmitted(last: int, interval: int, extraMillis: int)
    requires 0 <= extraMillis < 1000
    ensures Admit(Some(last), last + interval * 1000 + extraMillis, interval) == Allowed
  {
    assert AgeSeconds(last, last + interval * 1000 + extraMillis) == interval;
  }

  /** One millisecond short of the interval is refused with exactly one second to wait. */
  lemma JustShortIsRefused(last: int, interval: int)
    ensures Admit(Some(last), last + interval * 1000 - 1, interval) == Denied(1)
  {
    assert AgeSeconds(last, last + interval * 1000 - 1) == interval - 1;
  }

  /** `SELECT created_at ... WHERE user_id = ? ORDER BY created_at DESC LIMIT 1`, as a value. */
  function LatestCreatedAt(rows: seq<Checkin>, user: int): (t: Option<int>)
    ensures t.None? <==> forall r :: r in rows ==> r.userId != user
    ensures t.Some? ==> exists r :: r in rows && r.userId == user && r.createdAt == t.value
    ensures t.Some? ==> forall r :: r in rows && r.userId == user ==> r.createdAt <= t.value
  {
    if rows == [] then None
    else
      var rest := LatestCreatedAt(rows[1..], user);
      assert forall r :: r in rows[1..] ==> r in rows;
      if rows[0].userId != user then rest
      else if rest.Some? && rest.value > rows[0].createdAt then rest
      else Some(rows[0].createdAt)
  }

  /** A row of the user's that no other row of the user's is newer than holds the latest time. */
  lemma LatestIsMaximum(rows: seq<Checkin>, user: int, w: Checkin)
    requires w in rows && w.userId == user
    requires forall r :: r in rows && r.userId == user ==> r.createdAt <= w.createdAt
    ensures LatestCreatedAt(rows, user) == Some(w.createdAt)
  {
    var t := LatestCreatedAt(rows, user);
    var x :| x in rows && x.userId == user && x.createdAt == t.value;
  }

  /** The response of POST /api/checkins. */
  datatype PostResponse = Created(record: Checkin) | InvalidMood | TooManyRequests(retryAfter: int)
  {
    function Status(): int {
      match this
      case Created(_) => 201
      case InvalidMood => 400
      case TooManyRequests(_) => 429
    }
  }

  /**
   * What POST /api/checkins answers on a table and a clock: the mood is checked
   * before the table is read, then the admission rule decides, and an admitted
   * check-in becomes the row `{id, user, mood, notes or NULL, now}`.
   */
  function PostOutcome(rows: seq<Checkin>, nextId: int, user: int, mood: Option<string>,
                       notes: Option<string>, now: int, config: Config): (r: PostResponse)
    ensures r == InvalidMood <==> !ValidMood(mood)
    ensures ValidMood(mood) ==>
      (r.Created? <==> Admit(LatestCreatedAt(rows, user), now, IntervalSeconds(config)) == Allowed)
    ensures r.TooManyRequests? ==>
      Admit(LatestCreatedAt(rows, user), now, IntervalSeconds(config)) == Denied(r.retryAfter)
    ensures r.Created? ==>
      r.record == Checkin(nextId, user, mood.value, OrNull(notes), now) && r.record.mood in Moods
  {
    if !ValidMood(mood) then InvalidMood
    else
      match Admit(LatestCreatedAt(rows, user), now, IntervalSeconds(config))
      case Denied(k) => TooManyRequests(k)
      case Allowed => Created(Checkin(nextId, user, mood.value, OrNull(notes), now))
  }

  /** A user who has never checked in is admitted by POST with any valid mood. */
  lemma FirstCheckinAdmitted(rows: seq<Checkin>, nextId: int, user: int, mood: Option<string>,
                             notes: Option<string>, now: int, config: Config)
    requires ValidMood(mood)
    requires forall r :: r in rows ==> r.userId != user
    ensures PostOutcome(rows, nextId, user, mood, notes, now, config).Created?
  {
  }

  /**
   * GET /can-submit and a valid-mood POST agree on the same table and clock:
   * the POST creates iff /can-submit says allowed, and refuses with the same
   * retryAfter otherwise.
   */
  lemma CanSubmitAgreesWithPost(rows: seq<Checkin>, nextId: int, user: int, mood: Option<string>,
                                notes: Option<string>, now: int, config: Config)
    requires ValidMood(mood)
    ensures var v := Admit(LatestCreatedAt(rows, user), now, IntervalSeconds(config));
            var p := PostOutcome(rows, nextId, user, mood, notes, now, config);
            (v == Allowed <==> p.Created?) && (v.Denied? ==> p == TooManyRequests(v.retryAfter))
  {
  }

  /** Rows of one user, as `WHERE user_id = ?`. */
  function OwnedBy(user: int): Checkin -> bool {
    (r: Checkin) => r.userId == user
  }

  /** An append for one user leaves every other user's rows as they were. */
  lemma AppendLeavesOthers(rows: seq<Checkin>, record: Checkin, other: int)
    requires record.userId != other
    ensures Order.Filter(rows + [record], OwnedBy(other)) == Order.Filter(rows, OwnedBy(other))
  {
    Order.FilterAppend(rows, record, OwnedBy(other));
  }

  /** GET /my: every copy of the caller's check-ins and nothing else, newest first. */
  function MyCheckins(rows: seq<Checkin>, user: int): (r: seq<Checkin>)
    ensures forall x :: multiset(r)[x] == if x.userId == user then multiset(rows)[x] else 0
    ensures forall x :: x in r <==> x in rows && x.userId == user
    ensures forall i, j :: 0 <= i < j < |r| ==> r[i].createdAt >= r[j].createdAt
  {
    var mine := Order.Filter(rows, OwnedBy(user));
    Order.FilterCounts(rows, OwnedBy(user));
    Order.NewestFirstSorted(mine, CheckinTime);
    Order.NewestFirst(mine, CheckinTime)
  }

  /** GET /today: every copy of the caller's check-ins dated `today` and nothing else, newest first. */
  function TodayCheckins(rows: seq<Checkin>, user: int, today: int): (r: seq<Checkin>)
    ensures forall x ::
      multiset(r)[x] == if x.userId == user && DayOf(x.createdAt) == today then multiset(rows)[x] else 0
    ensures forall x :: x in r <==> x in rows && x.userId == user && DayOf(x.createdAt) == today
    ensures forall i, j :: 0 <= i < j < |r| ==> r[i].createdAt >= r[j].createdAt
  {
    var todays := Order.Filter(MyCheckins(rows, user), OnDay(today));
    Order.FilterCounts(MyCheckins(rows, user), OnDay(today));
    Order.NewestFirstSorted(todays, CheckinTime);
    Order.NewestFirst(todays, CheckinTime)
  }

  function OnDay(today: int): Checkin -> bool {
    (x: Checkin) => DayOf(x.createdAt) == today
  }

  /**
   * GET /recent: the first `limit` of the caller's check-ins, newest first;
   * a negative LIMIT makes the query fail (None).
   */
  function Recent(rows: seq<Checkin>, user: int, parsedLimit: Option<int>): (r: Option<seq<Checkin>>)
    ensures r.None? <==> Order.RecentLimit(parsedLimit) < 0
    ensures r.Some? ==> |r.value| == Min(Order.RecentLimit(parsedLimit), |MyCheckins(rows, user)|)
    ensures r.Some? ==> r.value == MyCheckins(rows, user)[..|r.value|]
  {
    var limit := Order.RecentLimit(parsedLimit);
    if limit < 0 then None else Some(Order.Take(MyCheckins(rows, user), limit))
  }

  function Min(a: int, b: int): int {
    if a <= b then a else b
  }

  /** The response of GET /latest. */
  datatype LatestResponse = Found(record: Checkin) | NotFound
  {
    function Status(): int {
      if Found? then 200 else 404
    }
  }

  /** The checkins table. Ids are assigned by auto-increment and only grow. */
  class CheckinStore {
    var rows: seq<Checkin>
    var nextId: int

    ghost predicate Valid()
      reads this
    {
      && nextId >= 1
      && (forall i :: 0 <= i < |rows| ==> 1 <= rows[i].id < nextId)
      && (forall i, j :: 0 <= i < j < |rows| ==> rows[i].id < rows[j].id)
    }

    constructor ()
      ensures Valid() && rows == [] && nextId == 1
    {
      rows := [];
      nextId := 1;
    }

    /** The caller's most recent row: one with the greatest created_at, if any. */
    method FindLatest(user: int) returns (last: Option<Checkin>)
      ensures last.None? <==> forall r :: r in rows ==> r.userId != user
      ensures last.Some? ==> last.value in rows && last.value.userId == user
      ensures last.Some? ==> forall r :: r in rows && r.userId == user ==> r.createdAt <= last.value.createdAt
      ensures last.Some? ==> LatestCreatedAt(rows, user) == Some(last.value.createdAt)
    {
      last := None;
      var i := 0;
      while i < |rows|
        invariant 0 <= i <= |rows|
        invariant last.None? ==> forall k :: 0 <= k < i ==> rows[k].userId != user
        invariant last.Some? ==> last.value in rows && last.value.userId == user
        invariant last.Some? ==> forall k :: 0 <= k < i && rows[k].userId == user ==> rows[k].createdAt <= last.value.createdAt
      {
        var r := rows[i];
        if r.userId == user && (last.None? || r.createdAt > last.value.createdAt) {
          last := Some(r);
        }
        i := i + 1;
      }
      if last.Some? {
        LatestIsMaximum(rows, user, last.value);
      }
    }

    /** The value FindLatest leads to, as the admission rule consumes it. */
    method LatestTime(user: int) returns (t: Option<int>)
      ensures t == LatestCreatedAt(rows, user)
    {
      var last := FindLatest(user);
      t := if last.None? then None else Some(last.value.createdAt);
    }

    /** GET /can-submit: the admission rule on the current table, with no write. */
    method CanSubmit(user: int, now: int, config: Config) returns (v: Verdict)
      ensures v == Admit(LatestCreatedAt(rows, user), now, IntervalSeconds(config))
      ensures (forall r :: r in rows ==> r.userId != user) ==> v == Allowed
    {
      var interval := IntervalSeconds(config);
      var last := LatestTime(user);
      v := Admit(last, now, interval);
    }

    /** GET /latest: the caller's most recent check-in, or 404. */
    method Latest(user: int) returns (resp: LatestResponse)
      ensures resp == NotFound <==> forall r :: r in rows ==> r.userId != user
      ensures resp.Found? ==> resp.record in rows && resp.record.userId == user
      ensures resp.Found? ==> Some(resp.record.createdAt) == LatestCreatedAt(rows, user)
    {
      var last := FindLatest(user);
      resp := if last.None? then NotFound else Found(last.value);
    }

    /** `INSERT INTO checkins (user_id, mood, notes)`: one new row with the next id. */
    method Append(user: int, mood: string, notes: Option<string>, now: int) returns (record: Checkin)
      requires Valid()
      modifies this
      ensures Valid()
      ensures record == Checkin(old(nextId), user, mood, notes, now)
      ensures rows == old(rows) + [record] && nextId == old(nextId) + 1
    {
      record := Checkin(nextId, user, mood, notes, now);
      rows := rows + [record];
      nextId := nextId + 1;
    }

    /** POST /api/checkins: validate, apply the admission rule, and append only when admitted. */
    method Submit(user: int, mood: Option<string>, notes: Option<string>, now: int, config: Config)
      returns (resp: PostResponse)
      requires Valid()
      modifies this
      ensures Valid()
      ensures resp == PostOutcome(old(rows), old(nextId), user, mood, notes, now, config)
      ensures resp.Created? ==> rows == old(rows) + [resp.record] && nextId == old(nextId) + 1
      ensures !resp.Created? ==> rows == old(rows) && nextId == old(nextId)
      ensures MoodsValid(old(rows)) ==> MoodsValid(rows)
    {
      if !ValidMood(mood) {
        return InvalidMood;
      }
      var interval := IntervalSeconds(config);
      var last := LatestTime(user);
      var verdict := Admit(last, now, interval);
      if verdict.Denied? {
        return TooManyRequests(verdict.retryAfter);
      }
      var record := Append(user, mood.value, OrNull(notes), now);
      resp := Created(record);
    }
  }
}
