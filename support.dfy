// Support requests (routes/support.routes.js): payload normalisation and
// intake, the employee's own listings, and the HR-only listing, status
// update and deletion over the support_requests table.
module Support {
  import opened Js
  import opened Schema
  import Order

  const Urgencies: seq<string> := ["low", "medium", "high", "crisis"]
  const Statuses: seq<string> := ["pending", "in_progress", "resolved", "closed"]

  /** The JSON body of POST /api/support; several front ends use different keys. */
  datatype Payload = Payload(
    requestType: Option<string>,   // body.request_type
    kind: Option<string>,          // body.type
    subject: Option<string>,
    message: Option<string>,
    description: Option<string>,
    urgency: Option<string>,
    priority: Option<string>,
    phoneContact: Option<string>,  // body.phone_contact
    phone: Option<string>)

  /** The column values a payload resolves to. */
  datatype Fields = Fields(
    requestType: string,
    subject: Option<string>,
    message: string,
    urgency: string,
    phoneContact: Option<string>)

  /** A case-insensitive match of an allowed urgency is stored lower-cased; anything else is "low". */
  function NormalizeUrgency(raw: string): (u: string)
    ensures u in Urgencies
    ensures ToLower(raw) in Urgencies ==> u == ToLower(raw)
    ensures ToLower(raw) !in Urgencies ==> u == "low"
  {
    var lower := ToLower(raw);
    if lower in Urgencies then lower else "low"
  }

  /** Normalising an urgency twice changes nothing. */
  lemma NormalizeUrgencyIdempotent(raw: string)
    ensures NormalizeUrgency(NormalizeUrgency(raw)) == NormalizeUrgency(raw)
  {
    var u := NormalizeUrgency(raw);
    assert IsLowerAscii(u);
    ToLowerOfLower(u);
  }

  /** The fixed fallback order of each field. */
  function Resolve(p: Payload): (f: Fields)
    ensures f.requestType == OrElse(Or(p.requestType, p.kind), "general")
    ensures f.subject == OrNull(p.subject)
    ensures f.message == OrElse(Or(p.message, p.description), "")
    ensures f.urgency == NormalizeUrgency(OrElse(Or(p.urgency, p.priority), "low"))
    ensures f.phoneContact == OrNull(Or(p.phoneContact, p.phone))
    ensures f.requestType != "" && f.urgency in Urgencies
  {
    Fields(
      OrElse(Or(p.requestType, p.kind), "general"),
      OrNull(p.subject),
      OrElse(Or(p.message, p.description), ""),
      NormalizeUrgency(OrElse(Or(p.urgency, p.priority), "low")),
      OrNull(Or(p.phoneContact, p.phone)))
  }

  /** The message is the first non-empty of message and description, and empty only when both are falsy. */
  lemma MessageFallback(p: Payload)
    ensures Resolve(p).message == "" <==> !Truthy(p.message) && !Truthy(p.description)
    ensures Truthy(p.message) ==> Resolve(p).message == p.message.value
    ensures !Truthy(p.message) && Truthy(p.description) ==> Resolve(p).message == p.description.value
  {
  }

  /** The responses of the support routes. */
  datatype Response =
    | Created(request: SupportRequest)
    | Requests(list: seq<SupportRequest>)
    | StatusUpdated(status: string)
    | Deleted
    | MissingMessage
    | InvalidStatus
    | Forbidden
    | NotFound
    | QueryFailed
  {
    function Status(): int {
      match this
      case Created(_) => 201
      case Requests(_) => 200
      case StatusUpdated(_) => 200
      case Deleted => 200
      case MissingMessage => 400
      case InvalidStatus => 400
      case Forbidden => 403
      case NotFound => 404
      case QueryFailed => 500
    }
  }

  /** POST /api/support on a table whose next id is `nextId`. */
  function CreateOutcome(nextId: int, user: int, p: Payload, now: int): (r: Response)
    ensures r.Created? || r == MissingMessage
    ensures r == MissingMessage <==> Resolve(p).message == ""
    ensures r.Created? ==>
      var f := Resolve(p);
      r.request == SupportRequest(nextId, user, f.requestType, f.subject, f.message,
                                  f.urgency, f.phoneContact, "pending", now, now)
    ensures r.Created? ==> r.request.status == "pending" && r.request.urgency in Urgencies
  {
    var f := Resolve(p);
    if f.message == "" then MissingMessage
    else Created(SupportRequest(nextId, user, f.requestType, f.subject, f.message,
                                f.urgency, f.phoneContact, "pending", now, now))
  }

  predicate ValidStatus(status: Option<string>) {
    Truthy(status) && status.value in Statuses
  }

  predicate HasId(rows: seq<SupportRequest>, id: int) {
    exists r :: r in rows && r.id == id
  }

  /** PATCH /:id/status: the role is checked first, then the status, then the id. */
  function PatchOutcome(rows: seq<SupportRequest>, role: Option<string>, id: int,
                        status: Option<string>): (r: Response)
    ensures !IsHR(role) ==> r == Forbidden
    ensures IsHR(role) && !ValidStatus(status) ==> r == InvalidStatus
    ensures IsHR(role) && ValidStatus(status) && !HasId(rows, id) ==> r == NotFound
    ensures r.StatusUpdated? <==> IsHR(role) && ValidStatus(status) && HasId(rows, id)
    ensures r.StatusUpdated? ==> r.status == status.value && r.status in Statuses
  {
    if !IsHR(role) then Forbidden
    else if !ValidStatus(status) then InvalidStatus
    else if !HasId(rows, id) then NotFound
    else StatusUpdated(status.value)
  }

  /** `UPDATE support_requests SET status = ?, updated_at = NOW() WHERE id = ?`. */
  function SetStatus(rows: seq<SupportRequest>, id: int, status: string, now: int): (r: seq<SupportRequest>)
    ensures |r| == |rows|
    ensures forall i :: 0 <= i < |rows| ==> r[i].id == rows[i].id
    ensures forall i :: 0 <= i < |rows| && rows[i].id != id ==> r[i] == rows[i]
    ensures forall i :: 0 <= i < |rows| && rows[i].id == id ==>
      r[i] == rows[i].(status := status, updatedAt := now)
  {
    seq(|rows|, i requires 0 <= i < |rows| =>
      if rows[i].id == id then rows[i].(status := status, updatedAt := now) else rows[i])
  }

  /** DELETE /:id: HR only, then 404 when no row has the id. */
  function DeleteOutcome(rows: seq<SupportRequest>, role: Option<string>, id: int): (r: Response)
    ensures !IsHR(role) ==> r == Forbidden
    ensures r == Deleted <==> IsHR(role) && HasId(rows, id)
    ensures r == NotFound <==> IsHR(role) && !HasId(rows, id)
  {
    if !IsHR(role) then Forbidden
    else if !HasId(rows, id) then NotFound
    else Deleted
  }

  predicate IdBefore(a: SupportRequest, b: SupportRequest) {
    a.id < b.id
  }

  function NotId(id: int): SupportRequest -> bool {
    (r: SupportRequest) => r.id != id
  }

  /** `DELETE FROM support_requests WHERE id = ?`: every other row, in order. */
  function RemoveId(rows: seq<SupportRequest>, id: int): (r: seq<SupportRequest>)
    ensures forall x :: x in r <==> x in rows && x.id != id
    ensures Order.SortedBy(rows, IdBefore) ==> Order.SortedBy(r, IdBefore)
  {
    Order.FilterKeepsSorted(rows, NotId(id), IdBefore);
    Order.Filter(rows, NotId(id))
  }

  /** With ids in increasing order, a deletion by id removes exactly one row when the id exists and none otherwise. */
  lemma {:induction false} RemoveIdCount(rows: seq<SupportRequest>, id: int)
    requires Order.SortedBy(rows, IdBefore)
    ensures |RemoveId(rows, id)| == |rows| - (if HasId(rows, id) then 1 else 0)
  {
    if rows != [] {
      var tail := rows[1..];
      assert Order.SortedBy(tail, IdBefore);
      RemoveIdCount(tail, id);
      assert forall x :: x in tail ==> x in rows;
      assert rows == [rows[0]] + tail;
      if rows[0].id == id {
        forall x | x in tail ensures x.id != id {
          var k :| 0 <= k < |tail| && tail[k] == x;
          assert rows[k + 1] == x;
        }
      }
    }
  }

  /** Rows of one user, as `WHERE user_id = ?`. */
  function OwnedBy(user: int): SupportRequest -> bool {
    (r: SupportRequest) => r.userId == user
  }

  function IsPending(r: SupportRequest): bool {
    r.status == "pending"
  }

  /** GET /my: every copy of the caller's requests and nothing else, newest first. */
  function MyRequests(rows: seq<SupportRequest>, user: int): (r: Response)
    ensures r.Requests?
    ensures forall x :: multiset(r.list)[x] == if x.userId == user then multiset(rows)[x] else 0
    ensures forall x :: x in r.list <==> x in rows && x.userId == user
    ensures forall i, j :: 0 <= i < j < |r.list| ==> r.list[i].createdAt >= r.list[j].createdAt
  {
    var mine := Order.Filter(rows, OwnedBy(user));
    Order.FilterCounts(rows, OwnedBy(user));
    Order.NewestFirstSorted(mine, RequestTime);
    Requests(Order.NewestFirst(mine, RequestTime))
  }

  /** GET /recent: the first `limit` of the caller's requests; an absent limit is 10, a given one is kept even when 0. */
  function RecentRequests(rows: seq<SupportRequest>, user: int, limit: Option<int>): (r: Response)
    ensures limit.Some? && limit.value < 0 <==> r == QueryFailed
    ensures r.Requests? || r == QueryFailed
    ensures r.Requests? ==>
      var mine := MyRequests(rows, user).list;
      var n := if limit.None? then 10 else limit.value;
      |r.list| == (if n < |mine| then n else |mine|) && r.list == mine[..|r.list|]
  {
    var n := if limit.None? then 10 else limit.value;
    if n < 0 then QueryFailed else Requests(Order.Take(MyRequests(rows, user).list, n))
  }

  /** GET /all (HR): every request, newest first. */
  function AllRequests(rows: seq<SupportRequest>, role: Option<string>): (r: Response)
    ensures !IsHR(role) <==> r == Forbidden
    ensures IsHR(role) ==> r.Requests?
    ensures r.Requests? ==> multiset(r.list) == multiset(rows)
    ensures r.Requests? ==> forall i, j :: 0 <= i < j < |r.list| ==> r.list[i].createdAt >= r.list[j].createdAt
  {
    Order.NewestFirstSorted(rows, RequestTime);
    if !IsHR(role) then Forbidden else Requests(Order.NewestFirst(rows, RequestTime))
  }

  /** GET /status/pending (HR): every copy of the pending requests and nothing else, newest first. */
  function PendingRequests(rows: seq<SupportRequest>, role: Option<string>): (r: Response)
    ensures !IsHR(role) <==> r == Forbidden
    ensures IsHR(role) ==> r.Requests?
    ensures r.Requests? ==> forall x ::
      multiset(r.list)[x] == if x.status == "pending" then multiset(rows)[x] else 0
    ensures r.Requests? ==> forall x :: x in r.list <==> x in rows && x.status == "pending"
    ensures r.Requests? ==> forall i, j :: 0 <= i < j < |r.list| ==> r.list[i].createdAt >= r.list[j].createdAt
  {
    var pending := Order.Filter(rows, IsPending);
    Order.FilterCounts(rows, IsPending);
    Order.NewestFirstSorted(pending, RequestTime);
    if !IsHR(role) then Forbidden else Requests(Order.NewestFirst(pending, RequestTime))
  }

  /** The support_requests table. */
  class SupportStore {
    var rows: seq<SupportRequest>
    var nextId: int

    /** Ids grow with insertion; every stored urgency and status is one of the allowed values. */
    ghost predicate Valid()
      reads this
    {
      && nextId >= 1
      && (forall i :: 0 <= i < |rows| ==> rows[i].id < nextId)
      && Order.SortedBy(rows, IdBefore)
      && (forall r :: r in rows ==> r.urgency in Urgencies && r.status in Statuses)
    }

    constructor ()
      ensures Valid() && rows == [] && nextId == 1
    {
      rows := [];
      nextId := 1;
    }

    /** POST /api/support: an empty resolved message inserts nothing. */
    method Create(user: int, p: Payload, now: int) returns (resp: Response)
      requires Valid()
      modifies this
      ensures Valid()
      ensures resp == CreateOutcome(old(nextId), user, p, now)
      ensures resp.Created? ==> rows == old(rows) + [resp.request] && nextId == old(nextId) + 1
      ensures !resp.Created? ==> rows == old(rows) && nextId == old(nextId)
    {
      var f := Resolve(p);
      if f.message == "" {
        return MissingMessage;
      }
      var request := SupportRequest(nextId, user, f.requestType, f.subject, f.message,
                                    f.urgency, f.phoneContact, "pending", now, now);
      rows := rows + [request];
      nextId := nextId + 1;
      resp := Created(request);
    }

    /** The UPDATE statement: rewrites the matching rows and reports how many there were. */
    method ApplyStatus(id: int, status: string, now: int) returns (affected: nat)
      modifies this
      ensures rows == SetStatus(old(rows), id, status, now) && nextId == old(nextId)
      ensures affected == 0 <==> !HasId(old(rows), id)
    {
      var updated: seq<SupportRequest> := [];
      var i := 0;
      affected := 0;
      while i < |rows|
        invariant 0 <= i <= |rows|
        invariant |updated| == i
        invariant forall k :: 0 <= k < i ==>
          updated[k] == if rows[k].id == id then rows[k].(status := status, updatedAt := now) else rows[k]
        invariant affected == 0 <==> forall k :: 0 <= k < i ==> rows[k].id != id
      {
        if rows[i].id == id {
          updated := updated + [rows[i].(status := status, updatedAt := now)];
          affected := affected + 1;
        } else {
          updated := updated + [rows[i]];
        }
        i := i + 1;
      }
      assert updated == SetStatus(rows, id, status, now);
      rows := updated;
    }

    /** PATCH /:id/status (HR): only the status and updated_at of the request with that id change. */
    method UpdateStatus(role: Option<string>, id: int, status: Option<string>, now: int)
      returns (resp: Response)
      requires Valid()
      modifies this
      ensures Valid()
      ensures resp == PatchOutcome(old(rows), role, id, status)
      ensures resp.StatusUpdated? ==> rows == SetStatus(old(rows), id, resp.status, now)
      ensures !resp.StatusUpdated? ==> rows == old(rows)
      ensures nextId == old(nextId)
    {
      if !IsHR(role) {
        return Forbidden;
      }
      if !ValidStatus(status) {
        return InvalidStatus;
      }
      var affected := ApplyStatus(id, status.value, now);
      if affected == 0 {
        assert rows == old(rows);
        return NotFound;
      }
      resp := StatusUpdated(status.value);
    }

    /** DELETE /:id (HR): removes exactly the request with that id. */
    method Delete(role: Option<string>, id: int) returns (resp: Response)
      requires Valid()
      modifies this
      ensures Valid()
      ensures resp == DeleteOutcome(old(rows), role, id)
      ensures resp == Deleted ==> rows == RemoveId(old(rows), id)
      ensures resp != Deleted ==> rows == old(rows)
      ensures nextId == old(nextId)
    {
      if !IsHR(role) {
        return Forbidden;
      }
      if !HasId(rows, id) {
        return NotFound;
      }
      rows := RemoveId(rows, id);
      resp := Deleted;
    }
  }
}
