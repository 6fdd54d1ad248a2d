// Private diary entries (routes/diary.routes.js): creation with required
// fields, and reads, updates and deletions that only ever reach the rows
// whose id AND owner match the caller.
module Diary {
  import opened Js
  import opened Schema
  import Order

  /** The responses of the diary routes. */
  datatype Response =
    | Created(entry: DiaryEntry)
    | Entries(list: seq<DiaryEntry>)
    | Entry(entry: DiaryEntry)
    | Updated
    | Deleted
    | MissingFields
    | NotFound
    | QueryFailed
  {
    function Status(): int {
      match this
      case Created(_) => 201
      case Entries(_) => 200
      case Entry(_) => 200
      case Updated => 200
      case Deleted => 200
      case MissingFields => 400
      case NotFound => 404
      case QueryFailed => 500
    }
  }

  /** `is_shareable || false`: only a true flag stays true. */
  function ShareableOrFalse(flag: Option<bool>): (b: bool)
    ensures b <==> flag == Some(true)
  {
    match flag
    case Some(v) => v
    case None => false
  }

  /** POST /api/diary on a table whose next id is `nextId`. */
  function CreateOutcome(nextId: int, user: int, emotion: Option<string>, content: Option<string>,
                         isShareable: Option<bool>, now: int): (r: Response)
    ensures r.Created? || r == MissingFields
    ensures r == MissingFields <==> !Truthy(emotion) || !Truthy(content)
    ensures r.Created? ==>
      r.entry == DiaryEntry(nextId, user, emotion, content, Some(isShareable == Some(true)), now, now)
  {
    if !Truthy(emotion) || !Truthy(content) then MissingFields
    else Created(DiaryEntry(nextId, user, emotion, content, Some(ShareableOrFalse(isShareable)), now, now))
  }

  /** The rows `WHERE id = ? AND user_id = ?` selects. */
  predicate Matches(e: DiaryEntry, user: int, id: int) {
    e.id == id && e.userId == user
  }

  predicate HasEntry(rows: seq<DiaryEntry>, user: int, id: int) {
    exists e :: e in rows && Matches(e, user, id)
  }

  /** GET /:id: the entry only when both its id and its owner match the caller. */
  function GetEntry(rows: seq<DiaryEntry>, user: int, id: int): (r: Response)
    ensures r.Entry? || r == NotFound
    ensures r == NotFound <==> !HasEntry(rows, user, id)
    ensures r.Entry? ==> r.entry in rows && r.entry.id == id && r.entry.userId == user
  {
    if rows == [] then NotFound
    else if Matches(rows[0], user, id) then Entry(rows[0])
    else
      assert forall e :: e in rows[1..] ==> e in rows;
      assert rows == [rows[0]] + rows[1..];
      GetEntry(rows[1..], user, id)
  }

  /** `UPDATE diary_entries SET emotion, content, is_shareable, updated_at WHERE id AND user_id`, values as sent. */
  function Overwrite(rows: seq<DiaryEntry>, user: int, id: int, emotion: Option<string>,
                     content: Option<string>, isShareable: Option<bool>, now: int): (r: seq<DiaryEntry>)
    ensures |r| == |rows|
    ensures forall i :: 0 <= i < |rows| && !Matches(rows[i], user, id) ==> r[i] == rows[i]
    ensures forall i :: 0 <= i < |rows| && Matches(rows[i], user, id) ==>
      r[i] == rows[i].(emotion := emotion, content := content, isShareable := isShareable, updatedAt := now)
  {
    seq(|rows|, i requires 0 <= i < |rows| =>
      if Matches(rows[i], user, id)
      then rows[i].(emotion := emotion, content := content, isShareable := isShareable, updatedAt := now)
      else rows[i])
  }

  /** An update for one owner never reaches another owner's rows. */
  lemma OverwriteLeavesOthers(rows: seq<DiaryEntry>, user: int, id: int, emotion: Option<string>,
                              content: Option<string>, isShareable: Option<bool>, now: int)
    ensures var r := Overwrite(rows, user, id, emotion, content, isShareable, now);
      forall i :: 0 <= i < |rows| && rows[i].userId != user ==> r[i] == rows[i]
    ensures !HasEntry(rows, user, id) ==> Overwrite(rows, user, id, emotion, content, isShareable, now) == rows
  {
    var r := Overwrite(rows, user, id, emotion, content, isShareable, now);
    if !HasEntry(rows, user, id) {
      forall i | 0 <= i < |rows| ensures r[i] == rows[i] {
        assert rows[i] in rows;
      }
    }
  }

  function Keeps(user: int, id: int): DiaryEntry -> bool {
    (e: DiaryEntry) => !Matches(e, user, id)
  }

  predicate IdBefore(a: DiaryEntry, b: DiaryEntry) {
    a.id < b.id
  }

  /** `DELETE FROM diary_entries WHERE id = ? AND user_id = ?`: every other row, in order. */
  function RemoveEntry(rows: seq<DiaryEntry>, user: int, id: int): (r: seq<DiaryEntry>)
    ensures forall e :: e in r <==> e in rows && !Matches(e, user, id)
    ensures Order.SortedBy(rows, IdBefore) ==> Order.SortedBy(r, IdBefore)
    ensures !HasEntry(rows, user, id) ==> r == rows
  {
    Order.FilterKeepsSorted(rows, Keeps(user, id), IdBefore);
    FilterAll(rows, Keeps(user, id));
    Order.Filter(rows, Keeps(user, id))
  }

  /** Filtering with a predicate every row meets keeps the table as it is. */
  lemma {:induction false} FilterAll(rows: seq<DiaryEntry>, p: DiaryEntry -> bool)
    ensures (forall e :: e in rows ==> p(e)) ==> Order.Filter(rows, p) == rows
  {
    if rows != [] && forall e :: e in rows ==> p(e) {
      assert rows[0] in rows;
      assert forall e :: e in rows[1..] ==> e in rows;
      FilterAll(rows[1..], p);
      assert rows == [rows[0]] + rows[1..];
    }
  }

  function OwnedBy(user: int): DiaryEntry -> bool {
    (e: DiaryEntry) => e.userId == user
  }

  /** GET /my: every copy of the caller's entries and nothing else, newest first. */
  function MyEntries(rows: seq<DiaryEntry>, user: int): (r: Response)
    ensures r.Entries?
    ensures forall e :: multiset(r.list)[e] == if e.userId == user then multiset(rows)[e] else 0
    ensures forall e :: e in r.list <==> e in rows && e.userId == user
    ensures forall i, j :: 0 <= i < j < |r.list| ==> r.list[i].createdAt >= r.list[j].createdAt
  {
    var mine := Order.Filter(rows, OwnedBy(user));
    Order.FilterCounts(rows, OwnedBy(user));
    Order.NewestFirstSorted(mine, EntryTime);
    Entries(Order.NewestFirst(mine, EntryTime))
  }

  /** GET /recent: the first `limit` of the caller's entries (10 when the limit is missing or 0). */
  function RecentEntries(rows: seq<DiaryEntry>, user: int, parsedLimit: Option<int>): (r: Response)
    ensures r == QueryFailed <==> Order.RecentLimit(parsedLimit) < 0
    ensures r.Entries? || r == QueryFailed
    ensures r.Entries? ==> forall e :: e in r.list ==> e in rows && e.userId == user
    ensures r.Entries? ==>
      var mine := MyEntries(rows, user).list;
      var n := Order.RecentLimit(parsedLimit);
      |r.list| == (if n < |mine| then n else |mine|) && r.list == mine[..|r.list|]
  {
    var n := Order.RecentLimit(parsedLimit);
    if n < 0 then QueryFailed
    else
      var mine := MyEntries(rows, user).list;
      var r := Order.Take(mine, n);
      assert forall e :: e in r ==> e in mine;
      Entries(r)
  }

  /** The diary_entries table. */
  class DiaryStore {
    var rows: seq<DiaryEntry>
    var nextId: int

    ghost predicate Valid()
      reads this
    {
      && nextId >= 1
      && (forall i :: 0 <= i < |rows| ==> rows[i].id < nextId)
      && Order.SortedBy(rows, IdBefore)
    }

    constructor ()
      ensures Valid() && rows == [] && nextId == 1
    {
      rows := [];
      nextId := 1;
    }

    /** POST /api/diary: emotion and content are required; nothing is inserted otherwise. */
    method Create(user: int, emotion: Option<string>, content: Option<string>, isShareable: Option<bool>, now: int)
      returns (resp: Response)
      requires Valid()
      modifies this
      ensures Valid()
      ensures resp == CreateOutcome(old(nextId), user, emotion, content, isShareable, now)
      ensures resp.Created? ==> rows == old(rows) + [resp.entry] && nextId == old(nextId) + 1
      ensures !resp.Created? ==> rows == old(rows) && nextId == old(nextId)
    {
      if !Truthy(emotion) || !Truthy(content) {
        return MissingFields;
      }
      var entry := DiaryEntry(nextId, user, emotion, content, Some(ShareableOrFalse(isShareable)), now, now);
      rows := rows + [entry];
      nextId := nextId + 1;
      resp := Created(entry);
    }

    /** PUT /:id: overwrites the three columns of the caller's own entry, else 404 with no change. */
    method Update(user: int, id: int, emotion: Option<string>, content: Option<string>,
                  isShareable: Option<bool>, now: int) returns (resp: Response)
      requires Valid()
      modifies this
      ensures Valid()
      ensures resp == Updated <==> HasEntry(old(rows), user, id)
      ensures resp == NotFound <==> !HasEntry(old(rows), user, id)
      ensures rows == Overwrite(old(rows), user, id, emotion, content, isShareable, now)
      ensures nextId == old(nextId)
    {
      OverwriteLeavesOthers(rows, user, id, emotion, content, isShareable, now);
      var matched := HasEntry(rows, user, id);
      rows := Overwrite(rows, user, id, emotion, content, isShareable, now);
      resp := if matched then Updated else NotFound;
    }

    /** DELETE /:id: removes the caller's own entry with that id, else 404 with no change. */
    method Delete(user: int, id: int) returns (resp: Response)
      requires Valid()
      modifies this
      ensures Valid()
      ensures resp == Deleted <==> HasEntry(old(rows), user, id)
      ensures resp == NotFound <==> !HasEntry(old(rows), user, id)
      ensures rows == RemoveEntry(old(rows), user, id)
      ensures nextId == old(nextId)
    {
      var matched := HasEntry(rows, user, id);
      rows := RemoveEntry(rows, user, id);
      resp := if matched then Deleted else NotFound;
    }
  }
}
