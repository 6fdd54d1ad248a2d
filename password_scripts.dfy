// The two password maintenance scripts (scripts/hashAllPasswords.js and
// scripts/setMultiplePasswords.js): each walks the users table once, skips
// some rows and overwrites the password of the others in place, counting
// the rows it updated. The table is an array updated in place; bcrypt's hash
// is a parameter.
module PasswordScripts {
  import opened Js
  import opened Schema
  import Order

  // ---- hashAllPasswords ----

  /** A stored password already is a bcrypt hash when it starts with "$2". */
  predicate IsHashed(password: string) {
    StartsWith(password, "$2")
  }

  function Unhashed(u: User): bool {
    !IsHashed(u.password)
  }

  /** The new row for one user: unchanged when already hashed, else its password hashed. */
  function Rehash(u: User, hash: string -> string): (r: User)
    ensures r.(password := u.password) == u
    ensures IsHashed(u.password) ==> r == u
    ensures !IsHashed(u.password) ==> r.password == hash(u.password)
  {
    if IsHashed(u.password) then u else u.(password := hash(u.password))
  }

  /** The table after hashAllPasswords. */
  function HashAll(rows: seq<User>, hash: string -> string): (r: seq<User>)
    ensures |r| == |rows|
    ensures forall i :: 0 <= i < |rows| ==> r[i].id == rows[i].id && r[i].email == rows[i].email
    ensures forall i :: 0 <= i < |rows| && IsHashed(rows[i].password) ==> r[i] == rows[i]
    ensures forall i :: 0 <= i < |rows| && !IsHashed(rows[i].password) ==>
      r[i] == rows[i].(password := hash(rows[i].password))
  {
    seq(|rows|, i requires 0 <= i < |rows| => Rehash(rows[i], hash))
  }

  /** The number of rows hashAllPasswords updates: those whose password does not start with "$2". */
  function CountUnhashed(rows: seq<User>): (n: nat)
    ensures n <= |rows|
  {
    |Order.Filter(rows, Unhashed)|
  }

  /**
   * hashAllPasswords: appends a copy of every row to the backup table, then
   * hashes every password that is not yet a hash, counting the updates.
   */
  method HashAllPasswords(users: array<User>, backup: seq<User>, hash: string -> string)
    returns (backupAfter: seq<User>, updated: nat)
    modifies users
    ensures backupAfter == backup + old(users[..])
    ensures users[..] == HashAll(old(users[..]), hash)
    ensures updated == CountUnhashed(old(users[..]))
  {
    backupAfter := backup + users[..];
    ghost var before := users[..];
    updated := 0;
    var i := 0;
    while i < users.Length
      invariant 0 <= i <= users.Length
      invariant forall k :: 0 <= k < i ==> users[k] == HashAll(before, hash)[k]
      invariant forall k :: i <= k < users.Length ==> users[k] == before[k]
      invariant updated == CountUnhashed(before[..i])
    {
      UnhashedStep(before, i);
      var u := users[i];
      if !IsHashed(u.password) {
        users[i] := u.(password := hash(u.password));
        updated := updated + 1;
      }
      i := i + 1;
    }
    assert before[..i] == before;
  }

  /** Counting one more row adds one exactly when that row is not yet hashed. */
  lemma UnhashedStep(rows: seq<User>, i: int)
    requires 0 <= i < |rows|
    ensures CountUnhashed(rows[..i + 1]) == CountUnhashed(rows[..i]) + (if IsHashed(rows[i].password) then 0 else 1)
  {
    assert rows[..i + 1] == rows[..i] + [rows[i]];
    Order.FilterAppend(rows[..i], rows[i], Unhashed);
  }

  /**
   * When every hash starts with "$2", a second run leaves the table as the
   * first run left it and updates nothing.
   */
  lemma HashAllIdempotent(rows: seq<User>, hash: string -> string)
    requires forall p :: IsHashed(hash(p))
    ensures HashAll(HashAll(rows, hash), hash) == HashAll(rows, hash)
    ensures CountUnhashed(HashAll(rows, hash)) == 0
  {
    var once := HashAll(rows, hash);
    forall u | u in once ensures !Unhashed(u) {
      var i :| 0 <= i < |once| && once[i] == u;
      if !IsHashed(rows[i].password) {
        assert u.password == hash(rows[i].password);
      }
    }
    Order.FilterNone(once, Unhashed);
  }

  /**
   * When every hash starts with "$2", a run changes exactly the rows it
   * counts: a row differs afterwards iff its password did not start with "$2".
   */
  lemma HashAllChangesExactlyUnhashed(rows: seq<User>, hash: string -> string)
    requires forall p :: IsHashed(hash(p))
    ensures forall i :: 0 <= i < |rows| ==> (HashAll(rows, hash)[i] == rows[i] <==> IsHashed(rows[i].password))
  {
    forall i | 0 <= i < |rows| && !IsHashed(rows[i].password)
      ensures HashAll(rows, hash)[i] != rows[i]
    {
      assert IsHashed(HashAll(rows, hash)[i].password);
    }
  }

  // ---- setMultiplePasswords ----

  const DefaultPassword := "123456"
  const DefaultExclude := "juan@example.com"

  /** `process.argv[2] || "123456"`. */
  function PasswordToSet(arg: Option<string>): (p: string)
    ensures Truthy(arg) ==> p == arg.value
    ensures !Truthy(arg) ==> p == DefaultPassword
  {
    OrElse(arg, DefaultPassword)
  }

  /** `(process.argv[3] || "juan@example.com").split(",")`. */
  function ExcludeList(arg: Option<string>): (r: seq<string>)
    ensures |r| >= 1
    ensures forall e :: e in r ==> ',' !in e
    ensures Join(r, ',') == OrElse(arg, DefaultExclude)
    ensures !Truthy(arg) ==> r == [DefaultExclude]
  {
    var raw := OrElse(arg, DefaultExclude);
    JoinSplit(raw, ',');
    DefaultExcludeIsOne();
    Split(raw, ',')
  }

  /** The default exclusion list is the one address. */
  lemma DefaultExcludeIsOne()
    ensures Split(DefaultExclude, ',') == [DefaultExclude]
  {
    assert forall i :: 0 <= i < |DefaultExclude| ==> DefaultExclude[i] != ',';
    SplitNoSeparator(DefaultExclude, ',');
  }

  function NotExcluded(exclude: seq<string>): User -> bool {
    (u: User) => u.email !in exclude
  }

  function Excluded(exclude: seq<string>): User -> bool {
    (u: User) => u.email in exclude
  }

  /** The table after setMultiplePasswords with the one precomputed hash. */
  function SetShared(rows: seq<User>, exclude: seq<string>, hashed: string): (r: seq<User>)
    ensures |r| == |rows|
    ensures forall i :: 0 <= i < |rows| && rows[i].email in exclude ==> r[i] == rows[i]
    ensures forall i :: 0 <= i < |rows| && rows[i].email !in exclude ==> r[i] == rows[i].(password := hashed)
  {
    seq(|rows|, i requires 0 <= i < |rows| =>
      if rows[i].email in exclude then rows[i] else rows[i].(password := hashed))
  }

  /** Counting one more row adds one exactly when its email is not excluded. */
  lemma NotExcludedStep(rows: seq<User>, i: int, exclude: seq<string>)
    requires 0 <= i < |rows|
    ensures |Order.Filter(rows[..i + 1], NotExcluded(exclude))|
         == |Order.Filter(rows[..i], NotExcluded(exclude))| + (if rows[i].email in exclude then 0 else 1)
  {
    assert rows[..i + 1] == rows[..i] + [rows[i]];
    Order.FilterAppend(rows[..i], rows[i], NotExcluded(exclude));
  }

  /** The loop of setMultiplePasswords: excluded emails are skipped, every other row gets `hashed`. */
  method SetMultiplePasswords(users: array<User>, exclude: seq<string>, hashed: string) returns (updated: nat)
    modifies users
    ensures users[..] == SetShared(old(users[..]), exclude, hashed)
    ensures updated == |Order.Filter(old(users[..]), NotExcluded(exclude))|
  {
    ghost var before := users[..];
    updated := 0;
    var i := 0;
    while i < users.Length
      invariant 0 <= i <= users.Length
      invariant forall k :: 0 <= k < i ==> users[k] == SetShared(before, exclude, hashed)[k]
      invariant forall k :: i <= k < users.Length ==> users[k] == before[k]
      invariant updated == |Order.Filter(before[..i], NotExcluded(exclude))|
    {
      NotExcludedStep(before, i, exclude);
      var u := users[i];
      if u.email !in exclude {
        users[i] := u.(password := hashed);
        updated := updated + 1;
      }
      i := i + 1;
    }
    assert before[..i] == before;
  }

  /** The whole script: the default arguments, one hash computed before the loop, then the loop. */
  method RunSetMultiplePasswords(users: array<User>, argPassword: Option<string>, argExclude: Option<string>,
                                 hash: string -> string) returns (updated: nat)
    modifies users
    ensures users[..] == SetShared(old(users[..]), ExcludeList(argExclude), hash(PasswordToSet(argPassword)))
    ensures updated == |Order.Filter(old(users[..]), NotExcluded(ExcludeList(argExclude)))|
  {
    var exclude := ExcludeList(argExclude);
    var hashed := hash(PasswordToSet(argPassword));
    updated := SetMultiplePasswords(users, exclude, hashed);
  }

  /**
   * After setMultiplePasswords every non-excluded user holds the same
   * password, excluded users keep theirs, and ids and emails never change.
   */
  lemma SharedPasswordAfterwards(rows: seq<User>, exclude: seq<string>, hashed: string)
    ensures var r := SetShared(rows, exclude, hashed);
      && (forall i, j :: 0 <= i < |rows| && 0 <= j < |rows| && rows[i].email !in exclude && rows[j].email !in exclude
            ==> r[i].password == r[j].password)
      && (forall i :: 0 <= i < |rows| ==> r[i].id == rows[i].id && r[i].email == rows[i].email)
      && SetShared(r, exclude, hashed) == r
  {
  }

  /** The number updated is the number of rows whose email is not excluded, and the rest stay as they were. */
  lemma {:induction false} UpdatedCountsNonExcluded(rows: seq<User>, exclude: seq<string>)
    ensures |Order.Filter(rows, NotExcluded(exclude))| + |Order.Filter(rows, Excluded(exclude))| == |rows|
  {
    if rows != [] {
      UpdatedCountsNonExcluded(rows[1..], exclude);
    }
  }
}
