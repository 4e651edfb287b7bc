/** Users: sign-up persistence and lookup by e-mail (model/user.go).
    The e-mail lookup is an `ILIKE` match, modelled as equality up to ASCII
    case; `%` and `_` wildcards are not modelled. Password hashing is a
    function parameter (`hashPwd`). */
module UserModel {
  import opened Common
  import opened Schema

  const MsgUserNotFound := "User not found"
  const MsgUserExists := "User already exists !"
  /** What the driver reports when an insert breaks `users.email UNIQUE`. */
  const MsgEmailTaken := "pq: duplicate key value violates unique constraint \"users_email_key\""

  /** The zero `User` value returned next to a lookup error. */
  const ZeroUser := UserRow(0, "", "", 0)

  function AsciiLower(c: char): char {
    if 'A' <= c <= 'Z' then (c as int + 32) as char else c
  }

  predicate EqualsIgnoreCase(a: string, b: string) {
    |a| == |b| && forall i :: 0 <= i < |a| ==> AsciiLower(a[i]) == AsciiLower(b[i])
  }

  /** The first user, in table order, whose e-mail matches case-insensitively. */
  function FindByEmail(rows: seq<UserRow>, email: string): (r: Option<nat>)
    ensures r.Some? ==> r.value < |rows| && EqualsIgnoreCase(rows[r.value].email, email)
    ensures r.Some? ==> forall j :: 0 <= j < r.value ==> !EqualsIgnoreCase(rows[j].email, email)
    ensures r.None? ==> forall j :: 0 <= j < |rows| ==> !EqualsIgnoreCase(rows[j].email, email)
  {
    if rows == [] then None
    else if EqualsIgnoreCase(rows[0].email, email) then Some(0)
    else match FindByEmail(rows[1..], email)
      case None => None
      case Some(k) => Some(k + 1)
  }

  /** `getUserByEmail`: the matching user, or the zero user with
      "User not found", or the zero user with the driver's error. */
  function GetUserByEmail(rows: seq<UserRow>, email: string, fault: Option<string>): (res: (UserRow, Option<Error>))
    ensures res.1.None? <==> fault.None? && FindByEmail(rows, email).Some?
    ensures res.1.None? ==> EqualsIgnoreCase(res.0.email, email) && res.0 in rows
    ensures fault.None? && FindByEmail(rows, email).None? ==> res == (ZeroUser, Some(Plain(MsgUserNotFound)))
    ensures fault.Some? ==> res == (ZeroUser, Some(Plain(fault.value)))
  {
    if fault.Some? then (ZeroUser, Some(Plain(fault.value)))
    else match FindByEmail(rows, email)
      case None => (ZeroUser, Some(Plain(MsgUserNotFound)))
      case Some(i) => (rows[i], None)
  }

  /** Failures the store may report during `Save`. */
  datatype SaveFaults = SaveFaults(lookup: Option<string>, insert: Option<string>)

  /** The users table, identity counter and receiver after `Save`, and its error. */
  datatype Saved = Saved(users: seq<UserRow>, nextId: int, user: UserRow, err: Option<Error>)

  predicate HasEmail(rows: seq<UserRow>, email: string) {
    exists j :: 0 <= j < |rows| && rows[j].email == email
  }

  /** `User.Save` over the table's value. */
  function SaveSpec(rows: seq<UserRow>, nextId: int, u: UserRow, hashPwd: string -> Result<string>,
                    now: Time, f: SaveFaults): Saved
  {
    var (existing, lookupErr) := GetUserByEmail(rows, u.email, f.lookup);
    if existing.email == u.email || lookupErr.None? then Saved(rows, nextId, u, Some(Plain(MsgUserExists)))
    else match hashPwd(u.password)
      case Err(e) => Saved(rows, nextId, u, Some(Plain("Error while trying to hash - " + e.Text() + " !")))
      case Ok(hashed) =>
        if f.insert.Some? then Saved(rows, nextId, u, Some(Plain(f.insert.value)))
        else if HasEmail(rows, u.email) then Saved(rows, nextId, u, Some(Plain(MsgEmailTaken)))
        else Saved(rows + [UserRow(nextId, u.email, hashed, now)], nextId + 1,
                   u.(id := nextId, createdAt := now), None)
  }

  /** An e-mail already present up to case is refused and nothing is inserted. */
  lemma SaveRefusesExistingEmail(rows: seq<UserRow>, nextId: int, u: UserRow, j: nat,
                                 hashPwd: string -> Result<string>, now: Time, f: SaveFaults)
    requires j < |rows| && EqualsIgnoreCase(rows[j].email, u.email)
    requires f.lookup.None?
    ensures SaveSpec(rows, nextId, u, hashPwd, now, f) == Saved(rows, nextId, u, Some(Plain(MsgUserExists)))
  {
    assert FindByEmail(rows, u.email).Some?;
  }

  /** A failed lookup does not stop the insert unless the receiver's e-mail
      is the zero user's (empty) e-mail. */
  lemma SaveProceedsAfterLookupError(rows: seq<UserRow>, nextId: int, u: UserRow,
                                     hashPwd: string -> Result<string>, now: Time, f: SaveFaults)
    requires f.lookup.Some? && u.email != ""
    requires hashPwd(u.password).Ok? && f.insert.None? && !HasEmail(rows, u.email)
    ensures SaveSpec(rows, nextId, u, hashPwd, now, f).users ==
      rows + [UserRow(nextId, u.email, hashPwd(u.password).value, now)]
  {
  }

  /** The empty e-mail is always refused, even when no user exists, because
      the zero user's e-mail equals it. */
  lemma SaveRefusesEmptyEmail(rows: seq<UserRow>, nextId: int, u: UserRow,
                              hashPwd: string -> Result<string>, now: Time, f: SaveFaults)
    requires u.email == ""
    ensures SaveSpec(rows, nextId, u, hashPwd, now, f).err == Some(Plain(MsgUserExists))
    ensures SaveSpec(rows, nextId, u, hashPwd, now, f).users == rows
  {
  }

  /** What a save did to the table: either nothing (with an error), or one
      new row holding the hash of the password, never the password, with
      the receiver's id and creation time taken from that row. */
  lemma SaveOutcome(rows: seq<UserRow>, nextId: int, u: UserRow,
                    hashPwd: string -> Result<string>, now: Time, f: SaveFaults)
    ensures var s := SaveSpec(rows, nextId, u, hashPwd, now, f);
      (s.err.Some? <==> s.users == rows) &&
      (s.err.Some? ==> s.user == u && s.nextId == nextId) &&
      (s.err.None? ==>
        hashPwd(u.password).Ok? &&
        s.users == rows + [UserRow(nextId, u.email, hashPwd(u.password).value, now)] &&
        s.user == u.(id := nextId, createdAt := now) &&
        !HasEmail(rows, u.email) &&
        (f.lookup.None? ==> FindByEmail(rows, u.email).None?))
    ensures hashPwd(u.password).Err? ==> SaveSpec(rows, nextId, u, hashPwd, now, f).users == rows
  {
    var s := SaveSpec(rows, nextId, u, hashPwd, now, f);
    if s.err.None? {
      assert |s.users| == |rows| + 1;
    }
  }

  /** Saving keeps identities unique and e-mails unique. */
  lemma SaveKeepsTableOk(rows: seq<UserRow>, nextId: int, u: UserRow,
                         hashPwd: string -> Result<string>, now: Time, f: SaveFaults)
    requires UserTableOk(rows, nextId)
    ensures var s := SaveSpec(rows, nextId, u, hashPwd, now, f);
      UserTableOk(s.users, s.nextId)
  {
    var s := SaveSpec(rows, nextId, u, hashPwd, now, f);
    if s.err.None? {
      assert !HasEmail(rows, u.email);
      var r := s.users;
      forall i, j | 0 <= i < j < |r| ensures r[i].email != r[j].email {
        if j == |rows| {
          assert r[i] == rows[i];
        }
      }
    }
  }

  /** The `User` receiver, whose id and creation time `Save` fills in. */
  class User {
    var id: int
    var email: string
    var password: string
    var createdAt: Time

    function Value(): UserRow
      reads this
    {
      UserRow(id, email, password, createdAt)
    }

    constructor (email: string, password: string)
      ensures Value() == UserRow(0, email, password, 0)
    {
      this.id := 0;
      this.email := email;
      this.password := password;
      this.createdAt := 0;
    }

    method Save(db: Db, hashPwd: string -> Result<string>, now: Time, f: SaveFaults) returns (err: Option<Error>)
      requires db.Valid()
      modifies this`id, this`createdAt, db`users, db`nextUserId
      ensures db.Valid()
      ensures var s := SaveSpec(old(db.users), old(db.nextUserId), old(Value()), hashPwd, now, f);
        db.users == s.users && db.nextUserId == s.nextId && Value() == s.user && err == s.err
    {
      SaveKeepsTableOk(db.users, db.nextUserId, Value(), hashPwd, now, f);
      var (existing, lookupErr) := GetUserByEmail(db.users, email, f.lookup);
      if existing.email == email || lookupErr.None? {
        return Some(Plain(MsgUserExists));
      }
      var hashed := hashPwd(password);
      if hashed.Err? {
        return Some(Plain("Error while trying to hash - " + hashed.error.Text() + " !"));
      }
      if f.insert.Some? {
        return Some(Plain(f.insert.value));
      }
      if HasEmail(db.users, email) {
        return Some(Plain(MsgEmailTaken));
      }
      db.users := db.users + [UserRow(db.nextUserId, email, hashed.value, now)];
      id, createdAt := db.nextUserId, now;
      db.nextUserId := db.nextUserId + 1;
      err := None;
    }
  }
}
