/** The `users` table behind `POST /api/auth/register` and
    `POST /api/auth/login`: the first account ever registered is the admin. */
module Users {
  import opened Js
  import opened Store

  datatype User = User(id: int, email: string, name: Option<string>, isAdmin: bool)

  /** What a successful login or registration tells the client. */
  datatype AuthReply = AuthReply(user: User, isAdmin: bool)

  /** The length limit of the `VARCHAR(255)` columns `email` and `name`. */
  const VarcharLimit := 255

  /** Whether a nullable `VARCHAR(255)` column accepts a value: PostgreSQL
      refuses a longer value unless every character past the limit is a
      space. */
  predicate FitsVarchar(o: Option<string>) {
    o.None? || forall i :: VarcharLimit <= i < |o.value| ==> o.value[i] == ' '
  }

  /** What such a column stores for an accepted value: a longer one is cut
      to the limit. */
  function Varchar(s: string): (r: string)
    ensures |r| == if |s| <= VarcharLimit then |s| else VarcharLimit
    ensures r == s[..|r|]
  {
    if |s| <= VarcharLimit then s else s[..VarcharLimit]
  }

  function VarcharValue(o: Option<string>): Option<string> {
    if o.Some? then Some(Varchar(o.value)) else None
  }

  /** An accepted value loses only spaces when it is stored. */
  lemma VarcharDropsOnlySpaces(s: string)
    requires FitsVarchar(Some(s))
    ensures s == Varchar(s) + seq(|s| - |Varchar(s)|, _ => ' ')
  {
    var r := Varchar(s);
    var tail := seq(|s| - |r|, _ => ' ');
    forall i | 0 <= i < |s|
      ensures s[i] == (r + tail)[i]
    {
      if i >= |r| {
        assert i >= VarcharLimit;
      }
    }
  }

  /** An email padded with 300 spaces is accepted and stored with 250 of them. */
  lemma PaddedEmailIsTruncated()
    ensures var e := "a@b.c" + seq(300, _ => ' ');
            FitsVarchar(Some(e)) && Varchar(e) == "a@b.c" + seq(250, _ => ' ')
  {
    var e := "a@b.c" + seq(300, _ => ' ');
    assert forall i :: VarcharLimit <= i < |e| ==> e[i] == seq(300, _ => ' ')[i - 5];
    assert Varchar(e) == e[..255];
    assert e[..255] == "a@b.c" + seq(250, _ => ' ');
  }

  class UserTable {
    var users: seq<User>
    var nextId: int

    /** Ids are SERIAL, `email` is UNIQUE, and exactly the first row is the admin. */
    ghost predicate Valid()
      reads this
    {
      && nextId >= 1
      && (forall j :: 0 <= j < |users| ==> 1 <= users[j].id < nextId)
      && (forall a, b :: 0 <= a < b < |users| ==> users[a].id != users[b].id && users[a].email != users[b].email)
      && (forall j :: 0 <= j < |users| ==> (users[j].isAdmin <==> j == 0))
    }

    constructor ()
      ensures Valid() && users == [] && nextId == 1
    {
      users := [];
      nextId := 1;
    }

    predicate HasEmail(email: string)
      reads this
    {
      exists j :: 0 <= j < |users| && users[j].email == email
    }

    /** `POST /api/auth/register` with body `{ email, name }`
        (server.js:290-311). The statement draws its SERIAL id first, then
        checks the lengths (email, then name), NOT NULL, and uniqueness of
        the email as stored. */
    method Register(email: Option<string>, name: Option<string>) returns (r: Outcome<AuthReply>)
      requires Valid()
      modifies this
      ensures Valid()
      ensures nextId == old(nextId) + 1
      ensures !FitsVarchar(email) ==> r == Err(ValueTooLong("email")) && users == old(users)
      ensures FitsVarchar(email) && !FitsVarchar(name) ==> r == Err(ValueTooLong("name")) && users == old(users)
      ensures FitsVarchar(email) && FitsVarchar(name) && email.None? ==>
        r == Err(NotNullViolation("email")) && users == old(users)
      ensures FitsVarchar(email) && FitsVarchar(name) && email.Some? && old(HasEmail(Varchar(email.value))) ==>
        r == Err(UniqueViolation("email")) && users == old(users)
      ensures FitsVarchar(email) && FitsVarchar(name) && email.Some? && !old(HasEmail(Varchar(email.value))) ==>
        var u := User(old(nextId), Varchar(email.value), VarcharValue(name), |old(users)| == 0);
        users == old(users) + [u] && r == Ok(AuthReply(u, u.isAdmin))
    {
      var isAdmin := |users| == 0;
      var id := nextId;
      nextId := nextId + 1;
      if !FitsVarchar(email) {
        return Err(ValueTooLong("email"));
      }
      if !FitsVarchar(name) {
        return Err(ValueTooLong("name"));
      }
      if email.None? {
        return Err(NotNullViolation("email"));
      }
      var stored := Varchar(email.value);
      if HasEmail(stored) {
        return Err(UniqueViolation("email"));
      }
      var u := User(id, stored, VarcharValue(name), isAdmin);
      users := users + [u];
      r := Ok(AuthReply(u, isAdmin));
    }

    /** `POST /api/auth/login` with body `{ email }` (server.js:263-288):
        None stands for the "User not found" reply; a missing email matches
        no row, since `email = NULL` is never true. */
    function Login(email: Option<string>): (r: Option<AuthReply>)
      reads this
      requires Valid()
      ensures r.Some? <==> email.Some? && HasEmail(email.value)
      ensures r.Some? ==> r.value.user in users && r.value.user.email == email.value
      ensures r.Some? ==> r.value.isAdmin == r.value.user.isAdmin
      ensures r.Some? && r.value.isAdmin ==> users[0] == r.value.user
    {
      if email.None? then None else LoginFrom(email.value, 0)
    }

    function LoginFrom(email: string, from: nat): (r: Option<AuthReply>)
      reads this
      requires Valid() && from <= |users|
      ensures r.Some? <==> exists j :: from <= j < |users| && users[j].email == email
      ensures r.Some? ==> exists j :: from <= j < |users| && users[j] == r.value.user
      ensures r.Some? ==> r.value.user.email == email && r.value.isAdmin == r.value.user.isAdmin
      ensures r.Some? && r.value.isAdmin ==> users[0] == r.value.user
      decreases |users| - from
    {
      if from == |users| then None
      else if users[from].email == email then Some(AuthReply(users[from], users[from].isAdmin))
      else LoginFrom(email, from + 1)
    }
  }
}
