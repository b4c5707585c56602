/** The credential store: the `Users` table (serial id, unique email) kept
    as rows in insertion order, the service that writes and reads it, and
    the token `createJWT` mints for a user. */
module UserSchema {
  import opened Common
  import opened Seqs
  import opened Jwt

  datatype ExposedUser = ExposedUser(name: string, email: string, password: string)

  /** A row of `Users`. */
  datatype UserRow = UserRow(id: Int32, name: string, email: string, password: string)

  /** Why an insert or update is refused by the database. */
  datatype StoreError =
    | UniqueViolation    // the unique index on `email` already holds the value
    | SequenceExhausted  // the serial sequence has passed the largest `Int`

  function UserOf(row: UserRow): ExposedUser
  {
    ExposedUser(row.name, row.email, row.password)
  }

  /** The unique index on `email`. */
  ghost predicate EmailsUnique(rows: seq<UserRow>)
  {
    forall i, j :: 0 <= i < j < |rows| ==> rows[i].email != rows[j].email
  }

  predicate EmailTaken(rows: seq<UserRow>, email: string)
  {
    exists i :: 0 <= i < |rows| && rows[i].email == email
  }

  /** The key column `id` of a row. */
  function RowId(row: UserRow): int { row.id }

  lemma RemoveKeepsUniqueEmails(rows: seq<UserRow>, k: nat)
    requires EmailsUnique(rows) && k < |rows|
    ensures EmailsUnique(rows[..k] + rows[k + 1..])
  {
  }

  class UserService {
    /** The rows of `Users`, in insertion order. */
    var rows: seq<UserRow>
    /** The next value of the id column's serial sequence. */
    var nextId: int

    ghost predicate Valid()
      reads this
    {
      && 1 <= nextId <= MaxInt32 + 1
      && KeysAscending(rows, RowId)   // rows are in insertion order
      && EmailsUnique(rows)
      && (forall i :: 0 <= i < |rows| ==> 1 <= rows[i].id < nextId)
    }

    /** `SchemaUtils.create(Users)` on a fresh database. */
    constructor ()
      ensures Valid() && rows == [] && nextId == 1
    {
      rows := [];
      nextId := 1;
    }

    /** `create`: inserts the user under the next serial id and returns it.
        The id is drawn from the sequence first; a taken email then makes
        the unique index refuse the row, and the drawn id is not given back. */
    method Create(user: ExposedUser) returns (r: Result<Int32, StoreError>)
      requires Valid()
      modifies this
      ensures Valid()
      ensures old(nextId) > MaxInt32 ==>
        r == Failure(SequenceExhausted) && rows == old(rows) && nextId == old(nextId)
      ensures old(nextId) <= MaxInt32 && EmailTaken(old(rows), user.email) ==>
        r == Failure(UniqueViolation) && rows == old(rows) && nextId == old(nextId) + 1
      ensures old(nextId) <= MaxInt32 && !EmailTaken(old(rows), user.email) ==>
        && r == Success(old(nextId))
        && rows == old(rows) + [UserRow(old(nextId), user.name, user.email, user.password)]
        && nextId == old(nextId) + 1
      ensures r.Success? ==> forall i :: 0 <= i < |old(rows)| ==> old(rows)[i].id != r.value
    {
      if nextId > MaxInt32 {
        return Failure(SequenceExhausted);
      }
      var id := nextId;
      nextId := nextId + 1;
      if EmailTaken(rows, user.email) {
        return Failure(UniqueViolation);
      }
      rows := rows + [UserRow(id, user.name, user.email, user.password)];
      r := Success(id);
    }

    /** `update`: name, email and password of the row with key `id` are
        replaced; without such a row nothing happens. An email that another
        row holds makes the unique index refuse the update. */
    method Update(id: Int32, user: ExposedUser) returns (o: Outcome<StoreError>)
      requires Valid()
      modifies this`rows
      ensures Valid()
      ensures (forall k :: 0 <= k < |old(rows)| ==> old(rows)[k].id != id) ==> o == Pass && rows == old(rows)
      ensures forall k :: 0 <= k < |old(rows)| && old(rows)[k].id == id ==>
        if exists j :: 0 <= j < |old(rows)| && j != k && old(rows)[j].email == user.email
        then o == Fail(UniqueViolation) && rows == old(rows)
        else o == Pass && rows == old(rows)[k := UserRow(id, user.name, user.email, user.password)]
    {
      match IndexOfKey(rows, RowId, id)
      case None =>
        o := Pass;
      case Some(k) =>
        if exists j :: 0 <= j < |rows| && j != k && rows[j].email == user.email {
          o := Fail(UniqueViolation);
        } else {
          rows := rows[k := UserRow(id, user.name, user.email, user.password)];
          o := Pass;
        }
    }

    /** `delete`: removes the row with key `id`; without one, nothing. */
    method Delete(id: Int32)
      requires Valid()
      modifies this`rows
      ensures Valid()
      ensures forall k :: 0 <= k < |old(rows)| && old(rows)[k].id == id ==>
        rows == old(rows)[..k] + old(rows)[k + 1..]
      ensures (forall k :: 0 <= k < |old(rows)| ==> old(rows)[k].id != id) ==> rows == old(rows)
    {
      match IndexOfKey(rows, RowId, id)
      case Some(k) =>
        RemoveKeepsAscending(rows, RowId, k);
        RemoveKeepsUniqueEmails(rows, k);
        rows := rows[..k] + rows[k + 1..];
      case None =>
    }
  }

  // ---------------------------------------------------------------------------
  // Lookup by email
  // ---------------------------------------------------------------------------

  function EmailIs(email: string): UserRow -> bool
  {
    (row: UserRow) => row.email == email
  }

  /** `readByEmail`: the rows with that email, mapped to users, then
      `singleOrNull()`: the one match, or `null` for none or several. */
  function ReadByEmail(rows: seq<UserRow>, email: string): (r: Option<ExposedUser>)
    ensures r.Some? ==> exists i :: 0 <= i < |rows| && rows[i].email == email && r.value == UserOf(rows[i])
    ensures !EmailTaken(rows, email) ==> r == None
  {
    var matches := Filter(rows, EmailIs(email));
    if |matches| == 1 then Some(UserOf(matches[0])) else None
  }

  /** Under the unique index the matches are exactly the one row that
      holds the email, if any. */
  lemma {:induction false} MatchesUnderUniqueEmail(rows: seq<UserRow>, email: string, i: nat)
    requires EmailsUnique(rows) && i < |rows| && rows[i].email == email
    ensures Filter(rows, EmailIs(email)) == [rows[i]]
  {
    var p := EmailIs(email);
    if i > 0 {
      assert !p(rows[0]);
      assert rows[1..][i - 1] == rows[i];
      MatchesUnderUniqueEmail(rows[1..], email, i - 1);
    }
  }

  /** With unique emails, `readByEmail` finds a user exactly when one holds
      the email, and then gives that user's stored fields. */
  lemma ReadByEmailUnique(rows: seq<UserRow>, email: string)
    requires EmailsUnique(rows)
    ensures ReadByEmail(rows, email).Some? <==> EmailTaken(rows, email)
    ensures forall i :: 0 <= i < |rows| && rows[i].email == email ==>
      ReadByEmail(rows, email) == Some(UserOf(rows[i]))
  {
    forall i | 0 <= i < |rows| && rows[i].email == email
      ensures ReadByEmail(rows, email) == Some(UserOf(rows[i]))
    {
      MatchesUnderUniqueEmail(rows, email, i);
    }
  }

  // ---------------------------------------------------------------------------
  // Tokens
  // ---------------------------------------------------------------------------

  const JwtSecret := "secret"
  const JwtAudience := "jwt-audience"
  const JwtDomain := "https://jwt-provider-domain/"

  /** `createJWT`: a token for `user`, issued by the fixed domain for the
      fixed audience, whose subject is the user's email, carrying the name
      and email as claims, signed with the fixed secret. */
  function CreateJWT(user: ExposedUser): (t: Token)
    ensures SignedWith(t, JwtSecret)
    ensures t.claims.issuer == Some(JwtDomain) && t.claims.audience == [JwtAudience]
    ensures t.claims.subject == user.email
    ensures "name" in t.claims.custom && t.claims.custom["name"] == user.name
    ensures "email" in t.claims.custom && t.claims.custom["email"] == user.email
    ensures t.claims.custom.Keys == {"name", "email"}
  {
    Sign(Claims(Some(JwtDomain), [JwtAudience], user.email,
                map["name" := user.name, "email" := user.email]), JwtSecret)
  }

  /** The password never travels in a token, and two users with the same
      name and email get the same token whatever their passwords. */
  lemma CreateJWTIgnoresPassword(a: ExposedUser, b: ExposedUser)
    requires a.name == b.name && a.email == b.email
    ensures CreateJWT(a) == CreateJWT(b)
    ensures forall v :: v in CreateJWT(a).claims.custom.Values ==> v == a.name || v == a.email
  {
  }
}
