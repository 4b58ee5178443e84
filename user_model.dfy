/** The `users` table and its accessors (models/userModel.js). Password hashing is a parameter. */
module UserModel {

  import opened Tables
  import opened JsValues

  /** One row of `users`. `otherColumns` holds the columns the accessors do not name (such as
      an approval status), which take the table's defaults on insert. */
  datatype UserRow = UserRow(
    id: nat, name: string, email: string, password: string, role: string, createdAt: string,
    otherColumns: map<string, JsValue>)

  /** A user as a JavaScript object. */
  type UserObject = map<string, JsValue>

  const DefaultRole := "patient"

  /** The columns `findById` selects. */
  const PublicColumns: set<string> := {"id", "name", "email", "role", "created_at"}

  /** The row as `SELECT *` returns it. */
  function AsObject(row: UserRow): (o: UserObject)
    ensures "password" in o && o["password"] == Str(row.password)
    ensures PublicColumns <= o.Keys
  {
    row.otherColumns + map[
      "id" := Num(row.id as real), "name" := Str(row.name), "email" := Str(row.email),
      "password" := Str(row.password), "role" := Str(row.role), "created_at" := Str(row.createdAt)]
  }

  /** A row as `SELECT id, name, email, role, created_at` returns it. */
  datatype PublicUser = PublicUser(id: nat, name: string, email: string, role: string, createdAt: string)
  {
    /** The JSON object: exactly the public columns, never the password. */
    function AsObject(): (o: UserObject)
      ensures o.Keys == PublicColumns && "password" !in o
    {
      map["id" := Num(id as real), "name" := Str(name), "email" := Str(email),
          "role" := Str(role), "created_at" := Str(createdAt)]
    }
  }

  /** The row as `findById` returns it: the full row restricted to the public columns. */
  function Public(row: UserRow): (r: PublicUser)
    ensures forall k :: k in r.AsObject() ==> k in AsObject(row) && r.AsObject()[k] == AsObject(row)[k]
  {
    PublicUser(row.id, row.name, row.email, row.role, row.createdAt)
  }

  /** Row filters for the two lookups. */
  function HasId(id: nat): UserRow -> bool { (r: UserRow) => r.id == id }

  function HasEmail(email: string): UserRow -> bool { (r: UserRow) => r.email == email }

  /** The role a new user gets: the given one, `'patient'` when none is given. */
  function RoleOrDefault(role: Option<string>): (r: string)
    ensures role.Some? ==> r == role.value
    ensures role.None? ==> r == DefaultRole
  {
    match role
    case None => DefaultRole
    case Some(r) => r
  }

  class UserTable {
    var rows: seq<UserRow>
    var nextId: nat
    const columnDefaults: map<string, JsValue>

    function Ids(): seq<nat>
      reads this
    {
      seq(|rows|, i requires 0 <= i < |rows| reads this => rows[i].id)
    }

    ghost predicate Valid()
      reads this
    {
      1 <= nextId && FreshIds(Ids(), nextId)
    }

    constructor (columnDefaults: map<string, JsValue>)
      ensures Valid() && rows == [] && nextId == 1 && this.columnDefaults == columnDefaults
    {
      rows := [];
      nextId := 1;
      this.columnDefaults := columnDefaults;
    }

    /** `create`: inserts a row holding `hash(password)` (never the password itself) with the
        given role or `'patient'`, and returns the new id; `now` is the database clock. The new
        row is then found by its id, and by its e-mail unless an older row has that e-mail. */
    method Create(name: string, email: string, password: string, role: Option<string>,
                  hash: string -> string, now: string) returns (id: nat)
      requires Valid()
      modifies this
      ensures Valid()
      ensures id == old(nextId) && nextId == id + 1
      ensures rows == old(rows) + [UserRow(id, name, email, hash(password), RoleOrDefault(role), now, columnDefaults)]
      ensures FindById(id) == Some(Public(rows[|rows| - 1]))
      ensures FindByEmail(email) == if old(FindByEmail(email)).Some? then old(FindByEmail(email)) else Some(rows[|rows| - 1])
    {
      id := nextId;
      var row := UserRow(id, name, email, hash(password), RoleOrDefault(role), now, columnDefaults);
      FirstAfterNoMatch(rows, row, HasId(id)) by { IdsBelowNext(); }
      FirstAppendMatchedOrNew(rows, row, HasEmail(email));
      Insert(row);
    }

    /** Every id in the table is below the counter. */
    lemma IdsBelowNext()
      requires Valid()
      ensures forall j :: 0 <= j < |rows| ==> rows[j].id < nextId
    {
      forall j | 0 <= j < |rows| ensures rows[j].id < nextId {
        assert Ids()[j] == rows[j].id;
      }
    }

    /** The INSERT itself: appends `row`, which carries the next id, and advances the counter. */
    method Insert(row: UserRow)
      requires Valid() && row.id == nextId
      modifies this
      ensures Valid() && nextId == old(nextId) + 1 && rows == old(rows) + [row]
    {
      ghost var oldIds := Ids();
      FreshIdsAppend(oldIds, nextId);
      rows := rows + [row];
      nextId := nextId + 1;
      assert Ids() == oldIds + [row.id];
    }

    /** `findByEmail`: the whole row, password hash included, of the first user with `email`. */
    function FindByEmail(email: string): (r: Option<UserRow>)
      reads this
      ensures r.Some? ==> r.value in rows && r.value.email == email
      ensures r.Some? ==> exists i :: 0 <= i < |rows| && rows[i] == r.value &&
                            forall j :: 0 <= j < i ==> rows[j].email != email
      ensures r.None? <==> forall i :: 0 <= i < |rows| ==> rows[i].email != email
    {
      var k := FirstIndex(rows, HasEmail(email));
      assert First(rows, HasEmail(email)) == if k.Some? then Some(rows[k.value]) else None;
      First(rows, HasEmail(email))
    }

    /** `findById`: the public projection of the user with `id`. */
    function FindById(id: nat): (r: Option<PublicUser>)
      reads this
      ensures r.Some? ==> exists i :: 0 <= i < |rows| && rows[i].id == id && r.value == Public(rows[i])
      ensures r.None? <==> forall i :: 0 <= i < |rows| ==> rows[i].id != id
    {
      match First(rows, HasId(id))
      case None => None
      case Some(row) => Some(Public(row))
    }

    /** The list an admin is meant to receive: every user's public projection, in table order.
        userModel.js does not define this accessor (see the findings). */
    function FindAll(): (r: seq<PublicUser>)
      reads this
      ensures |r| == |rows|
      ensures forall i :: 0 <= i < |r| ==> r[i] == Public(rows[i])
    {
      seq(|rows|, i requires 0 <= i < |rows| reads this => Public(rows[i]))
    }
  }
}
