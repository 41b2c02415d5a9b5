/** The `users` table: id, unique username, unique email, password hash,
    an optional profile image (a nullable long BLOB) and the creation time. */
module UserModel {

  import opened Common
  import Tables

  datatype User = User(
    id: int,
    username: string,
    email: string,
    password: string,
    profileImage: Option<seq<byte>>,
    createdAt: int)

  /** A user as the handlers send it: every column but the password. */
  datatype PublicUser = PublicUser(
    id: int,
    username: string,
    email: string,
    profileImage: Option<seq<byte>>,
    createdAt: int)

  /** The `attributes: { exclude: ["password"] }` projection. */
  function Public(u: User): (p: PublicUser)
    ensures p.id == u.id && p.username == u.username && p.email == u.email
    ensures p.profileImage == u.profileImage && p.createdAt == u.createdAt
  {
    PublicUser(u.id, u.username, u.email, u.profileImage, u.createdAt)
  }

  /** The `unique: true` constraints on username and email. */
  predicate UniqueCredentials(rows: map<int, User>)
  {
    forall a, b :: a in rows && b in rows && a != b ==>
      rows[a].username != rows[b].username && rows[a].email != rows[b].email
  }

  function CreatedAt(u: User): int { u.createdAt }

  /** The users table seen through its creation times. */
  function CreationTimes(rows: map<int, User>): map<int, int>
  {
    Tables.CreationTimes(rows, CreatedAt)
  }

  /** Every row is stored under its own id, the unique constraints hold, and
      no two rows were created at the same time. */
  predicate WellFormed(rows: map<int, User>)
  {
    (forall k :: k in rows ==> rows[k].id == k)
    && UniqueCredentials(rows)
    && Tables.Distinct(CreationTimes(rows))
  }

  /** Replacing a row by one with the same id, the same creation time and
      credentials no other row holds keeps the table well formed. */
  lemma ReplaceKeepsWellFormed(rows: map<int, User>, u: User)
    requires WellFormed(rows) && u.id in rows
    requires u.createdAt == rows[u.id].createdAt
    requires forall k :: k in rows && k != u.id ==> rows[k].username != u.username && rows[k].email != u.email
    ensures WellFormed(rows[u.id := u])
  {
    assert CreationTimes(rows[u.id := u]) == CreationTimes(rows);
  }

  /** Removing a row keeps the table well formed. */
  lemma RemoveKeepsWellFormed(rows: map<int, User>, id: int)
    requires WellFormed(rows)
    ensures WellFormed(rows - {id})
  {
    var times := CreationTimes(rows - {id});
    forall a, b | a in times && b in times && a != b
      ensures times[a] != times[b]
    {
      assert times[a] == CreationTimes(rows)[a] && times[b] == CreationTimes(rows)[b];
    }
  }

  /** The table, updated in place by the handlers. */
  class UserTable {
    var rows: map<int, User>

    predicate Valid()
      reads this
    {
      WellFormed(rows)
    }

    constructor (initial: map<int, User>)
      requires WellFormed(initial)
      ensures Valid() && rows == initial
    {
      rows := initial;
    }

    /** `user.update({profileImage: image})` on the row with this id. */
    method SetProfileImage(id: int, image: Option<seq<byte>>)
      requires Valid() && id in rows
      modifies this
      ensures Valid()
      ensures rows == old(rows)[id := old(rows)[id].(profileImage := image)]
    {
      ReplaceKeepsWellFormed(rows, rows[id].(profileImage := image));
      rows := rows[id := rows[id].(profileImage := image)];
    }

    /** `user.update(updateData)`: the row is replaced by u, whose
        credentials no other row holds. */
    method Replace(u: User)
      requires Valid() && u.id in rows
      requires u.createdAt == rows[u.id].createdAt
      requires forall k :: k in rows && k != u.id ==> rows[k].username != u.username && rows[k].email != u.email
      modifies this
      ensures Valid()
      ensures rows == old(rows)[u.id := u]
    {
      ReplaceKeepsWellFormed(rows, u);
      rows := rows[u.id := u];
    }

    /** `user.destroy()`. */
    method Destroy(id: int)
      requires Valid()
      modifies this
      ensures Valid()
      ensures rows == old(rows) - {id}
    {
      RemoveKeepsWellFormed(rows, id);
      rows := rows - {id};
    }
  }
}
