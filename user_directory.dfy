/** The users collection: registration with a unique email, lookup by email, the listing without
    password hashes, and deletion. It also serves the owner details of roster rows. */
module UserDirectory {
  import opened Wrappers
  import opened ObjectIds
  import opened Ordering

  /** A user document as stored. Older documents may lack some fields, so those read with a
      default or a presence test are optional. */
  datatype UserDoc = UserDoc(
    email: Option<string>,
    fullName: Option<string>,
    role: string,
    hashedPassword: Option<string>,
    createdAt: Option<int>)

  /** A registration body. */
  datatype UserCreate = UserCreate(email: string, fullName: string, role: string, password: string)

  /** A listing entry: the document's fields with its id, and no password hash. */
  datatype UserListing = UserListing(
    id: Id,
    email: Option<string>,
    fullName: Option<string>,
    role: string,
    createdAt: Option<int>)

  /** The listing entry of a stored user: the id as text, the hash dropped, a missing creation time as null. */
  function Listed(id: Id, d: UserDoc): (u: UserListing)
    ensures u.id == id && u.email == d.email && u.fullName == d.fullName && u.role == d.role && u.createdAt == d.createdAt
  {
    UserListing(id, d.email, d.fullName, d.role, d.createdAt)
  }

  /** The sort key of the user listing: the creation time. */
  function CreatedKey(u: UserListing): Option<int> {
    u.createdAt
  }

  class UserCollection {
    var docs: map<Id, UserDoc>

    /** The collection as found. */
    constructor (initial: map<Id, UserDoc>)
      ensures docs == initial
    {
      docs := initial;
    }

    predicate EmailTaken(email: string)
      reads this
    {
      exists id :: id in docs && docs[id].email == Some(email)
    }

    /** A user registered under `email`, if there is one. */
    method GetByEmail(email: string) returns (found: Option<Id>)
      ensures found.Some? ==> found.value in docs && docs[found.value].email == Some(email)
      ensures found.None? <==> !EmailTaken(email)
    {
      if exists id :: id in docs && docs[id].email == Some(email) {
        var id :| id in docs && docs[id].email == Some(email);
        found := Some(id);
      } else {
        found := None;
      }
    }

    /** Registers `user` under the id the driver generates, unless the email is already registered.
        Only the hash of the password is stored. `hash` stands for the password hasher and `now` for the clock. */
    method Create(user: UserCreate, hash: string -> string, newId: Id, now: int) returns (id: Option<Id>)
      requires newId !in docs
      modifies this
      ensures old(EmailTaken(user.email)) ==> id.None? && docs == old(docs)
      ensures !old(EmailTaken(user.email)) ==> id == Some(newId)
      ensures !old(EmailTaken(user.email)) ==>
        docs == old(docs)[newId := UserDoc(Some(user.email), Some(user.fullName), user.role, Some(hash(user.password)), Some(now))]
    {
      var existing := GetByEmail(user.email);
      if existing.Some? {
        return None;
      }
      var hashed := hash(user.password);
      docs := docs[newId := UserDoc(Some(user.email), Some(user.fullName), user.role, Some(hashed), Some(now))];
      id := Some(newId);
    }

    /** One listing entry per stored user. */
    function Listing(): set<UserListing>
      reads this
    {
      set id | id in docs :: Listed(id, docs[id])
    }

    /** Every user once, newest first, without password hashes. */
    method GetAll() returns (users: seq<UserListing>)
      ensures multiset(users) == multiset(Listing())
      ensures SortedBy(users, CreatedKey, true)
    {
      var found: seq<UserListing> := [];
      var remaining := docs.Keys;
      while remaining != {}
        invariant remaining <= docs.Keys
        invariant multiset(found) == multiset(set id | id in docs.Keys - remaining :: Listed(id, docs[id]))
        decreases |remaining|
      {
        var id :| id in remaining;
        ghost var done := set k | k in docs.Keys - remaining :: Listed(k, docs[k]);
        assert Listed(id, docs[id]) !in done;
        assert (set k | k in docs.Keys - (remaining - {id}) :: Listed(k, docs[k])) == done + {Listed(id, docs[id])};
        found := found + [Listed(id, docs[id])];
        remaining := remaining - {id};
      }
      assert docs.Keys - remaining == docs.Keys;
      users := SortBy(found, CreatedKey, true);
    }

    /** Removes the user whose ObjectId `id` converts to: false for a malformed id, otherwise
        whether a user was removed. Every other user is kept as it was. */
    method Delete(id: Id) returns (removed: bool)
      modifies this
      ensures !ValidId(id) ==> !removed && docs == old(docs)
      ensures ValidId(id) ==> removed == (Canon(id) in old(docs)) && docs == old(docs) - {Canon(id)}
    {
      if !ValidId(id) {
        return false;
      }
      var key := Canon(id);
      removed := key in docs;
      docs := docs - {key};
    }
  }
}
