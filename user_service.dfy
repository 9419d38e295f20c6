/** `UserService` of backend/app/services/user_service.py, layered over a `RecordStore`. */
module UserServices {
  import opened Wrappers
  import opened Values
  import opened OrderedMaps
  import opened Tables
  import opened BaseStore
  import opened ServiceStore

  /** The table the service works on. */
  const UsersTable := "users"

  /** `f"User with ID {user_id} not found"`. */
  function UserNotFound(userId: Key): DbError
  {
    RecordNotFoundError("User with ID " + PyStr(userId) + " not found")
  }

  /** The placeholder hash `f"hashed_{password}"`. */
  function Hashed(password: Value): Value
  {
    Str("hashed_" + PyStr(password))
  }

  /** The dict `create_user` stores: a new string id, the two timestamps and the hashed
      password, without the clear-text `password`. */
  function NewUserRecord(userData: Record, idText: string, createdAt: Value, updatedAt: Value): (r: Record)
    requires "password" in userData
    ensures r.Keys == userData.Keys - {"password"} + {"id", "created_at", "updated_at", "hashed_password"}
    ensures "password" !in r
    ensures r["hashed_password"] == Hashed(userData["password"])
    ensures r["id"] == Str(idText)
    ensures r["created_at"] == createdAt && r["updated_at"] == updatedAt
    ensures forall k :: k in userData && k !in {"password", "id", "created_at", "updated_at", "hashed_password"} ==>
      r[k] == userData[k]
  {
    userData["id" := Str(idText)]["created_at" := createdAt]["updated_at" := updatedAt]
            ["hashed_password" := Hashed(userData["password"])] - {"password"}
  }

  /** The same dict, built by `create_user`'s own steps on a local copy. */
  method BuildNewUser(userData: Record, idText: string, createdAt: Value, updatedAt: Value) returns (userDict: Record)
    requires "password" in userData
    ensures userDict == NewUserRecord(userData, idText, createdAt, updatedAt)
  {
    userDict := userData;
    userDict := userDict["id" := Str(idText)];
    userDict := userDict["created_at" := createdAt];
    userDict := userDict["updated_at" := updatedAt];
    userDict := userDict["hashed_password" := Hashed(userDict["password"])];
    userDict := userDict - {"password"};
  }

  /** The update fields after the password step of `update_user`: a supplied password is
      replaced by its hash. */
  function HashedFields(update: Record): (r: Record)
    ensures "password" !in r
    ensures "password" in update ==>
      r.Keys == update.Keys - {"password"} + {"hashed_password"} && r["hashed_password"] == Hashed(update["password"])
    ensures "password" !in update ==> r == update
    ensures forall k :: k in update && k != "password" && k != "hashed_password" ==> r[k] == update[k]
  {
    if "password" in update then update["hashed_password" := Hashed(update["password"])] - {"password"} else update
  }

  /** The password step, as `update_user` performs it on its local dict. */
  method HashUpdate(updateData: Record) returns (r: Record)
    ensures r == HashedFields(updateData)
  {
    r := updateData;
    if "password" in r {
      r := r["hashed_password" := Hashed(r["password"])];
      r := r - {"password"};
    }
  }

  /** What `update_user` writes: the current record, the supplied non-`None` fields with the
      password hashed, and a fresh `updated_at`. */
  function UserUpdateRecord(current: Record, userData: Record, now: Value): (r: Record)
    ensures current.Keys <= r.Keys
    ensures "password" in r <==> "password" in current
    ensures "updated_at" in r && r["updated_at"] == now
  {
    MergeStamped(current, HashedFields(DropNone(userData)), now)
  }

  /** An update stores the hash of a supplied password and keeps every unspecified field. */
  lemma UserUpdateRecordFields(current: Record, userData: Record, now: Value)
    ensures "password" in userData && userData["password"] != Null ==>
      UserUpdateRecord(current, userData, now)["hashed_password"] == Hashed(userData["password"])
    ensures forall k :: k in current && k !in userData && k != "updated_at" && k != "hashed_password" ==>
      UserUpdateRecord(current, userData, now)[k] == current[k]
  {
  }

  class UserService {
    const db: RecordStore

    constructor (db: RecordStore)
      ensures this.db == db
    {
      this.db := db;
    }

    /** `create_user`: stores the user with a new id, its two timestamps and the hashed
        password in place of the clear one; the read-back always finds it. */
    method CreateUser(userData: Record, idText: string, createdAt: Value, updatedAt: Value, storeId: Key)
      returns (r: Result<Record, DbError>)
      requires db.Valid()
      requires "password" in userData
      requires db.TableOf(UsersTable).Get(storeId).None?
      modifies db
      ensures db.Valid()
      ensures r == Success(NewUserRecord(userData, idText, createdAt, updatedAt))
      ensures db.tables == old(db.tables)[UsersTable := old(db.TableOf(UsersTable)).Put(storeId, r.value)]
    {
      var userDict := BuildNewUser(userData, idText, createdAt, updatedAt);
      var recordId := db.CreateRecord(UsersTable, userDict, storeId);
      var stored := db.GetRecord(UsersTable, recordId);
      if !Present(stored) {
        assert false;
        return Failure(DatabaseError("Failed to retrieve created user"));
      }
      r := Success(stored.value);
    }

    /** `get_user`: a missing (or empty) record is `RecordNotFoundError`. */
    method GetUser(userId: Key) returns (r: Result<Record, DbError>)
      ensures !Present(db.TableOf(UsersTable).Get(userId)) ==> r == Failure(UserNotFound(userId))
      ensures Present(db.TableOf(UsersTable).Get(userId)) ==> r == Success(db.TableOf(UsersTable).Get(userId).value)
    {
      var user := db.GetRecord(UsersTable, userId);
      if !Present(user) {
        return Failure(UserNotFound(userId));
      }
      r := Success(user.value);
    }

    /** `update_user`: not found before any write; otherwise writes `UserUpdateRecord`, and a
        store that answers `False` becomes `DatabaseError`. */
    method UpdateUser(userId: Key, userData: Record, now: Value) returns (r: Result<Record, DbError>)
      requires db.Valid()
      modifies db
      ensures db.Valid()
      ensures !Present(old(db.TableOf(UsersTable).Get(userId))) ==>
        r == Failure(UserNotFound(userId)) && db.tables == old(db.tables)
      ensures Present(old(db.TableOf(UsersTable).Get(userId))) ==>
        var written := UserUpdateRecord(old(db.TableOf(UsersTable).Get(userId)).value, userData, now);
        (r == Success(written) &&
         db.tables == old(db.tables)[UsersTable := old(db.TableOf(UsersTable)).Put(userId, written)]) ||
        (r == Failure(DatabaseError("Failed to update user with ID " + PyStr(userId))) &&
         db.tables == old(db.tables))
    {
      var current := db.GetRecord(UsersTable, userId);
      if !Present(current) {
        return Failure(UserNotFound(userId));
      }
      var updateData := DropNone(userData);
      updateData := HashUpdate(updateData);
      var userDict := MergeStamped(current.value, updateData, now);
      var success := db.UpdateRecord(UsersTable, userId, userDict);
      if !success {
        return Failure(DatabaseError("Failed to update user with ID " + PyStr(userId)));
      }
      MergeStampedCovers(current.value, updateData, now);
      var updated := db.GetRecord(UsersTable, userId);
      if !Present(updated) {
        assert false;
        return Failure(DatabaseError("Failed to retrieve updated user with ID " + PyStr(userId)));
      }
      r := Success(updated.value);
    }

    /** `delete_user`: removes only the user record; the user's orders and every other table
        stay as they were. A store `False` becomes `RecordNotFoundError`. */
    method DeleteUser(userId: Key) returns (r: Result<bool, DbError>)
      requires db.Valid()
      modifies db
      ensures db.Valid()
      ensures old(db.TableOf(UsersTable).Get(userId)).Some? ==>
        r == Success(true) && db.tables == old(db.tables)[UsersTable := old(db.TableOf(UsersTable)).Remove(userId)]
      ensures old(db.TableOf(UsersTable).Get(userId)).None? ==>
        r == Failure(UserNotFound(userId)) && db.tables == old(db.tables)
      ensures forall t :: t != UsersTable ==> db.TableOf(t) == old(db.TableOf(t))
    {
      var success := db.DeleteRecord(UsersTable, userId);
      if !success {
        return Failure(UserNotFound(userId));
      }
      r := Success(true);
    }
  }
}
