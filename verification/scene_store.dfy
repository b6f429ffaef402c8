/**
 * The client's roster of users (client/src/store/sceneStore.ts): a
 * JavaScript `Map` from user id to user record. Each action builds a new
 * map from the current one. The map is kept as its values in insertion
 * order: `set` on a present key replaces that entry in place, `set` on a
 * new key appends, and `delete` removes the entry. Keys are not stored
 * separately, because every entry is filed under its record's own id.
 */
module SceneStore {
  import opened Optional
  import opened ClientTypes

  datatype SceneUser = SceneUser(id: string, position: Position, isOwner: bool)

  /** No two entries share an id: the values of a `Map` keyed by id. */
  predicate UniqueIds(users: seq<SceneUser>) {
    forall i, j :: 0 <= i < j < |users| ==> users[i].id != users[j].id
  }

  /** The store starts with an empty users map. */
  const INITIAL_USERS: seq<SceneUser> := []

  /** Where the entry for `id` sits, if there is one. */
  function IndexOfUser(users: seq<SceneUser>, id: string): (r: Option<nat>)
    ensures r.Some? ==> r.value < |users| && users[r.value].id == id
    ensures r.Some? ==> forall k | 0 <= k < r.value :: users[k].id != id
    ensures r.None? ==> forall u | u in users :: u.id != id
  {
    if users == [] then None
    else if users[0].id == id then Some(0)
    else match IndexOfUser(users[1..], id)
      case None => None
      case Some(k) => Some(k + 1)
  }

  /** `getUser`: the stored user, or nothing (`undefined`). */
  function GetUser(users: seq<SceneUser>, id: string): (r: Option<SceneUser>)
    ensures r.Some? <==> exists u | u in users :: u.id == id
    ensures r.Some? ==> r.value in users && r.value.id == id
  {
    match IndexOfUser(users, id)
    case None => None
    case Some(k) => Some(users[k])
  }

  /**
   * `addUser` (`Map.set(user.id, user)` on a copy): the user is stored, the
   * roster grows by at most one, nothing else is added, and no user with
   * another id is lost.
   */
  function AddUser(users: seq<SceneUser>, user: SceneUser): (r: seq<SceneUser>)
    ensures user in r
    ensures |users| <= |r| <= |users| + 1
    ensures forall u | u in r :: u == user || u in users
    ensures forall u | u in users && u.id != user.id :: u in r
  {
    match IndexOfUser(users, user.id)
    case None => assert (users + [user])[|users|] == user; users + [user]
    case Some(k) => SetKeeps(users, k, user); users[k := user]
  }

  /** Overwriting entry `k` stores the new user and keeps every other entry. */
  lemma SetKeeps(users: seq<SceneUser>, k: nat, user: SceneUser)
    requires k < |users|
    ensures user in users[k := user]
    ensures forall u | u in users[k := user] :: u == user || u in users
    ensures forall u | u in users && u != users[k] :: u in users[k := user]
  {
    var r := users[k := user];
    assert r[k] == user;
    forall u | u in users && u != users[k] ensures u in r {
      var i :| 0 <= i < |users| && users[i] == u;
      assert r[i] == u;
    }
  }

  /**
   * `removeUser` (`Map.delete(userId)` on a copy): nothing is added, and
   * every user with another id stays.
   */
  function RemoveUser(users: seq<SceneUser>, id: string): (r: seq<SceneUser>)
    ensures |r| <= |users|
    ensures forall u | u in r :: u in users
    ensures forall u | u in users && u.id != id :: u in r
  {
    match IndexOfUser(users, id)
    case None => users
    case Some(k) => CutKeeps(users, k); users[..k] + users[k + 1..]
  }

  /** Cutting out entry `k` keeps every other entry. */
  lemma CutKeeps(users: seq<SceneUser>, k: nat)
    requires k < |users|
    ensures forall u | u in users[..k] + users[k + 1..] :: u in users
    ensures forall i | 0 <= i < |users| && i != k :: users[i] in users[..k] + users[k + 1..]
  {
    var r := users[..k] + users[k + 1..];
    forall i | 0 <= i < |users| && i != k ensures users[i] in r {
      if i < k {
        assert r[i] == users[i];
      } else {
        assert r[i - 1] == users[i];
      }
    }
  }

  /**
   * `updateUserCursor`: with an unknown id or no position the state is
   * returned as it is; otherwise the stored record gets the new position
   * and is set again under its own id.
   */
  function UpdateUserCursor(users: seq<SceneUser>, id: string, position: Option<Position>): (r: seq<SceneUser>)
    ensures |r| == |users|
    ensures forall k | 0 <= k < |users| :: r[k].id == users[k].id && r[k].isOwner == users[k].isOwner
  {
    match GetUser(users, id)
    case None => users
    case Some(user) =>
      if position.None? then users else AddUser(users, user.(position := position.value))
  }

  /** In a roster with unique ids, the user found under an id is the one at its index. */
  lemma {:induction false} GetUserAt(users: seq<SceneUser>, k: nat)
    requires UniqueIds(users) && k < |users|
    ensures IndexOfUser(users, users[k].id) == Some(k)
    ensures GetUser(users, users[k].id) == Some(users[k])
  {
    if k > 0 {
      assert users[0].id != users[k].id;
      assert users[1..][k - 1] == users[k];
      GetUserAt(users[1..], k - 1);
    }
  }

  /** Nobody is in the initial roster. */
  lemma InitialEmpty(id: string)
    ensures UniqueIds(INITIAL_USERS) && GetUser(INITIAL_USERS, id) == None
  {
  }

  /**
   * After `addUser` the user is found under its id, every other id finds
   * what it found before, and ids stay unique. A present id keeps its
   * place in the order; a new id goes last.
   */
  lemma AddUserSpec(users: seq<SceneUser>, user: SceneUser, other: string)
    requires UniqueIds(users)
    ensures UniqueIds(AddUser(users, user))
    ensures GetUser(AddUser(users, user), user.id) == Some(user)
    ensures other != user.id ==> GetUser(AddUser(users, user), other) == GetUser(users, other)
    ensures GetUser(users, user.id).None? ==> AddUser(users, user) == users + [user]
    ensures GetUser(users, user.id).Some? ==>
      |AddUser(users, user)| == |users| &&
      forall k | 0 <= k < |users| :: AddUser(users, user)[k] == if users[k].id == user.id then user else users[k]
  {
    var r := AddUser(users, user);
    assert UniqueIds(r) by {
      forall i, j | 0 <= i < j < |r| ensures r[i].id != r[j].id {
        if IndexOfUser(users, user.id).None? && j == |users| {
          assert r[i] in users;
        }
      }
    }
    var k := |r| - 1;
    if IndexOfUser(users, user.id).Some? {
      k := IndexOfUser(users, user.id).value;
    }
    assert r[k] == user;
    GetUserAt(r, k);
    if other != user.id {
      match IndexOfUser(users, other)
      case None =>
        assert forall u | u in r :: u.id != other by {
          forall u | u in r ensures u.id != other {
            var i :| 0 <= i < |r| && r[i] == u;
            if i != k {
              assert u in users;
            }
          }
        }
      case Some(j) =>
        assert r[j] == users[j];
        GetUserAt(users, j);
        GetUserAt(r, j);
    }
  }

  /** Cutting out entry `k` keeps the other entries, in order, and their ids unique. */
  lemma CutUser(users: seq<SceneUser>, k: nat)
    requires UniqueIds(users) && k < |users|
    ensures |users[..k] + users[k + 1..]| == |users| - 1
    ensures forall i | 0 <= i < |users| - 1 :: (users[..k] + users[k + 1..])[i] == if i < k then users[i] else users[i + 1]
    ensures UniqueIds(users[..k] + users[k + 1..])
    ensures forall u | u in users[..k] + users[k + 1..] :: u.id != users[k].id
  {
    var r := users[..k] + users[k + 1..];
    forall i, j | 0 <= i < j < |r| ensures r[i].id != r[j].id {
      var i' := if i < k then i else i + 1;
      var j' := if j < k then j else j + 1;
      assert users[i'].id != users[j'].id;
    }
    forall u | u in r ensures u.id != users[k].id {
      var i :| 0 <= i < |r| && r[i] == u;
      var i' := if i < k then i else i + 1;
      assert users[i'].id != users[k].id;
    }
  }

  /**
   * After `removeUser` the id is gone, every other id finds what it found
   * before, and ids stay unique; removing an absent id changes nothing.
   */
  lemma RemoveUserSpec(users: seq<SceneUser>, id: string, other: string)
    requires UniqueIds(users)
    ensures UniqueIds(RemoveUser(users, id))
    ensures GetUser(RemoveUser(users, id), id) == None
    ensures other != id ==> GetUser(RemoveUser(users, id), other) == GetUser(users, other)
    ensures GetUser(users, id).None? ==> RemoveUser(users, id) == users
  {
    var r := RemoveUser(users, id);
    match IndexOfUser(users, id)
    case None =>
    case Some(k) =>
      CutUser(users, k);
      if other != id {
        match IndexOfUser(users, other)
        case None =>
          assert forall u | u in r :: u in users;
        case Some(j) =>
          assert j != k;
          var j' := if j < k then j else j - 1;
          assert j' < |r| && r[j'] == users[j];
          GetUserAt(users, j);
          GetUserAt(r, j');
      }
  }

  /**
   * `updateUserCursor` with an unknown id or no position changes nothing;
   * on a known id it changes that user's position alone, keeping its id,
   * its ownership flag and its place in the order.
   */
  lemma UpdateUserCursorSpec(users: seq<SceneUser>, id: string, position: Option<Position>)
    requires UniqueIds(users)
    ensures UniqueIds(UpdateUserCursor(users, id, position))
    ensures GetUser(users, id).None? || position.None? ==> UpdateUserCursor(users, id, position) == users
    ensures GetUser(users, id).Some? && position.Some? ==>
      |UpdateUserCursor(users, id, position)| == |users| &&
      forall k | 0 <= k < |users| :: UpdateUserCursor(users, id, position)[k] ==
        if users[k].id == id then users[k].(position := position.value) else users[k]
  {
    if GetUser(users, id).Some? && position.Some? {
      AddUserSpec(users, GetUser(users, id).value.(position := position.value), id);
    }
  }

  /** Setting a user twice is setting it once. */
  lemma AddUserIdempotent(users: seq<SceneUser>, user: SceneUser)
    requires UniqueIds(users)
    ensures AddUser(AddUser(users, user), user) == AddUser(users, user)
  {
    var r := AddUser(users, user);
    AddUserSpec(users, user, user.id);
    var k := IndexOfUser(r, user.id).value;
    assert r[k := user] == r;
  }

  /** Adding a user and removing it again is removing it: no trace of the add is left. */
  lemma RemoveAfterAdd(users: seq<SceneUser>, user: SceneUser)
    requires UniqueIds(users)
    ensures RemoveUser(AddUser(users, user), user.id) == RemoveUser(users, user.id)
  {
    var r := AddUser(users, user);
    AddUserSpec(users, user, user.id);
    match IndexOfUser(users, user.id)
    case None =>
      GetUserAt(r, |users|);
      assert r[..|users|] == users;
    case Some(k) =>
      GetUserAt(r, k);
      assert r[..k] == users[..k];
      assert r[k + 1..] == users[k + 1..];
  }
}
