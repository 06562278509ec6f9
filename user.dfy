/**
 * The user records the freet store reads (for `isVerified` and the username
 * lookup) and writes (the `allLikes` array).
 */
module UserModel {
  import opened Common
  import opened Seqs

  /**
   * A stored user. The password and join date are not read by the freet store
   * and are left out. `isVerified` is a plain stored flag.
   */
  datatype User = User(id: UserId, username: string, isVerified: bool, allLikes: seq<FreetId>)

  function UserKey(u: User): UserId { u.id }

  /** `_id` is the primary key of the user table. */
  ghost predicate UniqueUserIds(us: seq<User>) { UniqueKeys(us, UserKey) }

  lemma UserIdsDistinctAt(us: seq<User>, i: nat, j: nat)
    requires UniqueUserIds(us) && i < |us| && j < |us| && i != j
    ensures us[i].id != us[j].id
  {
    UniqueKeysAt(us, UserKey, i, j);
  }

  function HasUserId(id: UserId): User -> bool { (u: User) => u.id == id }
  function HasUsername(name: string): User -> bool { (u: User) => u.username == name }

  /** `UserModel.findOne({_id: id})`: the first user with that id, or `null`. */
  function FindUser(us: seq<User>, id: UserId): (r: Option<User>)
    ensures r.Some? ==> r.value in us && r.value.id == id
    ensures r.None? <==> forall u | u in us :: u.id != id
  {
    var k := IndexWhere(us, HasUserId(id));
    if k.Some? then Some(us[k.value]) else None
  }

  /** The lookup by username: the first user in table order with exactly that username, or `null`. */
  function FindByUsername(us: seq<User>, name: string): (r: Option<User>)
    ensures r.Some? ==> exists k | 0 <= k < |us| :: us[k] == r.value && forall j | 0 <= j < k :: us[j].username != name
    ensures r.Some? ==> r.value.username == name
    ensures r.None? <==> forall u | u in us :: u.username != name
  {
    var k := IndexWhere(us, HasUsername(name));
    if k.Some? then Some(us[k.value]) else None
  }

  /** `updateOne({_id: userId}, {$push: {allLikes: freetId}})`. */
  function PushLike(us: seq<User>, userId: UserId, freetId: FreetId): seq<User> {
    seq(|us|, i requires 0 <= i < |us| =>
      if us[i].id == userId then us[i].(allLikes := us[i].allLikes + [freetId]) else us[i])
  }

  /** `updateOne({_id: userId}, {$pull: {allLikes: freetId}})`. */
  function PullLike(us: seq<User>, userId: UserId, freetId: FreetId): seq<User> {
    seq(|us|, i requires 0 <= i < |us| =>
      if us[i].id == userId then us[i].(allLikes := RemoveAll(us[i].allLikes, freetId)) else us[i])
  }

  /** Updating the one user with id `userId` in place is the push (or pull) over the whole table. */
  lemma LikeUpdateAt(us: seq<User>, k: nat, userId: UserId, freetId: FreetId, push: bool)
    requires UniqueUserIds(us) && k < |us| && us[k].id == userId
    ensures push ==> us[k := us[k].(allLikes := us[k].allLikes + [freetId])] == PushLike(us, userId, freetId)
    ensures !push ==> us[k := us[k].(allLikes := RemoveAll(us[k].allLikes, freetId))] == PullLike(us, userId, freetId)
    ensures UniqueUserIds(us[k := us[k].(allLikes := us[k].allLikes + [freetId])])
    ensures UniqueUserIds(us[k := us[k].(allLikes := RemoveAll(us[k].allLikes, freetId))])
  {
    forall i | 0 <= i < |us| && i != k ensures us[i].id != userId {
      UserIdsDistinctAt(us, i, k);
    }
    UniqueKeysUpdate(us, k, us[k].(allLikes := us[k].allLikes + [freetId]), UserKey);
    UniqueKeysUpdate(us, k, us[k].(allLikes := RemoveAll(us[k].allLikes, freetId)), UserKey);
  }

  /** With no user of that id, the push and the pull change nothing. */
  lemma LikeAbsent(us: seq<User>, userId: UserId, freetId: FreetId)
    requires forall j | 0 <= j < |us| :: us[j].id != userId
    ensures PushLike(us, userId, freetId) == us && PullLike(us, userId, freetId) == us
  {
  }
}
