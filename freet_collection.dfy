/**
 * The freet store: the freet table and the user table it reads and writes,
 * with the operations of `FreetCollection`. The current time is a parameter
 * `now` (milliseconds) of every operation that reads the clock.
 */
module FreetStore {
  import opened Common
  import opened Seqs
  import opened UserModel
  import opened FreetModel

  class FreetCollection {
    /** The freet table, in insertion (natural) order. */
    var freets: seq<Freet>
    /** The user table. */
    var users: seq<User>
    /** The id the next created freet receives; ids are never reused. */
    var nextId: FreetId

    ghost predicate Valid()
      reads this
    {
      && UniqueIds(freets)
      && UniqueUserIds(users)
      && forall f | f in freets :: f.id < nextId
    }

    /** The like arrays of the two tables agree. */
    ghost predicate LikesMirrored()
      reads this
    {
      Mirrored(freets, users)
    }

    /** An empty freet table over the given user table. */
    constructor (initialUsers: seq<User>)
      requires UniqueUserIds(initialUsers)
      ensures Valid()
      ensures freets == [] && users == initialUsers && nextId == 0
    {
      freets, users, nextId := [], initialUsers, 0;
    }

    /**
     * `addOne`: a new freet by `authorId`, created and modified at `now`, with
     * no likers, appended to the table.
     */
    method AddOne(authorId: UserId, content: string, endTime: EndTimeArg, now: int) returns (f: Freet)
      requires Valid()
      modifies this
      ensures Valid()
      ensures f == Freet(old(nextId), authorId, now, content, now, StoredEndTime(endTime), [])
      ensures forall g | g in old(freets) :: g.id != f.id
      ensures freets == old(freets) + [f]
      ensures users == old(users) && nextId == old(nextId) + 1
      ensures old(LikesMirrored()) && (forall u | u in users :: f.id !in u.allLikes) ==> LikesMirrored()
    {
      var stored := if endTime.EmptyText? then Omitted else endTime;
      f := Freet(nextId, authorId, now, content, now, StoredEndTime(stored), []);
      forall g | g in freets ensures FreetKey(g) != FreetKey(f) { }
      UniqueKeysAppend(freets, f, FreetKey);
      if Mirrored(freets, users) && forall u | u in users :: f.id !in u.allLikes {
        AddKeepsMirrored(freets, users, f);
      }
      freets := freets + [f];
      nextId := nextId + 1;
    }

    /** `findOne`: the freet with that id, if any. */
    function FindOne(freetId: FreetId): (r: Option<Freet>)
      reads this
      ensures r.Some? ==> r.value in freets && r.value.id == freetId
      ensures r.None? <==> forall f | f in freets :: f.id != freetId
    {
      FindFreet(freets, freetId)
    }

    /** `findAll`: every freet, most recently modified first. */
    function FindAll(): (r: seq<Freet>)
      reads this
      ensures multiset(r) == multiset(freets)
      ensures SortedByModified(r)
    {
      SortByModified(freets)
    }

    /**
     * `findAllByUsername`: the freets whose author is the user with that
     * username; fails when no user has it, since the source then reads `_id`
     * of `null`.
     */
    function FindAllByUsername(username: string): (r: Result<seq<Freet>, StoreError>)
      reads this
      ensures r.Failure? <==> forall u | u in users :: u.username != username
      ensures r.Failure? ==> r.error == MissingUser
      ensures r.Success? ==> exists a | a in users && a.username == username ::
        r.value == ByAuthor(freets, a.id)
    {
      match FindByUsername(users, username)
      case None => Failure(MissingUser)
      case Some(author) => Success(ByAuthor(freets, author.id))
    }

    /**
     * `updateOne`: the edit rule. It fails when the freet or the user is
     * missing; otherwise, if the user is verified or at most 30 minutes have
     * passed since creation, the content and modification date change, and if
     * not, nothing changes and the stored freet is returned. Whether the user
     * is the freet's author is not checked.
     */
    method UpdateOne(freetId: FreetId, authorId: UserId, content: string, now: int)
      returns (r: Result<Freet, StoreError>)
      requires Valid()
      modifies this
      ensures Valid()
      ensures users == old(users) && nextId == old(nextId)
      ensures old(FindOne(freetId)).None? ==> r == Failure(MissingFreet) && freets == old(freets)
      ensures old(FindOne(freetId)).Some? && FindUser(users, authorId).None? ==>
        r == Failure(MissingUser) && freets == old(freets)
      ensures old(FindOne(freetId)).Some? && FindUser(users, authorId).Some? ==>
        var f := old(FindOne(freetId)).value;
        if EditAllowed(FindUser(users, authorId).value, f, now) then
          r == Success(Edited(f, content, now)) && freets == SetById(old(freets), Edited(f, content, now))
        else
          r == Success(f) && freets == old(freets)
      ensures old(LikesMirrored()) ==> LikesMirrored()
    {
      var author := FindUser(users, authorId);
      var k := IndexWhere(freets, HasId(freetId));
      if k.None? {
        return Failure(MissingFreet);
      }
      var freet := freets[k.value];
      var elapsed := now - freet.dateCreated;
      if author.None? {
        return Failure(MissingUser);
      }
      if author.value.isVerified || elapsed <= EditWindowMs {
        var edited := freet.(content := content, dateModified := now);
        forall f | f in freets && f.id == edited.id ensures f.usersLiked == edited.usersLiked {
          UniqueKeysSame(freets, FreetKey, f, freet);
        }
        if Mirrored(freets, users) {
          EditKeepsMirrored(freets, users, edited);
        }
        ghost var before := freets;
        freets := freets[k.value := edited];
        forall i | 0 <= i < |before| && i != k.value ensures before[i].id != freetId {
          IdsDistinctAt(before, i, k.value);
        }
        assert freets == SetById(before, edited);
        UpdateKeepsIds(before, k.value, edited, nextId);
        return Success(edited);
      }
      return Success(freet);
    }

    /** `deleteOne`: removes the freet with that id; always answers `true`. */
    method DeleteOne(freetId: FreetId) returns (ok: bool)
      requires Valid()
      modifies this
      ensures Valid()
      ensures ok
      ensures freets == WithoutId(old(freets), freetId)
      ensures users == old(users) && nextId == old(nextId)
      ensures old(LikesMirrored()) ==> LikesMirrored()
    {
      FilterKeepsUniqueKeys(freets, IdIsNot(freetId), FreetKey);
      if Mirrored(freets, users) { FilterKeepsMirrored(freets, users, IdIsNot(freetId)); }
      freets := WithoutId(freets, freetId);
      ok := true;
    }

    /**
     * `deleteExpires`: visits a snapshot of every freet, most recently
     * modified first, and deletes each one whose end time is before `now`.
     */
    method DeleteExpires(now: int)
      requires Valid()
      modifies this
      ensures Valid()
      ensures freets == Unexpired(old(freets), now)
      ensures users == old(users) && nextId == old(nextId)
      ensures old(LikesMirrored()) ==> LikesMirrored()
    {
      var allFreets := FindAll();
      ghost var fs0 := freets;
      ghost var visited: set<FreetId> := {};
      SweepStart(fs0, now);
      var i := 0;
      while i < |allFreets|
        invariant 0 <= i <= |allFreets|
        invariant users == old(users) && nextId == old(nextId)
        invariant freets == SweptAmong(fs0, now, visited)
        invariant forall j | 0 <= j < i :: allFreets[j].id in visited
      {
        var freet := allFreets[i];
        assert freet in multiset(fs0);
        if freet.endTime.Some? && freet.endTime.value < now {
          SweepVisitExpired(fs0, now, visited, freet);
          freets := WithoutId(freets, freet.id);
        } else {
          SweepVisitKept(fs0, now, visited, freet);
        }
        ghost var seen := visited;
        visited := visited + {freet.id};
        SweepVisited(allFreets, i, seen, visited);
        i := i + 1;
      }
      SweepFinish(fs0, allFreets, now, visited);
      FilterKeepsUniqueKeys(fs0, NotExpired(now), FreetKey);
      if Mirrored(fs0, users) { FilterKeepsMirrored(fs0, users, NotExpired(now)); }
    }

    /** `deleteMany`: removes every freet by `authorId`. */
    method DeleteMany(authorId: UserId)
      requires Valid()
      modifies this
      ensures Valid()
      ensures freets == WithoutAuthor(old(freets), authorId)
      ensures users == old(users) && nextId == old(nextId)
      ensures old(LikesMirrored()) ==> LikesMirrored()
    {
      FilterKeepsUniqueKeys(freets, AuthorIsNot(authorId), FreetKey);
      if Mirrored(freets, users) { FilterKeepsMirrored(freets, users, AuthorIsNot(authorId)); }
      freets := WithoutAuthor(freets, authorId);
    }

    /**
     * `addLikedBy`: pushes `userId` onto the freet's `usersLiked` and
     * `freetId` onto the user's `allLikes`; a side whose record is missing is
     * left alone.
     */
    method AddLikedBy(userId: UserId, freetId: FreetId)
      requires Valid()
      modifies this
      ensures Valid()
      ensures freets == PushLiker(old(freets), freetId, userId)
      ensures users == PushLike(old(users), userId, freetId)
      ensures nextId == old(nextId)
      ensures old(LikesMirrored()) ==> LikesMirrored()
    {
      if Mirrored(freets, users) {
        LikeKeepsMirrored(freets, users, userId, freetId);
      }
      var k := IndexWhere(freets, HasId(freetId));
      if k.Some? {
        LikerUpdateAt(freets, k.value, freetId, userId, true);
        UpdateKeepsIds(freets, k.value, freets[k.value].(usersLiked := freets[k.value].usersLiked + [userId]), nextId);
        freets := freets[k.value := freets[k.value].(usersLiked := freets[k.value].usersLiked + [userId])];
      } else {
        LikerAbsent(freets, freetId, userId);
      }
      var m := IndexWhere(users, HasUserId(userId));
      if m.Some? {
        LikeUpdateAt(users, m.value, userId, freetId, true);
        users := users[m.value := users[m.value].(allLikes := users[m.value].allLikes + [freetId])];
      } else {
        LikeAbsent(users, userId, freetId);
      }
    }

    /**
     * `deleteLikedBy`: pulls every `userId` from the freet's `usersLiked` and
     * every `freetId` from the user's `allLikes`.
     */
    method DeleteLikedBy(userId: UserId, freetId: FreetId)
      requires Valid()
      modifies this
      ensures Valid()
      ensures freets == PullLiker(old(freets), freetId, userId)
      ensures users == PullLike(old(users), userId, freetId)
      ensures nextId == old(nextId)
      ensures old(LikesMirrored()) ==> LikesMirrored()
    {
      if Mirrored(freets, users) {
        UnlikeKeepsMirrored(freets, users, userId, freetId);
      }
      var k := IndexWhere(freets, HasId(freetId));
      if k.Some? {
        LikerUpdateAt(freets, k.value, freetId, userId, false);
        UpdateKeepsIds(freets, k.value, freets[k.value].(usersLiked := RemoveAll(freets[k.value].usersLiked, userId)), nextId);
        freets := freets[k.value := freets[k.value].(usersLiked := RemoveAll(freets[k.value].usersLiked, userId))];
      } else {
        LikerAbsent(freets, freetId, userId);
      }
      var m := IndexWhere(users, HasUserId(userId));
      if m.Some? {
        LikeUpdateAt(users, m.value, userId, freetId, false);
        users := users[m.value := users[m.value].(allLikes := RemoveAll(users[m.value].allLikes, freetId))];
      } else {
        LikeAbsent(users, userId, freetId);
      }
    }
  }
}
