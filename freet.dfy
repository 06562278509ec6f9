/**
 * Freet records and the pure functions over a freet table that the
 * collection's operations are specified by: lookups, filters, the sort of
 * `findAll`, the edit rule, the expiry test and the two-sided like arrays.
 */
module FreetModel {
  import opened Common
  import opened Seqs
  import opened UserModel

  /**
   * A stored freet. Times are milliseconds since the epoch; `endTime` is
   * `None` where the stored field is `null`.
   */
  datatype Freet = Freet(
    id: FreetId,
    authorId: UserId,
    dateCreated: int,
    content: string,
    dateModified: int,
    endTime: Option<int>,
    usersLiked: seq<UserId>)

  function FreetKey(f: Freet): FreetId { f.id }

  /** `_id` is the primary key of the freet table. */
  ghost predicate UniqueIds(fs: seq<Freet>) { UniqueKeys(fs, FreetKey) }

  function HasId(id: FreetId): Freet -> bool { (f: Freet) => f.id == id }
  function IdIsNot(id: FreetId): Freet -> bool { (f: Freet) => f.id != id }
  function AuthorIs(a: UserId): Freet -> bool { (f: Freet) => f.authorId == a }
  function AuthorIsNot(a: UserId): Freet -> bool { (f: Freet) => f.authorId != a }

  lemma IdsDistinctAt(fs: seq<Freet>, i: nat, j: nat)
    requires UniqueIds(fs) && i < |fs| && j < |fs| && i != j
    ensures fs[i].id != fs[j].id
  {
    UniqueKeysAt(fs, FreetKey, i, j);
  }

  /**
   * Replacing the freet at position `k` by one with the same id keeps ids
   * unique and below `bound`.
   */
  lemma UpdateKeepsIds(fs: seq<Freet>, k: nat, g: Freet, bound: int)
    requires UniqueIds(fs) && k < |fs| && g.id == fs[k].id
    requires forall f | f in fs :: f.id < bound
    ensures UniqueIds(fs[k := g])
    ensures forall f | f in fs[k := g] :: f.id < bound
  {
    UniqueKeysUpdate(fs, k, g, FreetKey);
    forall f | f in fs[k := g] ensures f.id < bound {
      var i :| 0 <= i < |fs| && fs[k := g][i] == f;
      assert fs[i] in fs;
    }
  }

  /** `FreetModel.findOne({_id: id})`: the freet with that id, or `null`. */
  function FindFreet(fs: seq<Freet>, id: FreetId): (r: Option<Freet>)
    ensures r.Some? ==> r.value in fs && r.value.id == id
    ensures r.None? <==> forall f | f in fs :: f.id != id
  {
    var k := IndexWhere(fs, HasId(id));
    if k.Some? then Some(fs[k.value]) else None
  }

  // ---------------------------------------------------------------- creation

  /** The `endTime` argument of `addOne`: left out, the empty string, or an instant. */
  datatype EndTimeArg = Omitted | EmptyText | At(ms: int)

  /**
   * The stored `endTime`: the empty string is replaced by `null`, an omitted
   * argument takes the schema default `null`, an instant is kept.
   */
  function StoredEndTime(e: EndTimeArg): (r: Option<int>)
    ensures r.None? <==> e.Omitted? || e.EmptyText?
    ensures e.At? ==> r == Some(e.ms)
  {
    match e
    case At(t) => Some(t)
    case _ => None
  }

  // ---------------------------------------------------------------- the edit rule

  /** Thirty minutes, in milliseconds. */
  const EditWindowMs: int := 30 * 60000

  /**
   * The source computes the elapsed time in minutes by dividing milliseconds
   * by 60000 and compares it with 30; for whole milliseconds that is exactly
   * this integer comparison.
   */
  lemma MinutesTest(elapsedMs: int)
    ensures (elapsedMs as real) / 60000.0 <= 30.0 <==> elapsedMs <= EditWindowMs
  {
  }

  /** An edit goes through when the user is verified or at most 30 minutes have passed since creation. */
  predicate EditAllowed(user: User, f: Freet, now: int) {
    user.isVerified || now - f.dateCreated <= EditWindowMs
  }

  /** The freet as an accepted edit leaves it. */
  function Edited(f: Freet, content: string, now: int): Freet {
    f.(content := content, dateModified := now)
  }

  /** The table with the entry whose id is `g.id` replaced by `g`. */
  function SetById(fs: seq<Freet>, g: Freet): seq<Freet> {
    seq(|fs|, i requires 0 <= i < |fs| => if fs[i].id == g.id then g else fs[i])
  }

  /**
   * An accepted edit touches one freet, and only its content and modification
   * date: lookups by id see the edited freet, every other freet is as before.
   */
  lemma EditChangesOnlyContent(fs: seq<Freet>, id: FreetId, content: string, now: int)
    requires UniqueIds(fs) && FindFreet(fs, id).Some?
    ensures var f := FindFreet(fs, id).value;
      var r := SetById(fs, Edited(f, content, now));
      && |r| == |fs|
      && FindFreet(r, id) == Some(Edited(f, content, now))
      && forall i | 0 <= i < |fs| && fs[i].id != id :: r[i] == fs[i]
  {
    var f := FindFreet(fs, id).value;
    var r := SetById(fs, Edited(f, content, now));
    var k :| 0 <= k < |fs| && fs[k] == f;
    assert r[k] == Edited(f, content, now);
    var found := FindFreet(r, id);
    if found.Some? {
      var m :| 0 <= m < |r| && r[m] == found.value;
      assert r[m].id == id;
    }
  }

  // ---------------------------------------------------------------- queries

  /** `dateModified` never increases along the sequence. */
  predicate SortedByModified(fs: seq<Freet>) {
    forall i, j | 0 <= i < j < |fs| :: fs[i].dateModified >= fs[j].dateModified
  }

  lemma SortedTail(fs: seq<Freet>)
    requires fs != [] && SortedByModified(fs)
    ensures SortedByModified(fs[1..])
    ensures forall g | g in fs[1..] :: g.dateModified <= fs[0].dateModified
  {
    var rest := fs[1..];
    forall i, j | 0 <= i < j < |rest| ensures rest[i].dateModified >= rest[j].dateModified {
      assert rest[i] == fs[i + 1] && rest[j] == fs[j + 1];
    }
    forall g | g in rest ensures g.dateModified <= fs[0].dateModified {
      var m :| 0 <= m < |rest| && rest[m] == g;
      assert fs[m + 1] == g;
    }
  }

  lemma SortedCons(x: Freet, t: seq<Freet>)
    requires SortedByModified(t) && forall g | g in t :: g.dateModified <= x.dateModified
    ensures SortedByModified([x] + t)
  {
    var r := [x] + t;
    forall i, j | 0 <= i < j < |r| ensures r[i].dateModified >= r[j].dateModified {
      assert r[j] == t[j - 1];
      if i > 0 { assert r[i] == t[i - 1]; }
    }
  }

  /** `f` placed into an already sorted table. */
  function InsertByModified(f: Freet, fs: seq<Freet>): (r: seq<Freet>)
    requires SortedByModified(fs)
    ensures SortedByModified(r)
    ensures multiset(r) == multiset(fs) + multiset{f}
    decreases |fs|
  {
    if fs == [] || f.dateModified >= fs[0].dateModified then
      SortedCons(f, fs);
      [f] + fs
    else
      SortedTail(fs);
      var t := InsertByModified(f, fs[1..]);
      assert fs == [fs[0]] + fs[1..];
      assert forall g | g in t :: g.dateModified <= fs[0].dateModified by {
        forall g | g in t ensures g.dateModified <= fs[0].dateModified {
          assert g in multiset(t);
        }
      }
      SortedCons(fs[0], t);
      [fs[0]] + t
  }

  /** The table ordered by `dateModified`, most recent first: `find({}).sort({dateModified: -1})`. */
  function SortByModified(fs: seq<Freet>): (r: seq<Freet>)
    ensures SortedByModified(r)
    ensures multiset(r) == multiset(fs)
    decreases |fs|
  {
    if fs == [] then []
    else
      assert fs == [fs[0]] + fs[1..];
      InsertByModified(fs[0], SortByModified(fs[1..]))
  }

  /** `find({authorId: a})`: the freets by author `a`, in table order. */
  function ByAuthor(fs: seq<Freet>, a: UserId): (r: seq<Freet>)
    ensures forall f :: f in r <==> f in fs && f.authorId == a
    ensures forall f :: multiset(r)[f] == if f.authorId == a then multiset(fs)[f] else 0
  {
    Filter(fs, AuthorIs(a))
  }

  // ---------------------------------------------------------------- deletion

  /** `deleteOne({_id: id})`: every freet but the one with that id. */
  function WithoutId(fs: seq<Freet>, id: FreetId): (r: seq<Freet>)
    ensures forall f :: f in r <==> f in fs && f.id != id
    ensures forall f :: multiset(r)[f] == if f.id != id then multiset(fs)[f] else 0
  {
    Filter(fs, IdIsNot(id))
  }

  /** `deleteMany({authorId: a})`: every freet whose author is not `a`. */
  function WithoutAuthor(fs: seq<Freet>, a: UserId): (r: seq<Freet>)
    ensures forall f :: f in r <==> f in fs && f.authorId != a
    ensures forall f :: multiset(r)[f] == if f.authorId != a then multiset(fs)[f] else 0
  {
    Filter(fs, AuthorIsNot(a))
  }

  /** A freet has expired when it has an end time strictly before `now`. */
  predicate Expired(f: Freet, now: int) {
    f.endTime.Some? && f.endTime.value < now
  }

  function NotExpired(now: int): Freet -> bool { (f: Freet) => !Expired(f, now) }

  /** The table as the expiry sweep at time `now` leaves it. */
  function Unexpired(fs: seq<Freet>, now: int): (r: seq<Freet>)
    ensures forall f :: f in r <==> f in fs && (f.endTime.None? || f.endTime.value >= now)
    ensures forall f :: multiset(r)[f] == if Expired(f, now) then 0 else multiset(fs)[f]
  {
    Filter(fs, NotExpired(now))
  }

  /** Sweeping twice at the same time is sweeping once. */
  lemma {:induction false} UnexpiredIdempotent(fs: seq<Freet>, now: int)
    ensures Unexpired(Unexpired(fs, now), now) == Unexpired(fs, now)
  {
    FilterAllPass(Unexpired(fs, now), NotExpired(now));
  }

  /** Condition kept during the sweep: not both expired and already visited. */
  ghost function SweepKeeps(now: int, visited: set<FreetId>): Freet -> bool {
    (f: Freet) => !(Expired(f, now) && f.id in visited)
  }

  /** The table once the freets with ids in `visited` have been examined by the sweep. */
  ghost function SweptAmong(fs: seq<Freet>, now: int, visited: set<FreetId>): seq<Freet> {
    Filter(fs, SweepKeeps(now, visited))
  }

  lemma SweepStart(fs: seq<Freet>, now: int)
    ensures SweptAmong(fs, now, {}) == fs
  {
    FilterAllPass(fs, SweepKeeps(now, {}));
  }

  /** Visiting an expired freet of the original table deletes it by id. */
  lemma SweepVisitExpired(fs: seq<Freet>, now: int, visited: set<FreetId>, x: Freet)
    requires UniqueIds(fs) && x in fs && Expired(x, now)
    ensures WithoutId(SweptAmong(fs, now, visited), x.id) == SweptAmong(fs, now, visited + {x.id})
  {
    forall f | f in fs
      ensures (SweepKeeps(now, visited)(f) && IdIsNot(x.id)(f)) == SweepKeeps(now, visited + {x.id})(f)
    {
      if f.id == x.id { UniqueKeysSame(fs, FreetKey, f, x); }
    }
    FilterTwice(fs, SweepKeeps(now, visited), IdIsNot(x.id), SweepKeeps(now, visited + {x.id}));
  }

  /** Visiting a freet of the original table that has not expired deletes nothing. */
  lemma SweepVisitKept(fs: seq<Freet>, now: int, visited: set<FreetId>, x: Freet)
    requires UniqueIds(fs) && x in fs && !Expired(x, now)
    ensures SweptAmong(fs, now, visited + {x.id}) == SweptAmong(fs, now, visited)
  {
    forall f | f in fs
      ensures SweepKeeps(now, visited + {x.id})(f) == SweepKeeps(now, visited)(f)
    {
      if f.id == x.id { UniqueKeysSame(fs, FreetKey, f, x); }
    }
    FilterAgree(fs, SweepKeeps(now, visited + {x.id}), SweepKeeps(now, visited));
  }

  /** Once every freet has been visited, the sweep has removed exactly the expired ones. */
  lemma SweepDone(fs: seq<Freet>, now: int, visited: set<FreetId>)
    requires forall f | f in fs :: f.id in visited
    ensures SweptAmong(fs, now, visited) == Unexpired(fs, now)
  {
    FilterAgree(fs, SweepKeeps(now, visited), NotExpired(now));
  }

  lemma SweepVisited(snapshot: seq<Freet>, i: nat, seen: set<FreetId>, visited: set<FreetId>)
    requires i < |snapshot| && visited == seen + {snapshot[i].id}
    requires forall j | 0 <= j < i :: snapshot[j].id in seen
    ensures forall j | 0 <= j < i + 1 :: snapshot[j].id in visited
  {
  }

  /**
   * A sweep that has visited every freet of a snapshot holding the same
   * freets as the table has removed exactly the expired ones.
   */
  lemma SweepFinish(fs: seq<Freet>, snapshot: seq<Freet>, now: int, visited: set<FreetId>)
    requires multiset(snapshot) == multiset(fs)
    requires forall j | 0 <= j < |snapshot| :: snapshot[j].id in visited
    ensures SweptAmong(fs, now, visited) == Unexpired(fs, now)
  {
    forall f | f in fs ensures f.id in visited {
      assert f in multiset(snapshot);
    }
    SweepDone(fs, now, visited);
  }

  // ---------------------------------------------------------------- likes

  /** `updateOne({_id: freetId}, {$push: {usersLiked: userId}})`. */
  function PushLiker(fs: seq<Freet>, freetId: FreetId, userId: UserId): seq<Freet> {
    seq(|fs|, i requires 0 <= i < |fs| =>
      if fs[i].id == freetId then fs[i].(usersLiked := fs[i].usersLiked + [userId]) else fs[i])
  }

  /** `updateOne({_id: freetId}, {$pull: {usersLiked: userId}})`. */
  function PullLiker(fs: seq<Freet>, freetId: FreetId, userId: UserId): seq<Freet> {
    seq(|fs|, i requires 0 <= i < |fs| =>
      if fs[i].id == freetId then fs[i].(usersLiked := RemoveAll(fs[i].usersLiked, userId)) else fs[i])
  }

  /** Updating the one freet with id `freetId` in place is the push (or pull) over the whole table. */
  lemma LikerUpdateAt(fs: seq<Freet>, k: nat, freetId: FreetId, userId: UserId, push: bool)
    requires UniqueIds(fs) && k < |fs| && fs[k].id == freetId
    ensures push ==> fs[k := fs[k].(usersLiked := fs[k].usersLiked + [userId])] == PushLiker(fs, freetId, userId)
    ensures !push ==> fs[k := fs[k].(usersLiked := RemoveAll(fs[k].usersLiked, userId))] == PullLiker(fs, freetId, userId)
  {
    forall i | 0 <= i < |fs| && i != k ensures fs[i].id != freetId {
      IdsDistinctAt(fs, i, k);
    }
  }

  /** With no freet of that id, the push and the pull change nothing. */
  lemma LikerAbsent(fs: seq<Freet>, freetId: FreetId, userId: UserId)
    requires forall j | 0 <= j < |fs| :: fs[j].id != freetId
    ensures PushLiker(fs, freetId, userId) == fs && PullLiker(fs, freetId, userId) == fs
  {
  }

  /**
   * A like is a plain array push on both sides: each list grows by exactly one
   * element, the new id at its end, even when that id is already there.
   */
  lemma LikeGrowsByOne(fs: seq<Freet>, us: seq<User>, k: nat, m: nat, userId: UserId, freetId: FreetId)
    requires k < |fs| && fs[k].id == freetId && m < |us| && us[m].id == userId
    ensures var f := PushLiker(fs, freetId, userId)[k];
      && f.usersLiked == fs[k].usersLiked + [userId]
      && multiset(f.usersLiked)[userId] == multiset(fs[k].usersLiked)[userId] + 1
    ensures var u := PushLike(us, userId, freetId)[m];
      && u.allLikes == us[m].allLikes + [freetId]
      && multiset(u.allLikes)[freetId] == multiset(us[m].allLikes)[freetId] + 1
  {
  }

  /** A second like stores a duplicate, and a single unlike then removes both copies. */
  lemma LikeTwiceUnlikeOnce(fs: seq<Freet>, k: nat, userId: UserId, freetId: FreetId)
    requires k < |fs| && fs[k].id == freetId
    ensures var twice := PushLiker(PushLiker(fs, freetId, userId), freetId, userId);
      && multiset(twice[k].usersLiked)[userId] == multiset(fs[k].usersLiked)[userId] + 2
      && userId !in PullLiker(twice, freetId, userId)[k].usersLiked
  {
  }

  /**
   * The two sides of the like relation agree: for every stored freet and
   * stored user, the user's id occurs in the freet's `usersLiked` as often
   * as the freet's id occurs in the user's `allLikes`.
   */
  ghost predicate Mirrored(fs: seq<Freet>, us: seq<User>) {
    forall f, u | f in fs && u in us :: multiset(f.usersLiked)[u.id] == multiset(u.allLikes)[f.id]
  }

  /** A like pushes onto both arrays, so the two sides stay in step. */
  lemma LikeKeepsMirrored(fs: seq<Freet>, us: seq<User>, userId: UserId, freetId: FreetId)
    requires Mirrored(fs, us)
    ensures Mirrored(PushLiker(fs, freetId, userId), PushLike(us, userId, freetId))
  {
    var fs', us' := PushLiker(fs, freetId, userId), PushLike(us, userId, freetId);
    forall f', u' | f' in fs' && u' in us'
      ensures multiset(f'.usersLiked)[u'.id] == multiset(u'.allLikes)[f'.id]
    {
      var i :| 0 <= i < |fs'| && fs'[i] == f';
      var j :| 0 <= j < |us'| && us'[j] == u';
      assert fs[i] in fs && us[j] in us;
      assert multiset(fs[i].usersLiked)[us[j].id] == multiset(us[j].allLikes)[fs[i].id];
    }
  }

  /** An unlike pulls from both arrays, so the two sides stay in step. */
  lemma UnlikeKeepsMirrored(fs: seq<Freet>, us: seq<User>, userId: UserId, freetId: FreetId)
    requires Mirrored(fs, us)
    ensures Mirrored(PullLiker(fs, freetId, userId), PullLike(us, userId, freetId))
  {
    var fs', us' := PullLiker(fs, freetId, userId), PullLike(us, userId, freetId);
    forall f', u' | f' in fs' && u' in us'
      ensures multiset(f'.usersLiked)[u'.id] == multiset(u'.allLikes)[f'.id]
    {
      var i :| 0 <= i < |fs'| && fs'[i] == f';
      var j :| 0 <= j < |us'| && us'[j] == u';
      assert fs[i] in fs && us[j] in us;
      assert multiset(fs[i].usersLiked)[us[j].id] == multiset(us[j].allLikes)[fs[i].id];
    }
  }

  /** Deleting freets (any kind of filter) keeps the remaining pairs in step. */
  lemma FilterKeepsMirrored(fs: seq<Freet>, us: seq<User>, p: Freet -> bool)
    requires Mirrored(fs, us)
    ensures Mirrored(Filter(fs, p), us)
  {
  }

  /** An edit leaves `usersLiked` alone, so the two sides stay in step. */
  lemma EditKeepsMirrored(fs: seq<Freet>, us: seq<User>, g: Freet)
    requires Mirrored(fs, us)
    requires forall f | f in fs && f.id == g.id :: f.usersLiked == g.usersLiked
    ensures Mirrored(SetById(fs, g), us)
  {
    var fs' := SetById(fs, g);
    forall f', u | f' in fs' && u in us
      ensures multiset(f'.usersLiked)[u.id] == multiset(u.allLikes)[f'.id]
    {
      var i :| 0 <= i < |fs'| && fs'[i] == f';
      assert fs[i] in fs;
    }
  }

  /** A new freet with no likers keeps the sides in step when no user already lists its id. */
  lemma AddKeepsMirrored(fs: seq<Freet>, us: seq<User>, g: Freet)
    requires Mirrored(fs, us) && g.usersLiked == []
    requires forall u | u in us :: g.id !in u.allLikes
    ensures Mirrored(fs + [g], us)
  {
  }

  /**
   * Liking and then unliking restores both arrays, provided the user had not
   * liked the freet before (otherwise the unlike also removes the earlier copies).
   */
  lemma LikeThenUnlikeRestores(fs: seq<Freet>, us: seq<User>, userId: UserId, freetId: FreetId)
    requires forall f | f in fs && f.id == freetId :: userId !in f.usersLiked
    requires forall u | u in us && u.id == userId :: freetId !in u.allLikes
    ensures PullLiker(PushLiker(fs, freetId, userId), freetId, userId) == fs
    ensures PullLike(PushLike(us, userId, freetId), userId, freetId) == us
  {
    var fs' := PullLiker(PushLiker(fs, freetId, userId), freetId, userId);
    forall i | 0 <= i < |fs| ensures fs'[i] == fs[i] {
      if fs[i].id == freetId {
        assert fs[i] in fs;
        PullAfterPush(fs[i].usersLiked, userId);
      }
    }
    var us' := PullLike(PushLike(us, userId, freetId), userId, freetId);
    forall j | 0 <= j < |us| ensures us'[j] == us[j] {
      if us[j].id == userId {
        assert us[j] in us;
        PullAfterPush(us[j].allLikes, freetId);
      }
    }
  }
}
