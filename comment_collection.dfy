/**
 * The comment store: the comment table with `CommentCollection`'s add,
 * filter-by-freet and delete operations. The current time is a parameter.
 */
module CommentStore {
  import opened Common
  import opened Seqs

  /** A stored comment by `commenterId` on freet `freetId`. */
  datatype Comment = Comment(
    id: CommentId,
    commenterId: UserId,
    freetId: FreetId,
    dateCreated: int,
    content: string)

  function CommentKey(c: Comment): CommentId { c.id }

  /** `_id` is the primary key of the comment table. */
  ghost predicate UniqueCommentIds(cs: seq<Comment>) { UniqueKeys(cs, CommentKey) }

  function OnFreet(freetId: FreetId): Comment -> bool { (c: Comment) => c.freetId == freetId }
  function CommentIdIsNot(id: CommentId): Comment -> bool { (c: Comment) => c.id != id }

  /** `find({freetId})`: the comments on that freet, in table order. */
  function OnFreetOnly(cs: seq<Comment>, freetId: FreetId): (r: seq<Comment>)
    ensures forall c :: c in r <==> c in cs && c.freetId == freetId
    ensures forall c :: multiset(r)[c] == if c.freetId == freetId then multiset(cs)[c] else 0
  {
    Filter(cs, OnFreet(freetId))
  }

  /** `deleteOne({_id: id})`: every comment but the one with that id. */
  function WithoutComment(cs: seq<Comment>, id: CommentId): (r: seq<Comment>)
    ensures forall c :: c in r <==> c in cs && c.id != id
    ensures forall c :: multiset(r)[c] == if c.id != id then multiset(cs)[c] else 0
  {
    Filter(cs, CommentIdIsNot(id))
  }

  /**
   * Adding a comment appends it to the comments of its own freet and leaves
   * the comments of every other freet as they were.
   */
  lemma {:induction false} AddThenFind(cs: seq<Comment>, c: Comment, freetId: FreetId)
    ensures OnFreetOnly(cs + [c], freetId) ==
      OnFreetOnly(cs, freetId) + (if c.freetId == freetId then [c] else [])
  {
    FilterAppend(cs, c, OnFreet(freetId));
  }

  class CommentCollection {
    /** The comment table, in insertion order. */
    var comments: seq<Comment>
    /** The id the next added comment receives; ids are never reused. */
    var nextId: CommentId

    ghost predicate Valid()
      reads this
    {
      UniqueCommentIds(comments) && forall c | c in comments :: c.id < nextId
    }

    constructor ()
      ensures Valid() && comments == [] && nextId == 0
    {
      comments, nextId := [], 0;
    }

    /** `addOne`: a new comment created at `now`, appended to the table. */
    method AddOne(commenterId: UserId, freetId: FreetId, content: string, now: int) returns (c: Comment)
      requires Valid()
      modifies this
      ensures Valid()
      ensures c == Comment(old(nextId), commenterId, freetId, now, content)
      ensures forall d | d in old(comments) :: d.id != c.id
      ensures comments == old(comments) + [c] && nextId == old(nextId) + 1
      ensures FindAll(freetId) == old(FindAll(freetId)) + [c]
    {
      c := Comment(nextId, commenterId, freetId, now, content);
      UniqueKeysAppend(comments, c, CommentKey);
      AddThenFind(comments, c, freetId);
      comments := comments + [c];
      nextId := nextId + 1;
    }

    /** `findAll(freetId)`: the comments on that freet. */
    function FindAll(freetId: FreetId): (r: seq<Comment>)
      reads this
      ensures forall c :: c in r <==> c in comments && c.freetId == freetId
      ensures forall c :: multiset(r)[c] == if c.freetId == freetId then multiset(comments)[c] else 0
    {
      OnFreetOnly(comments, freetId)
    }

    /** `deleteOne`: removes the comment with that id; always answers `true`. */
    method DeleteOne(commentId: CommentId) returns (ok: bool)
      requires Valid()
      modifies this
      ensures Valid()
      ensures ok
      ensures comments == WithoutComment(old(comments), commentId)
      ensures nextId == old(nextId)
    {
      FilterKeepsUniqueKeys(comments, CommentIdIsNot(commentId), CommentKey);
      comments := WithoutComment(comments, commentId);
      ok := true;
    }
  }
}
