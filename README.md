# Fritter freet and comment stores, modelled in Dafny

This project models the two storage classes of the Fritter backend:

- `FreetCollection` (server/freet/collection.ts). It creates freets (short
  posts), looks them up, lists them sorted by modification date or filtered
  by author username, and edits them under the 30-minute rule. Verified users
  may edit at any time. It deletes freets by id, by author and by expiry
  sweep, and keeps the like arrays on freets (`usersLiked`) and on users
  (`allLikes`) in step.
- `CommentCollection` (server/comment/collection.ts). It adds comments, lists
  the comments of one freet and deletes a comment by id.

Each MongoDB collection is a `seq` of records held in a field of a class,
in natural (insertion) order. Ids are natural numbers. A counter `nextId`
stands for ObjectId allocation: ids are fresh and never reused. The class
invariant `Valid()` says that ids are unique and below `nextId`. Every
operation that reads the clock takes the current time as a parameter `now`,
in milliseconds.

Files:

- `common.dfy` (module `Common`): id types, `Option`, `Result` and the two
  failures of the freet store (`MissingFreet`, `MissingUser`).
- `seqs.dfy` (module `Seqs`): a generic filter with an exact multiset
  contract, first-match search, key uniqueness, and `RemoveAll` (MongoDB's
  `$pull`).
- `user.dfy` (module `UserModel`): the user record the freet store reads and
  writes, the lookups by id and by username, and the push/pull on `allLikes`.
- `freet.dfy` (module `FreetModel`): the freet record and the pure functions
  that specify the store: the edit rule, the sort of `findAll`, the filters,
  the sweep, the like arrays, and the invariant `Mirrored`. `Mirrored` says
  that, for each stored freet and stored user, the user's id occurs in the
  freet's `usersLiked` exactly as often as the freet's id occurs in the
  user's `allLikes`.
- `freet_collection.dfy` (module `FreetStore`): class `FreetCollection`.
- `comment_collection.dfy` (module `CommentStore`): the comment record and
  class `CommentCollection`.

The model follows the code as written:

- a rejected edit is a silent no-op that returns the stored freet;
- `updateOne` does not check that the editing user is the freet's author;
- likes are array push and pull, so liking twice stores a duplicate, and one
  unlike removes every copy;
- `deleteOne` answers `true` whether or not a freet was removed;
- deleting a freet leaves its id in users' `allLikes`.

The query functions return the stored records. `populate('authorId')` only
expands the author reference for display.

## Model

| member | source | states |
|---|---|---|
| `FreetModel.StoredEndTime` | server/freet/collection.ts:26-28 | an `endTime` given as the empty string, or left out, is stored as `null`; any instant is stored as given |
| `FreetStore.FreetCollection.AddOne` | server/freet/collection.ts:24-38 | appends exactly one freet with a fresh id, the given author and content, `dateCreated == dateModified == now`, the normalised end time and no likers; everything else is unchanged; the like arrays stay mirrored when no user already lists the new id |
| `FreetModel.AddKeepsMirrored` | server/freet/model.ts:66-71 | a new freet with an empty `usersLiked` keeps the two like sides mirrored provided no user's `allLikes` already holds its id |
| `FreetModel.FindFreet` | server/freet/collection.ts:47-49 | the lookup by `_id` returns a stored freet with that id, and returns nothing exactly when no freet has it |
| `FreetStore.FreetCollection.FindOne` | server/freet/collection.ts:47-49 | `findOne` returns a stored freet with the requested id, or nothing exactly when none has it |
| `FreetModel.InsertByModified` | server/freet/collection.ts:58 | inserting into a table sorted by descending `dateModified` gives a sorted table with exactly one more copy of the new freet |
| `FreetModel.SortByModified` | server/freet/collection.ts:58 | the result is a permutation (same multiset) of the table and `dateModified` never increases along it |
| `FreetStore.FreetCollection.FindAll` | server/freet/collection.ts:56-59 | `findAll` returns a permutation of all stored freets, most recently modified first |
| `UserModel.FindByUsername` | server/freet/collection.ts:68 | returns the first user in table order with exactly that username, or nothing exactly when no user has it |
| `FreetModel.ByAuthor` | server/freet/collection.ts:69 | keeps exactly the freets whose `authorId` is the given id, with their multiplicities |
| `FreetStore.FreetCollection.FindAllByUsername` | server/freet/collection.ts:67-70 | fails with `MissingUser` exactly when no user has the username; otherwise returns exactly the stored freets whose `authorId` is that user's `_id` |
| `UserModel.FindUser` | server/freet/collection.ts:83 | the user lookup by `_id` returns a stored user with that id, or nothing exactly when none has it |
| `FreetModel.MinutesTest` | server/freet/collection.ts:87-90 | the source's test on elapsed minutes, milliseconds divided by 60000 and compared with 30, equals `elapsed <= 1800000` |
| `FreetModel.EditAllowed` | server/freet/collection.ts:90 | the edit rule: the user is verified or at most 1800000 ms have passed since `dateCreated`; `MinutesTest` ties the bound to the source's minute test, and `UpdateOne` edits exactly when it holds |
| `FreetModel.Edited` | server/freet/collection.ts:91-92 | an accepted edit replaces `content` and sets `dateModified` to `now`, keeping every other field; characterised by `EditChangesOnlyContent` |
| `FreetModel.SetById` | server/freet/collection.ts:93 | the save of the edited freet replaces the entry with its id; `EditChangesOnlyContent` shows that the lookup then sees the edited freet and that every other freet is unchanged |
| `FreetStore.FreetCollection.UpdateOne` | server/freet/collection.ts:81-100 | a missing freet fails with `MissingFreet` and then a missing user with `MissingUser`, changing nothing; if the user is verified or `now - dateCreated <= 30 min`, only that freet's content and `dateModified` change and the edited freet is returned; otherwise nothing changes and the stored freet is returned; the author is not compared |
| `FreetModel.EditChangesOnlyContent` | server/freet/collection.ts:90-94 | an accepted edit keeps the table length; the lookup by id then sees the edited freet; every freet with another id is unchanged |
| `FreetModel.EditKeepsMirrored` | server/freet/collection.ts:91-93 | an edit that leaves `usersLiked` alone keeps the like sides mirrored |
| `FreetModel.WithoutId` | server/freet/collection.ts:109 | deleting by id keeps exactly the freets with another id, with their multiplicities |
| `FreetStore.FreetCollection.DeleteOne` | server/freet/collection.ts:108-111 | removes only the freet with that id, always returns `true`, and keeps the like sides mirrored |
| `FreetModel.Unexpired` | server/freet/collection.ts:120-124 | a freet survives the sweep exactly when its `endTime` is null or `endTime >= now`; surviving freets are unchanged |
| `FreetModel.Expired` | server/freet/collection.ts:122 | a freet has expired when its `endTime` is not null and strictly before `now`; `Unexpired` keeps a freet exactly when this is false |
| `FreetModel.UnexpiredIdempotent` | server/freet/collection.ts:116-126 | sweeping twice with the same `now` leaves the same table as sweeping once |
| `FreetModel.SweepVisitExpired` | server/freet/collection.ts:122-124 | during the sweep, visiting an expired freet of the original table and deleting it by id is the same as marking its id visited |
| `FreetModel.SweepVisitKept` | server/freet/collection.ts:122 | visiting an unexpired freet deletes nothing |
| `FreetModel.SweepFinish` | server/freet/collection.ts:117-125 | once every freet of the sorted snapshot has been visited, the table is exactly the unexpired part of the original table |
| `FreetStore.FreetCollection.DeleteExpires` | server/freet/collection.ts:116-126 | the loop over the `findAll` snapshot leaves exactly the freets whose `endTime` is null or not before `now`, in their original order, and touches nothing else |
| `FreetModel.FilterKeepsMirrored` | server/freet/collection.ts:133-135 | deleting any set of freets leaves the remaining pairs mirrored; dangling ids left in `allLikes` do not matter to it |
| `FreetModel.WithoutAuthor` | server/freet/collection.ts:134 | keeps exactly the freets whose `authorId` differs from the given one |
| `FreetStore.FreetCollection.DeleteMany` | server/freet/collection.ts:133-135 | removes exactly the freets by that author and leaves all others |
| `Seqs.RemoveAll` | server/freet/collection.ts:164 | `$pull` removes every occurrence of the value and keeps the count of every other value |
| `FreetModel.PushLiker` | server/freet/collection.ts:145-148 | the `$push` onto `usersLiked` of the freet with that id; `LikeGrowsByOne` shows the list grows by exactly that id at its end, `LikerAbsent` that a missing freet leaves the table unchanged |
| `FreetModel.PullLiker` | server/freet/collection.ts:162-165 | the `$pull` from `usersLiked` of the freet with that id; `LikeTwiceUnlikeOnce` and `LikeThenUnlikeRestores` characterise it, `LikerAbsent` covers a missing freet |
| `UserModel.PushLike` | server/freet/collection.ts:149-152 | the `$push` onto `allLikes` of the user with that id; `LikeGrowsByOne` shows the list grows by exactly that id at its end, `LikeAbsent` that a missing user leaves the table unchanged |
| `UserModel.PullLike` | server/freet/collection.ts:166-169 | the `$pull` from `allLikes` of the user with that id; `LikeThenUnlikeRestores` shows it undoes a new like, `LikeAbsent` covers a missing user |
| `FreetModel.LikeGrowsByOne` | server/freet/collection.ts:144-153 | a like appends the user id to the freet's `usersLiked` and the freet id to the user's `allLikes`; each list grows by exactly one, duplicates included |
| `FreetModel.LikeTwiceUnlikeOnce` | server/freet/collection.ts:144-170 | liking twice stores the user id twice; one unlike then removes all of them |
| `FreetStore.FreetCollection.AddLikedBy` | server/freet/collection.ts:144-153 | pushes onto the freet's `usersLiked` and the user's `allLikes` (each side only if that record exists); nothing else changes; the like sides stay mirrored |
| `FreetStore.FreetCollection.DeleteLikedBy` | server/freet/collection.ts:161-170 | pulls every copy from both arrays; nothing else changes; the like sides stay mirrored |
| `FreetModel.LikeKeepsMirrored` | server/freet/collection.ts:144-153 | pushing on both sides keeps every freet/user pair's two counts equal, even when one of the two records is missing |
| `FreetModel.UnlikeKeepsMirrored` | server/freet/collection.ts:161-170 | pulling from both sides keeps every freet/user pair's two counts equal |
| `FreetModel.LikeThenUnlikeRestores` | server/freet/collection.ts:144-170 | if the user had not liked the freet before, like followed by unlike restores both tables exactly |
| `Seqs.PullAfterPush` | server/freet/collection.ts:147 | `$pull` of a value that was absent before a `$push` restores the array |
| `CommentStore.CommentCollection.AddOne` | server/comment/collection.ts:17-27 | appends exactly one comment with a fresh id, the given commenter, freet and content, and `dateCreated == now`; existing comments are unchanged; `findAll` of its freet then ends with the new comment |
| `CommentStore.AddThenFind` | server/comment/collection.ts:17-36 | after an add, the comments of the new comment's freet are the old ones followed by the new comment; those of other freets are unchanged |
| `CommentStore.OnFreetOnly` | server/comment/collection.ts:35 | keeps exactly the comments whose `freetId` is the argument, with their multiplicities |
| `CommentStore.CommentCollection.FindAll` | server/comment/collection.ts:34-36 | returns exactly the stored comments whose `freetId` equals the argument |
| `CommentStore.WithoutComment` | server/comment/collection.ts:46 | keeps exactly the comments with another id |
| `CommentStore.CommentCollection.DeleteOne` | server/comment/collection.ts:45-48 | removes only the comment with that id, leaves the others, and always returns `true` |

## Left out

- Mongoose and MongoDB mechanics are not modelled: `save`, query builders, schema validation and
  storage failures. `populate('authorId')` is modelled as returning the stored record.
- The async/await structure is not modelled. Each operation is one sequential, atomic step. So the two
  separate writes of `addLikedBy`/`deleteLikedBy` cannot interleave with other requests or be cut
  short by a crash.
- The clock (`new Date()`) becomes the parameter `now`. The floating-point minute computation becomes
  an exact integer comparison (`FreetModel.MinutesTest` states the equivalence).
- ObjectId generation becomes the counter `nextId`. Creating, changing or deleting users is not part
  of the store and is not modelled: the user table is given to the constructor.
- server/user/collection.ts is not part of this model. `findOneByUsername` is modelled as an exact
  username match that returns the first user in table order. Any case folding or trimming done
  there is not captured.
- `addOne` with a non-empty date string: the model takes the instant the string denotes (`At`).
  Parsing, and the failure of a string that is not a date, are not modelled.
- `deleteOne` is modelled as removing every entry with that id. Under the unique-id invariant this is
  the same as MongoDB removing the first match.
- The routing and session layers (server/comment/router.ts, server/comment/middleware.ts) are not
  modelled. The middleware calls a `CommentCollection.findOne` that does not exist.
- The module-level `verifiedList` and the schema setter `verify` (server/user/model.ts) are left out.
  `isVerified` is a plain stored boolean.
- No set semantics, no error on a rejected edit, no author check and no cleanup of dangling
  `allLikes` entries: the code has none of these.
- `dateModified >= dateCreated` is not stated. `now` is a free parameter, and nothing orders
  successive calls in time.
- FreetStore.FreetCollection.AddOne: mirroring of the like arrays is promised only if no user already
  lists the new id. `addLikedBy` will push any freet id onto a user, even that of a freet that does not
  exist yet.
