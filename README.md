# Threaded comments: a Dafny model

This project models the server core of a threaded comment service, plus two small
display helpers of its web client.

The server keeps every comment in one process-wide array, in creation order, and hands
out sequential ids from a counter. It serves four requests:

- **create** validates the text, the author and the optional parent, then appends a record;
- **like** adds one to a comment's like counter;
- **list root comments** filters the root comments, sorts them newest first, cuts one page and
  attaches every reply beneath its parent, recursively, each list sorted newest first;
- **list replies** does the same for the direct replies of one comment, cut by `skip` and `limit`.

The client turns a timestamp into a relative age ("5m ago") and a user name into a
coloured avatar initial.

The model is organised as follows:

- `wrappers.dfy`: `Option`.
- `js_string.dfy`: the JavaScript string semantics the code depends on:
  - `trim` over the ECMAScript white-space set;
  - `length` in UTF-16 code units;
  - the decimal rendering of integers in template literals.
- `comments.dfy`: the `Comment` record, tree `Node`s and the `Response` outcome
  (`Ok`, `BadRequest` for a 400, `NotFound` for a 404). It also holds the lookup
  `FindIndex` and the filters `RepliesTo` and `Roots`. A `parentId` counts only when it is JavaScript-truthy, so both a
  missing one and `0` mean "root".
- `newest_first.dfy`: the comparator sort by descending timestamp.
  - `SortNewestFirst` specifies it as a stable insertion sort.
  - It is proved to be a permutation, ordered and stable.
  - It is proved to be the *only* stable newest-first order, so it stands for
    `Array.prototype.sort`, which is stable.
  - `SortInPlace` sorts an array in place against that function.
- `hierarchy.dfy`: `buildHierarchy`.
  - `Hierarchy` specifies the trees it returns.
  - `BuildHierarchy` is the imperative algorithm. It resets the `children` lists, indexes
    comments by id (`ResetLists`), appends each reply to its parent's list (`AttachReplies`),
    and sorts the lists recursively (`SortLevel` and `SortNode`).
    It is proved to return `Hierarchy`, whatever lists earlier calls left behind.
- `pagination.dfy`: the query arithmetic.
  - `parseInt(q) || default` is `QueryInt`.
  - `Array.prototype.slice` includes negative and out-of-range indices.
  - `Math.ceil(n / limit)` is `CeilDiv`.
  - The two `pagination` objects are `PageInfo` and `ReplyInfo`.
- `listing.dfy`: what the two query handlers answer. `RootListing` and `ReplyListing`
  are pure functions of the stored comments. `ListRoots` and `ListReplies` are the handler
  bodies, proved equal to them. Lemmas state what a listing holds.
- `comment_store.dfy`: the `Store` class, holding `comments` and `nextId`, with the four
  handlers as methods. `CreateComment` is split into `Validate` and `Append`. Lemmas about
  the rejection function and the store invariant state what the service promises.
- `helpers.dfy`: `formatTimestamp` and `generateAvatar`. The clock is the parameter `nowMs`;
  the locale date text is the parameter `localeDate`.

Where the code and its design description differ, the model follows the code:

- A `parentId` of `0` creates a root comment rather than failing with NotFound.
- The length limits measure the text before trimming.

A reply whose parent is missing from the tree's index is dropped silently, as both the
code and its design description say; `DanglingReplyDropped` states it.

## Model

| member | source | states |
|---|---|---|
| JsString.TrimSpec | server/controllers/commentController.js:80-86 | `trim` keeps a contiguous piece of its input, strips only white space at both ends, leaves a non-blank character at each end, and is empty exactly when the input is blank |
| JsString.TrimBlank | server/controllers/commentController.js:80-86 | `!s.trim()` holds exactly for blank strings |
| JsString.Trim | server/controllers/commentController.js:80-106 | `String.prototype.trim`: strip ECMAScript white space from the start, then from the end; `TrimSpec` states what it returns |
| JsString.TrimIgnoresTrailingSpace | server/controllers/commentController.js:105-106 | appending a space does not change what `trim` returns |
| JsString.Utf16Length | server/controllers/commentController.js:88-94 | `length` counts between one and two code units per character |
| JsString.Utf16LengthAppend | server/controllers/commentController.js:88-94 | `length` of a concatenation is the sum of the lengths |
| JsString.Utf16LengthTrim | server/controllers/commentController.js:105-106 | trimming never increases `length` |
| JsString.Utf16LengthBmp | server/controllers/commentController.js:88-94 | for text within the Basic Multilingual Plane, `length` is the number of characters |
| JsString.NatToDecimal | client/src/utils/helpers.js:7-16 | a count is rendered as a non-empty run of decimal digits without a leading zero, which reads back as the count |
| JsString.IntToDecimal | client/src/utils/helpers.js:7 | an integer is rendered as its decimal digits, with a leading minus sign when negative |
| Comments.RepliesTo | server/controllers/commentController.js:149-151 | the filter keeps exactly the stored comments whose truthy `parentId` equals the given id |
| Comments.RepliesToCounts | server/controllers/commentController.js:28-35 | every direct reply occurs in the filtered list exactly as often as in the store, and nothing else occurs |
| Comments.RootsCounts | server/controllers/commentController.js:53-54 | every root comment occurs in the filtered list exactly as often as in the store, and nothing else occurs, so `total` counts the stored roots |
| Comments.Roots | server/controllers/commentController.js:53 | the filter keeps exactly the stored comments whose `parentId` is falsy |
| NewestFirst.SortNewestFirst | server/controllers/commentController.js:36-37 | the sort returns a permutation of its input ordered by descending timestamp |
| NewestFirst.SortIsStable | server/controllers/commentController.js:37 | comments with equal timestamps keep their original relative order |
| NewestFirst.StableSortIsUnique | server/controllers/commentController.js:37 | any newest-first arrangement that keeps ties in input order equals `SortNewestFirst`, so the model agrees with every stable comparator sort |
| NewestFirst.InsertInPlace | server/controllers/commentController.js:37 | shifting one element into a sorted prefix of an array yields the prefix with that element inserted, and leaves the rest of the array alone |
| NewestFirst.OpenSlot | server/controllers/commentController.js:37 | shifting the elements after an insertion point one place right stops at the first element no newer than the new one, and every element it passes is strictly older |
| NewestFirst.SortInPlace | server/controllers/commentController.js:37 | the in-place array sort leaves the array equal to `SortNewestFirst` of its old contents |
| NewestFirst.SortedCopy | server/controllers/commentController.js:56-57 | sorting a fresh array copy of a sequence in place yields `SortNewestFirst` of that sequence |
| Hierarchy.ForestTops | server/controllers/commentController.js:36-45 | the top comments of a built level are that level sorted newest first |
| Hierarchy.Hierarchy | server/controllers/commentController.js:4-47 | the trees `buildHierarchy(all, subset)` returns: one per subset comment, newest first, each with its replies attached and sorted recursively; `HierarchyWellBuilt` states its meaning |
| Hierarchy.SubtreeChildrenOrdered | server/controllers/commentController.js:28-45 | the node built for a comment holds that comment, and its children are its direct replies, each as often as stored, newest first, ties in store order |
| Hierarchy.SubtreeWellBuilt | server/controllers/commentController.js:28-45 | in a comment's tree, every node's children are exactly its direct replies, each as often as it is stored, newest first, with ties in store order, all the way down |
| Hierarchy.HierarchyWellBuilt | server/controllers/commentController.js:4-47 | `buildHierarchy(all, subset)` returns the subset, as a permutation, newest first and stable, and every node in it is well built |
| Hierarchy.BelowHasStoredParent | server/controllers/commentController.js:28-35 | every comment in a tree is a stored reply whose parent is stored |
| Hierarchy.DanglingReplyDropped | server/controllers/commentController.js:30-33 | a reply whose parent id names no indexed comment appears in none of the returned trees |
| Hierarchy.SortLevel | server/controllers/commentController.js:36-45 | sorting a level and then, recursively, every non-empty children list yields exactly the specified forest for that level |
| Hierarchy.SortNode | server/controllers/commentController.js:38-42 | a comment whose children list is non-empty has that list sorted recursively, and the result is exactly its specified tree |
| Hierarchy.BuildHierarchy | server/controllers/commentController.js:4-15 | resetting, indexing, attaching replies (lines 28-35) and sorting (lines 36-46) yields `Hierarchy(all, subset)` whatever children lists earlier calls left, so building twice gives identical trees |
| Hierarchy.ResetLists | server/controllers/commentController.js:7-15 | after resetting, every indexed comment has an empty `children` list, whatever the lists held before, and every comment of the store and of the subset is indexed by its id |
| Hierarchy.AttachReplies | server/controllers/commentController.js:28-35 | attaching every truthy-parented comment to its indexed parent leaves each stored comment's list equal to its direct replies, in store order |
| Pagination.QueryInt | server/controllers/commentController.js:50-52 | `parseInt(q) or default` is never 0 while the default is not 0 |
| Pagination.ClampIndex | server/controllers/commentController.js:58 | a `slice` bound is clamped into `[0, length]` and unchanged when already inside |
| Pagination.Slice | server/controllers/commentController.js:56-58 | `Array.prototype.slice(start, end)` with both bounds clamped by `ClampIndex` and an empty result when they cross; `SliceWindow` states its meaning |
| Pagination.SliceWindow | server/controllers/commentController.js:154 | `slice(skip, skip + limit)` with non-negative `skip` and `limit` holds `min(limit, max(0, n - skip))` elements, those at positions `skip`, `skip + 1`, ... |
| Pagination.CeilDiv | server/controllers/commentController.js:55 | `Math.ceil(n / d)` is the least multiple count covering `n` for positive `d`, and the matching bound for negative `d` |
| Pagination.RootPageInfoMeaning | server/controllers/commentController.js:63-70 | with `limit >= 1`, `pages` is the least number of pages holding all roots, `hasNextPage` holds iff `page * limit < total`, `hasPrevPage` iff `page > 1`, and no roots means no pages |
| Pagination.RootPageInfo | server/controllers/commentController.js:63-70 | the `pagination` object of the root listing, with `pages` from `Math.ceil(total / limit)`; `RootPageInfoMeaning` states its meaning |
| Pagination.ReplyPageInfo | server/controllers/commentController.js:157-165 | the `pagination` object of a reply listing, echoing page, limit and skip, with `hasMore` exactly when `skip + limit < total` |
| Comments.FindIndex | server/controllers/commentController.js:124 | `find` by id returns the first comment with that id, and fails exactly when no comment has it |
| Comments.SameIdsSameIndex | server/controllers/commentController.js:124 | a lookup by id is unaffected by changes that keep every id in place |
| CommentController.WellFormedStoreFacts | server/controllers/commentController.js:95-112 | in a well-formed store ids are unique, every parent id is smaller than its child's id (no cycles), and a stored parent reference is never the falsy 0 |
| CommentController.AppendKeepsWellFormed | server/controllers/commentController.js:102-112 | appending a record with the next id and an existing or absent parent keeps the store well formed |
| CommentController.LikeKeepsWellFormed | server/controllers/commentController.js:129 | changing a like count keeps the store well formed |
| CommentController.Rejection | server/controllers/commentController.js:80-100 | a request is accepted exactly when text and author are non-blank, text has at most 1000 and author at most 50 code units, and a truthy parent id names a stored comment; a refusal is never `Ok`; the checks answer in the source's order: blank text gives 400 with the text-required message, then blank author the author-required message, then long text and long author their too-long messages; NotFound with the parent-not-found message is answered exactly when only the parent check fails |
| CommentController.AcceptedFieldsFit | server/controllers/commentController.js:80-94 | an accepted comment stores 1 to 1000 code units of trimmed text and 1 to 50 of trimmed author |
| CommentController.PaddedAuthorRefused | server/controllers/commentController.js:92-94 | a 50-unit author name with one trailing space is refused as too long, although its trimmed form fits |
| CommentController.AcceptedParentStored | server/controllers/commentController.js:95-100 | an accepted request with a truthy parent id names a comment that is stored |
| CommentController.StoredParent | server/controllers/commentController.js:107 | `parentId || null`: a truthy parent id is kept, and a missing one or 0 is stored as none |
| Listing.SortedForest | server/controllers/commentController.js:59 | the trees built for an already newest-first list of comments come in that same order, each well built |
| Listing.RootListing | server/controllers/commentController.js:48-71 | what `getComments` answers for parsed `page` and `limit`: the trees of the page's roots and the pagination of all roots; `RootListingMeaning` states its meaning |
| Listing.ReplyListing | server/controllers/commentController.js:138-166 | what `getReplies` answers: NotFound for an unknown id, else the trees of the window of direct replies and their pagination; `ReplyListingMeaning` states its meaning |
| Listing.RootWindowMeaning | server/controllers/commentController.js:52-58 | for `page >= 1` and `limit >= 1` over N roots, the page holds `min(limit, max(0, N - (page - 1) * limit))` roots, the newest-first roots from position `(page - 1) * limit` on |
| Listing.RootWindowMembers | server/controllers/commentController.js:53-58 | a root page holds only stored root comments, newest first |
| Listing.RootListingMeaning | server/controllers/commentController.js:48-71 | the root listing's trees have exactly the page's roots on top, in page order, each well built, and its pagination covers all N roots |
| Listing.ReplyWindowMeaning | server/controllers/commentController.js:149-154 | the reply window holds `min(limit, max(0, total - skip))` replies, the newest-first direct replies from position `skip` on |
| Listing.ReplyWindowMembers | server/controllers/commentController.js:149-154 | a reply window holds only stored direct replies of the comment, newest first |
| Listing.ReplyListingMeaning | server/controllers/commentController.js:138-166 | the reply listing is NotFound exactly when no comment has the id; otherwise its trees have the window's replies on top, each well built, `total` counts direct replies only, and `hasMore` holds iff `skip + limit < total` |
| Listing.ListRoots | server/controllers/commentController.js:52-70 | counting, sorting, slicing, building the trees and the pagination object yields the root listing |
| Listing.ListReplies | server/controllers/commentController.js:145-165 | an unknown id answers NotFound; otherwise filtering, sorting, slicing and building yields the reply listing |
| CommentController.Store.constructor | server/controllers/commentController.js:1-2 | the store starts empty, with next id 1, and well formed |
| CommentController.Store.CreateComment | server/controllers/commentController.js:77-112 | a rejected request answers its error and changes nothing; an accepted one appends exactly one record, with the old next id, trimmed text and author, the truthy parent or none, no likes and the given time, and bumps the next id; the store stays well formed |
| CommentController.Store.Validate | server/controllers/commentController.js:80-100 | the checks, run in the source's order, answer exactly the rejection `Rejection` specifies, or none |
| CommentController.Store.Append | server/controllers/commentController.js:104-112 | pushing a record with the next id and a stored or absent parent appends exactly that record, bumps the next id and keeps the store well formed |
| CommentController.Store.LikeComment | server/controllers/commentController.js:120-131 | the first comment with the id gains exactly one like and the new count is answered, nothing else changes; an unknown id answers NotFound and changes nothing |
| CommentController.Store.GetComments | server/controllers/commentController.js:48-71 | the handler answers the root listing for the parsed page (default 1) and limit (default 10) and does not change the store |
| CommentController.Store.GetReplies | server/controllers/commentController.js:138-166 | the handler answers the reply listing for the parsed page (default 1), limit (default 5) and skip (default 0) and does not change the store |
| Listing.SortedSlice | server/controllers/commentController.js:56-58 | sorting a copy in place and cutting a slice gives the slice of `SortNewestFirst` |
| CommentController.LikeTwice | server/controllers/commentController.js:124-131 | liking the same comment twice adds exactly two likes and changes nothing else |
| Helpers.ElapsedSeconds | client/src/utils/helpers.js:4 | the elapsed seconds are the millisecond difference divided by 1000, rounded down |
| Helpers.AgeOf | client/src/utils/helpers.js:6-19 | the bucket is seconds below 60 (negative ages included), minutes below 3600, hours below 86400, days below 2592000, else the date; minutes lie in 1..59, hours in 1..23, days in 1..29, each rounded down |
| Helpers.FormatTimestamp | client/src/utils/helpers.js:1-20 | `formatTimestamp(now, then)`: the count and unit letter of the age bucket followed by " ago", or the locale date for ages of thirty days or more; `FormatTimestampReadsBack` states its meaning |
| Helpers.AgeIsMonotone | client/src/utils/helpers.js:6-16 | an older comment never lands in a finer bucket, and within a bucket its count is never smaller |
| Helpers.FormatTimestampReadsBack | client/src/utils/helpers.js:6-19 | for ages from 0 up to thirty days the text is decimal digits, a unit letter and " ago", and the digits read back as the age in that unit; beyond that the text is the locale date |
| Helpers.UpperCase | client/src/utils/helpers.js:28 | `toUpperCase` maps a lower-case ASCII letter to its capital and leaves a capital alone; every character gives one character except sharp s, which gives "SS" |
| Helpers.GenerateAvatar | client/src/utils/helpers.js:22-31 | the colour is the listed one at index `length % 8`, so always one of the eight; the initial is the upper-cased first character, and empty exactly for an empty name |
| Helpers.AvatarColorByLength | client/src/utils/helpers.js:23-27 | two names get the same colour exactly when their lengths agree modulo 8 |
| Helpers.AvatarColorsDistinct | client/src/utils/helpers.js:23-26 | the eight colour classes are pairwise different |
| Helpers.AvatarInitialOfAsciiName | client/src/utils/helpers.js:28 | a name starting with a lower-case ASCII letter gets that letter's capital as its initial |

## Left out

- Express plumbing is not modelled: the request and response objects, the JSON bodies, HTTP status codes and `async`. Each handler is a method returning a `Response` value.
- The `try`/`catch` paths that answer 500 are not modelled. Nothing in the modelled code throws on well-typed input.
- `text` and `author` are strings in the model. A missing or other falsy value (`null`, `0`, `false`) fails the `!text` or `!author` test before `.trim()` is reached and gets the same 400 as the empty string, which stands for it. A truthy non-string has no `trim`, so the call throws a `TypeError` that the catch at lines 115-117 answers with a 500; that path is not modelled.
- The null-subset path of `buildHierarchy` (lines 17-26) is not modelled. Both callers pass a subset. On that path every reply would be attached twice, once there and once at lines 28-35. `BuildHierarchy` always takes a subset; an empty subset is still truthy in JavaScript and takes line 11.
- The `_id` display string (line 103) is not modelled; nothing in the core reads it.
- Timestamps are milliseconds since the epoch, not ISO-8601 text. `toISOString` and `new Date(...)` round-trip at millisecond precision, so the order and the differences are the same.
- The creation time and `now` are parameters, because they come from the clock.
- The text of `toLocaleDateString()` is the parameter `localeDate`, because it depends on the browser's locale.
- `parseInt` of query text is not modelled. `QueryInt` takes its result, with `None` for `NaN`. The `|| default` fallback, negative values and `slice`'s clamping are modelled for every integer.
- Loose and strict id equality is not modelled. Ids and parent ids are integers, so a string `parentId` in a body, which would fail `===` and answer NotFound, is not represented. A non-numeric route id matches nothing; the model represents that as an integer no comment has.
- `Math.ceil` works on floating-point numbers. `CeilDiv` is exact, which agrees with it for counts and limits below 2^53.
- Likes, ids and counts are unbounded integers. JavaScript numbers stay exact below 2^53.
- `buildHierarchy` leaves the computed `children` lists on the stored objects, and the returned trees alias the stored records. The model keeps trees as separate values. `BuildHierarchy`'s `stale` parameter stands for the lists left by earlier calls, and its contract shows the result does not depend on them.
- Sorting the filtered arrays in place does not change the store's own order. The model sorts a copy for that reason.
- Helpers.UpperCase: maps only the Basic Latin and Latin-1 Supplement blocks. Other characters are left unchanged, whereas JavaScript also upper-cases letters of other scripts.
- Helpers.GenerateAvatar: a first character outside the Basic Multilingual Plane is upper-cased as a whole character. JavaScript's `charAt(0)` would return its lone high surrogate, which a Dafny `char` cannot hold.
- Helpers.FormatTimestampReadsBack: stated for ages of 0 seconds or more. For a comment stamped in the future, `AgeOf` still gives the seconds bucket and the text is a negative count such as "-3s ago".
- Concurrency is not modelled. Node runs each handler to completion on one thread, and none of them awaits, so each is atomic.
- Not modelled because they are outside the core:
  - the route table `server/routes/comments.js`;
  - the unused mongoose schema `server/models/Comment.js`;
  - the client's network and storage wrappers (`api.js`, `AuthContext.jsx`);
  - the React components, with their presentation arithmetic.
