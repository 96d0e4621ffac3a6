# hackatweet-backend tweets router, modelled in Dafny

This project models the logic of the tweets router of the hackatweet back end
(`routes/tweets.js`). It covers four pieces:

- **Like toggle** (`POST /tweets/like`). The tweet is looked up by id. A user who has not liked it is appended to its
  `likers`. A user who has liked it is filtered out, every occurrence at once. The new list is answered, or
  "Tweet not found" when the id does not resolve.
- **Hashtag extraction** (`content.match(/#\w+/g)`). A token is `#` followed by the longest run of ASCII word characters.
  The search is left to right and resumes after each match. When nothing matches, `match` answers `null`.
- **Hashtag index** (`GET /tweets/hashtags`). The router fetches the tweets whose content contains `#` and concatenates
  their match results. `concat(null)` appends the `null` itself. It counts every element in a plain object, where
  `null` becomes the property name "null". It lists the object's entries in insertion order and sorts them by
  decreasing count.
- **Feed and scoped query** (`GET /tweets`, `GET /tweets/hashtags/:tag`). The router fetches every tweet, or the
  tweets whose content contains `#` followed by the tag. It sorts them by decreasing date.

The modules follow that structure:

| file | module | contents |
|---|---|---|
| `wrappers.dfy` | `Wrappers` | `Option`, `Result` |
| `seqs.dfy` | `Seqs` | occurrences, duplicate-freedom, subsequences, first occurrences, `Distinct` |
| `stable_sort.dfy` | `StableSort` | `Array.prototype.sort` with a `key(b) - key(a)` comparator: a stable descending insertion sort, as a function and as an in-place array method |
| `tweets.dfy` | `Tweets` | the `Tweet` class, the toggle, the `/like` handler |
| `extraction.dfy` | `Extraction` | the `/#\w+/g` scanner |
| `aggregation.dfy` | `Aggregation` | the concatenation loop, the counting loop, `Object.entries` |
| `routes.dfy` | `Routes` | the three read handlers composed from the above |
| `examples.dfy` | `Examples` | worked instances on concrete inputs |

Modelling choices:

- **The store** is a `seq<Tweet>`, in the order in which the database returns documents. A `Tweet` is a class. Its
  `likers` field is the only one a handler updates, so it is the only `var`. `Tweet.findById` is modelled as the first
  stored tweet with that id (`Tweets.FindById`). The model does not assume ids are unique; with MongoDB's unique `_id`
  the first such tweet is the only one.
- **Sorting.** `Array.prototype.sort` is stable, so the order of ties is fixed by the input order. The model sorts by
  insertion (`SortDesc`). `StableSortIsUnique` proves that any stable sort by the same key gives the same sequence.
  The in-place methods `InsertInPlace` and `SortInPlace` work on an `array` and are proved equal to `SortDesc`.
- **Dates** are integers: the milliseconds that `b.date - a.date` subtracts.
- **Object.entries order.** The object's property names are kept in insertion order. This is the order
  `Object.entries` uses, because no name can be an array index: each one starts with `#` or is "null". No name is an
  inherited property of `Object.prototype` either, so `counts[tag] || 0` reads 0 for a new tag.
- **`$regex`.** A MongoDB `$regex` whose pattern has no regular-expression metacharacter matches exactly the strings
  that contain the pattern literally. That covers the pattern `"#"` of `GET /hashtags` and `#` + tag for such a tag.
  It is modelled as `ContainsText`.

Three behaviours of the code are easy to overlook:

- `match` answers `null`, not an empty array, for a post without a token, and `concat` turns that `null` into a
  counted "null" entry. A tweet such as `"a # b"` passes the `#` filter and yields exactly that
  (`Examples.NullCountedForLoneHash`).
- The sort is stable, so ties have a fixed order:
  - tied counts keep first-appearance order (`Routes.RankTiesInFirstAppearanceOrder`);
  - tied dates keep store order (`Routes.FeedOrder`).
- The toggle's "remove" drops every occurrence of the user, not one.

## Model

| member | source | states |
|---|---|---|
| Tweets.Tweet.constructor | models/tweets.js:5-14 | a new tweet has the given fields and an empty `likers` list |
| Tweets.Tweet.ToggleLike | routes/tweets.js:66-70 | the new `likers` is the toggle of the old one (append if absent, filter out if present); the answer is the new list |
| Tweets.Without | routes/tweets.js:69 | the filtered list holds exactly the entries other than `userId`; its length drops by the number of occurrences of `userId` |
| Tweets.FindById | routes/tweets.js:60 | a found tweet is in the store, has the id and comes before every other stored tweet with that id; nothing is found exactly when no stored tweet has the id |
| Tweets.Like | routes/tweets.js:59-73 | an unknown id answers "Tweet not found" and changes nothing; otherwise only the found tweet's `likers` is toggled and the new list is answered |
| Tweets.WithoutAbsent | routes/tweets.js:69 | filtering out a user who is not in the list leaves the list unchanged |
| Tweets.WithoutIsSubsequence | routes/tweets.js:69 | the filter keeps the remaining entries in their original order |
| Tweets.WithoutMultiset | routes/tweets.js:69 | the filter removes every occurrence of `userId` and nothing else |
| Tweets.ToggleFlipsMembership | routes/tweets.js:66-70 | after a toggle the user likes the tweet exactly when they did not before; no other user's membership changes |
| Tweets.ToggleContents | routes/tweets.js:66-70 | a like appends the user at the end; an unlike removes every occurrence and keeps the others in order |
| Tweets.ToggleTwiceRestores | routes/tweets.js:66-70 | from a state where the user is absent two toggles restore the list exactly; any two toggles restore membership |
| Tweets.ToggleKeepsNoDuplicates | routes/tweets.js:66-70 | a duplicate-free list stays duplicate-free, and its length changes by exactly one |
| Extraction.WordRunEnd | routes/tweets.js:89 | `\w+` stops at the first non-word character: everything before consists of word characters |
| Extraction.WordRunEndIs | routes/tweets.js:89 | the run ends at the first non-word position, whichever way that position is found |
| Extraction.Scan | routes/tweets.js:89-92 | every match lies inside the string, after the search position, and starts where the pattern matches: `#` followed by a word character |
| Extraction.ScanSkips | routes/tweets.js:89-92 | the search passes over positions where the pattern does not match |
| Extraction.ScanMaximal | routes/tweets.js:89-92 | every match is `#` followed by a run of word characters that the next character cannot extend |
| Extraction.ScanOrdered | routes/tweets.js:89-92 | matches come left to right and do not overlap |
| Extraction.ScanComplete | routes/tweets.js:89-92 | a match starts at a position exactly when the pattern matches there |
| Extraction.MatchNoneIff | routes/tweets.js:92 | `match` answers `null` exactly when the pattern matches nowhere |
| Extraction.MatchTokens | routes/tweets.js:92 | a successful match is nonempty, and each token is `#` with one or more word characters |
| Aggregation.CollectHashtags | routes/tweets.js:88-94 | the loop builds the concatenation of all posts' match results |
| Aggregation.ConcatenatedAppend | routes/tweets.js:91-94 | the array for two groups of posts is the array for the first followed by that for the second |
| Aggregation.ConcatenatedWellFormed | routes/tweets.js:91-94 | when every match holds tokens, every element of the array is a token or `null` |
| Aggregation.HashtagsWellFormed | routes/tweets.js:89-94 | every element of the aggregated array is a well-formed token or the `null` of an unmatched post |
| Aggregation.ConcatenatedNull | routes/tweets.js:93 | the array contains `null` exactly when some match result is `null` |
| Aggregation.MatchesNone | routes/tweets.js:92 | a post's match result is `null` exactly when the post has no hashtag token |
| Aggregation.NullMarksPostWithoutMatch | routes/tweets.js:91-94 | the array contains `null` exactly when some post has no hashtag token |
| Aggregation.KeyInjective | routes/tweets.js:98 | among tokens and `null`, two elements get the same property name exactly when they are equal |
| Aggregation.TableOf | routes/tweets.js:96-99 | the table's names are duplicate-free and are exactly its keys |
| Aggregation.TalliedStep | routes/tweets.js:98 | one `counts[tag] = (counts[tag] \|\| 0) + 1` keeps every count equal to its number of occurrences so far |
| Aggregation.CountHashtags | routes/tweets.js:96-99 | the counting loop builds the table of distinct names, in first-insertion order, with their occurrence counts |
| Aggregation.TableOfCharacterized | routes/tweets.js:96-99 | a table with the distinct names and per-name occurrence counts is the counting loop's table |
| Aggregation.TallyOnePerTag | routes/tweets.js:96-104 | one entry per distinct element: no name twice, and exactly the names that occur |
| Aggregation.TallyCounts | routes/tweets.js:96-104 | each count equals its name's number of occurrences and is at least one |
| Aggregation.TallyFirstAppearance | routes/tweets.js:96-104 | entries come in the order in which their names first occur |
| Aggregation.TallySum | routes/tweets.js:96-104 | the counts add up to the length of the aggregated array |
| StableSort.SortDescPermutes | routes/tweets.js:106 | sorting rearranges: same multiset, same length |
| StableSort.SortDescSorted | routes/tweets.js:106 | the sorted sequence has non-increasing keys |
| StableSort.SortDescStable | routes/tweets.js:106 | the elements of each key keep their input order |
| StableSort.SortDescKeepsTies | routes/tweets.js:106 | two sorted elements with equal keys occur in that order in the input |
| StableSort.StableSortIsUnique | routes/tweets.js:106 | any sorted rearrangement that keeps the order of equal keys is `SortDesc` |
| StableSort.InsertInPlace | routes/tweets.js:106 | one insertion step: `a[..i+1]` becomes `Insert` of the old `a[i]` into the old `a[..i]`, and the rest of the array is unchanged |
| StableSort.SortInPlace | routes/tweets.js:106 | sorting the array in place leaves `SortDesc` of its old contents |
| StableSort.SortedCopy | routes/tweets.js:12 | the array's sorted contents are `SortDesc` of the input |
| Routes.FindContainingFilters | routes/tweets.js:118-121 | the query answers exactly the stored tweets whose content contains the pattern |
| Routes.FindContainingAppend | routes/tweets.js:118-121 | the query keeps store order |
| Routes.Feed | routes/tweets.js:9-14 | the feed is the stored tweets sorted by decreasing date |
| Routes.FeedOrder | routes/tweets.js:12 | the feed is a rearrangement of the store, latest first, and tied dates keep store order |
| Routes.TweetsWithTag | routes/tweets.js:117-126 | the answer is the tweets containing `#` + tag, sorted by decreasing date |
| Routes.TaggedContents | routes/tweets.js:118-124 | the answer rearranges the query's tweets, holds exactly the stored tweets containing `#` + tag, and is latest first |
| Routes.TaggedIncludesLongerTags | routes/tweets.js:118-121 | a tweet with a token that merely starts with `#` + tag is answered too |
| Routes.HashtagIndex | routes/tweets.js:83-106 | the answer is the sorted entries of the counts of the aggregated array |
| Routes.FilterKeepsTaggedTweets | routes/tweets.js:83-85 | the `#` filter drops no tweet that has a hashtag token |
| Routes.SortSum | routes/tweets.js:106 | sorting keeps the sum of the counts |
| Routes.RankMembers | routes/tweets.js:101-106 | the ranking holds exactly the entries of `Object.entries`, as many of them |
| Routes.RankOncePerTag | routes/tweets.js:96-106 | the ranking lists no tag twice |
| Routes.RankCounts | routes/tweets.js:96-106 | the ranking lists exactly the names that occur, each with its occurrence count of at least one |
| Routes.RankSortedSum | routes/tweets.js:96-106 | counts are non-increasing, and they add up to the length of the aggregated array |
| Routes.RankStable | routes/tweets.js:101-106 | the entries of each count are those of `Object.entries`, in that order |
| Routes.RankTiesInFirstAppearanceOrder | routes/tweets.js:96-106 | of two entries with equal counts, the one whose tag occurs first in the aggregated array comes first |
| Examples.ExtractTwoTags | routes/tweets.js:89-92 | "hello #World and #world2" matches "#World" and "#world2" |
| Examples.NoTagsHere | routes/tweets.js:92 | "no tags here" matches nothing, so `match` answers `null` |
| Examples.LoneHashNoMatch | routes/tweets.js:92 | "a # b" matches nothing |
| Examples.NullCountedForLoneHash | routes/tweets.js:83-106 | a lone tweet "a # b" yields the ranking `[{ hashtag: "null", count: 1 }]` |
| Examples.SampleRanking | routes/tweets.js:87-106 | posts "#c", "#a #b", "#b" rank "#b" (2), then "#c" and "#a" (1 each) in first-appearance order |
| Examples.RepeatedTagRanking | routes/tweets.js:87-106 | posts "#a #a", "#b", "#a" rank "#a" (3), then "#b" (1) |
| Examples.FeedSample | routes/tweets.js:12 | dates 1, 3, 1 sort to the second tweet, then the first and third in store order |
| Examples.FeedLatestFirst | routes/tweets.js:12 | dates 1, 2, 3 sort to the third, second, first tweet |
| Examples.TagIsMatchedAsPrefix | routes/tweets.js:117-124 | the tag "cat" finds "I love #category" and not "#dog" |
| Examples.ToggleSamples | routes/tweets.js:66-70 | a new like is appended; an unlike removes every occurrence |
| Examples.ToggleU1Twice | routes/tweets.js:66-70 | toggling "u1" on an empty list gives ["u1"], and toggling again gives [] |

## Left out

- Input validation with `checkBody` (routes/tweets.js:22, 54): modules/checkBody.js is not part of this model. `Like` takes both ids as given.
- Like: does not model a failing `tweet.save()` and its "Internal server error" answer (routes/tweets.js:71-77), because persistence failure belongs to the database.
- Like: does not model a `tweetId` that is not a well-formed ObjectId, which makes `findById` throw and also yields "Internal server error", because that cast belongs to the database library.
- The lost-update race between concurrent toggles (routes/tweets.js:60-71): the model is one sequential toggle.
- `POST /add` and `DELETE /delete/:tweetId` (routes/tweets.js:21-50): pass-through create and delete with no logic of their own.
- `Date()` and the schema's conversion to a date (routes/tweets.js:28, models/tweets.js:11): dates are integers here, and an invalid date, whose difference is NaN, is not modelled.
- Express routing, `res.json`, `console.log` and `console.error`, and the catch blocks that answer nothing (routes/tweets.js:15-17, 32-34, 47-49): I/O.
- "Internal server error" answers of the read handlers (routes/tweets.js:109-112, 127-130): database failures are not modelled.
- TweetsWithTag: requires a tag without regular-expression metacharacters, because for other tags MongoDB reads `#` + tag as a regular expression, whose semantics this model does not capture.
- Strings are sequences of `char`, with no UTF-16 surrogate pairs. `\w` is ASCII-only, as in a JavaScript regular expression without the `u` flag.
- Schema bootstrap and model-registry manipulation (models/tweets.js:3, 16-18), models/users.js and app.js: no logic.
