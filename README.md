# Word frequency and view-model state of the user-data service

This project models the client-side core of a small single-page application.
The app lists users, shows one user's posts and comments, and breaks the
comments down by word frequency. It has two parts.

- **The word-frequency aggregator** (`UserDataService.wordFrequency`). Each
  comment body is split on the single space character, and every piece counts
  as a token, empty pieces included. Tokens that are equal once lower-cased are
  tallied together under their first-seen spelling. The tally is sorted with the
  descending comparator `compareValue` on `count` and cut to its first ten
  entries. The aggregator also reports the total number of tokens and the count
  of the first entry.
- **The view-model record** the service holds and republishes. It covers the
  initial state, the name filter applied to the fetched user list, the updates
  for a new search term and for a selected user, and the state snapshot.

Modules, one per source component:

- `Compare` (`src/app/utils/compare.ts`): `CompareValue`, generic over a key
  function `T -> int` that stands for `a[key]`, and its sign laws. Also the
  lemma that a list ordered pair by neighbouring pair is non-increasing in the key.
- `Text`: the three JavaScript string operations the service uses, all written
  out. `Lower` models `toLowerCase` on ASCII letters only. `Split` models
  `split(' ')`, with its inverse `Join` and a round trip proved in both
  directions. `Includes` models `includes`, with a characterisation as an
  occurrence at some position.
- `Types`: the interfaces of `user-data.service.ts` as datatypes, plus a
  `Result` type for the one failure the aggregator can raise.
- `WordCount`: the aggregator. `ComputeWordFrequency` is imperative. It has the
  nested loops over comments and tokens, and it calls the per-token callback
  `CountWord`, which holds the linear search with early exit, the increment and
  the push. Both methods are proved equal to the specification functions
  `Counted`/`Tally`/`Find` and `Frequency`. The sort (the library call
  `Array.prototype.sort`) is the function `SortByCount`. It is proved to give a
  permutation ordered by `CompareValue`. The lemmas then state what the
  breakdown promises.
- `Service`: the user filter, the state transitions as pure record updates, a
  `Consistent` invariant tying `wordFrequency` to `activeUserComments`, and the
  class `UserDataService`. The class has the mutable `state` field, which its
  methods update through `UpdateState`.

HTTP responses are method parameters: the raw user list for a search, and the
comments and posts for a selected user.

The empty-comments case is modelled as the code behaves, not fixed. With no
comments the tally is empty, and `sortedAndCountedWords[0].count` reads a
property of `undefined`, which throws a `TypeError`. `Frequency` returns
`Failure(TypeError)` exactly in that case (`FrequencyFailsIffNoComments`). Any
non-empty comment list gives at least one token, because `''.split(' ')` is
`['']`. The error is thrown inside the subscription callback, before
`updateState`, so `UpdateActiveUserPostsAndComments` leaves the state unchanged
and returns the failure.

The code splits on the single space character, not on general whitespace, and
throws a `TypeError` on an empty comment list. The model follows the code.

## Model

| member | source | states |
|---|---|---|
| `Compare.CompareValue` | src/app/utils/compare.ts:1-9 | -1 exactly when a's key is larger, 1 exactly when it is smaller, 0 exactly on a tie |
| `Compare.CompareValueIsThreeWay` | src/app/utils/compare.ts:1-9 | the result is always one of -1, 0, 1 |
| `Compare.CompareValueReflexive` | src/app/utils/compare.ts:2-8 | comparing a value with itself gives 0 |
| `Compare.CompareValueAntisymmetric` | src/app/utils/compare.ts:2-8 | swapping the arguments negates the result |
| `Compare.CompareValueTransitive` | src/app/utils/compare.ts:1-9 | "not after" is transitive |
| `Compare.AdjacentOrderedIsNonIncreasing` | src/app/services/user-data.service.ts:188 | a list whose neighbours are in comparator order is in comparator order pairwise and non-increasing in the key |
| `Text.Lower` | src/app/services/user-data.service.ts:174 | the body is the definition of `toLowerCase` (also used at 205): ASCII `A`-`Z` become `a`-`z`, every other character is kept; `LowerAt` states it character by character |
| `Text.LowerAt` | src/app/services/user-data.service.ts:174 | lower-casing keeps the length and maps each character on its own |
| `Text.LowerIdempotent` | src/app/services/user-data.service.ts:205 | lower-casing a lower-cased string changes nothing |
| `Text.Split` | src/app/services/user-data.service.ts:167 | `split(' ')` always yields at least one piece |
| `Text.SplitPiecesHaveNoSpace` | src/app/services/user-data.service.ts:167 | no piece contains the separator |
| `Text.SplitLength` | src/app/services/user-data.service.ts:167 | there is one piece more than there are spaces, empty pieces included |
| `Text.JoinSplit` | src/app/services/user-data.service.ts:167 | joining the pieces with single spaces gives back the body |
| `Text.SplitJoin` | src/app/services/user-data.service.ts:167 | splitting a join of space-free pieces gives back the pieces |
| `Text.Includes` | src/app/services/user-data.service.ts:205 | the body is the definition of `includes`: the term is a prefix of the string or of one of its suffixes; `IncludesIff` restates it as an occurrence at some position |
| `Text.IncludesIff` | src/app/services/user-data.service.ts:205 | `includes` holds exactly when the term occurs at some position |
| `Text.IncludesEmpty` | src/app/services/user-data.service.ts:197-205 | every string includes the empty term |
| `WordCount.Tokens` | src/app/services/user-data.service.ts:166-167 | the body is the definition of the token stream: the `split(' ')` pieces of every comment body, comment after comment |
| `WordCount.TokensCons` | src/app/services/user-data.service.ts:166-168 | the tokens of the first comment come before those of the rest |
| `WordCount.TokensLength` | src/app/services/user-data.service.ts:166-169 | the number of tokens is the per-comment piece counts summed |
| `WordCount.TokensEmptyIff` | src/app/services/user-data.service.ts:166-167 | there are no tokens exactly when there are no comments |
| `WordCount.Find` | src/app/services/user-data.service.ts:172-180 | the search returns the first entry equal to the token up to case, or none when no entry is |
| `WordCount.Tally` | src/app/services/user-data.service.ts:170-185 | the body is the definition of the per-token step: the first entry equal up to case gets its count raised by one, otherwise the token is appended with count 1 |
| `WordCount.Counted` | src/app/services/user-data.service.ts:166-186 | the body is the definition of the tally before sorting: `Tally` applied to each token in visiting order, starting from the empty list; `CountedIsExact` states what it holds |
| `WordCount.CountedIsExact` | src/app/services/user-data.service.ts:172-185 | before sorting, entries are distinct up to case, each keeps the first-seen spelling and counts exactly its tokens, every token has an entry, there are as many entries as distinct lower-cased tokens, and the counts sum to the number of tokens |
| `WordCount.CountedEmptyIff` | src/app/services/user-data.service.ts:172-185 | the tally is empty exactly when there are no tokens |
| `WordCount.CountWord` | src/app/services/user-data.service.ts:168-185 | the per-token callback adds one to the total and leaves the tally that counting the token specifies |
| `WordCount.Insert` | src/app/services/user-data.service.ts:188 | inserting into a sorted list gives a sorted list holding the same entries plus the new one |
| `WordCount.SortByCount` | src/app/services/user-data.service.ts:188 | the sort gives a permutation of the tally, ordered by `CompareValue` on the count |
| `WordCount.Frequency` | src/app/services/user-data.service.ts:163-195 | the body is the definition of the breakdown: the token total, the sorted tally cut to ten entries and the first entry's count, or `TypeError` when nothing is left; the `Frequency*` lemmas state its properties |
| `WordCount.SortKeepsEntries` | src/app/services/user-data.service.ts:188 | sorting keeps the number of entries and which entries there are |
| `WordCount.TopOfSorted` | src/app/services/user-data.service.ts:188-193 | the first n entries of a sorted list are non-increasing, none is smaller than an entry left out, and the first is the largest |
| `WordCount.FrequencyFailsIffNoComments` | src/app/services/user-data.service.ts:190-194 | reading the highest count fails exactly when the comment list is empty |
| `WordCount.FrequencyTotal` | src/app/services/user-data.service.ts:166-169 | `totalWordCount` is the number of pieces `split(' ')` yields, summed over all comments |
| `WordCount.FrequencySize` | src/app/services/user-data.service.ts:189 | the breakdown has min(10, number of distinct lower-cased tokens) entries, so at most 10 |
| `WordCount.FrequencyRanking` | src/app/services/user-data.service.ts:188-189 | kept entries come from the tally in non-increasing count order, and every entry cut off counts no more than any kept one |
| `WordCount.FrequencyHighest` | src/app/services/user-data.service.ts:190-194 | `highestCount` is the first kept entry's count and no tally entry exceeds it |
| `WordCount.ComputeWordFrequency` | src/app/services/user-data.service.ts:163-195 | the loops compute exactly the breakdown (or failure) that `Frequency` specifies |
| `Service.ToUserData` | src/app/services/user-data.service.ts:201-203 | the body is the definition of the projection: a fetched user keeps only its name and id |
| `Service.NameMatches` | src/app/services/user-data.service.ts:204-205 | the body is the definition of the filter test: the lower-cased name includes the lower-cased term |
| `Service.FilterUsers` | src/app/services/user-data.service.ts:200-206 | the filtered list is no longer than the fetched one, and every kept user's lower-cased name includes the lower-cased term |
| `Service.FilterUsersAppend` | src/app/services/user-data.service.ts:200-206 | filtering a concatenation filters each part, which keeps the original order |
| `Service.FilterUsersMembership` | src/app/services/user-data.service.ts:200-206 | a user is kept exactly when it is the projection of a fetched user and its name matches |
| `Service.FilterUsersEmptyTerm` | src/app/services/user-data.service.ts:197-207 | with the default empty term every fetched user is kept, in order |
| `Service.InitialState` | src/app/services/user-data.service.ts:87-98 | the constant is the definition of the initial record: no users, empty term, no comments or posts, `loading` false, a zero breakdown |
| `Service.InitialStateConsistent` | src/app/services/user-data.service.ts:87-98 | the initial state has no comments and an empty breakdown |
| `Service.UsersLoaded` | src/app/services/user-data.service.ts:119-123 | the constructor's answer sets the full user list and clears `loading`, nothing else |
| `Service.SearchTermApplied` | src/app/services/user-data.service.ts:142-148 | a search sets the term, sets `loading`, keeps only matching users and changes nothing else |
| `Service.PostsAndCommentsApplied` | src/app/services/user-data.service.ts:150-161 | a selection fails exactly on no comments; otherwise only comments, posts and the breakdown change, and the breakdown is that of the new comments |
| `Service.TransitionsKeepConsistent` | src/app/services/user-data.service.ts:119-161 | every transition keeps the breakdown in step with the comments |
| `Service.SearchAndSelectionCommute` | src/app/services/user-data.service.ts:142-161 | a search and a selection touch disjoint fields, so their order does not matter |
| `Service.UserDataService.constructor` | src/app/services/user-data.service.ts:87-98 | the service starts from the initial state |
| `Service.UserDataService.ReceiveInitialUsers` | src/app/services/user-data.service.ts:118-124 | the constructor's users answer moves the state as `UsersLoaded` says |
| `Service.UserDataService.GetStateSnapshot` | src/app/services/user-data.service.ts:126-132 | the snapshot equals the current state |
| `Service.UserDataService.UpdateSearchTerm` | src/app/services/user-data.service.ts:142-148 | the new state is `SearchTermApplied` of the old one |
| `Service.UserDataService.UpdateActiveUserPostsAndComments` | src/app/services/user-data.service.ts:150-161 | on success the new state is the selection applied; on no comments the state is unchanged and the failure is returned |
| `Service.UserDataService.UpdateState` | src/app/services/user-data.service.ts:229-231 | the state becomes the given record |

## Left out

- HTTP fetching (the fixed URLs at `user-data.service.ts:77-81`, `getUserPost`, `getUserComments`) and the `combineLatest` join at 221-227: network I/O. Their answers are method parameters.
- The comments request at 215-218 puts the user id into `postId`. So the comments that arrive are those of the post whose id equals the user id. The model takes whatever comments arrive and does not model that choice.
- `updateActiveUserPostsAndComments(id)`: the `id` serves only the two requests, so the model's method takes their answers instead.
- RxJS machinery: `BehaviorSubject` broadcasting in `updateState` (`store.next`), `distinctUntilChanged`, `debounceTime`, `take`, the `userViewModel$` projection (103-116) and `buildSearchTermControl` (134-140). These are asynchronous, event-driven framework code. `UpdateSearchTerm` and `UpdateActiveUserPostsAndComments` run their subscription callbacks at once, with the HTTP answers as parameters. The constructor's users answer (119-123) is the separate method `ReceiveInitialUsers`, which a caller may invoke before or after any search or selection, so the model does not fix when that answer arrives.
- The asynchronous reporting of the `TypeError` thrown inside the subscription callback. The model returns the failure as a value.
- `Compare.CompareValue`: does not model the generic `key` of `compare.ts:1`, a property name with default `''` whose values are compared with JavaScript's `>` and `<` on `any`. Only the numeric `count` key that `user-data.service.ts:188` passes is modelled, as an integer-valued key function with no default.
- `Service.UserDataService.GetStateSnapshot`: does not model the sharing in `getStateSnapshot` (126-132). The source copies only the posts and comments arrays, so `users` and the `wordFrequency` object stay shared with the live state. The model's state is a value, so the snapshot is an equal value and no aliasing can be observed.
- `Text.Lower`: does not model full Unicode case mapping, because only the ASCII letters A-Z are mapped.
- `WordCount.SortByCount`: does not state which order equal counts end up in. The function is one stable sort, but the lemmas prove only the permutation and the non-increasing order.
- Counts and totals are unbounded naturals. JavaScript numbers are doubles, exact up to 2^53, which no realistic comment list reaches.
- The unused parts of `RawUserData` (address, company and so on) are carried as data but play no role.
- The UI components (`calcWidth`, `asPercent`, theme toggling, search-bar visibility, the posts view), the Angular modules and the `*.spec.ts` files: presentation glue and floating-point division.
