# Account session, user filter and tweet linkifier: a Dafny model

This project models three pieces of logic from a Next.js dashboard for a
tweet feed with wallet-based sign-in, and proves properties about them.

- **The account session** (`providers/AccountProvider.tsx`).
  - Modules `Account` (pure) and `AccountSession` (a class).
  - The session record and its fourteen actions.
  - The reducer `accountReducer`, as the function `Account.Reduce`.
  - The start-up decision that restores a session from the stored token, as `Account.Rehydrate`.
  - The provider's callbacks, as methods of the class `AccountSession.Session`. The class holds the reducer state, `localStorage`, `sessionStorage` and the wallet connection. Each method dispatches the same fixed sequence of actions that the callback does. The results of the wallet and backend calls arrive as an `Outcome` parameter: a value, or what was thrown.
- **The user filter of the feed** (`app/apps/_components/FilterModal.tsx`). Module `FilterModal`.
  - `uniqueUsers` is the method `UniqueUsers`. It is a loop filling a map from handle to entry, followed by the stable sort by descending count.
  - The search, toggle, select-all, deselect-all and "all selected" computations are functions.
  - The dialog's two selection arrays are the class `Selection`. `hasChanges` is its method `HasChanges`, which sorts both arrays in place, as `Array.prototype.sort()` does. The default string order of that sort is module `StringOrder`.
- **The linkifier** (`utils/linkify.tsx`). Module `Linkify`.
  - Each of the three global regular-expression replacements is a left-to-right scanner: URLs, then `$CASHTAG`s, then `@mentions`.
  - At each position the scanner asks for the length of the match found there. A match becomes an anchor; otherwise one character is copied.
  - Each expression is also stated declaratively, as `Linkify.Matches`. `Linkify.MatchLen` is proved to return the longest match, or 0 when there is none.

The shared helpers are the following modules:

- `Wrappers`: `Option`, and a thrown value.
- `Text`: ECMAScript white space, the ASCII classes of the expressions, `toLowerCase`, `trim`, `includes` and `split`.

Some behaviours of the code that the model keeps and that are easy to miss:

- `LOGIN_FAILURE` clears `user` (providers/AccountProvider.tsx line 96).
- `LOGOUT` resets every field except `isLoading`, which keeps its value (lines 151–161).
- A failed registration check is reported through `LOGIN_FAILURE` (lines 392–396), not through a registration failure.
- Without a configured backend URL, `checkRegistration` dispatches nothing (lines 352–356).
- After a successful login, the token and the user record are stored only when a token came back (lines 479–482).
- The `UPDATE_USER` after a registration does nothing when no user is signed in (line 167).
- `filteredUsers` tests the trimmed query for blankness but searches with the untrimmed, lower-cased query (app/apps/_components/FilterModal.tsx lines 55–56).

## Model

| member | source | states |
|---|---|---|
| Account.Merge | providers/AccountProvider.tsx:162-168 | `{ ...user, ...patch }`: every key present in the patch takes the patch's value, every absent key keeps the user's |
| Account.Reduce | providers/AccountProvider.tsx:71-185 | every action sets `type` to its own tag and keeps the invariant "authenticated implies a user is present" |
| Account.ReduceChangesOnly | providers/AccountProvider.tsx:75-184 | each action changes only the fields its case names (for example `CLEAR_ERROR` only `error`) |
| Account.Run | providers/AccountProvider.tsx:197 | dispatching any sequence of actions keeps the invariant, and `type` ends as the tag of the last action |
| Account.InitialIsValid | providers/AccountProvider.tsx:60-68 | the initial session satisfies the invariant, is signed out, and has an unknown registration status |
| Account.ReachableIsValid | providers/AccountProvider.tsx:60-185 | every session reachable from the initial one satisfies the invariant, including after `UPDATE_USER` with no user |
| Account.LoginSuccessEffect | providers/AccountProvider.tsx:83-91 | `LOGIN_SUCCESS(u)` gives user `u`, authenticated, not loading, no error, and keeps the registration fields and the modal |
| Account.LoginFailureEffect | providers/AccountProvider.tsx:92-100 | `LOGIN_FAILURE(m)` clears the user, de-authenticates, stops loading and sets error `m`; the registration fields and the modal are kept |
| Account.RegistrationStatusEffect | providers/AccountProvider.tsx:108-115 | `SET_REGISTRATION_STATUS(b)` records `b`, stops loading, and sets the modal to exactly `!b` whatever it was |
| Account.RegistrationSuccessEffect | providers/AccountProvider.tsx:135-143 | `REGISTRATION_SUCCESS` always gives registered, not registering, modal closed, no error; user and authentication are kept |
| Account.RegistrationFailureEffect | providers/AccountProvider.tsx:144-150 | `REGISTRATION_FAILURE(m)` leaves the modal as it was, stops registering, sets error `m` |
| Account.LogoutEffect | providers/AccountProvider.tsx:151-161 | `LOGOUT` yields the initial session in every field except `isLoading`, which is kept, and the tag |
| Account.UpdateUserEffect | providers/AccountProvider.tsx:162-168 | `UPDATE_USER` merges the patch over a present user, never creates one, and never changes authentication |
| Account.ClearErrorEffect | providers/AccountProvider.tsx:169-175 | `CLEAR_ERROR` changes only `error` (and the tag) |
| Account.LoginFlowEffect | providers/AccountProvider.tsx:485-500 | start, success, then the forced status `true` leave an authenticated, registered session with the modal closed |
| Account.RegistrationScenario | providers/AccountProvider.tsx:101-168 | an unregistered status opens the modal; a completed registration then closes it and marks the wallet registered, with no user created |
| Account.Unexpired | providers/AccountProvider.tsx:217 | a token is unexpired exactly when it carries a non-zero expiry, in seconds, later than the current second |
| Account.Payload | providers/AccountProvider.tsx:211-214 | a token with exactly two dots has three segments and its claims are the decoding of the middle one; any other token yields no claims |
| Account.RestoredUser | providers/AccountProvider.tsx:230-242 | the restored user prefers each stored field. `id` falls back to `sub`; the owner to `address`, then `sub`; the wallet to `""`; the creation time to now. The login time is now |
| Account.Rehydrate | providers/AccountProvider.tsx:205-269 | start-up does nothing without a token. It discards both keys exactly when the token is malformed, undecodable or expired. It restores a session only from an unexpired three-segment token and a stored record that parses; otherwise nothing changes |
| Account.ExpiredTokenDiscarded | providers/AccountProvider.tsx:216-254 | a decoded token whose `exp` is missing, zero or past is discarded, whatever the stored user |
| Wrappers.MessageOf | providers/AccountProvider.tsx:504-505 | a thrown `Error` yields its message, anything else the fallback text |
| Text.Trim | app/apps/_components/FilterModal.tsx:55 | `trim()` returns the piece of the text between white space at both ends, and that piece neither starts nor ends with white space |
| Text.IsBlank | app/apps/_components/FilterModal.tsx:55 | the trimmed query is empty exactly when every character is white space |
| Text.Contains | app/apps/_components/FilterModal.tsx:59-60 | `includes` holds exactly when the searched string occurs at some position |
| Text.Split | providers/AccountProvider.tsx:211 | `split` on one character yields at least one piece, none containing the separator |
| Text.SplitJoin | providers/AccountProvider.tsx:211 | joining the pieces of `split` with the separator gives the token back |
| Text.SplitCount | providers/AccountProvider.tsx:211-212 | `split` yields one piece more than there are separators |
| Text.Lower | app/apps/_components/FilterModal.tsx:57 | lower-casing keeps the length and maps each character to its lower-case form |
| AccountSession.SignedInUser | providers/AccountProvider.tsx:485-494 | the signed-in user carries the response's id, addresses and creation time, and logs in now |
| AccountSession.RegistrationPatch | providers/AccountProvider.tsx:588-596 | the registration patch sets `id` to the user id or else the address and sets the owner; the wallet is the generated one or else `""`, the creation time the returned one or else now; the login time is never set |
| AccountSession.Session.constructor | providers/AccountProvider.tsx:196-200 | the provider starts from the initial session over the given storage and wallet connection |
| AccountSession.Session.Dispatch | providers/AccountProvider.tsx:197 | `dispatch` replaces the state by the reducer's result |
| AccountSession.Session.CheckExistingToken | providers/AccountProvider.tsx:205-269 | the mount effect changes state and storage exactly as `Rehydrate` decides: nothing, remove both keys, or dispatch `LOGIN_SUCCESS` of the restored user |
| AccountSession.Session.CheckRegistration | providers/AccountProvider.tsx:351-398 | without a backend nothing happens. A check that answers dispatches start then the status, opening the modal exactly when unregistered. One that throws dispatches start then `LOGIN_FAILURE` and leaves the session signed out |
| AccountSession.Session.Login | providers/AccountProvider.tsx:445-514 | no address: `LOGIN_FAILURE`. Success: start, success, status `true`, storing token and user only if a token came back. Failure: start, `LOGIN_FAILURE`, rethrow, storage untouched |
| AccountSession.Session.Logout | providers/AccountProvider.tsx:516-531 | removes `authToken` and `userData` from `localStorage` and `authToken` from `sessionStorage`, disconnects, and dispatches `LOGOUT` |
| AccountSession.Session.UpdateUserData | providers/AccountProvider.tsx:533-535 | dispatches `UPDATE_USER` with the patch |
| AccountSession.Session.ClearErrorMessage | providers/AccountProvider.tsx:537-539 | dispatches `CLEAR_ERROR` |
| AccountSession.Session.OpenRegistrationModal | providers/AccountProvider.tsx:541-543 | dispatches `SHOW_REGISTRATION_MODAL` |
| AccountSession.Session.CloseRegistrationModal | providers/AccountProvider.tsx:545-547 | dispatches `HIDE_REGISTRATION_MODAL` |
| AccountSession.Session.CreateAccount | providers/AccountProvider.tsx:549-610 | no address: `REGISTRATION_FAILURE`. Success: start, success, then the patch, leaving registered, modal closed, no error, and no user if there was none. Failure: the modal stays as it was |
| StringOrder.LexLe | app/apps/_components/FilterModal.tsx:104 | in the default sort order a prefix comes first, and a string never comes before one whose first character is smaller |
| StringOrder.LexLeTotal | app/apps/_components/FilterModal.tsx:104 | the default sort order compares any two strings |
| StringOrder.LexLeAntisymmetric | app/apps/_components/FilterModal.tsx:104 | two strings each ordered before the other are equal |
| StringOrder.LexLeTransitive | app/apps/_components/FilterModal.tsx:104 | the default sort order is transitive |
| StringOrder.Insert | app/apps/_components/FilterModal.tsx:104 | insertion adds exactly one element and keeps a sorted list sorted |
| StringOrder.Sort | app/apps/_components/FilterModal.tsx:104 | `sort()` returns a sorted permutation of its input |
| StringOrder.SortedUnique | app/apps/_components/FilterModal.tsx:104 | two sorted lists with the same elements are equal |
| StringOrder.SameSortIffSameElements | app/apps/_components/FilterModal.tsx:104 | two lists sort to the same list exactly when they hold the same elements, each as often |
| StringOrder.SortSorted | app/apps/_components/FilterModal.tsx:104 | sorting a sorted list changes nothing |
| FilterModal.Filter | app/apps/_components/FilterModal.tsx:57-61 | `filter` keeps, in order, every occurrence of each element satisfying the test and none of the others, without adding duplicates |
| FilterModal.Dedup | app/apps/_components/FilterModal.tsx:80 | `Array.from(new Set(xs))` has no duplicates, the same members as `xs`, and lists them in the order of their first occurrences in `xs` |
| FilterModal.DedupOfDistinct | app/apps/_components/FilterModal.tsx:80 | a list without duplicates is its own deduplication |
| FilterModal.DedupKeepsPrefix | app/apps/_components/FilterModal.tsx:79-80 | deduplicating `a + b` keeps a duplicate-free `a` in front, unchanged |
| FilterModal.ExpectedSnoc | app/apps/_components/FilterModal.tsx:38-48 | one more tweet adds one to its author's entry, or creates the entry with that tweet's name and count 1 |
| FilterModal.CountsCoverTweets | app/apps/_components/FilterModal.tsx:38-49 | the counts of the distinct authors add up to the number of tweets |
| FilterModal.InsertByCount | app/apps/_components/FilterModal.tsx:51 | inserting adds exactly one entry and keeps a list ordered by non-increasing count ordered |
| FilterModal.InsertByCountNames | app/apps/_components/FilterModal.tsx:51 | inserting adds exactly the entry's handle and keeps handles distinct |
| FilterModal.SortByCount | app/apps/_components/FilterModal.tsx:51 | the sort by descending count returns a permutation ordered by non-increasing count |
| FilterModal.SortByCountTotal | app/apps/_components/FilterModal.tsx:51 | sorting keeps the sum of the counts |
| FilterModal.SortByCountDistinct | app/apps/_components/FilterModal.tsx:51 | sorting keeps the handles distinct |
| FilterModal.NamesOfPermutation | app/apps/_components/FilterModal.tsx:51 | a permutation of the entries holds the same handles |
| FilterModal.UniqueUsers | app/apps/_components/FilterModal.tsx:35-52 | one entry per distinct author. Each count is that author's number of tweets and each name is from their first tweet. The list is ordered by non-increasing count and the counts sum to the number of tweets |
| FilterModal.MatchesQuery | app/apps/_components/FilterModal.tsx:58-60 | the empty query matches every author, and a matching query is no longer than the name or the handle |
| FilterModal.ExactOccurrenceMatches | app/apps/_components/FilterModal.tsx:56-60 | the search ignores case: a query that occurs verbatim in the name or the handle matches |
| FilterModal.FilteredUsers | app/apps/_components/FilterModal.tsx:54-62 | a blank query returns every author. Otherwise the result is the subsequence whose lower-cased name or handle contains the lower-cased query |
| FilterModal.ToggleUser | app/apps/_components/FilterModal.tsx:70-76 | an unselected handle is appended at the end; a selected one has every occurrence removed, the rest kept in order and as often; no duplicate is added |
| FilterModal.ToggleTwice | app/apps/_components/FilterModal.tsx:70-76 | toggling twice restores the membership, and the very list when the handle was not selected |
| FilterModal.SelectAll | app/apps/_components/FilterModal.tsx:77-82 | select-all is duplicate-free, holds exactly the selection and the filtered handles in the order of their first occurrences in the selection followed by the filtered handles, and keeps a duplicate-free selection in front |
| FilterModal.DeselectAll | app/apps/_components/FilterModal.tsx:84-88 | deselect-all removes every occurrence of the filtered handles and keeps the others in order and as often |
| FilterModal.Every | app/apps/_components/FilterModal.tsx:102 | `every` holds exactly when each listed handle is selected |
| FilterModal.IsAllFilteredSelected | app/apps/_components/FilterModal.tsx:101-102 | false for an empty list, otherwise true exactly when every filtered handle is selected |
| FilterModal.SelectAllThenAllSelected | app/apps/_components/FilterModal.tsx:77-102 | after select-all every listed author counts as selected; after deselect-all none is, and not all are |
| FilterModal.SortInPlace | app/apps/_components/FilterModal.tsx:104 | `a.sort()` leaves the array holding the sorted permutation of its old contents |
| FilterModal.Selection.constructor | app/apps/_components/FilterModal.tsx:32 | the local selection starts as the page's array itself |
| FilterModal.Selection.SyncFromProps | app/apps/_components/FilterModal.tsx:66-68 | a new array from the page becomes both the saved and the local selection |
| FilterModal.Selection.HandleUserToggle | app/apps/_components/FilterModal.tsx:70-76 | the local selection becomes a fresh array holding the toggled list; the saved one is untouched |
| FilterModal.Selection.HandleSelectAll | app/apps/_components/FilterModal.tsx:77-82 | the local selection becomes a fresh array holding the select-all list |
| FilterModal.Selection.HandleDeselectAll | app/apps/_components/FilterModal.tsx:84-88 | the local selection becomes a fresh array holding the deselect-all list |
| FilterModal.Selection.HandleCancel | app/apps/_components/FilterModal.tsx:96-99 | the local selection becomes the saved array again |
| FilterModal.Selection.HasChanges | app/apps/_components/FilterModal.tsx:104 | true exactly when the two selections differ as multisets, so order is ignored. Both arrays are left sorted in place, also when they are the same array |
| Linkify.LinkifyTweetText | utils/linkify.tsx:3-32 | text without a colon, a dollar sign or an at sign comes out of the three passes unchanged |
| Linkify.Replace | utils/linkify.tsx:13-29 | a pass returns text without its key character (`:`, `$` or `@`) unchanged |
| Linkify.ReplaceBy | utils/linkify.tsx:13-29 | a global replacement whose callback returns every match unchanged returns the text unchanged |
| Linkify.Render | utils/linkify.tsx:14-28 | every callback returns an anchor that opens with its `href` and shows the matched text itself before the closing tag |
| Linkify.Matches | utils/linkify.tsx:5-23 | every match of the three expressions is at least two characters long and holds the key character |
| Linkify.KeyFreeNoMatch | utils/linkify.tsx:5-23 | text without the key character of an expression holds no match of it at any position |
| Linkify.NonSpaceRun | utils/linkify.tsx:5 | `[^\s]+` consumes the longest run without white space |
| Linkify.MatchLen | utils/linkify.tsx:5-23 | the match found at the front is a match of the expression and the longest one; 0 means no match exists |
| Linkify.ReplaceNoMatch | utils/linkify.tsx:13-29 | a pass that matches nowhere returns its input |
| Linkify.UrlFree | utils/linkify.tsx:12-15 | text without `http://` and `https://` passes the URL pass unchanged |
| Linkify.LinkifyPlain | utils/linkify.tsx:3-32 | text with no `http://`, `https://`, `$` or `@` is returned unchanged |
| Linkify.ReplaceAtMatch | utils/linkify.tsx:13-29 | a match at the front is replaced by the callback's anchor and scanning resumes right after it |
| Linkify.UrlMatch | utils/linkify.tsx:5 | `http://` or `https://` with a non-white-space run up to white space or the end is matched whole |
| Linkify.UrlRewritten | utils/linkify.tsx:5-15 | such a URL becomes an anchor whose target and text are both the URL |
| Linkify.CashtagMatch | utils/linkify.tsx:8 | `$`, a letter, at most 19 more letters or digits, then a non-word character or the end, is matched whole |
| Linkify.CashtagRewritten | utils/linkify.tsx:8-21 | such a cashtag becomes an anchor to `https://x.com/search?q=%24<symbol>&src=cashtag_click` showing `$<symbol>` |
| Linkify.CashtagRejected | utils/linkify.tsx:8 | `$` followed by a digit, or by more than 20 word characters, is copied and not rewritten |
| Linkify.MentionMatch | utils/linkify.tsx:23 | `@` with its whole run of word characters is matched |
| Linkify.MentionRewritten | utils/linkify.tsx:23-29 | a mention becomes an anchor to `https://x.com/<name>` showing the mention itself |
| Linkify.BareAtKept | utils/linkify.tsx:23 | an `@` not followed by a word character is copied |
| Linkify.MatchLocal | utils/linkify.tsx:5-23 | in text ending with white space, the match at the front does not depend on what follows and ends before the white space |
| Linkify.ReplaceBySplit | utils/linkify.tsx:13-29 | a global replacement whose matches never reach past `a` rewrites `a + b` as `a` and `b` separately: matches are taken left to right and do not overlap |
| Linkify.ReplaceSplit | utils/linkify.tsx:13-29 | each pass rewrites text up to white space and what follows independently |
| Linkify.PassSplit | utils/linkify.tsx:10-31 | a pass splits at white space, and its output for the first part still ends with that white space |
| Linkify.LinkifySplit | utils/linkify.tsx:10-31 | the three passes in sequence rewrite text up to white space and what follows independently |
| Linkify.AnchorFree | utils/linkify.tsx:14-28 | the fixed parts of an anchor contain no `$` and no `@` |
| Linkify.LinkifyUrl | utils/linkify.tsx:10-31 | a URL without `$` or `@` comes out of all three passes as one anchor to itself |
| Linkify.LinkifyCashtag | utils/linkify.tsx:10-31 | a cashtag on its own comes out of all three passes as one anchor to the cashtag search |
| Linkify.LinkifyMention | utils/linkify.tsx:10-31 | a mention on its own comes out of all three passes as one anchor to the profile page |

## Left out

- The wallet-connection effect (providers/AccountProvider.tsx lines 401–443) is not modelled. It is driven by React's dependency tracking and races with an in-flight login. The actions it dispatches are ordinary `UPDATE_USER` and `LOGOUT` actions, which are modelled.
- The wallet SDK, `fetch` and the HTTP error-message extraction (lines 281–348) are not modelled. Their results reach the methods as `Outcome` parameters: a value or a thrown value. A missing backend URL in `login` and `createAccount` throws inside those calls, so it arrives as a thrown `Outcome`.
- `atob`, `JSON.parse`, `JSON.stringify`, `Date.now()` and `new Date().toISOString()` are parameters: partial decoders, a number and a string.
- The texts of the login and registration messages to sign are left out: they only go to the wallet.
- Console logging is left out.
- The reducer's `default` branch is not modelled. The action datatype has exactly the fourteen tags, so it cannot be reached.
- `AccountSession.Session.Logout` does not model `disconnect()` beyond clearing the connection flag.
- `handleSave` and the cookie it writes (FilterModal.tsx lines 90–94) are not modelled: they are persistence plumbing with no logic. `onClose` and the rendering are left out too.
- `LinkifiedText` (utils/linkify.tsx lines 35–43) only renders the linkified text.
- `Text.Lower` and `FilterModal.FilteredUsers` lower-case ASCII letters only. `toLowerCase` also folds other scripts, and Unicode case mapping is not modelled.
- `StringOrder.LexLe` compares Dafny characters, that is code points. `Array.prototype.sort()` compares UTF-16 code units, so the two orders differ only for characters outside the Basic Multilingual Plane.
- `Account.RestoredUser` takes one time stamp `isoNow` for both calls to `new Date().toISOString()` (lines 240–241). The two calls can fall in different milliseconds, so the restored creation and login times can differ by that much; in the model they coincide.
- `Account.Unexpired` treats `exp` as an integer. A fractional or non-numeric `exp` is not modelled: the decoder is expected to yield `None` for a non-number.
- `FilterModal.SortByCount` is proved sorted and a permutation. Stability, which the insertion sort has, is not stated.
- `Linkify.ReplaceBy` and `Linkify.Callback` each carry a guard for a match longer than the text or an empty match. `MatchLen` never produces either, so the guards do not change the result.
- The mention and cashtag passes also run inside anchors produced by earlier passes, for instance on an `@name` inside a URL. The model reproduces this, but states no property about such nested rewrites.
