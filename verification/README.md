# SkillSwap matching engine in Dafny

SkillSwap is a single-page skill exchange. A visitor submits a profile with a
name, a country, a skill they can teach and a skill they want to learn. The page
keeps every profile for the session and pairs the newcomer with the members
already registered. A pair forms when one side's wanted skill and the other
side's offered skill, lower-cased, contain one another. This project models that
engine, which lives in `src/App.tsx`, and proves what it does.

- `text.dfy`, module `Text`: `toLowerCase` (ASCII letters only) and
  `String.prototype.includes` as a left-to-right scan. The scan is proved equal
  to "occurs at some position".
- `matching.dfy`, module `Matching`: the `User` and `Match` records and the
  compatibility test. `Discover` is the recursive specification of
  `findMatches`. `FindMatches` is the loop itself, proved equal to `Discover`.
  The lemmas give the order, exact membership, soundness, length and id facts
  about the result.
- `search.dfy`, module `Search`: the member-list search (`filteredUsers`).
- `app.dfy`, module `App`: the page state as the class `SkillSwap`, which holds
  `users`, `matches`, `newMatches`, `randomMatch` and `showRandomMatch`. Its
  methods are the submission handler, the highlight clear, and opening and
  closing the random-match spotlight. The module also holds the `isNewMatch`
  test and the random index computation.
- `scenarios.dfy`, module `Scenarios`: worked cases with concrete skills.

The model treats the clock and the random source as inputs:

- `Date.now()` becomes a parameter `now`. A user's id is the clock reading
  itself. The source stores its decimal string, and distinct readings give
  distinct strings. `SkillSwap.Submit` takes a reading that differs from every
  registered user's id. In the source the clock is read 500 ms after the click
  (src/App.tsx:107), and the submit button stays disabled until then
  (src/App.tsx:396). So two submissions never share a reading, as long as the
  wall clock does not move backwards.
- A match id, which the source formats as `first-second-stamp`, becomes the
  triple `MatchId(first, second, stamp)`. Its three parts are digit strings, so
  the triple determines the string.
- `Math.random()` becomes a fraction `num / den` with `num < den`.

The class invariant `SkillSwap.Valid` says these things, and every method keeps
it:

- every stored match is sound: its skill is the teacher's offer, that offer is
  compatible with what the learner wants, and its id is (learner id, teacher id,
  time);
- every stored match links two different stored users and is stamped with the
  id of one of them;
- no two users share an id, and no two stored matches share an id;
- the highlighted matches and the spotlighted match are stored matches;
- there are at most `n·(n-1)` matches for `n` users.

Because match ids never repeat, the `isNewMatch` test, which compares ids,
highlights exactly the matches of the last submission that found any, until
`ClearNew` clears the highlight.

## Model

| member | source | states |
|---|---|---|
| Text.ToLower | src/App.tsx:70-71 | the lower-cased string has the same length, and each character is the lower-cased input character (ASCII A-Z to a-z, everything else kept) |
| Text.ToLowerIdempotent | src/App.tsx:70-71 | lower-casing an already lower-cased string changes nothing |
| Text.ToLowerAppend | src/App.tsx:70-71 | lower-casing works character by character, so it distributes over concatenation |
| Text.ToLowerUnchanged | src/App.tsx:70-71 | a string without upper-case ASCII letters is its own lower-case form |
| Text.IncludesIff | src/App.tsx:70-71 | the `includes` scan succeeds exactly when the needle occurs at some position of the haystack (both directions) |
| Text.IncludesFromOccurs | src/App.tsx:70-71 | an occurrence at any position is found by the scan |
| Text.IncludesToOccurs | src/App.tsx:70-71 | a successful scan yields a position where the needle occurs |
| Text.IncludesEmpty | src/App.tsx:70-71 | the empty string is included in every string |
| Text.IncludesSelf | src/App.tsx:70-71 | every string includes itself |
| Text.MissingCharExcludes | src/App.tsx:70-71 | a string lacking some character of the needle does not include the needle |
| Matching.CompatibleSymmetric | src/App.tsx:70-71 | the two-way containment test gives the same answer with its arguments swapped |
| Matching.CompatibleEmpty | src/App.tsx:82-83 | an empty skill on either side passes the test; nothing special-cases it |
| Matching.CompatibleReflexive | src/App.tsx:70-71 | a skill text always passes the test against itself |
| Matching.CompatibleCaseInsensitive | src/App.tsx:70-71 | lower-casing an argument first does not change the test |
| Matching.FindMatches | src/App.tsx:65-95 | the loop that pushes the matches of each existing user returns exactly `Discover` of the new user and the existing list |
| Matching.DiscoverAppend | src/App.tsx:68-92 | discovery against a concatenated user list is discovery against each part, concatenated in the same order |
| Matching.DiscoverOrder | src/App.tsx:68-91 | the matches of the existing user at index j come after those of users before j and before those of users after j; within one user, the match where it teaches comes first |
| Matching.DiscoverNone | src/App.tsx:65-95 | with no existing users the result is empty |
| Matching.DiscoverLength | src/App.tsx:66-94 | at most two matches per existing user |
| Matching.DiscoverShape | src/App.tsx:68-91 | every match is sound, is stamped `now`, and is either (teacher an existing user, learner the new user, skill the teacher's offer) or (teacher the new user, learner an existing user, skill the new user's offer) |
| Matching.FromExistingFound | src/App.tsx:69-79 | the match where e teaches the new user is found if and only if e is an existing user and the new user's wish and e's offer pass the test |
| Matching.FromNewFound | src/App.tsx:81-91 | the match where the new user teaches e is found if and only if e is an existing user and e's wish and the new user's offer pass the test |
| Matching.NoSelfMatch | src/App.tsx:117 | when no existing user carries the new user's id, no found match has the same user as teacher and learner |
| Matching.DiscoverIdsDistinct | src/App.tsx:73-89 | when the existing ids are distinct and differ from the new user's id, the found matches have pairwise distinct ids |
| Matching.MutualTrade | src/App.tsx:68-91 | two users who each want exactly what the other teaches produce two matches, the existing user teaching first |
| Search.FilterUsers | src/App.tsx:144-149 | a user is kept if and only if it is in the list and the lower-cased term occurs in its lower-cased name, country, offered or wanted skill; the result is no longer than the list |
| Search.FilterAppend | src/App.tsx:144-149 | filtering a concatenation filters each part and keeps them in order |
| Search.FilterOrder | src/App.tsx:144-149 | the user at index k is kept exactly when it matches, placed between the kept users before and after it |
| Search.FilterEmptyTerm | src/App.tsx:144-149 | an empty search term keeps the whole list unchanged |
| App.RandomIndex | src/App.tsx:154 | the index drawn from a fraction in [0, 1) lies inside a non-empty list |
| App.RandomIndexCovers | src/App.tsx:154 | every index of the list is drawn by some fraction when the fractions are at least as fine as the list is long |
| App.FoundWellFormed | src/App.tsx:117 | the matches a new user with a fresh id discovers are sound, link two different users of the updated list and carry the new user's id as their stamp |
| App.UserIdsDistinctCons | src/App.tsx:109-121 | putting first a user whose id differs from every registered id keeps user ids distinct |
| App.FoundIdsFresh | src/App.tsx:73-89 | a match found now never shares an id with a match stored earlier, whose stamp is the id of an already registered user |
| App.DiscoverKeepsConsistent | src/App.tsx:117-127 | putting the new user and its discovered matches first keeps every stored match sound, between two different stored users and stamped with one of their ids, keeps user ids and match ids distinct, and keeps at most n·(n-1) matches for n users |
| App.HighlightExact | src/App.tsx:438 | when stored match ids are distinct and every highlighted match is stored, a stored match passes the id test if and only if it is itself highlighted |
| App.IsNewMatch | src/App.tsx:438 | a match is highlighted if and only if some highlighted match has the same id |
| App.SkillSwap.constructor | src/App.tsx:22-34 | the page starts with no users, no matches, nothing highlighted and no spotlight |
| App.SkillSwap.Submit | src/App.tsx:97-142 | an entry with an empty field is rejected and nothing changes; otherwise the user is matched against the users before it, then put first, the found matches are put first, and they become the highlighted set when there are any; the invariant is kept, and afterwards a stored match passes the `isNewMatch` test exactly when it is highlighted |
| App.SkillSwap.ClearNew | src/App.tsx:129-131 | the highlight is cleared so no match counts as new; the stored matches stay |
| App.SkillSwap.HandleRandomMatch | src/App.tsx:151-157 | with no matches nothing changes; otherwise the spotlight shows the match at the drawn index, which is a stored match |
| App.SkillSwap.CloseRandomMatch | src/App.tsx:159-162 | the spotlight is hidden and emptied |
| Scenarios.PythonMatchesUpperCase | src/App.tsx:70-71 | "python" passes the test against "PYTHON Programming" |
| Scenarios.Incompatible | src/App.tsx:70-71 | two skill texts fail the test when each, lower-cased, is shorter than the other or lacks a letter of the other |
| Scenarios.CapitalisedIncompatible | src/App.tsx:70-71 | a capitalised wanted skill fails the test against a shorter capitalised offer that has a letter the wish lacks |
| Scenarios.NoAccidentalMatch | src/App.tsx:68-91 | a Yoga/Photography profile and a Cooking/Painting profile produce no match |

## Left out

- Rendering, styling, the country list, the form-field plumbing (`handleInputChange`) and the form reset after a submission are presentation. They do not affect the stored users or matches.
- Dark-mode handling goes through `localStorage` and the document element. It is browser I/O and is not part of this model.
- The `isSubmitting` flag and the 500 ms delay before a submission is processed are left out. A submission is one atomic step. The submit button is disabled while one is pending, so two cannot interleave.
- The 3000 ms timer that clears the highlight is left out. Its effect is the separate method `SkillSwap.ClearNew`.
- All `Date.now()` calls made during one submission read as the same value `now`. This covers the user id, the user timestamp, and the id and timestamp of each match. In the source, a millisecond may pass between these calls.
- App.SkillSwap.Submit: the model assumes that the clock reading differs from every registered user's id, that is, the wall clock never moves back onto an earlier submission's reading. A clock set back could repeat a user id and then a match id. Distinct user ids, no self-match, distinct match ids and the exact `isNewMatch` highlight all rest on this assumption.
- Text.ToLower: only ASCII letters are folded. JavaScript's `toLowerCase` follows full Unicode rules and can change a string's length.
- App.RandomIndex: `Math.random()` is a double, and the product is rounded in floating point. The model uses an exact fraction and exact arithmetic. It does not claim that the pick is uniform.
- React's batched and asynchronous state updates are treated as one immediate assignment.
