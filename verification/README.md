# skills_swap: a Dafny model of matching, browsing and agreements

This project models the logic of a skill-bartering web application. Users list skills they offer and skills they need, browse other users, ask for matches, and track exchange agreements through a status lifecycle. Three pieces of logic are modelled as pure functions over immutable data:

- **Match scoring.** This is the `match-skills` server function. Every skill name is lower-cased. Each other user gets one half-point for every (my need, their offer) pair and every (my offer, their need) pair where one name contains the other, capped at two half-points, which is a score of 1. Users scoring zero are dropped. For one to ten matches, when the outside compatibility service answers, the first five matches are blended with its reply. The response is sorted by non-increasing score. Modules `MatchScorer`, `Text` and `Sorting`.
- **Agreement lifecycle.** An agreement is `pending`, `active`, `completed` or `cancelled`. The agreements page shows Accept and Decline to the provider of a pending agreement, and Mark as Completed and Cancel to either party of an active one. Each button writes a status and sets the completion time exactly for `completed`. The page does the guarding by showing or hiding buttons. Here the guard is the precondition of `Agreements.Transition`. The module also covers the status badge. Module `Agreements`.
- **Browse page.** This covers the cards of other users, with skills split into offered and needed and users who offer nothing filtered out. It also covers merging the match scores into the cards and re-ordering them, and building the pending agreement that "Propose Exchange" sends. Modules `Browse` and `Common`.

Heuristic scores are integers counted in half-points. A score of `h` is presented as `h / 2`. Scores that leave the server function, and the refinement blend, are Dafny `real`s, which are exact.

Query results, the signed-in user, the clock and the outside service's reply are all parameters. A `null` query result is `None`, or an empty sequence where the code reads it that way.

## Model

| member | source | states |
|---|---|---|
| Text.CaseRoundTrip | supabase/functions/match-skills/index.ts:56-57 | upper-casing then lower-casing gives back any character that is not an upper-case letter, and the other way round |
| Text.CapitalizeLowersBack | src/pages/Agreements.tsx:76 | upper-casing the first character of a string with no upper-case letter loses nothing: lower-casing gives the string back |
| Text.ContainsIffOccurs | supabase/functions/match-skills/index.ts:69 | the substring scan holds exactly when the needle occurs at some position of the haystack (both directions) |
| Text.LowerIsLowered | supabase/functions/match-skills/index.ts:56-57 | a lower-cased name has no upper-case letter, and lower-casing twice changes nothing |
| Common.OfKindAppend | src/pages/Browse.tsx:60-61 | splitting by type distributes over concatenation, so each list keeps the original order of its rows |
| Common.OfKindPartition | src/pages/Browse.tsx:60-61 | the offered rows and the needed rows together are exactly the input rows: the sizes add up and the multisets add up |
| Common.OwnedBy | supabase/functions/match-skills/index.ts:60 | a candidate's rows are exactly the skill rows whose owner is that candidate |
| Common.OwnedByAppend | supabase/functions/match-skills/index.ts:60 | selecting by owner distributes over concatenation, so a candidate's rows keep their order and a repeated row counts every time |
| Sorting.SortDesc | supabase/functions/match-skills/index.ts:141 | the result is in non-increasing key order and is a permutation of the input |
| Sorting.SortOfSortedIsIdentity | supabase/functions/match-skills/index.ts:141 | an input already in non-increasing order comes back unchanged |
| Sorting.SortProjection | supabase/functions/match-skills/index.ts:141 | sorting keeps the multiset of any projection of the elements, such as their user ids |
| Sorting.SortDistinct | supabase/functions/match-skills/index.ts:141 | elements with pairwise different ids still have pairwise different ids after sorting |
| MatchScorer.PairCountIsCardinality | supabase/functions/match-skills/index.ts:64-82 | the row-by-row pair count equals the size of the set of related index pairs |
| MatchScorer.CountPairs | supabase/functions/match-skills/index.ts:64-82 | the nested loops that add one for each pair where either name contains the other compute that set's size |
| MatchScorer.PairCountZeroIff | supabase/functions/match-skills/index.ts:64-82 | the count is zero exactly when no pair of names is related |
| MatchScorer.PairCountSymmetric | supabase/functions/match-skills/index.ts:66-82 | counting (xs, ys) pairs and counting (ys, xs) pairs give the same number |
| MatchScorer.Names | supabase/functions/match-skills/index.ts:56-62 | the names compared are the lower-cased names of exactly the rows of one type, in order |
| MatchScorer.HalfPoints | supabase/functions/match-skills/index.ts:84 | the score is the uncapped count of half-points capped at two (a score of 1): two or more related pairs give exactly two, fewer give the count itself, and zero exactly when no pair is related |
| MatchScorer.HalfPointsPositiveIff | supabase/functions/match-skills/index.ts:59-85 | a candidate scores above zero exactly when a need of one side and an offer of the other are related once lower-cased, in either direction |
| MatchScorer.HalfPointsSymmetric | supabase/functions/match-skills/index.ts:56-84 | the score of B seen by A equals the score of A seen by B |
| MatchScorer.HalfPointsIgnoreCase | supabase/functions/match-skills/index.ts:56-62 | changing the case of any skill name leaves the score unchanged |
| MatchScorer.Candidates | supabase/functions/match-skills/index.ts:59-85 | every match is one of the other users, with a score in (0, 1] equal to that user's capped score |
| MatchScorer.CandidatesAppend | supabase/functions/match-skills/index.ts:59-85 | scoring then filtering keeps the order of the other users: the matches of a concatenation are the concatenated matches |
| MatchScorer.CandidatesListed | supabase/functions/match-skills/index.ts:59-85 | an other user is kept exactly when some pair of names overlaps; a user with no related pair in either direction is dropped |
| MatchScorer.CandidatesDistinct | supabase/functions/match-skills/index.ts:59-85 | distinct profile ids give matches with distinct ids |
| MatchScorer.Blend | supabase/functions/match-skills/index.ts:120-125 | a match with a reply gets the mean of its score and the reply; a match without one is unchanged; the user id is kept |
| MatchScorer.Refined | supabase/functions/match-skills/index.ts:94-127 | the refinement returns exactly the first min(n, 5) matches, in order, by user id, each blended with the reply for its user |
| MatchScorer.MatchSkills | supabase/functions/match-skills/index.ts:28-143 | no skill rows for the requester, or no other user, gives an empty response; the response is in non-increasing score order |
| MatchScorer.HeuristicResponse | supabase/functions/match-skills/index.ts:84-143 | without refinement the response is a permutation of the heuristic matches, every score is in (0, 1], and an other user is listed exactly when some pair of names overlaps |
| MatchScorer.RefinedResponse | supabase/functions/match-skills/index.ts:88-131 | refinement runs only for 1 to 10 matches with a reply; its response has at most five entries, and they are exactly the first min(n, 5) matches, each blended with its reply |
| MatchScorer.RefinementDropsTail | supabase/functions/match-skills/index.ts:88-131 | when refinement runs on six to ten matches, matches six to ten are absent from the response |
| MatchScorer.ResponseFromOthers | supabase/functions/match-skills/index.ts:59-131 | every listed user is one of the other users, whichever branch produced the response |
| MatchScorer.ResponseDistinct | supabase/functions/match-skills/index.ts:59-143 | no user appears twice in the response |
| MatchScorer.UiDesignExample | supabase/functions/match-skills/index.ts:64-84 | needs "ui design" and offers "python" against offers "UI/UX Design" and needs "Python" score one half-point (0.5) |
| MatchScorer.CookingExample | supabase/functions/match-skills/index.ts:64-85 | a need of "cooking" against an offer of "painting" scores zero |
| Agreements.Parse | src/pages/Agreements.tsx:63-70 | a stored status is recognised exactly when it is the name of one of the four statuses (round trip in both directions) |
| Agreements.Buttons | src/pages/Agreements.tsx:118-151 | every button shown is on a recognised, non-terminal status |
| Agreements.ButtonsFollowTable | src/pages/Agreements.tsx:100-151 | for a party to the agreement, every button shown is a step of the transition table, and every step of the table for that party has a button |
| Agreements.PendingOnlyProvider | src/pages/Agreements.tsx:118-133 | on a pending agreement the provider is offered Accept and Decline, and anyone else, the seeker included, nothing |
| Agreements.ActiveEitherParty | src/pages/Agreements.tsx:135-151 | on an active agreement either party is offered Mark as Completed and Cancel |
| Agreements.NoButtonsWhenTerminal | src/pages/Agreements.tsx:118-151 | completed, cancelled and unrecognised statuses offer no button |
| Agreements.UpdateFor | src/pages/Agreements.tsx:45-52 | the update writes the new status, and sets the completion time, to the given time, exactly when the new status is `completed` |
| Agreements.Transition | src/pages/Agreements.tsx:45-52 | an offered action moves the row to its target status, sets the completion time iff that status is `completed`, changes no other field, and keeps the status/completion-time/parties invariant |
| Agreements.TerminalIsFinal | src/pages/Agreements.tsx:118-151 | after a step into `completed` or `cancelled` no viewer is offered anything |
| Agreements.AtMostTwoSteps | src/pages/Agreements.tsx:118-151 | after any two offered steps no third step is offered |
| Agreements.BadgeLookupAsWritten | src/pages/Agreements.tsx:63-70 | as written, a status naming an inherited object member yields that member instead of the pending fallback |
| Agreements.BadgeFallbackMissed | src/pages/Agreements.tsx:70 | the status "toString" gets no badge style |
| Agreements.BadgeStyle | src/pages/Agreements.tsx:62-71 | a recognised status gets its own style and every other string gets the pending style |
| Agreements.BadgeAgreesOffPrototype | src/pages/Agreements.tsx:70 | the lookup as written and the intended fallback agree exactly on the strings that do not name an inherited member |
| Agreements.BadgeLabel | src/pages/Agreements.tsx:76 | the label has the status's length, its first character is the status's first character upper-cased, and the rest is unchanged |
| Agreements.BadgeLabelNamesStatus | src/pages/Agreements.tsx:76 | the label of a recognised status lower-cases back to the stored status, which parses to the same status |
| Agreements.StatusLabels | src/pages/Agreements.tsx:76 | the four statuses are labelled Pending, Active, Completed and Cancelled |
| Browse.ListingSplitsSkills | src/pages/Browse.tsx:56-62 | a card's offered list holds exactly the offered rows and its needed list exactly the needed rows, and together they hold every row once |
| Browse.Listings | src/pages/Browse.tsx:39-66 | every card is built from a profile other than the requester's and offers at least one skill, every such profile has its card, and there are no more cards than profiles |
| Browse.ListingsAppend | src/pages/Browse.tsx:49-66 | building and filtering distribute over concatenation, so the cards are in profile order, one for each qualifying profile |
| Browse.FetchUsers | src/pages/Browse.tsx:44-47 | a missing profile result leaves the cards as they were; a present one replaces them with the listings built from it |
| Browse.FirstMatch | src/pages/Browse.tsx:93 | the lookup fails exactly when no match names the user; otherwise it returns a match that names the user |
| Browse.FirstMatchIsFirst | src/pages/Browse.tsx:93 | the match returned is the first one that names the user |
| Browse.Merge | src/pages/Browse.tsx:92-95 | every card stays in place with only its score changed; a score changes only if some match names the user; a named user takes the first match's score |
| Browse.FindMatches | src/pages/Browse.tsx:70-109 | with no skill rows the search is refused and the cards are unchanged; it succeeds exactly with skills and a non-empty reply, and then the cards are the merged cards in non-increasing score order, with a missing score read as 0 |
| Browse.FindMatchesKeepsUsers | src/pages/Browse.tsx:92-98 | a search keeps every card exactly once: the multiset of user ids is unchanged |
| Browse.Propose | src/pages/Browse.tsx:111-131 | a proposal is refused exactly when the requester has no needed skill; otherwise it is pending, with the requester as seeker, the card's user as provider, the card's first offered skill and one of the requester's needed skills |
| Browse.ProposalPartiesDiffer | src/pages/Browse.tsx:125-127 | a proposal made from a listed card has different provider and seeker |
| Browse.NewAgreementAwaitsProvider | src/pages/Browse.tsx:125-131 | a stored proposal is consistent and pending; the seeker has no button on it, and the provider has Accept and Decline |

## Behaviour worth knowing

The model follows the code in each of these cases.

- The refinement asks about the first five matches in profile order, before any sort (`MatchScorer.Refined`, with `MatchScorer.CandidatesAppend` for the order).
- When the refinement runs, the response holds only the refined matches, so matches six to ten are dropped (`MatchScorer.RefinementDropsTail`).
- Only a missing or empty reply reads as "0". Non-numeric reply text parses to NaN, and NaN is not modelled.
- Needs "ui design" and offers "python", against offers "UI/UX Design" and needs "Python", score 0.5: "ui/ux design" does not contain "ui design", so only the "python" pair is related (`MatchScorer.UiDesignExample`).
- The score is symmetric between two users, because the containment test is symmetric and both directions are counted (`MatchScorer.HalfPointsSymmetric`).

## Findings

| source | as written | input that shows it | evidently intended | confidence | as-written member | corrected member |
|---|---|---|---|---|---|---|
| src/pages/Agreements.tsx:70 | the style table is a plain object literal, so the lookup also finds members inherited from the object prototype, and the pending fallback applies only when the lookup is undefined | a status of "toString" (also "constructor", "valueOf", "__proto__", ...) yields an inherited member instead of a style, so the icon read from it is undefined and rendering the card fails; the model stops at the lookup result | every unrecognised status falls back to the pending style | low: needs a status outside the four names in the store; not executed | Agreements.BadgeLookupAsWritten (exhibited by Agreements.BadgeFallbackMissed) | Agreements.BadgeStyle (with Agreements.BadgeAgreesOffPrototype) |

## Left out

- Store queries, authentication and the server function's HTTP handling are external I/O: the `serve` wrapper, CORS, JSON bodies and the status-500 error path. Their results are inputs. Ordering and filtering done by the store are inputs too, except two filters that are modelled as predicates: the profile query that excludes the requester (`Browse.Listings`) and the agreements query that keeps the viewer's agreements (`Agreements.Visible`).
- The outside compatibility service, the prompt text and number parsing are a foreign service. Its outcome is the parameter `AiOutcome`: no key, a thrown error, or one parsed reply per user asked.
- Floating point is not modelled. Scores are exact, and NaN, rounding and the percentage rendering on the cards are left out. A refined score is not clamped by the code, so it can leave [0, 1]. Bounds are stated only for heuristic scores.
- Concurrent requests (`Promise.all`) carry no logic beyond joining their results. Racing updates are not modelled: the last write wins in the source.
- Text.LowerIsLowered: lower-casing is modelled for ASCII letters only. JavaScript lower-cases all of Unicode.
- Agreements.BadgeLabel: upper-casing is modelled for ASCII letters only. The label has the status's length only under that model, because full Unicode upper-casing can lengthen a string ("ß" becomes "SS").
- A failed status update is a store failure: it shows a notice and leaves the row unchanged. Only the successful update is modelled.
- Toasts, loading flags, page rendering and styling are presentation.
- These files are not part of this model: the wallet hook (`src/hooks/useWallet.ts`), the navigation bar, the landing page and the dashboard. They hold wallet connection, routing and counts that are store filters. The profile page's one check, that a skill name is not blank, is also left out.
- Browse.Propose: the requester's first needed skill is taken in the order of the given rows. The store's single-row query leaves that order unspecified.
