# Cat discovery screen: ban list, ban predicate and bounded fetch

This project models the logic inside the single React component of a small
browser app. The app shows a random cat from an image API and lets the user
"ban" attribute values: a breed name, a temperament, an origin. Later fetches
skip cats that match a banned value. The model covers three parts of the
component:

- **The ban predicate `isCatBanned`** (`BanPredicate.IsCatBanned`). It is a
  pure predicate over a candidate and the ban list. `BanPredicate.CheckCatBanned`
  is the source's nested-loop form, and it is proved equal to the predicate. The
  temperament token test uses JavaScript's `split(", ")`, which is modelled in
  module `Tokens` together with its round trip to `join(", ")`.
- **The ban-list toggle `handleAttributeClick`** (`BanList.Toggle`). It is a
  function on the ordered list. `CatApp.App.HandleAttributeClick` assigns its
  result to the `banList` field. `CatApp.App.ChipState` is the chip's
  highlight test.
- **The bounded fetch-and-filter `fetchCat`** (`CatApp.App.FetchCat`). It
  runs over the fields `currentCat`, `banList`, `isLoading` and `error`. The
  source retries by calling itself recursively; the model uses a loop with a
  retry counter. The method is proved against `Discovery.FetchRun`, a
  recursive specification. The network is a parameter: `responses[n]` is what
  the request with retry number `n` gets back. That is either an HTTP status
  with the parsed batch, or a thrown error.

Modules: `CatData` (records), `Tokens` (the `", "` split), `BanPredicate`,
`BanList`, `Discovery` (one attempt, and a whole run as a function) and
`CatApp` (the component's state as the class `App`).

Behaviour worth noting, all of it kept by the model:

- A temperament rule matches only a whole token of the `", "`-split
  temperament (src/App.jsx:97). The temperament chip, however, bans the whole
  temperament string (src/App.jsx:188). So that chip has an effect only on
  cats whose temperament is a single token
  (`TemperamentChipBansOnlySingleToken`).
- A toggle on a pair that is present filters out every equal entry, not
  only one (src/App.jsx:119).
- `Array.find` may stop at a null entry after the first one, because the
  predicate never bans null (src/App.jsx:53). The entry it returns is falsy,
  so the batch counts as nothing found (src/App.jsx:55): later unbanned cats
  in that batch are skipped, and the run retries, or gives up if this was the
  last retry (`NullEntryMasksLaterCats`). A null first entry never reaches
  `find`: the diagnostic read below throws first (`NullHeadIsMalformed`).
- The diagnostic read `data[0].breeds[0]?.name` sits inside the `try`
  (src/App.jsx:49). It can throw: when the first entry of a non-empty batch
  is null or has no `breeds` property. The thrown error becomes a "Failed to
  fetch cat" error (`Cause.Malformed`). This is a fourth way to fail, beside
  a bad HTTP status, a thrown request or parse, and exhaustion.

## Model

| member | source | states |
|---|---|---|
| `BanPredicate.Observations` | src/App.jsx:84-91 | every observed attribute has a non-empty value equal to that field of `breeds[0]`, and every non-empty field is observed |
| `BanPredicate.Matches` | src/App.jsx:96-101 | one rule against one observed attribute: a temperament rule against the temperament is membership among its `", "` tokens; any other pair needs equal type and equal value |
| `BanPredicate.IsCatBanned` | src/App.jsx:78-106 | some rule matches some observed attribute of `breeds[0]`; a candidate without a primary breed is never banned |
| `BanPredicate.CheckCatBanned` | src/App.jsx:78-106 | the nested loops with early `return true` compute exactly the ban predicate |
| `BanPredicate.MatchesSomeObservation` | src/App.jsx:94-102 | a rule matches some observed attribute iff it bans the breed field by field (token test for temperament, exact equality otherwise) |
| `BanPredicate.BannedIffSomeRuleBans` | src/App.jsx:93-105 | a candidate is banned iff it has a primary breed and some rule of the list bans it |
| `BanPredicate.NoBreedNeverBanned` | src/App.jsx:79-82 | a null candidate, or one with no `breeds` or an empty `breeds` array, is never banned |
| `BanPredicate.EmptyListBansNothing` | src/App.jsx:93-105 | with an empty ban list no candidate is banned |
| `BanPredicate.BanMonotone` | src/App.jsx:93-105 | if every rule of one list is also in another, being banned by the first implies being banned by the second |
| `BanPredicate.TemperamentRuleIff` | src/App.jsx:96-98 | a temperament rule `v` bans iff the primary breed's non-empty temperament has `v` as one of its `", "` tokens |
| `BanPredicate.SepRuleNeverMatches` | src/App.jsx:96-98 | appending a temperament rule whose value contains `", "` never changes the verdict |
| `BanPredicate.ExactRuleIff` | src/App.jsx:100-101 | a breed-name or origin rule `v` bans iff `v` is non-empty and exactly (case-sensitively) equals that field of `breeds[0]` |
| `BanPredicate.TemperamentChipBansOnlySingleToken` | src/App.jsx:188-188 | the rule the temperament chip creates (the whole string) bans its own cat iff the string has no `", "` |
| `BanPredicate.ExactChipBansItsCat` | src/App.jsx:187-189 | once the breed-name or origin chip's pair is in the list, the cat it was taken from is banned |
| `BanPredicate.CuriousPlayfulCat` | src/App.jsx:97-97 | for temperament "Curious, Playful" the rule "Playful" bans and "Play" does not |
| `Tokens.Split` | src/App.jsx:97-97 | `s.split(", ")`: the pieces between the left-to-right occurrences of the separator, at least one, the empty string giving one empty token |
| `Tokens.SplitJoin` | src/App.jsx:97-97 | `split(", ")` followed by `join(", ")` gives back the string, and no token contains the separator |
| `Tokens.SplitNoSep` | src/App.jsx:97-97 | a string without `", "` splits into itself alone |
| `Tokens.SplitCons` | src/App.jsx:97-97 | a separator-free prefix followed by `", "` splits off as the first token |
| `Tokens.SplitPair` | src/App.jsx:97-97 | two separator-free strings joined by `", "` split back into exactly those two |
| `Tokens.SepValueIsNoToken` | src/App.jsx:97-97 | a value containing `", "` is a token of no string |
| `Tokens.WholeStringIsToken` | src/App.jsx:97-97 | a string is one of its own tokens iff it contains no `", "` |
| `Tokens.CuriousPlayful` | src/App.jsx:97-97 | "Curious, Playful" splits into "Curious" and "Playful" |
| `BanList.Without` | src/App.jsx:119-119 | the filter leaves no copy of the pair and keeps exactly the other members |
| `BanList.Toggle` | src/App.jsx:114-125 | the clicked pair's membership is negated; every other pair's membership is unchanged |
| `BanList.ToggleMultiset` | src/App.jsx:116-123 | a present pair loses every occurrence, an absent pair gains exactly one, other pairs keep their counts |
| `BanList.ToggleKeepsOthers` | src/App.jsx:116-123 | with the clicked pair filtered out, the list is the same sequence before and after: the other entries keep their relative order |
| `BanList.ToggleAppends` | src/App.jsx:122-122 | adding an absent pair puts it at the end, after the unchanged old list |
| `BanList.ToggleTwiceRestores` | src/App.jsx:116-122 | clicking an absent pair twice restores the exact original list |
| `BanList.ToggleTwicePresent` | src/App.jsx:116-122 | clicking a present pair twice keeps the same members, with the pair moved to the end |
| `BanList.ToggleNoDuplicates` | src/App.jsx:116-122 | a click keeps a duplicate-free list duplicate-free |
| `BanList.SiameseExample` | src/App.jsx:114-125 | clicking "Siamese" on an empty list gives exactly that rule; a second click empties the list again |
| `Discovery.IsOk` | src/App.jsx:38-40 | `response.ok`: the status lies in 200-299; any other status fails the attempt |
| `Discovery.ProbeThrows` | src/App.jsx:47-49 | the diagnostic read throws exactly when the batch is non-empty and its first entry is null or has no `breeds` |
| `Discovery.FirstUnbanned` | src/App.jsx:53-53 | `find` stops at the first unbanned entry: every earlier entry is banned, and the entry it stops at is unbanned |
| `Discovery.Attempt` | src/App.jsx:38-66 | errors in source order (thrown, bad status, diagnostic read), then the first unbanned entry, with a null one counted as nothing found; a picked cat comes from an ok batch and is unbanned |
| `Discovery.AttemptPicks` | src/App.jsx:38-57 | an attempt settles on `c` iff the status is ok, the diagnostic read does not throw, and `c` is the first unbanned entry |
| `Discovery.BannedHeadNoProbe` | src/App.jsx:47-53 | a batch whose first entry is banned cannot make the diagnostic read throw |
| `Discovery.FullyBannedBatch` | src/App.jsx:53-58 | an ok batch whose entries are all banned finds nothing |
| `Discovery.NullEntryMasksLaterCats` | src/App.jsx:53-55 | a null entry after the first one, reached by `find`, makes the batch count as empty, whatever follows it |
| `Discovery.NullHeadIsMalformed` | src/App.jsx:47-49 | a null first entry of an ok batch makes the diagnostic read throw, so the attempt fails as malformed |
| `Discovery.RunFrom` | src/App.jsx:15-66 | a run from retry number `r` makes between 1 and `6 - r` requests |
| `Discovery.FetchRun` | src/App.jsx:15-75 | the whole `fetchCat()` from `retries = 0` over the list captured at the start: 1 to 6 requests, and a found cat is an unbanned entry of the last request's batch |
| `Discovery.RunTrace` | src/App.jsx:53-71 | every request before the last found nothing unbanned; the last decides the ending; giving up happens only at retry number 5 |
| `Discovery.AllFruitlessGivesUp` | src/App.jsx:58-65 | if no request finds anything, the run makes every remaining request and gives up |
| `Discovery.FailureStops` | src/App.jsx:68-71 | a failed request ends the run at once with its cause, with no further request |
| `Discovery.EveryBatchBannedGivesUp` | src/App.jsx:58-65 | if every batch is ok and fully banned, `fetchCat()` makes exactly 6 requests and ends exhausted |
| `Discovery.PicksSeventhWithoutRetry` | src/App.jsx:53-57 | with six banned entries before an unbanned seventh, the run takes the seventh with one request |
| `Discovery.EmptyListTakesFirst` | src/App.jsx:53-57 | with an empty ban list, a first entry with breed data is taken with one request |
| `CatApp.App.FetchCat` | src/App.jsx:15-75 | the ban list is unchanged; `isLoading` is false on exit; the request count and the new `currentCat`/`error` are those of `FetchRun` on the list captured at the start; exactly one of `currentCat` and `error` is set |
| `CatApp.App.HandleAttributeClick` | src/App.jsx:114-125 | `banList` becomes the toggled list, the chip's highlight flips, the other fields are unchanged, and a duplicate-free list stays duplicate-free |
| `CatApp.App.IsChipBanned` | src/App.jsx:131-131 | `banList.some(...)`: the pair is a member of the ban list |
| `CatApp.App.ChipState` | src/App.jsx:128-131 | no chip for an absent or empty value; otherwise highlighted iff the pair is in the ban list |
| `CatApp.App.constructor` | src/App.jsx:6-12 | the component starts with no cat, an empty ban list, not loading and no error |

## Left out

- The request itself is not modelled: the URL, the query parameters, the API-key header, `response.json()` and all `console` output. Each request's result is an input (`Outcome`). `Thrown` stands for every error raised before the search: a failed request, a body that does not parse, and a successful response whose JSON is not an array (then `data.find` is not a function, src/App.jsx:53).
- The exact text of the messages is not modelled. Only the kind of error is recorded (`UiError`), with its cause.
- React is not modelled: `useState`, the mount effect (a constructor followed by `FetchCat` plays its part) and `await` scheduling. Two runs that overlap are not modelled either. Neither is a click that changes the ban list while a run is waiting.
- The state of the screen between two retries is not modelled. A run is one atomic method; the loop sets `isLoading` and clears `error` at each attempt, but the model states only the final state.
- JSX rendering, CSS classes, the image `onError` placeholder and list keys are not modelled. They are UI only.
- `CatApp.App.FetchCat` models only the entry point `fetchCat()` with `retries = 0`, which is how the component calls it. The recursive calls' `retries` values are the loop counter and the parameter of `Discovery.RunFrom`. The method takes one outcome for each of the six possible requests.
- Non-record and non-string candidate data is outside the model's types: a breed entry is always a record, and its fields are `Option<string>`. In the source a null `breeds[0]` makes `isCatBanned` throw. A truthy non-string `temperament` makes it throw too, but only when a temperament rule is in the list, because only then does `.split` run (src/App.jsx:96-97). A truthy non-string `name` or `origin` cannot throw: it is compared with `===` (src/App.jsx:100) and simply never matches.
- A rule's type is an enumeration of the three types the screen creates, not a free string.
