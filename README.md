# LinkedIn lead extraction: a Dafny model of its core

This project models the logic of a lead-generation tool. The tool searches LinkedIn for people matching a keyword. For each profile found it splits the display name, looks up the employer's domain, and guesses a deliverable email address by trying seven name patterns against a deliverability check. The modelled parts are:

- `get_valid_email` (scraper.py): seven address patterns built in a fixed order; the first one the external check accepts is returned.
- `search_profiles` (scraper.py): the query URL, and the loop that reads result cards, scrolls, and stops when `limit` profiles are held or the page height stops changing.
- `run_extraction` (app.py): the per-profile body (name split, domain lookup, address guess, lead row) and the loop around it. The loop swallows one profile's exception and goes on with the next.
- `send_email_campaign` (app.py): the `company` value substituted into the message template.

Everything the program gets from the outside world is a parameter:

- The browser is `browse: string -> Page`. A `Page` is the height read before the loop plus a finite list of snapshots. Each snapshot holds the result cards read on one turn and the height read after that turn's scroll.
- The deliverability check `validate_email(address, verify=True)` is `verify: string -> Verdict`. A `Verdict` is `Accepted`, `Rejected` (a falsy answer) or `Raised` (an exception, which the source swallows).
- `extract_company_domain` is `domainOf: string -> Option<string>`.
- A per-profile exception that escapes the loop body before the row is appended is `interrupted: nat -> bool`, indexed by the profile's position.

Modules:

- `Wrappers`: `Option`.
- `PyStr`: the Python string and list operations the code relies on, over `seq<char>`:
  - `str.strip` with Python's `isspace` character set;
  - `str.lower`, ASCII letters only;
  - `split(sep, 1)`, `split(sep)[0]`, `startswith`;
  - `replace(" ", "%20")`;
  - the slice `xs[:n]`, including negative `n`.
- `EmailGuess`: `get_valid_email`.
- `ProfileSearch`: `search_profiles`. It also gives an independent description of the result: the first `limit` distinct admissible profiles, in the order first seen, among the snapshots read before the height stopped changing.
- `Extraction`: the `run_extraction` loop, its composition with the search, and the template fields.

Two details of the code shape the model:

- Profiles are deduplicated by the whole `{"name", "url"}` record (scraper.py:304-305), not by link alone.
- Names are only lower-cased before the patterns are built (app.py:83). They are not reduced to alphanumeric characters.

## Model

| member | source | states |
|---|---|---|
| EmailGuess.Candidates | scraper.py:374-382 | the seven patterns, in source order: first.last, firstlast, f+last, first, last.first, lastfirst, last+f; each ends in `@domain`, and the fourth is `first@domain` |
| EmailGuess.FirstAccepted | scraper.py:384-389 | the position found is accepted and every earlier address was turned down (rejected or raised); no position means none was accepted |
| EmailGuess.GuessedEmail | scraper.py:369-391 | what `get_valid_email` returns: nothing for an empty domain, otherwise the first of the seven patterns the check accepts; its meaning is stated by `GuessedEmailSound`, `GuessedEmailNone` and `EarliestAcceptedWins`, and `GetValidEmail` is proved to compute it |
| EmailGuess.EmptyDomainGivesNone | scraper.py:371-372 | an empty domain yields `None` |
| EmailGuess.GuessedEmailSound | scraper.py:374-387 | a returned address is one of the seven patterns; the check accepted it; every pattern before it was turned down; it ends with `"@" + domain` |
| EmailGuess.GuessedEmailNone | scraper.py:371-391 | `None` comes back exactly when the domain is empty or the check accepted none of the seven patterns |
| EmailGuess.EarliestAcceptedWins | scraper.py:384-389 | an accepted pattern whose predecessors were all turned down is the answer, whatever the later patterns would get |
| EmailGuess.GetValidEmail | scraper.py:369-391 | the loop returns the specified answer; an empty domain consults the check on nothing; the addresses consulted are a prefix of the patterns, in order; a returned address is the last one consulted; `None` means all seven were consulted; every consulted address before the answer was turned down |
| PyStr.TrimStart | scraper.py:300 | removes exactly the leading whitespace: a suffix of the input, the removed part all whitespace, the first remaining character not whitespace |
| PyStr.TrimEnd | scraper.py:300 | removes exactly the trailing whitespace: a prefix of the input, the removed part all whitespace, the last remaining character not whitespace |
| PyStr.Strip | app.py:74-75 | the result has no whitespace at either end and is no longer than the input |
| PyStr.StripSurrounded | app.py:74-75 | stripping whitespace-trimmed text wrapped in whitespace gives back that text |
| PyStr.Lower | app.py:83 | same length; each upper-case ASCII letter becomes its lower-case letter (code point plus 32); every other character is unchanged, so no upper-case ASCII letter is left |
| PyStr.IndexOf | scraper.py:301 | the first occurrence of the character, or none exactly when the character is absent |
| PyStr.SplitOnce | app.py:73 | one piece exactly when the separator is absent, and then it is the whole string; otherwise the first piece has no separator, and the two pieces joined by the separator give the string back |
| PyStr.SplitOnceOfJoin | app.py:73 | splitting `a + sep + b` with `sep` not in `a` gives `[a, b]` |
| PyStr.BeforeFirst | scraper.py:301 | a prefix without the separator that is either the whole string or stops just before the first separator |
| PyStr.EncodeSpaces | scraper.py:286 | no space is left; the length grows by two per space |
| PyStr.DecodeEncodeSpaces | scraper.py:286 | decoding `%20` gives back a text that had no `%` of its own |
| PyStr.EncodeSpacesChar | scraper.py:286 | a single space becomes `%20`; any other character, `%` included, is kept unchanged |
| PyStr.EncodeSpacesAppend | scraper.py:286 | the encoding of a concatenation is the concatenation of the encodings, so with `EncodeSpacesChar` it fixes the encoding of every keyword, `%` or not |
| PyStr.SliceTo | scraper.py:320 | Python's `xs[:n]`: a prefix of `xs`; of length `n` when `0 <= n <= len(xs)`; all of `xs` when `n` is larger; `len(xs) + n` elements, at least zero, when `n` is negative |
| ProfileSearch.SearchUrl | scraper.py:286-287 | the URL is the people-search base followed by the keyword with every space replaced by `%20` |
| ProfileSearch.SearchQueryRoundTrip | scraper.py:286-287 | the query has no space, and reads back as the keyword when the keyword has no `%` |
| ProfileSearch.Admit | scraper.py:298-304 | a kept profile has a non-empty stripped name and a `?`-free URL starting with `https://www.linkedin.com/in/`, and that URL is a prefix of the card's `href` |
| ProfileSearch.AdmitMeaning | scraper.py:298-304 | a card is kept exactly when its anchor has an `href`, its stripped text is non-empty and the `href` cut at the first `?` starts with the profile prefix; the profile is that stripped text and that cut URL |
| ProfileSearch.Step | scraper.py:303-308 | one card of the inner loop: nothing once `limit` profiles are held, otherwise `AddAdmitted`; `StepOfTake` states its meaning |
| ProfileSearch.AddAdmitted | scraper.py:303-306 | the card's profile appended unless it yields none or is already held; `ExtendPushAdmitted` relates it to the reference definition |
| ProfileSearch.AddCards | scraper.py:297-310 | the inner `for card in cards` loop with its `break`; `AddCardsIsCappedExtend` states its meaning and `ReadCards` is proved to compute it |
| ProfileSearch.Gather | scraper.py:294-318 | the outer read-scroll-compare loop; `GatherIsCappedDistinct` states its meaning |
| ProfileSearch.SearchResult | scraper.py:283-320 | what `search_profiles` returns for a page: the loop's list sliced to `limit`; `SearchResultIsFirstDistinct` and `SearchResultProperties` state its meaning and `SearchProfiles` is proved to compute it |
| ProfileSearch.Take | scraper.py:294 | the cap "at most `n`" used by the reference description of the result (the loop stops once `limit` profiles are held): the first `min(n, len)` elements, none when `n <= 0` |
| ProfileSearch.TakeIsSliceTo | scraper.py:320 | for a non-negative `n` the cap equals Python's `xs[:n]` |
| ProfileSearch.HeightStop | scraper.py:312-318 | the number of snapshots read is at most their count, and at least one when there is any |
| ProfileSearch.HeightStopMeaning | scraper.py:312-318 | reading stops at the first snapshot whose scroll leaves the height unchanged, or at the end of the page |
| ProfileSearch.AdmittedAreAdmissible | scraper.py:297-306 | every profile taken from a batch of cards is admissible |
| ProfileSearch.StreamIsAdmissible | scraper.py:294-306 | every profile taken from a list of snapshots is admissible |
| ProfileSearch.ExtendKeepsPrefix | scraper.py:305-306 | appending only new profiles never changes the profiles already held |
| ProfileSearch.ExtendAppend | scraper.py:294-306 | appending new profiles from two lists one after the other is appending from their concatenation |
| ProfileSearch.ExtendNoDuplicates | scraper.py:305-306 | appending only profiles not already held keeps the list free of repeats and holds exactly the old and the offered profiles |
| ProfileSearch.TakeExtendTake | scraper.py:307-308 | capping at `limit` before appending more loses nothing that capping afterwards would keep |
| ProfileSearch.StepOfTake | scraper.py:297-308 | one card handled by the capped loop is the capped result of offering that card |
| ProfileSearch.AddCardsIsCappedExtend | scraper.py:297-310 | the card loop gives the first `limit` of the held profiles followed by the new admissible ones |
| ProfileSearch.AddCardsWhenFull | scraper.py:307-308 | once `limit` profiles are held, further cards change nothing |
| ProfileSearch.AddCardsSplit | scraper.py:307-308 | when `limit` is reached part-way through the cards, the cards after that point change nothing |
| ProfileSearch.CappedDistinctSettled | scraper.py:294 | once `limit` distinct profiles are seen, later profiles do not change the first `limit` |
| ProfileSearch.CappedDistinctStep | scraper.py:294-310 | reading a batch of cards from the first `limit` distinct profiles of what was seen gives the first `limit` distinct profiles of what was seen plus the batch |
| ProfileSearch.GatherOnce | scraper.py:294-318 | one turn of the outer loop: read the cards, then stop if the height is unchanged, otherwise go on with the new height |
| ProfileSearch.GatherIsCappedDistinct | scraper.py:294-318 | the outer loop gives the first `limit` distinct admissible profiles of everything shown up to the height stop |
| ProfileSearch.SearchResultIsFirstDistinct | scraper.py:283-320 | the search result equals the independent description: the first `limit` distinct admissible profiles, in the order first seen, among the snapshots read before the height stopped changing |
| ProfileSearch.SearchResultProperties | scraper.py:294-320 | the result has no repeated `{name, url}` pair, holds at most `limit` profiles, each of them admissible and shown on a snapshot read before the height stop, and, when it holds fewer than `limit`, every admissible profile shown up to the height stop |
| ProfileSearch.ReadCards | scraper.py:297-310 | the imperative card loop, with its early `break`, computes the specified card step |
| ProfileSearch.SearchProfiles | scraper.py:283-320 | the imperative read-scroll loop returns the specified result, which has no duplicates, holds at most `limit` profiles and only admissible ones |
| Extraction.SplitNameAtFirstSpace | app.py:73-75 | a name with a space splits at its first space into the stripped parts on either side |
| Extraction.SplitNameWithoutSpace | app.py:73-75 | a name without a space is all first name, and the last name is empty |
| Extraction.SplitName | app.py:73-75 | `name.split(" ", 1)` with each part stripped, the last name empty without a space; `SplitNameAtFirstSpace` and `SplitNameWithoutSpace` state its meaning |
| Extraction.LookupAttempted | app.py:82 | the gate `domain and first and last`: a present, non-empty domain and non-empty first and last names |
| Extraction.LeadFor | app.py:72-93 | the row recorded for one profile, if any; `LeadForMeaning` states its meaning and `LeadForProfile` is proved to compute it |
| Extraction.LeadForMeaning | app.py:78-93 | a row is recorded exactly when the domain, first and last names are non-empty and the lookup on the lower-cased names returned an address; the row copies the profile name and URL, the domain and the original-case names; its address is the one `get_valid_email` returned for the lower-cased names, so an accepted pattern at that domain |
| Extraction.LeadForKeepsProfile | app.py:86-89 | a row carries the name and URL of the profile it was made from |
| Extraction.SomesSound | app.py:85-93 | the rows kept are among the per-profile outcomes, and there are no more of them than profiles |
| Extraction.SomesComplete | app.py:85-93 | every per-profile row that was produced is kept |
| Extraction.SomesPrefix | app.py:69-93 | handling one more profile appends its row, if any, and changes nothing before it |
| Extraction.SomesOrdered | app.py:69-93 | rows keep the order of the profiles they come from |
| Extraction.Outcomes | app.py:69-103 | one outcome per profile |
| Extraction.Leads | app.py:69-103 | the `leads` list: the rows of the profiles that were not interrupted, in profile order; `LeadsSound`, `LeadsComplete` and `LeadsDistinct` state its meaning and `RunExtraction` is proved to compute it |
| Extraction.LeadsSound | app.py:69-103 | every row comes from a profile whose body was not interrupted; there are at most as many rows as profiles |
| Extraction.LeadsComplete | app.py:69-103 | a profile whose body was not interrupted and whose lookup found an address has its row, whatever happened to the other profiles |
| Extraction.LeadsDistinct | app.py:69-93 | profiles without repeats give rows without a repeated (Name, LinkedIn) pair |
| Extraction.LeadForProfile | app.py:72-93 | the imperative loop body computes the specified row for one profile; the check is consulted on no address unless the domain and both names are present; otherwise on a prefix of the patterns of the lower-cased names, in order, the last one being the row's address, and on all seven when no row comes back |
| Extraction.RunExtraction | app.py:69-103 | the imperative loop, skipping interrupted profiles, builds the specified list of rows |
| Extraction.Extract | app.py:55-103 | search plus extraction: at most `limit` rows, no repeated (Name, LinkedIn) pair, each LinkedIn URL a profile URL and each address at the row's company domain |
| Extraction.FieldsFor | app.py:159-164 | the template receives the row's name and names unchanged, and a `company` that contains no `.` and is the domain up to its first `.` |

## Left out

- Login, retries with random sleeps, stealth JavaScript and the Chrome options (scraper.py:33-281): browser automation with timing and randomness.
- The `time.sleep` calls in `search_profiles`: timing only.
- `extract_company_domain` (scraper.py:324-367): page navigation, element lookup and `tldextract`, a foreign library. It is the parameter `domainOf`, a function of the profile URL only. In the source the answer also depends on the browser's state.
- `validate_email` internals (DNS and SMTP probing): the parameter `verify`.
- The Streamlit UI, the progress bar (a float, app.py:96), the interim dataframe, pandas and CSV export, and SMTP sending: UI, floating point, I/O and the network.
- `template.format` beyond the `company` value (app.py:159-164): Python format-string semantics.
- ProfileSearch.SearchProfiles: the outer `except Exception` that re-raises a wrapped error (scraper.py:321-322) is not modelled. `browse` never fails.
- ProfileSearch.SearchProfiles: the page is a finite list of snapshots. Running out of snapshots stands for a page that stopped growing. A page that keeps growing before `limit` profiles are found, on which the source would never stop, is not modelled.
- Extraction.RunExtraction: an exception raised after the row is appended (in the progress or dataframe update, app.py:95-101) leaves the row in place and the loop goes on. That is the model's `interrupted(i) == false` and gives the same `leads` list; what the model does not capture is the error message shown for it.
- PyStr.Lower: maps only the ASCII letters `A`-`Z`. Python's `str.lower` also lower-cases non-ASCII letters (and can change the length), which would need the Unicode case tables.
- Extraction.LeadFor: uses PyStr.Lower, which maps only ASCII letters. Python's `str.lower` also folds non-ASCII letters.
- EmailGuess.GetValidEmail: requires a non-empty `first` when the domain is non-empty. In the source `first[0]` is evaluated outside the `try` and would raise `IndexError`. The only caller (app.py:82-83) never passes an empty `first`.
- ProfileSearch.SearchQueryRoundTrip: the round trip is stated only for keywords without `%`. A keyword that already contains `%20` cannot be told apart after encoding.
