# Creator-roster harvester: decision logic in Dafny

The harvester (`app/main.rb`) drives a headless browser over a live-stream
listing. It scrolls the listing until it stops growing, then turns the first
50 creator cards into records that have a `/watch/` link. For each record it
reads the chat roster of the watch page, loading it up to three times in all
while the page shows no member elements. It alerts on configured special usernames and
writes one row per record.

This project models the decision logic of that script. The browser is
replaced by plain input data:

- the sequence of page heights the scroll loop would measure;
- the list of cards, each with the outcome of its name and link lookups;
- for each watch page, the member elements shown after each navigation.

Each loop of the script is a Dafny method with loop invariants. Each method is
proved equal to a specification function, and lemmas state the properties the
script relies on.

Modules:

- `Sequences`: Option, order-preserving filter, dedup by key, subsequence.
- `Text`: substring test, `join('|')` and a splitter that undoes it.
- `PageExpander`: the scroll loop.
- `FieldReader`: the three-source member-name fallback.
- `Directory`: card selection.
- `Roster`: the roster retry loop and roster cleanup.
- `Watchlist`: the special-username check.
- `Harvest`: the per-record loop and the whole run.

Three behaviours of the code are worth stating, because they are easy to
misread:

- **Name fallback.** All three name sources are read inside one
  `begin ... rescue` (app/main.rb:93-102). So a raise while reading
  `innerText` yields "" even when the visible text was already non-empty
  (`Member.Failed`).
- **Card cap.** The 50-card cap is applied to the raw cards before the
  `/watch/` filter (app/main.rb:52, 67). So fewer than 50 records can come
  back even when more than 50 cards have watch links (`CapBeforeFilter`,
  `CapBeforeFilterExample`).
- **Retry stop.** A roster page that shows elements ends the retry loop even
  if every name is then filtered away (`RenderedButEmptyIsFinal`).

## Model

| member | source | states |
|---|---|---|
| `PageExpander.ScrollPage` | app/main.rb:28-35 | the loop issues exactly k scroll commands, where k is the least i ≥ 1 with heights[i] = heights[i-1]; it reads k+1 measurements; it needs such a repeat to stop |
| `PageExpander.ScrollsNeeded` | app/main.rb:29-35 | the stop point is None exactly when no two consecutive heights are equal (the loop would never end); otherwise it is the least settling index |
| `PageExpander.FirstSettleFrom` | app/main.rb:29-35 | the first settling point at or after a given scroll is settling, and none before it is; None means none at all from there on |
| `PageExpander.ThreeScrollsExample` | app/main.rb:28-35 | heights 1000, 1800, 2400, 2400 take three scrolls |
| `FieldReader.FirstUsable` | app/main.rb:98 | `find { x && !x.empty? } \|\| ""` returns "" exactly when no candidate is present and non-empty; otherwise it returns the first such candidate |
| `FieldReader.MemberName` | app/main.rb:93-102 | the name is "" exactly when a lookup raised or none of the three texts is present and non-empty; otherwise it is one of the three texts |
| `FieldReader.MemberNameFallback` | app/main.rb:93-102 | a raised lookup gives ""; otherwise the visible text if non-empty, else `innerText` if present and non-empty, else `textContent` if present and non-empty, else "" |
| `FieldReader.ThirdSourceExample` | app/main.rb:95-98 | visible text and `innerText` empty, `textContent` "Zed" gives "Zed" |
| `Directory.Examined` | app/main.rb:52 | `first(50)` is a prefix of the cards of length min(50, number of cards) |
| `Directory.Resolve` | app/main.rb:53-69 | a card gives a record exactly when its link lookup succeeded and the link contains `/watch/`; the record carries that link and the card's name, or "Unknown" when the name lookup raised |
| `Directory.Candidates` | app/main.rb:52-70 | the loop's `records` has no more entries than there are cards, and each entry is what some card resolves to |
| `Directory.SelectCreators` | app/main.rb:52-72 | what `scrape_creators` returns has at most min(50, number of cards) records with pairwise distinct URLs |
| `Directory.ScrapeCreators` | app/main.rb:42-75 | the loop over the first 50 cards followed by `uniq` by URL returns `SelectCreators(cards)`: at most 50 records, at most one per card, distinct URLs, every URL containing `/watch/` |
| `Directory.SelectedBound` | app/main.rb:52 | at most min(50, number of cards) records come back |
| `Directory.SelectedAreWatchRecords` | app/main.rb:53-69 | every record's URL contains `/watch/` and is the link of one of the first 50 cards; its name is that card's name, or "Unknown" where the name lookup raised |
| `Directory.SelectedComplete` | app/main.rb:67-72 | every one of the first 50 cards with a present `/watch/` link has its URL among the records |
| `Directory.CandidatesComplete` | app/main.rb:67-69 | every card that resolves contributes its record to `records` |
| `Directory.SelectedDistinct` | app/main.rb:72 | no two records share a URL |
| `Directory.SelectedFollowCards` | app/main.rb:52-72 | stated over the cards: record j is what the first of the first 50 cards linking to its URL resolves to (so that card's name wins over later cards with the same link), and records come in the order of those cards |
| `Directory.CandidateFirstCard` | app/main.rb:52-70 | the first entry of `records` with a given URL is the record of the first card linking to that URL |
| `Directory.CandidateOrder` | app/main.rb:52-70 | URLs that first appear earlier in `records` are first linked by earlier cards |
| `Directory.SelectedFirstOccurrence` | app/main.rb:72 | each record is the first candidate with its URL, and records keep the order of those first occurrences |
| `Directory.SelectedIdempotent` | app/main.rb:72 | applying the URL dedup again changes nothing |
| `Directory.CapBeforeFilter` | app/main.rb:52 | cards after the 50th never affect the result: the cap comes before the `/watch/` filter |
| `Directory.CapBeforeFilterExample` | app/main.rb:52-69 | 50 cards without a link followed by one watch card give no record |
| `Directory.NoWatchLinkNoCandidates` | app/main.rb:59-69 | cards whose link lookup raised contribute nothing |
| `Directory.WatchFilterExample` | app/main.rb:53-69 | a `/profile/<id>` link (id without a 'w') is dropped; any link with `/watch/` in it is kept, named "Unknown" when the name lookup raised |
| `Directory.DedupByUrlExample` | app/main.rb:72 | records with URLs A, A, B, C, B dedup to A, B, C |
| `Text.Contains` | app/main.rb:67 | `include?` holds exactly when the segment occurs at some position of the link |
| `Text.MissingCharNotContained` | app/main.rb:67 | a link lacking one of the segment's characters does not contain it |
| `Text.Join` | app/main.rb:226 | `join('\|')` gives "" for no names and the name itself for one; with two or more names the result contains '\|', and every character comes from a name or is '\|' |
| `Text.SplitJoin` | app/main.rb:226 | splitting a `join('\|')` at '\|' gives back a non-empty roster whose names contain no '\|' |
| `Roster.ScrapeChatMembers` | app/main.rb:80-119 | the retry loop returns exactly `ChatMembers`: the cleaned roster of the first navigation showing elements, with that navigation's index + 1 navigations; or [] after `max_attempts` navigations |
| `Roster.Names` | app/main.rb:92-103 | `map` gives one name per member element, "" exactly where the element's lookup raised or had no usable text |
| `Roster.CleanRoster` | app/main.rb:105-106 | `reject!` then `uniq!` never lengthens the list; its partner `CleanRosterSpec` states what it keeps |
| `Roster.ChatMembers` | app/main.rb:84-118 | the outcome of the retry loop navigates at most `max_attempts` times, and at least once whenever it returns a member |
| `Roster.FirstRenderedFrom` | app/main.rb:84-91 | the chosen navigation is below `max_attempts` and shows elements, and every earlier one shows none; None means all navigations up to the limit show none |
| `Roster.FirstRenderedIs` | app/main.rb:84-109 | a navigation that shows elements after only empty ones is the one the loop stops at |
| `Roster.RetryBound` | app/main.rb:84 | the loop navigates at most `max_attempts` times, and at least once when `max_attempts` > 0 |
| `Roster.StopsAtFirstRendered` | app/main.rb:88-109 | the first navigation with a nonzero element count is final: navigations = its index + 1, and the roster comes from that page |
| `Roster.ExhaustedIsEmpty` | app/main.rb:84-118 | if every attempt sees zero elements, the result is [] after exactly `max_attempts` navigations |
| `Roster.RenderedButEmptyIsFinal` | app/main.rb:91-109 | a page whose only element is unreadable ends the loop after one navigation with an empty roster; the later page naming "Bob" is never loaded |
| `Roster.ThirdAttemptExample` | app/main.rb:84-116 | empty, empty, then a roster takes three navigations and returns that roster |
| `Roster.CleanRosterSpec` | app/main.rb:105-106 | the roster has no "", not the creator's name, no duplicates, and contains exactly the raw names that are neither |
| `Roster.CleanRosterOrder` | app/main.rb:106 | roster names appear in the order of their first occurrence among the raw names |
| `Roster.CleanRosterSnoc` | app/main.rb:105-106 | one more raw name either appends itself, when kept and new, or leaves the roster unchanged |
| `Roster.CleanRosterExamplePrefix` | app/main.rb:105-106 | Alice, "", Alice clean to Alice |
| `Roster.CleanRosterExample` | app/main.rb:105-106 | Alice, "", Alice, Bob, CreatorX with creator CreatorX give Alice, Bob |
| `Roster.ChatMembersClean` | app/main.rb:105-118 | whatever the pages show, the returned roster has no "", not the creator's name, and no duplicates |
| `Watchlist.CheckWatchlist` | app/main.rb:217-223 | the loop emits one alert per configured special username present in the roster, in configured order, each naming the record's creator and URL |
| `Watchlist.WatchedPresent` | app/main.rb:218-219 | the usernames alerted for a record are all in its roster, and there are no more of them than configured usernames |
| `Watchlist.AlertsFor` | app/main.rb:219-221 | one alert per alerted username, in the same order, each naming the record's creator and URL |
| `Watchlist.AlertedIffPresent` | app/main.rb:218-219 | a username is alerted exactly when it is configured and in the roster, as many times as it is configured |
| `Watchlist.AlertsInConfiguredOrder` | app/main.rb:218 | the alerted usernames form a subsequence of the configured list |
| `Watchlist.BothWatchedExample` | app/main.rb:217-223 | watchlist w1, w2 against roster w1, x, w2 alerts w1 then w2 |
| `Harvest.ProcessRecords` | app/main.rb:212-228 | the per-record loop writes one row per record, in order, with the roster joined by '\|', and emits the watchlist alerts record by record |
| `Harvest.Rows` | app/main.rb:212-226 | there is one row per record, and the i-th row is the i-th record's name, URL and joined roster |
| `Harvest.AllAlerts` | app/main.rb:212-223 | every alert of the run names a record's creator and URL together with a username in that record's roster |
| `Harvest.RowsRoundTrip` | app/main.rb:226 | a row's member column splits back into its roster, when the roster is non-empty and no name contains '\|' |
| `Harvest.AlertsAreJustified` | app/main.rb:212-223 | every alert names a configured username found in the roster of a record, with that record's name and URL |
| `Harvest.RunHarvest` | app/main.rb:204-229 | the run scrolls, selects creators and processes them; it writes one row per selected creator, so at most 50 rows and at most one per card |
| `Sequences.Filter` | app/main.rb:105 | filtering keeps only elements satisfying the test and never grows the list |
| `Sequences.FilterMembership` | app/main.rb:105 | an element survives filtering exactly when it was there and passes the test |
| `Sequences.FilterCount` | app/main.rb:218-219 | filtering keeps each passing element as often as it occurs |
| `Sequences.FilterIsSubsequence` | app/main.rb:218 | filtering preserves relative order |
| `Sequences.FirstIndex` | app/main.rb:72 | the first index of a key holds that key, and no earlier element does |
| `Sequences.Dedup` | app/main.rb:72 | dedup never grows the list |
| `Sequences.DedupKeys` | app/main.rb:72 | dedup loses no key and invents none |
| `Sequences.DedupDistinct` | app/main.rb:72 | after dedup no two elements share a key |
| `Sequences.DedupFirstOccurrence` | app/main.rb:72 | each kept element is the first occurrence of its key, in first-occurrence order |
| `Sequences.DedupOfDistinct` | app/main.rb:106 | a list whose keys are already distinct is left unchanged |
| `Sequences.DedupIdempotent` | app/main.rb:106 | deduplicating twice equals deduplicating once |

## Left out

- `setup_driver` and every real Selenium call (app/main.rb:12-20, 45, 48, 86-88). These are browser I/O; the model takes their results as input sequences.
- `strip` is not modelled: card names, card links and the three member texts are taken as already stripped.
- Every `sleep` (app/main.rb:27, 31, 87, 112, 227). They only affect timing.
- `send_email`, `send_user_notification`, `send_completion_email` and `send_error_notification` (app/main.rb:124-190). These are SMTP transport and message templating. An alert in the model is the arguments `send_user_notification` would receive.
- `execution_time` (app/main.rb:170). It is floating-point arithmetic on clock readings.
- Every `Time.now`/`strftime` timestamp (app/main.rb:132, 196-200, 225). These depend on the clock, so the timestamp column of a row is left out.
- `ENV.fetch` configuration (app/main.rb:43, 217). The listing URL is implicit in the cards, and the special usernames are a parameter.
- Writing the CSV file and its header (app/main.rb:209-210). A row is modelled as its name, URL and joined member column.
- The `rescue`/`ensure` around the run and `driver.quit` (app/main.rb:235-241). They only handle exceptions raised by browser, file or mail I/O, which the model does not raise.
- The `puts` logging throughout the file.
- `ScrollPage`, `RunHarvest`: these require two consecutive heights to be equal. The source loop has no cap and never stops on a page that keeps growing; `ScrollsNeeded` returns None for exactly those inputs.
- `Roster.ScrapeChatMembers`: a navigation beyond the pages given in the input shows no elements.
- `execute_script` returning a value that is not a string is not modelled: `textContent` is a string or nil.
