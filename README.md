# tootbot, modelled in Dafny

tootbot reposts the entries of an RSS feed to a Mastodon account. The feed is
either a Twitter account read through the nitter.net gateway or any feed URL.
This project models the `toot` operation of `tootbot.py` and proves
properties of it:

- the main loop over the feed's entries, newest entry last;
- the ledger of entries already posted (the `tweets` table), which the loop
  queries before every post and appends to after a post that returned an id;
- the age window;
- the text pipeline: retweet attribution, short-link resolution, trash removal,
  the "Source:" footer and the tag block;
- picture extraction and upload.

Everything the script asks of the outside world is a function parameter, an
*oracle*: the feed parser, the picture download, the media upload, the
redirect probe and the status post. Every oracle but the feed parser either
answers `Ok(value)` or `Raised`; the feed parser always answers a list of
entries. `Raised` stands for a Python exception that nobody catches, which
ends the run; the ledger keeps every row written before it. The clock is the
parameter `clock`: `clock(n)` is what the run's `n`-th call of `datetime.now()`
returns, counting from 0, in microseconds, the resolution of `datetime.now()`.
The loop reads it once per visited entry, so every entry's age is measured
against a reading of its own. An entry's `published` is in whole seconds,
because a `struct_time` has no fraction.

Modules, in dependency order:

- `Outcomes` (outcomes.dfy): `Option` and `CallResult`.
- `Strings` (strings.dfy): `str.replace`, the ASCII part of `str.lower`, and
  `str.join` with its inverse `Split`.
- `Patterns` (patterns.dfy): the three regular expressions of the script.
  Each is a literal, in which `.` matches any character but a line feed,
  followed by a greedy run of characters outside a stop set. They come with
  `re.search` (leftmost match) and `re.finditer` (left to right; the scan
  resumes at the end of each match).
- `Toots` (text.dfy): how an entry becomes the text of a post.
- `Media` (media.dfy): `_get_pictures`, as a specification function and as
  the loop that computes it.
- `Dedup` (ledger.dfy): the ledger rows, and the `Ledger` class whose
  `records` the loop appends to.
- `Publisher` (publisher.dfy): the loop of `main`.
  - `Step` and `Visit` give the loop as a fold, newest entry last.
  - `RunSpec` is a whole run.
  - `Run` is the imperative loop over a `Ledger`, proved equal to `RunSpec`;
    `Turn` is its body, proved equal to `Step`.
  - The `Run…` lemmas are proved for `RunWith` with any post preparation
    `prepare`, so they hold for `RunSpec` in particular. Their properties do
    not depend on what the text pipeline produces.

A behaviour of the script that the model makes explicit
(`Toots.RetweetProbesProfileLink`): on a retweet, the title starts with
`RT https://nitter.net/<author>`. The first URL-like token is therefore this
profile link, glued across the line feed to the first word of the original
title. That token is what gets probed, so a short link in a retweeted title is
never resolved.

## Model

| member | source | states |
|---|---|---|
| Strings.ReplaceAbsent | tootbot.py:105 | `str.replace` returns a text in which the pattern does not occur unchanged |
| Strings.ReplaceBySelf | tootbot.py:105 | replacing a pattern by itself changes nothing |
| Strings.ReplaceLength | tootbot.py:116 | a replacement no shorter than the pattern never shortens the text; one no longer never lengthens it |
| Strings.ReplaceUnchangedIff | tootbot.py:105 | `str.replace` returns its input exactly when the pattern does not occur or the replacement equals the pattern (both directions) |
| Strings.ReplaceCopiesPrefix | tootbot.py:119 | while the output of a replacement shows only pattern characters, it is a verbatim copy of the input |
| Strings.ReplaceAround | tootbot.py:116 | `str.replace` works separately on both sides of a character the pattern does not hold, because no occurrence can span it |
| Strings.ReplaceLeavesNone | tootbot.py:119 | a replacement sharing no character with the pattern leaves no occurrence of the pattern |
| Strings.LowerConcat | tootbot.py:163 | lower-casing distributes over concatenation |
| Strings.SplitJoin | tootbot.py:202 | splitting `sep.join(parts)` on `sep` gives `parts` back when no part contains `sep` |
| Patterns.RunEnd | tootbot.py:89 | the greedy run `[^…]*` covers only characters outside the stop set and ends at a stop character or at the end of the text |
| Patterns.Search | tootbot.py:100 | `re.search` finds a match at the leftmost position where the literal matches, extended by the maximal run; it finds none exactly when the literal matches nowhere |
| Patterns.FirstToken | tootbot.py:113-115 | `m.group(0)` is the text of the match at the leftmost index where the literal matches, running to the end of the greedy run; it starts with the literal, continues with no stop character and occurs in the text; there is no match exactly when the literal occurs nowhere |
| Patterns.FindAll | tootbot.py:88-89 | `re.finditer` yields matches in textual order that do not overlap |
| Patterns.FindAllCovers | tootbot.py:88-89 | no match is skipped: every position where the literal matches lies inside a reported match |
| Patterns.AllTokens | tootbot.py:88-90 | each yielded text is a match found in the text; there are none exactly when the literal occurs nowhere |
| Patterns.AllTokensInOrder | tootbot.py:88-94 | the yielded texts come in textual order, at increasing positions that do not overlap; each runs from the literal to the end of the greedy run; no match is skipped, since every index where the literal matches lies inside a yielded text; so one picture id is appended per link, in the order the links appear in the summary |
| Toots.ResolveSource | tootbot.py:139-145 | a source starting with `http` is read as a feed and binds no account; any other source is a handle that binds the account and whose feed `https://nitter.net/<handle>/rss` is read |
| Toots.AttributionIff | tootbot.py:163-165 | the title gains a prefix exactly when the source is a non-empty handle whose `(@handle)` differs from the author ignoring case; that prefix is the line `RT https://nitter.net/<author>`; the title always ends the result |
| Toots.RetweetIgnoresCase | tootbot.py:163 | handles equal up to case attribute the same entries, and the bound account's own entries are never attributed |
| Toots.ProfileLinkFirst | tootbot.py:100 | in a text starting with `RT https://nitter.net/`, the first URL-like token starts with the gateway address |
| Toots.RetweetProbesProfileLink | tootbot.py:163-170 | on a retweet, the token `_replace_short_links` probes is the attribution line's profile link |
| Toots.ReplaceShortLinks | tootbot.py:98-106 | it raises exactly when a token exists and its probe raises or answers a redirect without `Location`; otherwise the text changes exactly when the probe redirects the first token elsewhere, and then every occurrence of that token is replaced by the `Location` header |
| Toots.RemovePicLink | tootbot.py:113-116 | the text changes exactly when a `pic.twitter.com` token exists; then every occurrence of the first token is replaced by a space, as `str.replace` does, and a token without spaces is left nowhere in the result |
| Toots.RemovePicLinkKeepsRest | tootbot.py:113-116 | only the first token is removed: past a separator the token does not hold, a rest of the title without that token, such as a second picture link, is kept verbatim |
| Toots.RemoveTitleTrash | tootbot.py:109-119 | the picture short link is removed first, as `RemovePicLink` states, then every truncation artifact is replaced by a space; no artifact is left; a text with neither a picture link nor an artifact is unchanged |
| Toots.TagBlock | tootbot.py:201-204 | the block is empty exactly when there are no tags, and otherwise starts with a line feed |
| Toots.TagBlockRoundTrip | tootbot.py:202 | the tags can be read back from the block when none holds a space |
| Toots.PostText | tootbot.py:162-179 | the pipeline raises exactly when link resolution raises; otherwise the text is the attributed title after link resolution and trash removal, then the footer for a feed URL and nothing for a handle, then the tag block; the tag block ends the text verbatim; for a feed URL the footer ends the body; for a handle the body holds no truncation artifact |
| Media.Pictures | tootbot.py:87-95 | it succeeds exactly when every download and upload succeeds, and then gives one id per link in link order |
| Media.GetPictures | tootbot.py:84-95 | the loop computes `Pictures` of the summary's picture links, returning as soon as a call raises |
| Dedup.ProcessedAfterAppend | tootbot.py:185-188 | after an `INSERT`, the processed keys are the old ones plus the new row's key |
| Dedup.UniqueAfterAppend | tootbot.py:185-188 | inserting a key not yet present keeps keys unique |
| Dedup.Ledger.constructor | tootbot.py:135-137 | a store opens holding the rows it already had |
| Dedup.Ledger.Insert | tootbot.py:185-189 | the ledger grows by exactly the new row; the processed keys gain exactly its key; unique keys stay unique when it was absent |
| Publisher.Eligibility | tootbot.py:153-160 | publish exactly when the entry is unprocessed and its age is strictly inside the window; an out-of-range day count overflows, in the order the `and` chain evaluates |
| Publisher.WindowIsStrict | tootbot.py:159-160 | an entry exactly `days` or exactly `delay` days old is not published |
| Publisher.Step | tootbot.py:147-189 | a turn of a live run reads the clock once; a skipped entry changes nothing else; the run ends exactly on an overflow, a preparation that raises or a post call that raises; an eligible entry whose post could be prepared gets exactly one post call, with the prepared text and media, and its row is appended exactly when the call returned an id |
| Publisher.RecordsOfProcessed | tootbot.py:185-188 | the rows of some post calls hold a key exactly when one of them succeeded for it |
| Publisher.VisitAborted | tootbot.py:147 | once an exception has ended the loop, later entries change nothing |
| Publisher.VisitConcat | tootbot.py:147 | visiting two lists one after the other is visiting their concatenation |
| Publisher.VisitGrows | tootbot.py:180-189 | from an empty run, the ledger grows by exactly the rows of the successful post calls, in call order |
| Publisher.VisitReadings | tootbot.py:154-155 | the clock is read once per visited entry until an exception ends the loop |
| Publisher.VisitPostsPublishable | tootbot.py:149-160 | every post call is for an entry eligible against the ledger as it was at the start, at the clock reading of its visit |
| Publisher.VisitSendsPrepared | tootbot.py:162-184 | every post call sends what the preparation made of its entry and records the answer to exactly that |
| Publisher.VisitPostsEveryEligible | tootbot.py:147-184 | the converse: unless an exception ended the loop, every visit whose entry was eligible against the starting ledger and whose post could be prepared led to a post call for that entry, or an earlier call had succeeded for its id |
| Publisher.VisitNoRepost | tootbot.py:149-153 | an entry posted with success is not posted again in the same loop |
| Publisher.VisitKeepsKeysUnique | tootbot.py:185-188 | the loop keeps the ledger free of duplicate keys |
| Publisher.VisitInOrder | tootbot.py:147-155 | post calls follow the order of the visits, and each carries the clock reading of its own visit |
| Publisher.MakePost | tootbot.py:162-179 | the statements from the retweet prefix to the tag block compute `Prepare`: the pictures, then the text |
| Publisher.Turn | tootbot.py:148-189 | one pass of the loop body changes the ledger, the post calls and the abort flag exactly as `Step` says |
| Publisher.Run | tootbot.py:139-189 | the loop leaves the ledger, the post calls and the abort flag exactly as `RunSpec` of the old ledger says |
| Publisher.RunAppendsSuccesses | tootbot.py:180-189 | the ledger is append-only and gains one row per post call that returned an id; afterwards a key is processed exactly when it was before or a call succeeded for it, so a failed post stays eligible |
| Publisher.RunPostsOnlyEligible | tootbot.py:149-160 | every posted entry had no row for its key at the start, and its age at the clock reading of its visit was strictly between `delay` and `days` days |
| Publisher.RunSendsPrepared | tootbot.py:162-184 | every post call of a run sends the text and the media that `Prepare` makes of its entry, and records the answer to exactly that call |
| Publisher.RunPostsEveryEligible | tootbot.py:147-184 | a run that no exception ended posted every feed entry that was eligible at its visit and whose post could be prepared, unless a call of the run had already succeeded for its id |
| Publisher.RunNeverRepostsWithinRun | tootbot.py:149-153 | no entry id is posted twice with success in one run, even when the feed lists it twice |
| Publisher.RunKeepsKeysUnique | tootbot.py:185-188 | a ledger without duplicate keys has none after a run |
| Publisher.SecondRunRepostsNothing | tootbot.py:149-188 | for the same source, account and instance, a second run on the ledger the first left never posts an entry the first run posted with success, whatever feed, clock and services it meets; every such entry has its row |
| Publisher.RunVisitsNewestLast | tootbot.py:147-155 | post calls go to entries at strictly decreasing positions of the parsed feed; the entry at position `p` of a feed of `n` entries is aged against the clock reading `n - 1 - p` |

## Left out

- Argument parsing and operation dispatch (tootbot.py:12-46, 193-218) are not modelled. The exception is the tag block formatting at lines 201-204, which `Toots.TagBlock` models. `main` receives the tag block already formatted, as `Config.tags`.
- Credential creation (tootbot.py:49-69) is left out. It is an interactive password prompt and foreign calls.
- Logging in to Mastodon and its failure message (tootbot.py:126-133) are left out. A run starts once logged in.
- SQLite is left out: opening, closing and creating the table (tootbot.py:72-81, 135-137, 190). The ledger is the sequence of its rows. An `INSERT` followed by `commit` is one append.
- A feed parse that raises (tootbot.py:140, 143) is not modelled: the parser oracle always returns a list of entries. Where the script would stop before the loop, the model runs over whatever list the oracle gives; with an empty list that is zero visits and `aborted` false, and the ledger is untouched in both cases.
- Feed parsing, HTTP requests, media upload and status posting are oracles. An oracle is a pure function of its arguments, so server-side state is not modelled. For example, pictures uploaded before a later step raises stay on the server but are not modelled.
- The conversion of `published_parsed` to a naive local `datetime` is left out (calendar, time zone, daylight saving time). `published` is given directly as whole seconds since the same origin as the clock readings.
- `str.lower` is modelled for ASCII letters only. Other case mappings are left out.
- Entries are assumed to carry every attribute the script reads. The `AttributeError` or `IndexError` that feedparser raises for a missing `author`, `link` or empty `authors` is not modelled.
- A missing `--source` (`None`) is left out. The script fails on `source[:4]` before the loop; the model takes `source` as a string.
- `str.replace` with an empty pattern is left out. The script only replaces regex matches whose literal is non-empty, and the fixed artifact.
- Python's `re` engine in general is left out. Only the three patterns the script uses are modelled.
