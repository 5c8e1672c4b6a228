# Play Store review crawler — crawl core in Dafny

`playstore_app.py` crawls the reviews of one Google Play app. It opens the
app's page in a browser, reads the review cards, builds one record per card
(name, post date, likes, rating, text), and writes each record not already
seen to `./output/<app name>.csv`. Then it scrolls down to load more and
repeats. This project models that crawl core with the browser replaced by
its observable inputs, and proves properties of the model.

- `wrappers.dfy`, module `Wrappers`: the `Option` a page lookup yields.
- `text.dfy`, module `Text`: Python's `str.lower`, `str.replace` and
  `str.strip` over ASCII, with their characterising lemmas.
- `fields.dfy`, module `Fields`: `clean_ratings`, `clean_comment`,
  `get_comments`, `check_comment`, `generate_id` and the slicing rule of
  `get_cards`. A review card is five optional lookups (`Card`). The raw
  rating label is kept before cleaning.
- `dedup.dfy`, module `Dedup`: the `for` loop of `start_crawl` over one
  batch of cards. It is a specification function (`DedupPass`), a method
  with a loop, and the invariant (`Consistent`) that the set holds exactly
  the written ids.
- `scroll.dfy`, module `ScrollLoop`: the inner `while True` loop, with the
  `last_position` / `scroll_attempt` state machine and the "more" click.
- `crawler.dfy`, module `Crawler`: `start_crawl` as a whole. The browser is
  replaced by a `Page` value holding four things. The first is the app name,
  or `None` when its element is missing. The second is the offset at load
  time. The third is one `Round` per pass of the outer loop: the cards on
  the page, and whether the "more" button is there at the first stall. The
  fourth is the sequence of offsets the scroll loops read. The CSV file is
  its path and its list of lines.

In four places the code does something other than what its names and
comments suggest. The model follows the code:

- A reader might expect the stall count to start again when the offset
  moves. The code never resets `scroll_attempt` inside the inner loop
  (`playstore_app.py:208-209`). Two stalls in all break it, consecutive or
  not (`StallCountNotReset`).
- `scrolling = False` (`playstore_app.py:204`) looks like the way the crawl
  ends, but it cannot be reached: the `break` at `playstore_app.py:197-198`
  comes first and only leaves the inner loop. So the outer loop never ends
  on its own. The model stops when the page has no further round or offset
  to give (`CrawlNeverStopsOnItsOwn`).
- `check_comment` looks like a gate that keeps empty records away from the
  id. But when `get_comments` returns `None`, `generate_id(None)` raises
  `TypeError`, which is swallowed, and the previous `comment_id` is reused.
  That id is already in the set, so the card is skipped (`EmptyCardSkipped`).
  If no id has been generated yet, `comment_id` is unbound and the crawl
  dies with `UnboundLocalError` (`FirstCardEmptyFails`, stop reason
  `CommentIdUnbound`).
- The "more" button looks like something that decides when the inner loop
  ends. It does not: the second stall breaks the loop whether or not the
  button is there.

## Model

| member | source | states |
|---|---|---|
| Text.Lower | playstore_app.py:76 | lower-casing keeps the length, maps each ASCII upper-case letter to its lower-case letter (code point plus 32), keeps every other character, and leaves no upper-case letter |
| Text.Replace | playstore_app.py:77-79 | every character of the result comes from the input or the replacement; deleting (or replacing by something no longer) never lengthens, and a same-length replacement keeps the length; for a non-empty pattern, its value is fixed by `ReplaceNoOccurrence` and `ReplaceFirstOccurrence` |
| Text.SpanStart | playstore_app.py:80 | the first position from which `strip` keeps characters: everything before it is whitespace and the character there is not |
| Text.SpanEnd | playstore_app.py:80 | the position where `strip` stops keeping characters: everything from it on is whitespace and the character before it is not |
| Text.Strip | playstore_app.py:80 | the result is a slice `s[i..j]` with only whitespace outside it, has no leading or trailing whitespace, is no longer than the input and uses only its characters |
| Text.StripAround | playstore_app.py:80 | a non-blank core with only whitespace around it strips to exactly that core |
| Text.StripFixesStripped | playstore_app.py:86 | a string with no leading or trailing whitespace is left as it is |
| Text.StripIdempotent | playstore_app.py:86 | stripping twice is stripping once |
| Text.LowerAppend | playstore_app.py:76 | lower-casing works character by character, so it distributes over concatenation |
| Text.ReplaceCharPointwise | playstore_app.py:85 | replacing one character by another maps the string position by position |
| Text.ReplaceCharRemoves | playstore_app.py:85 | after replacing `a` by a different character no `a` is left |
| Text.ReplaceNoOccurrence | playstore_app.py:77-79 | a pattern that starts at no position of the input leaves it unchanged |
| Text.ReplaceFirstOccurrence | playstore_app.py:77-79 | at the leftmost occurrence of the pattern, the text before it is kept, the occurrence becomes the replacement, and the scan resumes right after it |
| Text.ReplaceAbsentPattern | playstore_app.py:77-79 | a pattern containing a character absent from the input is never found, so the input is unchanged |
| Text.ReplaceLeading | playstore_app.py:77-79 | an occurrence at the front is replaced and the scan resumes after it |
| Text.ReplaceAfterChar | playstore_app.py:79 | a character that cannot start the pattern, followed by the pattern, keeps the character and replaces the pattern once |
| Fields.CleanRatings | playstore_app.py:68-81 | the cleaned rating has no leading or trailing whitespace, no ASCII upper-case letter and is no longer than the label |
| Fields.CleanRatingsEnglish | playstore_app.py:76-81 | the English label "Rated d stars out of five stars" cleans to the digit d, for every digit |
| Fields.CleanRatingsEnglishExample | playstore_app.py:76-81 | "Rated 4 stars out of five stars" cleans to "4" |
| Fields.CleanRatingsIndonesian | playstore_app.py:76-81 | "Diberi rating X" cleans to X when X is lower-case, stripped and contains neither 'e' nor 's', so that no decoration can match, not even across the space the deleted prefix leaves; the Indonesian suffix passes through |
| Fields.CleanRatingsIndonesianExample | playstore_app.py:76-81 | "Diberi rating 5 bintang" cleans to "5 bintang" |
| Fields.CleanComment | playstore_app.py:84-87 | the cleaned text has no line feed, no leading or trailing whitespace, and is no longer than the input |
| Fields.CleanCommentTwoLines | playstore_app.py:84-87 | a comment of two non-blank lines, each ended by a line feed, becomes the two lines joined by one space |
| Fields.CleanCommentExample | playstore_app.py:84-87 | "Great\napp!\n" cleans to "Great app!" |
| Fields.CleanCommentIdempotent | playstore_app.py:84-87 | cleaning a cleaned comment changes nothing |
| Fields.Extract | playstore_app.py:98-131 | name, post date and likes are the found text or the empty string; a failed rating or text lookup gives the empty string; the rating comes out stripped and lower-case, the text stripped with no line feed, neither longer than what was found |
| Fields.ExtractFieldsIndependent | playstore_app.py:98-131 | changing one lookup changes only its own field; rating and text are cleaned only when found |
| Fields.GetComments | playstore_app.py:90-135 | `None` exactly when every lookup failed or found something that cleans to the empty string; otherwise the assembled tuple, whose id is non-empty |
| Fields.GetCommentsAllMissing | playstore_app.py:98-135 | a card on which every lookup fails gives `None` |
| Fields.CheckCommentIff | playstore_app.py:149-158 | `any(comment)` holds exactly when the tuple is not all empty strings, and exactly when `''.join(comment)` is non-empty |
| Fields.GenerateIdFields | playstore_app.py:157-158 | the id is the five fields end to end: its length is the sum of theirs and each field is the slice of the id at its offset, in tuple order |
| Fields.GenerateIdCollides | playstore_app.py:157-158 | two different tuples, ("ab","",…) and ("a","b",…), get the same id |
| Fields.SliceFrom | playstore_app.py:65 | Python's `s[start:]` is a suffix of `s` of length `max(0, len - start)` for a non-negative start and `min(len, -start)` for a negative one |
| Fields.GetCards | playstore_app.py:52-65 | for a limit of at least 1, the suffix of length `min(len, limit)`; for limit 0 the whole list (`cards[-0:]`); for a negative limit the list minus its first `-limit` cards |
| Fields.GetCardsBound | playstore_app.py:62-65 | with a limit of at least 1 the window has at most `limit` cards, and either all of them or exactly `limit` |
| Fields.GetCardsZeroQuirk | playstore_app.py:62-65 | with limit 0 a non-empty list is not cut to nothing |
| Dedup.DedupStep | playstore_app.py:176-186 | the set only grows; a row is appended iff the card is a comment whose id is not in the set, and then that id is added; only an empty card with an unbound `comment_id` fails, changing nothing |
| Dedup.DedupPass | playstore_app.py:175-186 | over a batch the set only grows and rows are only appended; a pass that goes through over a non-empty batch leaves `comment_id` bound; a failed one leaves it unbound |
| Dedup.DedupBatch | playstore_app.py:175-186 | the loop computes exactly `DedupPass` of the batch |
| Dedup.PassFailureSticks | playstore_app.py:177-181 | after the failing card nothing more is processed |
| Dedup.FirstCardEmptyFails | playstore_app.py:177-181 | a first-ever card that is not a comment finds `comment_id` unbound |
| Dedup.StepKeepsConsistent | playstore_app.py:181-184 | each step keeps the set equal to the written ids, the ids pairwise distinct, only real comments written, and a bound `comment_id` in the set |
| Dedup.PassKeepsConsistent | playstore_app.py:175-186 | a whole batch keeps that invariant |
| Dedup.EmptyCardSkipped | playstore_app.py:176-186 | a card that is not a comment is never written: with a bound `comment_id` nothing changes, with an unbound one the pass fails |
| Dedup.PassSeen | playstore_app.py:171-186 | a pass that goes through adds exactly the ids of the batch's comments to the set |
| Dedup.PassCommentId | playstore_app.py:177-178 | after a pass `comment_id` is the id of the batch's last comment, or unchanged when there is none |
| Dedup.PassOverSeen | playstore_app.py:181-186 | a batch whose ids are all in the set, with a bound `comment_id`, writes nothing |
| Dedup.PassIdempotent | playstore_app.py:175-186 | processing the same batch again writes nothing and leaves the state as it was |
| ScrollLoop.Scroll | playstore_app.py:188-209 | the loop reads offsets forward; it breaks exactly when `scroll_attempt` reaches 2, otherwise it stops only when the offsets run out; `scroll_attempt` never decreases |
| ScrollLoop.ScrollUntilStall | playstore_app.py:188-209 | the loop computes exactly `Scroll` from a zero `scroll_attempt`, and `scrolling` stays true |
| ScrollLoop.ScrollCountsStalls | playstore_app.py:188-209 | from any entry point: `last_position` is the latest offset read; the loop breaks exactly at the second stall counted since entry (consecutive or not); "more" is clicked iff a stall occurred and the button is there; if offsets run out, fewer than two stalls were seen |
| ScrollLoop.ScrollKeepsLatest | playstore_app.py:208-209 | `last_position` is always the latest offset read, across loop runs |
| ScrollLoop.ScrollShift | playstore_app.py:189-191 | the loop depends only on the offsets from its start index on |
| ScrollLoop.TwoStallsBreak | playstore_app.py:193-198 | offsets 100, 100, 100 break after the second stall, and one stall alone does not |
| ScrollLoop.StallCountNotReset | playstore_app.py:193-209 | from 100, offsets 100, 150 leave `scroll_attempt` at 1; one more stall at 150 breaks |
| Crawler.CsvPath | playstore_app.py:141 | the path is `./output/`, then the app's name, then `.csv` |
| Crawler.CsvPathInjective | playstore_app.py:141 | different app names give different files |
| Crawler.CsvRow | playstore_app.py:145-146 | a written line has one cell per header column and reads back as the comment; its cells joined are the comment's id |
| Crawler.CsvLines | playstore_app.py:138-146 | the file is the header line followed by one line per written comment, in order; each such line has one cell per column and reads back as its comment |
| Crawler.Window | playstore_app.py:174 | a pass's cards are the last `min(len, 150)` cards on the page |
| Crawler.Crawl | playstore_app.py:161-211 | the crawl stops for want of an app name exactly when the name is missing, and then has done nothing; the file exists exactly when the name is found; it never reads past the page's rounds or offsets |
| Crawler.RunRounds | playstore_app.py:173-209 | the outer loop only moves forward through rounds and offsets and never ends for want of an app name |
| Crawler.StartCrawl | playstore_app.py:161-211 | the method computes exactly `Crawl` of the page, and `scrolling` is still true at the end |
| Crawler.CrawlFile | playstore_app.py:168-184 | the file exists iff the app name is found, at `./output/<name>.csv`; its first line is the header even with no comment; the written comments follow, one five-cell line each, reading back in order, with pairwise distinct ids, all passing the gate |
| Crawler.CrawlSeenIsDistinctIds | playstore_app.py:171-186 | the set is exactly the written ids and, when no exception cut the crawl, exactly the distinct ids of the comments in the processed windows |
| Crawler.CrawlNeverStopsOnItsOwn | playstore_app.py:173-209 | a crawl that was not cut by an exception ended only because the rounds or the offsets ran out |
| Crawler.CrawlUnboundOnlyAtStart | playstore_app.py:176-181 | an unbound `comment_id` is met only before any comment is written: the file then holds the header alone |
| Crawler.CrawlLastPosition | playstore_app.py:167-209 | `last_position` ends as the latest offset read, or the load-time offset when none was read |
| Crawler.RunRoundsConsistent | playstore_app.py:173-186 | every pass keeps the dedup invariant |
| Crawler.RunRoundsLatest | playstore_app.py:188-209 | across passes `last_position` is the latest offset read |
| Crawler.RunRoundsExhausted | playstore_app.py:171-186 | a crawl that runs out of input has exactly the ids of the processed windows in its set |
| Crawler.RunRoundsRanOut | playstore_app.py:173-209 | a crawl that runs out of input ran out of rounds or of offsets; nothing else ends it |
| Crawler.RunRoundsUnbound | playstore_app.py:176-181 | the unbound-id failure happens in some pass before any comment is written |

## Left out

- Browser setup and page loading (`driver_setting`, `driver_init`, `load_page`, the 30-second implicit wait, `driver.quit`) are process and Selenium plumbing; the page is an input value instead.
- XPath lookups, `.text` and `get_attribute` are replaced by the five optional strings of a `Card`; a found rating element always carries a label in the model, so the `AttributeError` that `clean_ratings(None)` raises for a missing `aria-label` is not expressible.
- `execute_script` scrolling, the click's effect on the page and the `sleep` dwell times are browser timing; their effect is the offset sequence the model reads.
- `save_to_csv` file opening, modes, newline handling, CSV quoting and UTF-8 encoding are I/O; the file is its path and its list of lines.
- `print` calls and the `__main__` block are console output and process entry.
- Text: Unicode case mapping and Unicode whitespace of `str.lower`/`str.strip` are left out; letters are ASCII `A`-`Z` and whitespace is the ASCII set `str.isspace` accepts.
- Crawler.StartCrawl: the source loops forever once the page stops growing; the model stops when the page's rounds or offsets run out, which stands for the process being stopped from outside.
- Crawler.StartCrawl: the model computes the file from the written comments at the end; it does not model the file's contents at intermediate moments.
- Crawler.StartCrawl: `moreBtn.click()` catches only `NoSuchElementException` (`playstore_app.py:199-202`); any other exception from the lookup or the click ends the crawl, and `Stop` has no case for it, because the model's `Round` only says whether the button is there.
