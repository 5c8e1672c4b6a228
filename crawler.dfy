/** `start_crawl` with the browser replaced by its observable inputs: the
    app's name, the scroll offset at load time, what each pass of the outer
    loop sees, and the offsets read by the inner loops. */
module Crawler {
  import opened Wrappers
  import opened Fields
  import opened Dedup
  import opened ScrollLoop

  /** What one pass of the outer loop sees: the cards the page holds, and
      whether the "more" button is there when that pass first stalls. */
  datatype Round = Round(cards: seq<Card>, moreButton: bool)

  /** The page as the crawl observes it. `appName` is `None` when the title
      element is not found. `offsets` are the values `window.pageYOffset`
      returns inside the inner loop, in the order they are read, across all
      passes. */
  datatype Page = Page(appName: Option<string>, initialOffset: int, rounds: seq<Round>, offsets: seq<int>)

  /** Why the crawl stopped. The source never stops on its own: the model
      stops when the page has no more rounds or offsets to give
      (`InputsExhausted`); the other two are the exceptions it raises. */
  datatype Stop = InputsExhausted | AppNameNotFound | CommentIdUnbound

  datatype CsvFile = CsvFile(path: string, lines: seq<seq<string>>)

  datatype Progress = Progress(dedup: DedupState, lastPosition: int, rounds: nat, observed: nat)

  datatype CrawlEnd = CrawlEnd(progress: Progress, stop: Stop)

  /** Everything the crawl leaves behind: the CSV file if it was created, the
      final loop variables, how many passes of the outer loop ended, and how
      many offsets were read. */
  datatype CrawlReport = CrawlReport(
    stop: Stop,
    file: Option<CsvFile>,
    dedup: DedupState,
    lastPosition: int,
    rounds: nat,
    observed: nat)

  const Header: seq<string> := ["name", "post_date", "likes", "ratings", "comment"]

  const OutputDir: string := "./output/"
  const CsvExtension: string := ".csv"

  /** The file `save_to_csv` opens for an app: the app's name, inside the
      output directory, with the CSV extension. */
  function CsvPath(appName: string): (path: string)
    ensures |path| == |OutputDir| + |appName| + |CsvExtension|
    ensures path[..|OutputDir|] == OutputDir
    ensures path[|OutputDir|..|OutputDir| + |appName|] == appName
    ensures path[|path| - |CsvExtension|..] == CsvExtension
  {
    OutputDir + appName + CsvExtension
  }

  /** Different apps write to different files. */
  lemma CsvPathInjective(a: string, b: string)
    requires CsvPath(a) == CsvPath(b)
    ensures a == b
  {
    assert a == CsvPath(a)[|OutputDir|..|OutputDir| + |a|];
    assert b == CsvPath(b)[|OutputDir|..|OutputDir| + |b|];
  }

  /** The line `writer.writerow(records)` writes for a comment: one cell per
      header column, from which the comment is read back field by field. */
  function CsvRow(c: Comment): (row: seq<string>)
    ensures |row| == |Header|
    ensures Comment(row[0], row[1], row[2], row[3], row[4]) == c
    ensures row[0] + row[1] + row[2] + row[3] + row[4] == GenerateId(c)
  {
    [c.name, c.postDate, c.likes, c.rating, c.text]
  }

  /** The file `save_to_csv` builds: the header from the `'w'` call, then one
      line per appended comment, in order, each of which reads back as its
      comment. */
  function CsvLines(rows: seq<Comment>): (lines: seq<seq<string>>)
    ensures |lines| == |rows| + 1 && lines[0] == Header
    ensures forall i :: 1 <= i < |lines| ==> |lines[i]| == |Header|
    ensures forall i :: 0 <= i < |rows| ==>
      var l := lines[i + 1]; Comment(l[0], l[1], l[2], l[3], l[4]) == rows[i]
  {
    [Header] + seq(|rows|, i requires 0 <= i < |rows| => CsvRow(rows[i]))
  }

  /** The outer loop from pass `pr.rounds` on: take the lookback window of
      the cards, run the dedup loop over it, then the scroll loop. */
  function RunRounds(page: Page, pr: Progress): (e: CrawlEnd)
    requires pr.rounds <= |page.rounds| && pr.observed <= |page.offsets|
    ensures pr.rounds <= e.progress.rounds <= |page.rounds|
    ensures pr.observed <= e.progress.observed <= |page.offsets|
    ensures e.stop != AppNameNotFound
    decreases |page.rounds| - pr.rounds
  {
    if pr.rounds == |page.rounds| then CrawlEnd(pr, InputsExhausted)
    else
      var p := DedupPass(pr.dedup, Window(page, pr.rounds));
      if !p.ok then CrawlEnd(pr.(dedup := p.st), CommentIdUnbound)
      else
        var s := RoundScroll(page, pr);
        var next := Progress(p.st, s.lastPosition, pr.rounds + 1, s.observed);
        if !s.broke then CrawlEnd(next, InputsExhausted)
        else RunRounds(page, next)
  }

  /** `get_cards()` in pass `i`: the default lookback window. */
  function Window(page: Page, i: nat): (w: seq<Card>)
    requires i < |page.rounds|
    ensures var cards := page.rounds[i].cards;
      |w| == (if |cards| < DefaultLookback then |cards| else DefaultLookback) &&
      w == cards[|cards| - |w|..]
  {
    GetCards(page.rounds[i].cards, DefaultLookback)
  }

  /** The scroll loop of the pass `pr.rounds`, entered with the current
      `last_position`. */
  function RoundScroll(page: Page, pr: Progress): (s: ScrollResult)
    requires pr.rounds < |page.rounds| && pr.observed <= |page.offsets|
    ensures pr.observed <= s.observed <= |page.offsets|
  {
    Scroll(page.offsets, pr.observed, pr.lastPosition, 0, false, page.rounds[pr.rounds].moreButton)
  }

  /** The whole crawl: without the app's name it stops at once and creates no
      file; otherwise the file is created and the outer loop runs. */
  function Crawl(page: Page): (r: CrawlReport)
    ensures r.stop == AppNameNotFound <==> page.appName.None?
    ensures r.file.Some? <==> page.appName.Some?
    ensures page.appName.None? ==> r.rounds == 0 && r.observed == 0 && r.dedup == Initial
    ensures r.rounds <= |page.rounds| && r.observed <= |page.offsets|
  {
    match page.appName
    case None => CrawlReport(AppNameNotFound, None, Initial, page.initialOffset, 0, 0)
    case Some(name) =>
      var e := RunRounds(page, Progress(Initial, page.initialOffset, 0, 0));
      CrawlReport(e.stop, Some(CsvFile(CsvPath(name), CsvLines(e.progress.dedup.rows))),
                  e.progress.dedup, e.progress.lastPosition, e.progress.rounds, e.progress.observed)
  }

  /** Lines 165-211. The `while scrolling` loop; `scrolling` is never set to
      false, so the loop ends only when the page has nothing more to give or
      an exception is raised. */
  method StartCrawl(page: Page) returns (report: CrawlReport, scrolling: bool)
    ensures report == Crawl(page)
    ensures scrolling
  {
    scrolling := true;
    if page.appName.None? {
      report := CrawlReport(AppNameNotFound, None, Initial, page.initialOffset, 0, 0);
      return;
    }
    var appName := page.appName.value;
    var lastPosition := page.initialOffset;
    var st := Initial;
    var k: nat, used: nat := 0, 0;
    ghost var e := RunRounds(page, Progress(Initial, page.initialOffset, 0, 0));
    assert Crawl(page) == CrawlReport(e.stop, Some(CsvFile(CsvPath(appName), CsvLines(e.progress.dedup.rows))),
                                      e.progress.dedup, e.progress.lastPosition, e.progress.rounds,
                                      e.progress.observed);
    while scrolling
      invariant scrolling
      invariant k <= |page.rounds| && used <= |page.offsets|
      invariant e == RunRounds(page, Progress(st, lastPosition, k, used))
      decreases |page.rounds| - k
    {
      ghost var pr := Progress(st, lastPosition, k, used);
      if k == |page.rounds| {
        RunRoundsUnfoldDone(page, pr);
        break;
      }
      var round := page.rounds[k];
      var cards := GetCards(round.cards, DefaultLookback);
      assert cards == Window(page, k);
      var p := DedupBatch(st, cards);
      assert p == DedupPass(pr.dedup, Window(page, pr.rounds));
      st := p.st;
      if !p.ok {
        RunRoundsUnfoldFailed(page, pr);
        report := CrawlReport(CommentIdUnbound, Some(CsvFile(CsvPath(appName), CsvLines(st.rows))),
                              st, lastPosition, k, used);
        return;
      }
      var s, stillScrolling := ScrollUntilStall(page.offsets, used, lastPosition, round.moreButton);
      assert s == RoundScroll(page, pr);
      scrolling := stillScrolling;
      lastPosition, used, k := s.lastPosition, s.observed, k + 1;
      if !s.broke {
        RunRoundsUnfoldStopped(page, pr);
        break;
      }
      RunRoundsUnfoldContinue(page, pr);
      assert Progress(st, lastPosition, k, used) == Progress(p.st, s.lastPosition, pr.rounds + 1, s.observed);
    }
    report := CrawlReport(InputsExhausted, Some(CsvFile(CsvPath(appName), CsvLines(st.rows))),
                          st, lastPosition, k, used);
  }

  // ---------------------------------------------------------------------------
  // Properties of the crawl

  /** The ids of the comments in the lookback windows of the first `n` passes. */
  function WindowIds(page: Page, n: nat): set<string>
    requires n <= |page.rounds|
  {
    if n == 0 then {}
    else WindowIds(page, n - 1) + CommentIds(GetCards(page.rounds[n - 1].cards, DefaultLookback))
  }

  /** One pass of the outer loop, unfolded: no pass left, or the three ways
      a pass can end. */
  lemma RunRoundsUnfoldDone(page: Page, pr: Progress)
    requires pr.rounds == |page.rounds| && pr.observed <= |page.offsets|
    ensures RunRounds(page, pr) == CrawlEnd(pr, InputsExhausted)
  {
  }

  lemma RunRoundsUnfoldFailed(page: Page, pr: Progress)
    requires pr.rounds < |page.rounds| && pr.observed <= |page.offsets|
    requires !DedupPass(pr.dedup, Window(page, pr.rounds)).ok
    ensures RunRounds(page, pr) ==
      CrawlEnd(pr.(dedup := DedupPass(pr.dedup, Window(page, pr.rounds)).st), CommentIdUnbound)
  {
  }

  lemma RunRoundsUnfoldStopped(page: Page, pr: Progress)
    requires pr.rounds < |page.rounds| && pr.observed <= |page.offsets|
    requires DedupPass(pr.dedup, Window(page, pr.rounds)).ok
    requires !RoundScroll(page, pr).broke
    ensures var p := DedupPass(pr.dedup, Window(page, pr.rounds));
      var s := RoundScroll(page, pr);
      RunRounds(page, pr) == CrawlEnd(Progress(p.st, s.lastPosition, pr.rounds + 1, s.observed), InputsExhausted)
  {
  }

  lemma RunRoundsUnfoldContinue(page: Page, pr: Progress)
    requires pr.rounds < |page.rounds| && pr.observed <= |page.offsets|
    requires DedupPass(pr.dedup, Window(page, pr.rounds)).ok
    requires RoundScroll(page, pr).broke
    ensures var p := DedupPass(pr.dedup, Window(page, pr.rounds));
      var s := RoundScroll(page, pr);
      RunRounds(page, pr) == RunRounds(page, Progress(p.st, s.lastPosition, pr.rounds + 1, s.observed))
  {
  }

  /** Every pass keeps the dedup loop's invariant. */
  lemma {:induction false} RunRoundsConsistent(page: Page, pr: Progress)
    requires pr.rounds <= |page.rounds| && pr.observed <= |page.offsets|
    requires Consistent(pr.dedup)
    ensures Consistent(RunRounds(page, pr).progress.dedup)
    decreases |page.rounds| - pr.rounds
  {
    if pr.rounds < |page.rounds| {
      var p := DedupPass(pr.dedup, Window(page, pr.rounds));
      PassKeepsConsistent(pr.dedup, Window(page, pr.rounds));
      if !p.ok {
        RunRoundsUnfoldFailed(page, pr);
      } else if RoundScroll(page, pr).broke {
        var s := RoundScroll(page, pr);
        RunRoundsUnfoldContinue(page, pr);
        RunRoundsConsistent(page, Progress(p.st, s.lastPosition, pr.rounds + 1, s.observed));
      } else {
        RunRoundsUnfoldStopped(page, pr);
      }
    }
  }

  /** `last_position` is the latest offset read, across passes. */
  lemma {:induction false} RunRoundsLatest(page: Page, pr: Progress)
    requires pr.rounds <= |page.rounds| && pr.observed <= |page.offsets|
    requires pr.lastPosition == Observed(page.initialOffset, page.offsets, pr.observed)
    ensures var e := RunRounds(page, pr);
      e.progress.lastPosition == Observed(page.initialOffset, page.offsets, e.progress.observed)
    decreases |page.rounds| - pr.rounds
  {
    if pr.rounds < |page.rounds| {
      var p := DedupPass(pr.dedup, Window(page, pr.rounds));
      if !p.ok {
        RunRoundsUnfoldFailed(page, pr);
      } else {
        var s := RoundScroll(page, pr);
        ScrollKeepsLatest(page.initialOffset, page.offsets, pr.observed, pr.lastPosition, 0,
                          false, page.rounds[pr.rounds].moreButton);
        if s.broke {
          RunRoundsUnfoldContinue(page, pr);
          RunRoundsLatest(page, Progress(p.st, s.lastPosition, pr.rounds + 1, s.observed));
        } else {
          RunRoundsUnfoldStopped(page, pr);
        }
      }
    }
  }

  /** One pass that goes through adds its window's ids to the set. */
  lemma PassAddsWindowIds(page: Page, pr: Progress)
    requires pr.rounds < |page.rounds|
    requires Consistent(pr.dedup) && pr.dedup.seen == WindowIds(page, pr.rounds)
    requires DedupPass(pr.dedup, Window(page, pr.rounds)).ok
    ensures var p := DedupPass(pr.dedup, Window(page, pr.rounds));
      Consistent(p.st) && p.st.seen == WindowIds(page, pr.rounds + 1)
  {
    PassSeen(pr.dedup, Window(page, pr.rounds));
    PassKeepsConsistent(pr.dedup, Window(page, pr.rounds));
  }

  /** A crawl that runs out of input has put exactly the ids of the passes'
      windows in the set. */
  lemma {:induction false} RunRoundsExhausted(page: Page, pr: Progress)
    requires pr.rounds <= |page.rounds| && pr.observed <= |page.offsets|
    requires Consistent(pr.dedup) && pr.dedup.seen == WindowIds(page, pr.rounds)
    ensures var e := RunRounds(page, pr);
      e.stop == InputsExhausted ==> e.progress.dedup.seen == WindowIds(page, e.progress.rounds)
    decreases |page.rounds| - pr.rounds
  {
    if pr.rounds == |page.rounds| {
      RunRoundsUnfoldDone(page, pr);
    } else if !DedupPass(pr.dedup, Window(page, pr.rounds)).ok {
      RunRoundsUnfoldFailed(page, pr);
    } else {
      var p := DedupPass(pr.dedup, Window(page, pr.rounds));
      var s := RoundScroll(page, pr);
      var next := Progress(p.st, s.lastPosition, pr.rounds + 1, s.observed);
      PassAddsWindowIds(page, pr);
      if s.broke {
        RunRoundsUnfoldContinue(page, pr);
        RunRoundsExhausted(page, next);
      } else {
        RunRoundsUnfoldStopped(page, pr);
        assert RunRounds(page, pr).progress == next;
      }
    }
  }

  /** A crawl that runs out of input ran out because the rounds or the
      offsets ended. */
  lemma {:induction false} RunRoundsRanOut(page: Page, pr: Progress)
    requires pr.rounds <= |page.rounds| && pr.observed <= |page.offsets|
    ensures var e := RunRounds(page, pr);
      e.stop == InputsExhausted ==>
        e.progress.rounds == |page.rounds| || e.progress.observed == |page.offsets|
    decreases |page.rounds| - pr.rounds
  {
    if pr.rounds < |page.rounds| {
      var p := DedupPass(pr.dedup, Window(page, pr.rounds));
      if !p.ok {
        RunRoundsUnfoldFailed(page, pr);
      } else {
        var s := RoundScroll(page, pr);
        if s.broke {
          RunRoundsUnfoldContinue(page, pr);
          RunRoundsRanOut(page, Progress(p.st, s.lastPosition, pr.rounds + 1, s.observed));
        } else {
          RunRoundsUnfoldStopped(page, pr);
        }
      }
    }
  }

  /** An unbound `comment_id` can only be met before any comment is written. */
  lemma {:induction false} RunRoundsUnbound(page: Page, pr: Progress)
    requires pr.rounds <= |page.rounds| && pr.observed <= |page.offsets|
    requires pr.dedup.commentId.None? ==> pr.dedup.rows == []
    ensures var e := RunRounds(page, pr);
      e.stop == CommentIdUnbound ==> e.progress.dedup.rows == [] && e.progress.rounds < |page.rounds|
    decreases |page.rounds| - pr.rounds
  {
    if pr.rounds < |page.rounds| {
      var p := DedupPass(pr.dedup, Window(page, pr.rounds));
      if !p.ok {
        RunRoundsUnfoldFailed(page, pr);
      } else {
        var s := RoundScroll(page, pr);
        if s.broke {
          RunRoundsUnfoldContinue(page, pr);
          RunRoundsUnbound(page, Progress(p.st, s.lastPosition, pr.rounds + 1, s.observed));
        } else {
          RunRoundsUnfoldStopped(page, pr);
        }
      }
    }
  }

  lemma CrawlFacts(page: Page)
    ensures var r := Crawl(page);
      && Consistent(r.dedup)
      && r.lastPosition == Observed(page.initialOffset, page.offsets, r.observed)
      && (r.stop == InputsExhausted ==>
            r.rounds <= |page.rounds| && r.dedup.seen == WindowIds(page, r.rounds) &&
            (r.rounds == |page.rounds| || r.observed == |page.offsets|))
      && (r.stop == CommentIdUnbound ==> r.dedup.rows == [] && r.rounds < |page.rounds|)
      && (r.stop == AppNameNotFound <==> page.appName.None?)
  {
    if page.appName.Some? {
      var pr := Progress(Initial, page.initialOffset, 0, 0);
      assert Ids([]) == {};
      RunRoundsConsistent(page, pr);
      RunRoundsLatest(page, pr);
      RunRoundsExhausted(page, pr);
      RunRoundsRanOut(page, pr);
      RunRoundsUnbound(page, pr);
    }
  }

  /** The file is created exactly when the app's name is found, and its first
      line is the header even if no comment is ever written; after it come
      the written comments, one five-cell line each, which read back in the
      order they were found, whose ids are pairwise distinct and which are
      all real comments. */
  lemma CrawlFile(page: Page)
    ensures var r := Crawl(page);
      && (r.file.Some? <==> page.appName.Some?)
      && (r.file.Some? ==>
            r.file.value.path == CsvPath(page.appName.value) &&
            |r.file.value.lines| == |r.dedup.rows| + 1 &&
            r.file.value.lines[0] == Header &&
            (forall i :: 1 <= i < |r.file.value.lines| ==> |r.file.value.lines[i]| == |Header|) &&
            (forall i :: 0 <= i < |r.dedup.rows| ==>
               var l := r.file.value.lines[i + 1]; Comment(l[0], l[1], l[2], l[3], l[4]) == r.dedup.rows[i]))
      && DistinctIds(r.dedup.rows)
      && (forall i :: 0 <= i < |r.dedup.rows| ==> CheckComment(r.dedup.rows[i]))
  {
    CrawlFacts(page);
  }

  /** The set holds exactly the ids written, and, when the crawl was not cut
      short by an exception, exactly the distinct ids of the comments in the
      lookback windows it processed, however often a card was seen again. */
  lemma CrawlSeenIsDistinctIds(page: Page)
    ensures var r := Crawl(page);
      && r.dedup.seen == Ids(r.dedup.rows)
      && (r.stop == InputsExhausted ==> r.rounds <= |page.rounds| && r.dedup.seen == WindowIds(page, r.rounds))
  {
    CrawlFacts(page);
  }

  /** Nothing in the crawl makes it stop: it ends only when the page has no
      further pass or no further offset to give, or on an exception. */
  lemma CrawlNeverStopsOnItsOwn(page: Page)
    ensures var r := Crawl(page);
      r.stop == InputsExhausted ==> r.rounds == |page.rounds| || r.observed == |page.offsets|
  {
    CrawlFacts(page);
  }

  /** `comment_id` can be read while unbound only before the first comment
      has been written: the file then holds the header alone. */
  lemma CrawlUnboundOnlyAtStart(page: Page)
    ensures var r := Crawl(page);
      r.stop == CommentIdUnbound ==> r.dedup.rows == [] && r.dedup.seen == {} && r.rounds < |page.rounds|
  {
    CrawlFacts(page);
  }

  /** `last_position` ends as the latest offset read, or the load-time offset
      when none was read. */
  lemma CrawlLastPosition(page: Page)
    ensures var r := Crawl(page);
      r.lastPosition == Observed(page.initialOffset, page.offsets, r.observed)
  {
    CrawlFacts(page);
  }
}
