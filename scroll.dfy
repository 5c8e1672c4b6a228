/** The inner `while True` loop of `start_crawl`: scroll to the bottom, read
    the page offset, count the observations where it did not move, click
    "more" on the first such stall, and leave the loop on the second. */
module ScrollLoop {

  /** Where the loop stopped: the offsets consumed so far (an index into the
      whole offset sequence), `last_position`, `scroll_attempt`, whether the
      loop left through its `break` (`broke`), and whether the "more" button
      was clicked. `broke == false` means the offsets ran out first. */
  datatype ScrollResult = ScrollResult(
    observed: nat,
    lastPosition: int,
    scrollAttempt: nat,
    broke: bool,
    clicked: bool)

  /** The loop run from its state at 0-based offset index `used`. Each
      iteration reads the next offset; an unchanged offset increments
      `scroll_attempt` (which nothing resets) and either breaks, at 2, or
      looks for the "more" button, which `moreButton` says is present; a
      changed offset becomes `last_position`. */
  function Scroll(offsets: seq<int>, used: nat, lastPosition: int, scrollAttempt: nat,
                  clicked: bool, moreButton: bool): (r: ScrollResult)
    requires used <= |offsets| && scrollAttempt < 2
    ensures used <= r.observed <= |offsets|
    ensures r.broke <==> r.scrollAttempt == 2
    ensures !r.broke ==> r.observed == |offsets|
    ensures scrollAttempt <= r.scrollAttempt <= 2
    decreases |offsets| - used
  {
    if used == |offsets| then
      ScrollResult(used, lastPosition, scrollAttempt, false, clicked)
    else if offsets[used] == lastPosition then
      if scrollAttempt + 1 == 2 then
        ScrollResult(used + 1, lastPosition, 2, true, clicked)
      else
        Scroll(offsets, used + 1, lastPosition, scrollAttempt + 1, clicked || moreButton, moreButton)
    else
      Scroll(offsets, used + 1, offsets[used], scrollAttempt, clicked, moreButton)
  }

  /** The number of observations that repeat the one before: stalls. */
  function Repeats(obs: seq<int>): nat
    decreases |obs|
  {
    if |obs| <= 1 then 0
    else Repeats(obs[..|obs| - 1]) + (if obs[|obs| - 1] == obs[|obs| - 2] then 1 else 0)
  }

  /** Lines 188-209. `scrolling := false` sits on a branch that needs
      `scroll_attempt == 2` just after the loop has broken out at 2, so it is
      never taken and `scrolling` comes back true. */
  method ScrollUntilStall(offsets: seq<int>, start: nat, lastPosition: int, moreButton: bool)
    returns (r: ScrollResult, scrolling: bool)
    requires start <= |offsets|
    ensures r == Scroll(offsets, start, lastPosition, 0, false, moreButton)
    ensures scrolling
  {
    scrolling := true;
    var last, attempt, clicked, i := lastPosition, 0, false, start;
    while i < |offsets|
      invariant start <= i <= |offsets| && attempt < 2
      invariant Scroll(offsets, start, lastPosition, 0, false, moreButton) ==
        Scroll(offsets, i, last, attempt, clicked, moreButton)
      decreases |offsets| - i
    {
      var curr := offsets[i];
      i := i + 1;
      if last == curr {
        attempt := attempt + 1;
        if attempt == 2 {
          r := ScrollResult(i, last, attempt, true, clicked);
          return;
        }
        if moreButton {
          clicked := true;
        } else if attempt == 2 {
          scrolling := false;
          break;
        }
      } else {
        last := curr;
      }
    }
    r := ScrollResult(i, last, attempt, false, clicked);
  }

  // ---------------------------------------------------------------------------
  // Properties of the loop

  /** What the loop state means at every iteration: `last_position` is the
      latest observation, `scroll_attempt` counts every stall since the loop
      was entered, and the button was clicked iff there was a stall and the
      button was there. */
  predicate Tracks(obs: seq<int>, used: nat, lastPosition: int, scrollAttempt: nat,
                   clicked: bool, moreButton: bool)
  {
    && used < |obs|
    && lastPosition == obs[used]
    && scrollAttempt == Repeats(obs[..used + 1])
    && clicked == (moreButton && scrollAttempt >= 1)
  }

  lemma RepeatsAppend(obs: seq<int>, k: nat)
    requires 1 <= k < |obs|
    ensures Repeats(obs[..k + 1]) == Repeats(obs[..k]) + (if obs[k] == obs[k - 1] then 1 else 0)
  {
    assert obs[..k + 1][..k] == obs[..k];
  }

  lemma {:induction false} ScrollTracks(last0: int, offsets: seq<int>, used: nat,
                                        lastPosition: int, scrollAttempt: nat,
                                        clicked: bool, moreButton: bool)
    requires used <= |offsets| && scrollAttempt < 2
    requires Tracks([last0] + offsets, used, lastPosition, scrollAttempt, clicked, moreButton)
    ensures var r := Scroll(offsets, used, lastPosition, scrollAttempt, clicked, moreButton);
      var obs := [last0] + offsets;
      && r.lastPosition == obs[r.observed]
      && r.scrollAttempt == Repeats(obs[..r.observed + 1])
      && r.clicked == (moreButton && Repeats(obs[..r.observed + 1]) >= 1)
      && (r.broke ==> Repeats(obs[..r.observed]) == 1)
    decreases |offsets| - used
  {
    var obs := [last0] + offsets;
    if used < |offsets| {
      var next := offsets[used];
      assert obs[used + 1] == next;
      RepeatsAppend(obs, used + 1);
      var stalled := if next == lastPosition then 1 else 0;
      assert Repeats(obs[..used + 2]) == scrollAttempt + stalled;
      if next == lastPosition && scrollAttempt + 1 == 2 {
        assert Scroll(offsets, used, lastPosition, scrollAttempt, clicked, moreButton) ==
          ScrollResult(used + 1, lastPosition, 2, true, clicked);
      } else if next == lastPosition {
        assert Tracks(obs, used + 1, lastPosition, scrollAttempt + 1, clicked || moreButton, moreButton);
        ScrollTracks(last0, offsets, used + 1, lastPosition, scrollAttempt + 1,
                     clicked || moreButton, moreButton);
      } else {
        assert Tracks(obs, used + 1, next, scrollAttempt, clicked, moreButton);
        ScrollTracks(last0, offsets, used + 1, next, scrollAttempt, clicked, moreButton);
      }
    }
  }

  /** Entered at offset index 0 with `last_position == last0`. */
  lemma ScrollCountsStallsFromStart(last0: int, offsets: seq<int>, moreButton: bool)
    ensures var r := Scroll(offsets, 0, last0, 0, false, moreButton);
      var obs := [last0] + offsets;
      && r.lastPosition == obs[r.observed]
      && (r.broke <==> Repeats(obs[..r.observed + 1]) == 2)
      && (r.broke ==> Repeats(obs[..r.observed]) == 1)
      && (!r.broke ==> r.observed == |offsets| && Repeats(obs) < 2)
      && r.clicked == (moreButton && Repeats(obs[..r.observed + 1]) >= 1)
  {
    var obs := [last0] + offsets;
    assert obs[..1] == [last0];
    ScrollTracks(last0, offsets, 0, last0, 0, false, moreButton);
    var r := Scroll(offsets, 0, last0, 0, false, moreButton);
    if !r.broke {
      assert obs[..r.observed + 1] == obs;
    }
  }

  /** The loop only looks at the offsets from its start index on. */
  lemma {:induction false} ScrollShift(offsets: seq<int>, base: nat, k: nat, lastPosition: int,
                                       scrollAttempt: nat, clicked: bool, moreButton: bool)
    requires base + k <= |offsets| && scrollAttempt < 2
    ensures var r := Scroll(offsets, base + k, lastPosition, scrollAttempt, clicked, moreButton);
      var q := Scroll(offsets[base..], k, lastPosition, scrollAttempt, clicked, moreButton);
      r == q.(observed := q.observed + base)
    decreases |offsets| - base - k
  {
    if base + k < |offsets| {
      assert offsets[base..][k] == offsets[base + k];
      if offsets[base + k] == lastPosition {
        if scrollAttempt + 1 != 2 {
          ScrollShift(offsets, base, k + 1, lastPosition, scrollAttempt + 1,
                      clicked || moreButton, moreButton);
        }
      } else {
        ScrollShift(offsets, base, k + 1, offsets[base + k], scrollAttempt, clicked, moreButton);
      }
    }
  }

  /** Entered at offset index `start` with `last_position == last0`, the loop
      reads offsets until it has seen two stalls in all since it was entered
      (consecutive or not) and then breaks; `last_position` is the latest
      offset read; "more" is clicked only on the first stall, and only if
      the button is there. If the offsets run out first, fewer than two
      stalls were seen. Here `obs` is what the loop compares: `last0`, then
      the offsets it reads. */
  lemma ScrollCountsStalls(last0: int, offsets: seq<int>, start: nat, moreButton: bool)
    requires start <= |offsets|
    ensures var r := Scroll(offsets, start, last0, 0, false, moreButton);
      var obs := [last0] + offsets[start..];
      var n := r.observed - start;
      && 0 <= n < |obs|
      && r.lastPosition == obs[n]
      && (r.broke <==> Repeats(obs[..n + 1]) == 2)
      && (r.broke ==> Repeats(obs[..n]) == 1)
      && (!r.broke ==> r.observed == |offsets| && Repeats(obs) < 2)
      && r.clicked == (moreButton && Repeats(obs[..n + 1]) >= 1)
  {
    ScrollShift(offsets, start, 0, last0, 0, false, moreButton);
    ScrollCountsStallsFromStart(last0, offsets[start..], moreButton);
  }

  /** The latest observation after reading `i` offsets from the start. */
  function Observed(initial: int, offsets: seq<int>, i: nat): int
    requires i <= |offsets|
  {
    if i == 0 then initial else offsets[i - 1]
  }

  /** `last_position` always holds the latest offset read, across loop runs. */
  lemma {:induction false} ScrollKeepsLatest(initial: int, offsets: seq<int>, used: nat,
                                             lastPosition: int, scrollAttempt: nat,
                                             clicked: bool, moreButton: bool)
    requires used <= |offsets| && scrollAttempt < 2
    requires lastPosition == Observed(initial, offsets, used)
    ensures var r := Scroll(offsets, used, lastPosition, scrollAttempt, clicked, moreButton);
      r.lastPosition == Observed(initial, offsets, r.observed)
    decreases |offsets| - used
  {
    if used < |offsets| {
      if offsets[used] == lastPosition {
        if scrollAttempt + 1 != 2 {
          ScrollKeepsLatest(initial, offsets, used + 1, lastPosition, scrollAttempt + 1,
                            clicked || moreButton, moreButton);
        }
      } else {
        ScrollKeepsLatest(initial, offsets, used + 1, offsets[used], scrollAttempt,
                          clicked, moreButton);
      }
    }
  }

  /** Three equal offsets in a row: the loop breaks after the second stall,
      not the first. */
  lemma TwoStallsBreak()
    ensures Scroll([100, 100], 0, 100, 0, false, false) == ScrollResult(2, 100, 2, true, false)
    ensures Scroll([100], 0, 100, 0, false, false).scrollAttempt == 1
  {
  }

  /** Progress after a stall does not reset `scroll_attempt`: from 100, the
      offsets 100, 150 leave it at 1, and one more stall at 150 breaks. */
  lemma StallCountNotReset()
    ensures Scroll([100, 150], 0, 100, 0, false, true) == ScrollResult(2, 150, 1, false, true)
    ensures Scroll([100, 150, 150], 0, 100, 0, false, true) == ScrollResult(3, 150, 2, true, true)
  {
  }
}
