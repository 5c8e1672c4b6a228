/** The `for` loop of `start_crawl` over one batch of cards: build each
    comment, derive its id, and write it out only when the id is new. */
module Dedup {
  import opened Wrappers
  import opened Fields

  /** The variables the loop updates: the `unique_comments` set, the rows
      appended to the CSV file after its header, and `comment_id`, which
      stays unbound (`None`) until the first id is generated and afterwards
      keeps its last value. */
  datatype DedupState = DedupState(seen: set<string>, rows: seq<Comment>, commentId: Option<string>)

  /** The state at the start of a crawl: empty set, header only, no id. */
  const Initial: DedupState := DedupState({}, [], None)

  /** The state reached and whether processing went through; `ok == false`
      means `comment_id` was read while still unbound, which raises
      `UnboundLocalError` and ends the crawl. */
  datatype Pass = Pass(st: DedupState, ok: bool)

  /** The ids of the comments written so far. */
  function Ids(rows: seq<Comment>): set<string> {
    set i | 0 <= i < |rows| :: GenerateId(rows[i])
  }

  /** No two written comments share an id. */
  predicate DistinctIds(rows: seq<Comment>) {
    forall i, j :: 0 <= i < j < |rows| ==> GenerateId(rows[i]) != GenerateId(rows[j])
  }

  /** What the loop keeps true: the set holds exactly the ids of the written
      rows, those ids are pairwise distinct, only real comments are written,
      and a bound `comment_id` is already in the set. */
  predicate Consistent(st: DedupState) {
    && st.seen == Ids(st.rows)
    && DistinctIds(st.rows)
    && (forall i :: 0 <= i < |st.rows| ==> CheckComment(st.rows[i]))
    && (st.commentId.Some? ==> st.commentId.value in st.seen)
  }

  /** One iteration of the loop (lines 176-186). A card that is not a comment
      makes `generate_id(None)` raise `TypeError`, which is swallowed, so the
      previous `comment_id` is reused; if it is new, it is added and
      `save_to_csv(None)` writes nothing. */
  function DedupStep(st: DedupState, card: Card): (p: Pass)
    ensures st.seen <= p.st.seen
    ensures |st.rows| <= |p.st.rows| <= |st.rows| + 1 && p.st.rows[..|st.rows|] == st.rows
    ensures |p.st.rows| > |st.rows| <==>
      GetComments(card).Some? && GenerateId(GetComments(card).value) !in st.seen
    ensures |p.st.rows| > |st.rows| ==>
      p.st.rows[|st.rows|] == GetComments(card).value &&
      p.st.seen == st.seen + {GenerateId(GetComments(card).value)}
    ensures !p.ok <==> GetComments(card).None? && st.commentId.None?
    ensures !p.ok ==> p.st == st
    ensures p.ok ==> p.st.commentId.Some?
    ensures p.st.commentId.None? ==> st.commentId.None? && p.st.rows == st.rows
  {
    match GetComments(card)
    case Some(c) =>
      var id := GenerateId(c);
      if id !in st.seen then Pass(DedupState(st.seen + {id}, st.rows + [c], Some(id)), true)
      else Pass(st.(commentId := Some(id)), true)
    case None =>
      match st.commentId
      case None => Pass(st, false)
      case Some(id) =>
        if id !in st.seen then Pass(st.(seen := st.seen + {id}), true)
        else Pass(st, true)
  }

  /** The loop over a whole batch, stopping at the first failure. Rows are
      only ever appended and the set only grows. */
  function DedupPass(st: DedupState, cards: seq<Card>): (p: Pass)
    ensures st.seen <= p.st.seen
    ensures |st.rows| <= |p.st.rows| && p.st.rows[..|st.rows|] == st.rows
    ensures p.ok && cards != [] ==> p.st.commentId.Some?
    ensures p.st.commentId.None? ==> st.commentId.None? && p.st.rows == st.rows
    ensures !p.ok ==> p.st.commentId.None?
    decreases |cards|
  {
    if cards == [] then Pass(st, true)
    else
      var before := DedupPass(st, cards[..|cards| - 1]);
      if !before.ok then before else DedupStep(before.st, cards[|cards| - 1])
  }

  /** The ids of the comments among `cards`, empty cards contributing none. */
  function CommentIds(cards: seq<Card>): set<string>
    decreases |cards|
  {
    if cards == [] then {}
    else
      CommentIds(cards[..|cards| - 1]) +
      match GetComments(cards[|cards| - 1])
      case Some(c) => {GenerateId(c)}
      case None => {}
  }

  /** The value `comment_id` holds after the cards: the id of the last
      comment among them, or `prev` when there is none. */
  function LastCommentId(prev: Option<string>, cards: seq<Card>): Option<string>
    decreases |cards|
  {
    if cards == [] then prev
    else
      match GetComments(cards[|cards| - 1])
      case Some(c) => Some(GenerateId(c))
      case None => LastCommentId(prev, cards[..|cards| - 1])
  }

  // ---------------------------------------------------------------------------
  // The loop itself

  /** Lines 175-186: the cards are processed in order; the method stops at the
      first card whose `comment_id` is unbound. */
  method DedupBatch(st0: DedupState, cards: seq<Card>) returns (p: Pass)
    ensures p == DedupPass(st0, cards)
  {
    var seen, rows, commentId := st0.seen, st0.rows, st0.commentId;
    var i := 0;
    while i < |cards|
      invariant 0 <= i <= |cards|
      invariant DedupPass(st0, cards[..i]) == Pass(DedupState(seen, rows, commentId), true)
    {
      assert cards[..i + 1][..i] == cards[..i];
      var comment := GetComments(cards[i]);
      var id: string;
      if comment.Some? {
        id := GenerateId(comment.value);
        commentId := Some(id);
      } else if commentId.None? {
        p := Pass(DedupState(seen, rows, commentId), false);
        PassFailureSticks(st0, cards, i + 1);
        return;
      } else {
        id := commentId.value;
      }
      if id !in seen {
        seen := seen + {id};
        if comment.Some? {
          rows := rows + [comment.value];
        }
      }
      i := i + 1;
    }
    assert cards[..i] == cards;
    p := Pass(DedupState(seen, rows, commentId), true);
  }

  // ---------------------------------------------------------------------------
  // Properties of the pass

  /** Once a pass fails, later cards are not looked at. */
  lemma {:induction false} PassFailureSticks(st: DedupState, cards: seq<Card>, k: nat)
    requires k <= |cards|
    requires !DedupPass(st, cards[..k]).ok
    ensures DedupPass(st, cards) == DedupPass(st, cards[..k])
    decreases |cards|
  {
    if k < |cards| {
      var prefix := cards[..|cards| - 1];
      assert prefix[..k] == cards[..k];
      PassFailureSticks(st, prefix, k);
    } else {
      assert cards[..k] == cards;
    }
  }

  /** A batch whose first card is not a comment ends a crawl that has not yet
      generated any id: `comment_id` is unbound. */
  lemma FirstCardEmptyFails(card: Card, rest: seq<Card>)
    requires GetComments(card).None?
    ensures !DedupPass(Initial, [card] + rest).ok
  {
    var cards := [card] + rest;
    assert cards[..1][..0] == [];
    PassFailureSticks(Initial, cards, 1);
  }

  lemma IdsAppend(rows: seq<Comment>, c: Comment)
    ensures Ids(rows + [c]) == Ids(rows) + {GenerateId(c)}
  {
    var r := rows + [c];
    assert forall i :: 0 <= i < |rows| ==> r[i] == rows[i];
    assert r[|rows|] == c;
    forall id | id in Ids(r) ensures id in Ids(rows) + {GenerateId(c)} {
      var i :| 0 <= i < |r| && GenerateId(r[i]) == id;
      if i < |rows| { assert GenerateId(rows[i]) == id; }
    }
  }

  /** Each step keeps the loop invariant. */
  lemma StepKeepsConsistent(st: DedupState, card: Card)
    requires Consistent(st)
    ensures Consistent(DedupStep(st, card).st)
  {
    var p := DedupStep(st, card);
    if |p.st.rows| > |st.rows| {
      var c := GetComments(card).value;
      assert p.st.rows == st.rows + [c];
      IdsAppend(st.rows, c);
      forall i, j | 0 <= i < j < |p.st.rows|
        ensures GenerateId(p.st.rows[i]) != GenerateId(p.st.rows[j])
      {
        if j == |st.rows| {
          assert GenerateId(st.rows[i]) in Ids(st.rows);
        }
      }
    }
  }

  /** A card that is not a comment is never written: with a bound
      `comment_id` the stale id is already in the set, so the card is skipped
      and nothing changes; with an unbound one the crawl fails. */
  lemma EmptyCardSkipped(st: DedupState, card: Card)
    requires Consistent(st)
    requires GetComments(card).None?
    ensures DedupStep(st, card) == Pass(st, st.commentId.Some?)
  {
  }

  lemma {:induction false} PassKeepsConsistent(st: DedupState, cards: seq<Card>)
    requires Consistent(st)
    ensures Consistent(DedupPass(st, cards).st)
    decreases |cards|
  {
    if cards != [] {
      PassKeepsConsistent(st, cards[..|cards| - 1]);
      var before := DedupPass(st, cards[..|cards| - 1]);
      if before.ok {
        StepKeepsConsistent(before.st, cards[|cards| - 1]);
      }
    }
  }

  /** A pass that goes through adds exactly the ids of the comments in the
      batch to the set, however often each was seen. */
  lemma {:induction false} PassSeen(st: DedupState, cards: seq<Card>)
    requires Consistent(st)
    requires DedupPass(st, cards).ok
    ensures DedupPass(st, cards).st.seen == st.seen + CommentIds(cards)
    decreases |cards|
  {
    if cards != [] {
      var prefix := cards[..|cards| - 1];
      var before := DedupPass(st, prefix);
      PassSeen(st, prefix);
      PassKeepsConsistent(st, prefix);
    }
  }

  /** `comment_id` after a pass that goes through. */
  lemma {:induction false} PassCommentId(st: DedupState, cards: seq<Card>)
    requires DedupPass(st, cards).ok
    ensures DedupPass(st, cards).st.commentId == LastCommentId(st.commentId, cards)
    decreases |cards|
  {
    if cards != [] {
      PassCommentId(st, cards[..|cards| - 1]);
    }
  }

  lemma {:induction false} LastCommentIdSome(prev: Option<string>, cards: seq<Card>)
    requires prev.Some?
    ensures LastCommentId(prev, cards).Some?
    decreases |cards|
  {
    if cards != [] && GetComments(cards[|cards| - 1]).None? {
      LastCommentIdSome(prev, cards[..|cards| - 1]);
    }
  }

  lemma {:induction false} LastCommentIdFrom(prev: Option<string>, cards: seq<Card>)
    ensures LastCommentId(prev, cards) == prev ||
      (LastCommentId(prev, cards).Some? && LastCommentId(prev, cards).value in CommentIds(cards))
    decreases |cards|
  {
    if cards != [] {
      LastCommentIdFrom(prev, cards[..|cards| - 1]);
    }
  }

  lemma {:induction false} LastCommentIdIdempotent(prev: Option<string>, cards: seq<Card>)
    ensures LastCommentId(LastCommentId(prev, cards), cards) == LastCommentId(prev, cards)
    decreases |cards|
  {
    if cards != [] && GetComments(cards[|cards| - 1]).None? {
      var prefix := cards[..|cards| - 1];
      LastCommentIdIdempotent(prev, prefix);
    }
  }

  /** A batch whose comment ids are all in the set, processed with a bound
      `comment_id`, writes nothing and changes nothing but `comment_id`. */
  lemma {:induction false} PassOverSeen(st: DedupState, cards: seq<Card>)
    requires Consistent(st)
    requires CommentIds(cards) <= st.seen
    requires cards != [] ==> st.commentId.Some?
    ensures DedupPass(st, cards) == Pass(st.(commentId := LastCommentId(st.commentId, cards)), true)
    decreases |cards|
  {
    if cards != [] {
      var prefix := cards[..|cards| - 1];
      PassOverSeen(st, prefix);
      var mid := st.(commentId := LastCommentId(st.commentId, prefix));
      LastCommentIdSome(st.commentId, prefix);
      LastCommentIdFrom(st.commentId, prefix);
      assert Consistent(mid);
    }
  }

  /** Processing the same batch a second time writes nothing and leaves the
      state as the first pass left it. */
  lemma PassIdempotent(st: DedupState, cards: seq<Card>)
    requires Consistent(st)
    requires DedupPass(st, cards).ok
    ensures DedupPass(DedupPass(st, cards).st, cards) == DedupPass(st, cards)
  {
    var p := DedupPass(st, cards);
    PassSeen(st, cards);
    PassKeepsConsistent(st, cards);
    PassOverSeen(p.st, cards);
    PassCommentId(st, cards);
    LastCommentIdIdempotent(st.commentId, cards);
  }
}
