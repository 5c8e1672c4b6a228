/** The per-card part of the crawler: cleaning the rating and comment text,
    assembling a comment from five independent lookups, the "is this a real
    comment" gate, the comment id, and the lookback window over the cards. */
module Fields {
  import opened Wrappers
  import opened Text

  /** What the five lookups scoped to one review card return: `Some(text)`
      when the element was found, `None` when the lookup raised
      `NoSuchElementException`. `ratingLabel` is the raw `aria-label` of the
      rating element, before cleaning. */
  datatype Card = Card(
    name: Option<string>,
    postDate: Option<string>,
    likes: Option<string>,
    ratingLabel: Option<string>,
    text: Option<string>)

  /** The tuple `(name, post_date, likes, rating, com_text)`. */
  datatype Comment = Comment(
    name: string,
    postDate: string,
    likes: string,
    rating: string,
    text: string)

  /** The lookback limit `get_cards` uses when called without one. */
  const DefaultLookback: int := 150

  /** The three decorations `clean_ratings` deletes from a rating label. */
  const IndonesianPrefix: string := "diberi rating"
  const EnglishPrefix: string := "rated "
  const EnglishSuffix: string := " stars out of five stars"

  /** `clean_ratings`: lower-case, delete the Indonesian "diberi rating", the
      English "rated " and the " stars out of five stars" suffix, then strip. */
  function CleanRatings(rating: string): (r: string)
    ensures Stripped(r)
    ensures NoUpper(r)
    ensures |r| <= |rating|
  {
    var c := Replace(Replace(Replace(Lower(rating), IndonesianPrefix, ""), EnglishPrefix, ""),
                     EnglishSuffix, "");
    NoUpperOfCharacters(c, Lower(rating));
    NoUpperOfCharacters(Strip(c), c);
    Strip(c)
  }

  /** A string made of characters of a string without upper-case letters has
      none either. */
  lemma NoUpperOfCharacters(s: string, from: string)
    requires NoUpper(from)
    requires forall c :: c in s ==> c in from
    ensures NoUpper(s)
  {
    forall i | 0 <= i < |s| ensures !IsUpper(s[i]) {
      assert s[i] in s;
    }
  }

  /** `clean_comment`: every line feed becomes a space, then strip. */
  function CleanComment(comText: string): (r: string)
    ensures Stripped(r)
    ensures '\n' !in r
    ensures |r| <= |comText|
  {
    var spaced := Replace(comText, "\n", " ");
    ReplaceCharRemoves(comText, '\n', ' ');
    Strip(spaced)
  }

  /** `check_comment`, which is `any(comment)`: some field is non-empty. */
  predicate CheckComment(c: Comment) {
    c.name != "" || c.postDate != "" || c.likes != "" || c.rating != "" || c.text != ""
  }

  /** The tuple `get_comments` builds before its gate: a failed lookup gives
      the empty string; the rating and the text are cleaned only when found. */
  function Extract(card: Card): (c: Comment)
    ensures c.name == (if card.name.Some? then card.name.value else "")
    ensures c.postDate == (if card.postDate.Some? then card.postDate.value else "")
    ensures c.likes == (if card.likes.Some? then card.likes.value else "")
    ensures card.ratingLabel.None? ==> c.rating == ""
    ensures card.text.None? ==> c.text == ""
    ensures Stripped(c.rating) && NoUpper(c.rating)
    ensures Stripped(c.text) && '\n' !in c.text
    ensures card.ratingLabel.Some? ==> |c.rating| <= |card.ratingLabel.value|
    ensures card.text.Some? ==> |c.text| <= |card.text.value|
  {
    Comment(
      card.name.GetOr(""),
      card.postDate.GetOr(""),
      card.likes.GetOr(""),
      if card.ratingLabel.Some? then CleanRatings(card.ratingLabel.value) else "",
      if card.text.Some? then CleanComment(card.text.value) else "")
  }

  /** `get_comments`: the assembled tuple if it passes `check_comment`,
      otherwise `None` (the function falls off its end). */
  function GetComments(card: Card): (r: Option<Comment>)
    ensures r.None? <==>
      (card.name.None? || card.name.value == "") &&
      (card.postDate.None? || card.postDate.value == "") &&
      (card.likes.None? || card.likes.value == "") &&
      (card.ratingLabel.None? || CleanRatings(card.ratingLabel.value) == "") &&
      (card.text.None? || CleanComment(card.text.value) == "")
    ensures r.Some? ==> r.value == Extract(card) && GenerateId(r.value) != ""
  {
    var comment := Extract(card);
    if CheckComment(comment) then Some(comment) else None
  }

  /** `generate_id`: `''.join(comment)`, the five fields concatenated in
      order with no separator. */
  function GenerateId(c: Comment): string {
    c.name + c.postDate + c.likes + c.rating + c.text
  }

  /** The id is the five fields laid end to end: each field sits in its own
      slice of the id, in tuple order. */
  lemma GenerateIdFields(c: Comment)
    ensures var id := GenerateId(c);
      && |id| == |c.name| + |c.postDate| + |c.likes| + |c.rating| + |c.text|
      && id[..|c.name|] == c.name
      && (var a := |c.name|; id[a..a + |c.postDate|] == c.postDate)
      && (var a := |c.name| + |c.postDate|; id[a..a + |c.likes|] == c.likes)
      && (var a := |c.name| + |c.postDate| + |c.likes|; id[a..a + |c.rating|] == c.rating)
      && id[|id| - |c.text|..] == c.text
  {
    var id := GenerateId(c);
    var a := |c.name| + |c.postDate| + |c.likes|;
    assert id == (c.name + c.postDate + c.likes) + c.rating + c.text;
    assert id[a..a + |c.rating|] == c.rating;
  }

  /** Python's `s[start:]` for an integer `start`: a negative start counts from
      the end, and the start is clamped into the sequence. */
  function SliceFrom<T>(s: seq<T>, start: int): (r: seq<T>)
    ensures |r| <= |s| && r == s[|s| - |r|..]
    ensures start >= 0 ==> |r| == (if start >= |s| then 0 else |s| - start)
    ensures start < 0 ==> |r| == (if -start >= |s| then |s| else -start)
  {
    var from := if start < 0 then (if start + |s| < 0 then 0 else start + |s|)
                else (if start > |s| then |s| else start);
    s[from..]
  }

  /** The slicing rule of `get_cards`: all cards when there are at most
      `lookbackLimit` of them, otherwise `cards[-lookbackLimit:]`. */
  function GetCards<T>(cards: seq<T>, lookbackLimit: int): (r: seq<T>)
    ensures lookbackLimit >= 1 ==>
      r == cards[|cards| - (if |cards| < lookbackLimit then |cards| else lookbackLimit)..]
    ensures lookbackLimit == 0 ==> r == cards
    ensures lookbackLimit < 0 ==>
      r == cards[(if -lookbackLimit < |cards| then -lookbackLimit else |cards|)..]
  {
    if |cards| <= lookbackLimit then cards else SliceFrom(cards, -lookbackLimit)
  }

  /** The window never holds more than `lookbackLimit` cards, except for the
      `-0` quirk: with limit 0 a non-empty list comes back whole. */
  lemma GetCardsBound<T>(cards: seq<T>, lookbackLimit: int)
    requires lookbackLimit >= 1
    ensures |GetCards(cards, lookbackLimit)| <= lookbackLimit
    ensures |GetCards(cards, lookbackLimit)| == |cards| || |GetCards(cards, lookbackLimit)| == lookbackLimit
  {
  }

  lemma GetCardsZeroQuirk<T>(cards: seq<T>)
    requires cards != []
    ensures |GetCards(cards, 0)| > 0
  {
  }

  // ---------------------------------------------------------------------------
  // Properties of the cleaners

  /** `clean_ratings` as its four intermediate values. */
  lemma CleanRatingsSteps(rating: string, lowered: string, a: string, b: string, c: string)
    requires lowered == Lower(rating)
    requires a == Replace(lowered, IndonesianPrefix, "")
    requires b == Replace(a, EnglishPrefix, "")
    requires c == Replace(b, EnglishSuffix, "")
    ensures CleanRatings(rating) == Strip(c)
  {
  }

  lemma IndonesianPrefixLetters()
    ensures 'e' in IndonesianPrefix && 'g' in IndonesianPrefix
  {
    assert IndonesianPrefix[3] == 'e' && IndonesianPrefix[12] == 'g';
  }

  lemma EnglishPrefixLetters()
    ensures 'd' in EnglishPrefix && 'e' in EnglishPrefix && 'g' !in EnglishPrefix
  {
    assert EnglishPrefix[4] == 'd' && EnglishPrefix[3] == 'e';
  }

  lemma EnglishSuffixLetters()
    ensures 's' in EnglishSuffix && 'd' !in EnglishSuffix && 'g' !in EnglishSuffix
    ensures EnglishSuffix[0] == ' ' && NoUpper(EnglishSuffix)
  {
    assert EnglishSuffix[1] == 's';
  }

  lemma LowerEnglishLabel()
    ensures Lower("Rated ") == EnglishPrefix
  {
  }

  lemma LowerIndonesianLabel()
    ensures Lower("Diberi rating ") == IndonesianPrefix + " "
  {
  }

  /** The English label lower-cased. */
  lemma EnglishLowered(d: char)
    requires '0' <= d <= '9'
    ensures Lower("Rated " + [d] + EnglishSuffix) == EnglishPrefix + ([d] + EnglishSuffix)
  {
    var head := "Rated " + [d];
    assert Lower(head) == EnglishPrefix + [d] by {
      LowerAppend("Rated ", [d]);
      LowerEnglishLabel();
    }
    assert Lower(EnglishSuffix) == EnglishSuffix by {
      EnglishSuffixLetters();
      LowerNoUpper(EnglishSuffix);
    }
    LowerAppend(head, EnglishSuffix);
  }

  /** The English label of a d-star rating, "Rated d stars out of five
      stars", cleans to the digit d. */
  lemma CleanRatingsEnglish(d: char)
    requires '0' <= d <= '9'
    ensures CleanRatings("Rated " + [d] + " stars out of five stars") == [d]
  {
    var tail := [d] + EnglishSuffix;
    var lowered := EnglishPrefix + tail;
    EnglishLowered(d);
    IndonesianPrefixLetters();
    EnglishPrefixLetters();
    EnglishSuffixLetters();
    ReplaceAbsentPattern(lowered, IndonesianPrefix, "", 'g');
    ReplaceLeading(EnglishPrefix, tail, "");
    ReplaceAbsentPattern(tail, EnglishPrefix, "", 'd');
    assert "" + tail == tail;
    ReplaceAfterChar(d, EnglishSuffix, "");
    assert [d] + "" == [d];
    StripFixesStripped([d]);
    CleanRatingsSteps("Rated " + [d] + EnglishSuffix, lowered, lowered, tail, [d]);
  }

  lemma CleanRatingsEnglishExample()
    ensures CleanRatings("Rated " + "4" + " stars out of five stars") == "4"
  {
    CleanRatingsEnglish('4');
  }

  lemma IndonesianLowered(rest: string)
    requires NoUpper(rest)
    ensures Lower("Diberi rating " + rest) == IndonesianPrefix + (" " + rest)
  {
    LowerAppend("Diberi rating ", rest);
    LowerIndonesianLabel();
    LowerNoUpper(rest);
  }

  /** None of the three decorations is found in " X" when X has no 'e' and
      no 's', so the three deletions leave it as it is. */
  lemma IndonesianDeleted(rest: string)
    requires 'e' !in rest && 's' !in rest
    ensures var spaced := " " + rest;
      && Replace(IndonesianPrefix + spaced, IndonesianPrefix, "") == spaced
      && Replace(spaced, EnglishPrefix, "") == spaced
      && Replace(spaced, EnglishSuffix, "") == spaced
  {
    var spaced := " " + rest;
    IndonesianPrefixLetters();
    EnglishPrefixLetters();
    EnglishSuffixLetters();
    ReplaceLeading(IndonesianPrefix, spaced, "");
    ReplaceAbsentPattern(spaced, IndonesianPrefix, "", 'e');
    assert "" + spaced == spaced;
    ReplaceAbsentPattern(spaced, EnglishPrefix, "", 'e');
    ReplaceAbsentPattern(spaced, EnglishSuffix, "", 's');
  }

  lemma StripLeadingSpace(rest: string)
    requires Stripped(rest)
    ensures Strip(" " + rest) == rest
  {
    var s := " " + rest;
    if rest == [] {
      assert SpanStart(s, 0) == 1;
    } else {
      StripAround(s, 1, |s|);
      assert s[1..|s|] == rest;
    }
  }

  /** An Indonesian label "Diberi rating X" cleans to X when X is lower-case,
      stripped and holds neither 'e' nor 's': then no English decoration can
      match, not even across the space the deleted prefix leaves (for X =
      "stars out of five stars" the label cleans to ""). The Indonesian
      suffix is not in the known list, so it passes through. */
  lemma CleanRatingsIndonesian(rest: string)
    requires NoUpper(rest) && Stripped(rest)
    requires 'e' !in rest && 's' !in rest
    ensures CleanRatings("Diberi rating " + rest) == rest
  {
    var spaced := " " + rest;
    IndonesianLowered(rest);
    IndonesianDeleted(rest);
    StripLeadingSpace(rest);
    CleanRatingsSteps("Diberi rating " + rest, IndonesianPrefix + spaced, spaced, spaced, spaced);
  }

  lemma CleanRatingsIndonesianExample()
    ensures CleanRatings("Diberi rating " + "5 bintang") == "5 bintang"
  {
    CleanRatingsIndonesian("5 bintang");
  }

  /** A comment written on two lines becomes one line, the line break turned
      into a space and the trailing one stripped. */
  lemma CleanCommentTwoLines(a: string, b: string)
    requires a != [] && b != [] && Stripped(a) && Stripped(b)
    requires '\n' !in a && '\n' !in b
    ensures CleanComment(a + "\n" + b + "\n") == a + " " + b
  {
    var x := a + " " + b;
    ReplaceCharPointwise(a + "\n" + b + "\n", '\n', ' ');
    assert Replace(a + "\n" + b + "\n", "\n", " ") == x + " ";
    assert x[0] == a[0] && x[|x| - 1] == b[|b| - 1];
    StripAround(x + " ", 0, |x|);
    assert (x + " ")[0..|x|] == x;
  }

  lemma CleanCommentExample()
    ensures CleanComment("Great" + "\n" + "app!" + "\n") == "Great" + " " + "app!"
  {
    CleanCommentTwoLines("Great", "app!");
  }

  /** Cleaning a cleaned comment changes nothing. */
  lemma CleanCommentIdempotent(comText: string)
    ensures CleanComment(CleanComment(comText)) == CleanComment(comText)
  {
    var r := CleanComment(comText);
    ReplaceCharAbsent(r, '\n', ' ');
    StripFixesStripped(r);
  }

  // ---------------------------------------------------------------------------
  // Properties of the assembled comment

  /** Each field depends on its own lookup only: changing one lookup changes
      one field of the tuple and leaves the other four alone. */
  lemma ExtractFieldsIndependent(card: Card, v: Option<string>)
    ensures Extract(card.(name := v)) == Extract(card).(name := v.GetOr(""))
    ensures Extract(card.(postDate := v)) == Extract(card).(postDate := v.GetOr(""))
    ensures Extract(card.(likes := v)) == Extract(card).(likes := v.GetOr(""))
    ensures Extract(card.(ratingLabel := v)) ==
      Extract(card).(rating := if v.Some? then CleanRatings(v.value) else "")
    ensures Extract(card.(text := v)) ==
      Extract(card).(text := if v.Some? then CleanComment(v.value) else "")
  {
  }

  /** A card on which every lookup fails is not a comment. */
  lemma GetCommentsAllMissing(card: Card)
    requires card == Card(None, None, None, None, None)
    ensures GetComments(card) == None
  {
  }

  /** `any(comment)` holds exactly when the tuple is not the all-empty one,
      and exactly when `''.join(comment)` is non-empty. */
  lemma CheckCommentIff(c: Comment)
    ensures CheckComment(c) <==> c != Comment("", "", "", "", "")
    ensures CheckComment(c) <==> GenerateId(c) != ""
  {
  }

  /** The id is not injective: moving a field boundary keeps the id. */
  lemma GenerateIdCollides()
    ensures Comment("ab", "", "", "", "") != Comment("a", "b", "", "", "")
    ensures GenerateId(Comment("ab", "", "", "", "")) == GenerateId(Comment("a", "b", "", "", ""))
  {
  }
}
