/** The "Key Decisions & Action Items" section of the page: a heading per
    category, then one `- item` line per entry, or a fixed fallback line
    when the category's list is empty. The page itself is left out; the
    model records the lines written, in order. */
module Minutes {
  import opened SentenceSplit
  import opened Extraction

  const DecisionsHeading := "**Decisions:**"
  const ActionsHeading := "**Action Items:**"
  const NoDecisions := "No clear decisions detected."
  const NoActions := "No clear action items detected."

  /** One `- item` line per entry, in list order. */
  function Bullets(items: seq<string>): (lines: seq<string>)
    ensures |lines| == |items|
    ensures forall i :: 0 <= i < |items| ==> lines[i] == "- " + items[i]
  {
    if items == [] then [] else ["- " + items[0]] + Bullets(items[1..])
  }

  /** What is written for one category's list. */
  function Listing(items: seq<string>, fallback: string): seq<string> {
    if items == [] then [fallback] else Bullets(items)
  }

  /** `line` has the bullet prefix `- `. */
  predicate IsBullet(line: string) {
    |line| >= 2 && line[..2] == "- "
  }

  /** Reads a category's list back from its lines. */
  function Unlist(lines: seq<string>, fallback: string): seq<string> {
    if lines == [fallback] then []
    else if lines == [] then []
    else (if IsBullet(lines[0]) then [lines[0][2..]] else [lines[0]]) + Unlist(lines[1..], fallback)
  }

  /** The rendering loop for one category: the fallback line for an empty
      list, otherwise one `- item` line per entry, in order. */
  method Render(items: seq<string>, fallback: string) returns (lines: seq<string>)
    ensures items == [] ==> lines == [fallback]
    ensures items != [] ==> |lines| == |items| && forall i :: 0 <= i < |items| ==> lines[i] == "- " + items[i]
    ensures lines == Listing(items, fallback)
  {
    if items != [] {
      lines := [];
      var i := 0;
      while i < |items|
        invariant 0 <= i <= |items|
        invariant |lines| == i
        invariant forall k :: 0 <= k < i ==> lines[k] == "- " + items[k]
      {
        lines := lines + ["- " + items[i]];
        i := i + 1;
      }
    } else {
      lines := [fallback];
    }
  }

  /** Every line the section writes for `text`, in order. */
  function MinutesLines(text: string): seq<string> {
    var pieces := SplitSentences(text);
    [DecisionsHeading] + Listing(Selected(pieces, DecisionKeywords), NoDecisions)
    + [ActionsHeading] + Listing(Selected(pieces, ActionKeywords), NoActions)
  }

  /** The extractor followed by both rendering loops. */
  method Report(text: string) returns (lines: seq<string>)
    ensures lines == MinutesLines(text)
  {
    var decisions, actions := Extract(text);
    var shownDecisions := Render(decisions, NoDecisions);
    var shownActions := Render(actions, NoActions);
    lines := [DecisionsHeading] + shownDecisions + [ActionsHeading] + shownActions;
  }

  /** A fallback that is not itself a bullet line cannot be confused with a
      list: the fallback is written exactly when the list is empty. */
  lemma ListingFallbackIffEmpty(items: seq<string>, fallback: string)
    requires !IsBullet(fallback)
    ensures Listing(items, fallback) == [fallback] <==> items == []
  {
    if items != [] {
      var head := Listing(items, fallback)[0];
      assert head == "- " + items[0];
      assert IsBullet(head);
    }
  }

  /** Reading the lines back gives the list that was written. */
  lemma {:induction false} UnlistBullets(items: seq<string>, fallback: string)
    requires !IsBullet(fallback)
    ensures Unlist(Bullets(items), fallback) == items
    decreases |items|
  {
    if items != [] {
      var lines := Bullets(items);
      var head := "- " + items[0];
      assert lines[0] == head;
      assert IsBullet(head) && head[2..] == items[0];
      assert lines != [fallback];
      assert lines[1..] == Bullets(items[1..]);
      UnlistBullets(items[1..], fallback);
    }
  }

  /** Nothing of a list is lost in rendering. */
  lemma ListingRoundTrip(items: seq<string>, fallback: string)
    requires !IsBullet(fallback)
    ensures Unlist(Listing(items, fallback), fallback) == items
  {
    if items != [] {
      UnlistBullets(items, fallback);
    }
  }

  lemma FallbacksAreNotBullets()
    ensures !IsBullet(NoDecisions) && !IsBullet(NoActions)
  {
    assert NoDecisions[..2][0] == 'N' && NoActions[..2][0] == 'N';
  }

  /** The page section for `text` is the decisions heading, the decisions
      listing, the action-items heading and the action-items listing; each
      listing reads back to its category's list and is the fallback line
      exactly when that list is empty. */
  lemma MinutesSections(text: string) returns (shownDecisions: seq<string>, shownActions: seq<string>)
    ensures MinutesLines(text) == [DecisionsHeading] + shownDecisions + [ActionsHeading] + shownActions
    ensures Unlist(shownDecisions, NoDecisions) == Selected(SplitSentences(text), DecisionKeywords)
    ensures Unlist(shownActions, NoActions) == Selected(SplitSentences(text), ActionKeywords)
    ensures shownDecisions == [NoDecisions] <==> Selected(SplitSentences(text), DecisionKeywords) == []
    ensures shownActions == [NoActions] <==> Selected(SplitSentences(text), ActionKeywords) == []
  {
    var decisions := Selected(SplitSentences(text), DecisionKeywords);
    var actions := Selected(SplitSentences(text), ActionKeywords);
    shownDecisions := Listing(decisions, NoDecisions);
    shownActions := Listing(actions, NoActions);
    FallbacksAreNotBullets();
    ListingRoundTrip(decisions, NoDecisions);
    ListingRoundTrip(actions, NoActions);
    ListingFallbackIffEmpty(decisions, NoDecisions);
    ListingFallbackIffEmpty(actions, NoActions);
  }
}
