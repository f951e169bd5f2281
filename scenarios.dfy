/** Worked transcripts: the empty one, two two-sentence ones and a single
    sentence that matches both categories; and the substring nature of the
    keyword test. */
module Scenarios {
  import opened PyStr
  import opened SentenceSplit
  import opened Extraction
  import opened Minutes

  /** An empty transcript gives two empty lists, so both fallback lines are
      written. */
  lemma EmptyTranscript()
    ensures SplitSentences("") == [""]
    ensures Selected(SplitSentences(""), DecisionKeywords) == []
    ensures Selected(SplitSentences(""), ActionKeywords) == []
    ensures MinutesLines("") == [DecisionsHeading, NoDecisions, ActionsHeading, NoActions]
  {
    SplitEmpty();
    NothingInEmpty(DecisionKeywords);
    NothingInEmpty(ActionKeywords);
  }

  /** The empty piece mentions no keyword, so it contributes nothing. */
  lemma NothingInEmpty(kws: seq<string>)
    requires forall j :: 0 <= j < |kws| ==> kws[j] != []
    ensures Selected([""], kws) == []
  {
    assert Lower("") == "";
    ContainsAnyIff("", kws);
    assert [""][1..] == [];
  }

  /** `will` is found inside `willow`: the test is substring containment,
      not whole-word matching. */
  lemma WillowIsAnAction()
    ensures Mentions("Willow", ActionKeywords)
  {
    assert Lower("Willow") == "willow";
    assert Contains("willow", "will");
  }

  /** A piece with no terminal character before its last one has no
      boundary inside. */
  lemma BoundaryFreeBody(p: string)
    requires forall i :: 0 <= i < |p| - 1 ==> !IsTerminal(p[i])
    ensures NoBoundaryIn(p)
  {
  }

  /** Two boundary-free texts joined without a terminal before a space at
      the seam are boundary-free. */
  lemma NoBoundaryAppend(a: string, b: string)
    requires NoBoundaryIn(a) && NoBoundaryIn(b)
    requires a != [] && b != [] ==> !(IsTerminal(Last(a)) && b[0] == ' ')
    ensures NoBoundaryIn(a + b)
  {
    var s := a + b;
    forall i | 0 <= i < |s| - 1 ensures !(IsTerminal(s[i]) && s[i + 1] == ' ') {
      if i + 1 < |a| {
        assert s[i] == a[i] && s[i + 1] == a[i + 1];
      } else if i + 1 == |a| {
        assert s[i] == Last(a) && s[i + 1] == b[0];
      } else {
        assert s[i] == b[i - |a|] && s[i + 1] == b[i + 1 - |a|];
      }
    }
  }

  /** Two boundary-free sentences, the first ending with a terminal, joined
      by one space, split back into those two sentences. */
  lemma SplitTwoSentences(first: string, second: string)
    requires first != [] && IsTerminal(Last(first)) && NoBoundaryIn(first)
    requires second != [] && second[0] != ' ' && NoBoundaryIn(second)
    ensures SplitSentences(first + " " + second) == [first, second]
  {
    SplitNoBoundary(second);
    SplitFirstPiece(first, second);
  }

  /** A string without capital letters is its own lower-case form. */
  lemma {:induction false} LowerNoCapitals(s: string)
    requires forall i :: 0 <= i < |s| ==> !('A' <= s[i] <= 'Z')
    ensures Lower(s) == s
    decreases |s|
  {
    if s != [] {
      LowerNoCapitals(s[1..]);
      assert [s[0]] + s[1..] == s;
    }
  }

  /** A keyword without capitals that stands at position `i` of the trimmed
      piece `ps[j]` puts that piece, unchanged, into the category's list. */
  lemma ListedByKeyword(ps: seq<string>, kws: seq<string>, j: nat, k: nat, i: nat)
    requires j < |ps| && k < |kws|
    requires forall c :: 0 <= c < |kws[k]| ==> !('A' <= kws[k][c] <= 'Z')
    requires i + |kws[k]| <= |ps[j]| && ps[j][i..i + |kws[k]|] == kws[k]
    requires ps[j] != [] && !IsWhitespace(ps[j][0]) && !IsWhitespace(ps[j][|ps[j]| - 1])
    ensures ps[j] in Selected(ps, kws)
  {
    var p, w := ps[j], kws[k];
    LowerNoCapitals(w);
    LowerSlice(p, i, i + |w|);
    assert OccursAt(Lower(p), w, i);
    ContainsIff(Lower(p), w);
    ContainsAnyIff(Lower(p), kws);
    StripTrimmed(p);
    SelectedMembership(ps, kws, p);
  }

  lemma DecisionTranscriptPieces()
    ensures NoBoundaryIn("We decided to proceed.") && NoBoundaryIn("The budget is $500.")
  {
    BoundaryFreeBody("We decided to proceed.");
    BoundaryFreeBody("The budget is $500.");
  }

  lemma DecisionTranscriptJoin()
    ensures "We decided to proceed." + " " + "The budget is $500."
      == "We decided to proceed. The budget is $500."
  {
  }

  /** "We decided to proceed. The budget is $500." is two sentences. */
  lemma SplitDecisionTranscript()
    ensures SplitSentences("We decided to proceed. The budget is $500.")
      == ["We decided to proceed.", "The budget is $500."]
  {
    DecisionTranscriptPieces();
    DecisionTranscriptJoin();
    SplitTwoSentences("We decided to proceed.", "The budget is $500.");
  }

  lemma ActionTranscriptPieces()
    ensures NoBoundaryIn("John will send the report.") && NoBoundaryIn("Mary will review it.")
  {
    BoundaryFreeBody("John will send the report.");
    BoundaryFreeBody("Mary will review it.");
  }

  lemma ActionTranscriptJoin()
    ensures "John will send the report." + " " + "Mary will review it."
      == "John will send the report. Mary will review it."
  {
  }

  /** "John will send the report. Mary will review it." is two sentences. */
  lemma SplitActionTranscript()
    ensures SplitSentences("John will send the report. Mary will review it.")
      == ["John will send the report.", "Mary will review it."]
  {
    ActionTranscriptPieces();
    ActionTranscriptJoin();
    SplitTwoSentences("John will send the report.", "Mary will review it.");
  }

  lemma DualMatchTranscriptJoin()
    ensures "We agreed and John " + "will schedule the follow-up."
      == "We agreed and John will schedule the follow-up."
  {
  }

  lemma DualMatchTranscriptPiece()
    ensures NoBoundaryIn("We agreed and John will schedule the follow-up.")
  {
    BoundaryFreeBody("We agreed and John ");
    BoundaryFreeBody("will schedule the follow-up.");
    NoBoundaryAppend("We agreed and John ", "will schedule the follow-up.");
    DualMatchTranscriptJoin();
  }

  /** "We agreed and John will schedule the follow-up." is one sentence. */
  lemma SplitDualMatchTranscript()
    ensures SplitSentences("We agreed and John will schedule the follow-up.")
      == ["We agreed and John will schedule the follow-up."]
  {
    DualMatchTranscriptPiece();
    SplitNoBoundary("We agreed and John will schedule the follow-up.");
  }

  /** The keywords the worked transcripts are matched by, and that they
      have no capital letters. */
  lemma WorkedKeywords()
    ensures DecisionKeywords[0] == "decided" && DecisionKeywords[2] == "agreed"
    ensures ActionKeywords[0] == "will"
    ensures forall c :: 0 <= c < |DecisionKeywords[0]| ==> !('A' <= DecisionKeywords[0][c] <= 'Z')
    ensures forall c :: 0 <= c < |DecisionKeywords[2]| ==> !('A' <= DecisionKeywords[2][c] <= 'Z')
    ensures forall c :: 0 <= c < |ActionKeywords[0]| ==> !('A' <= ActionKeywords[0][c] <= 'Z')
  {
  }

  lemma DecisionTranscriptKeyword()
    ensures "We decided to proceed."[3..10] == "decided"
  {
  }

  /** The first sentence of "We decided to proceed. The budget is $500." is
      listed as a decision, by `decided`. */
  lemma DecisionTranscript()
    ensures "We decided to proceed." in
      Selected(["We decided to proceed.", "The budget is $500."], DecisionKeywords)
  {
    DecisionTranscriptKeyword();
    WorkedKeywords();
    ListedByKeyword(["We decided to proceed.", "The budget is $500."], DecisionKeywords, 0, 0, 3);
  }

  lemma JohnKeyword()
    ensures "John will send the report."[5..9] == "will"
  {
  }

  lemma MaryKeyword()
    ensures "Mary will review it."[5..9] == "will"
  {
  }

  /** The first sentence of "John will send the report. Mary will review
      it." is listed as an action item, by `will`. */
  lemma ActionTranscriptFirst()
    ensures "John will send the report." in
      Selected(["John will send the report.", "Mary will review it."], ActionKeywords)
  {
    JohnKeyword();
    WorkedKeywords();
    ListedByKeyword(["John will send the report.", "Mary will review it."], ActionKeywords, 0, 0, 5);
  }

  /** So is its second sentence. */
  lemma ActionTranscriptSecond()
    ensures "Mary will review it." in
      Selected(["John will send the report.", "Mary will review it."], ActionKeywords)
  {
    MaryKeyword();
    WorkedKeywords();
    ListedByKeyword(["John will send the report.", "Mary will review it."], ActionKeywords, 1, 0, 5);
  }

  /** What the dual-match sentence looks like at the positions used below,
      read off its two halves. */
  lemma DualMatchTranscriptChars()
    ensures |"We agreed and John will schedule the follow-up."| == 47
    ensures "We agreed and John will schedule the follow-up."[0] == 'W'
    ensures "We agreed and John will schedule the follow-up."[46] == '.'
  {
    DualMatchTranscriptJoin();
    var head, tail := "We agreed and John ", "will schedule the follow-up.";
    assert |head| == 19 && |tail| == 28;
    assert (head + tail)[0] == head[0];
    assert (head + tail)[46] == tail[27];
  }

  lemma AgreedKeyword()
    ensures "We agreed and John will schedule the follow-up."[3..9] == "agreed"
  {
    DualMatchTranscriptJoin();
    var head, tail := "We agreed and John ", "will schedule the follow-up.";
    assert (head + tail)[3..9] == head[3..9];
  }

  lemma WillKeyword()
    ensures "We agreed and John will schedule the follow-up."[19..23] == "will"
  {
    DualMatchTranscriptJoin();
    var head, tail := "We agreed and John ", "will schedule the follow-up.";
    assert |head| == 19;
    assert (head + tail)[19..23] == tail[..4];
  }

  /** "We agreed and John will schedule the follow-up." is listed as a
      decision, by `agreed`... */
  lemma DualMatchTranscriptDecision()
    ensures "We agreed and John will schedule the follow-up." in
      Selected(["We agreed and John will schedule the follow-up."], DecisionKeywords)
  {
    AgreedKeyword();
    DualMatchTranscriptChars();
    WorkedKeywords();
    ListedByKeyword(["We agreed and John will schedule the follow-up."], DecisionKeywords, 0, 2, 3);
  }

  /** ...and as an action item, by `will`. */
  lemma DualMatchTranscriptAction()
    ensures "We agreed and John will schedule the follow-up." in
      Selected(["We agreed and John will schedule the follow-up."], ActionKeywords)
  {
    WillKeyword();
    DualMatchTranscriptChars();
    WorkedKeywords();
    ListedByKeyword(["We agreed and John will schedule the follow-up."], ActionKeywords, 0, 0, 19);
  }
}
