/** The decision and action-item extractor: every piece of the split
    transcript is lower-cased and tested for the keywords of each category;
    a piece that matches is stripped and appended to that category's list.
    The two tests are independent, so one sentence can land in both lists. */
module Extraction {
  import opened PyStr
  import opened SentenceSplit

  /** The words that mark a decision. */
  const DecisionKeywords: seq<string> := ["decided", "approved", "agreed", "finalized"]

  /** The words that mark an action item. */
  const ActionKeywords: seq<string> := ["will", "need to", "assign", "schedule", "send", "review"]

  /** `any(word in s for word in kws)`: plain substring containment of at
      least one keyword, not whole-word matching. */
  function ContainsAny(s: string, kws: seq<string>): bool {
    if kws == [] then false else Contains(s, kws[0]) || ContainsAny(s, kws[1..])
  }

  /** The test succeeds exactly when some keyword of the list is found. */
  lemma {:induction false} ContainsAnyIff(s: string, kws: seq<string>)
    ensures ContainsAny(s, kws) <==> exists j :: 0 <= j < |kws| && Contains(s, kws[j])
    decreases |kws|
  {
    if kws != [] {
      ContainsAnyIff(s, kws[1..]);
      assert forall j :: 1 <= j < |kws| ==> kws[j] == kws[1..][j - 1];
    }
  }

  /** The test applied to each piece: its lower-cased text contains one of
      the keywords. */
  predicate Mentions(sentence: string, kws: seq<string>) {
    ContainsAny(Lower(sentence), kws)
  }

  /** What the loop appends to one category's list for the pieces `ps`, in
      order: each matching piece, stripped. */
  function Selected(ps: seq<string>, kws: seq<string>): (r: seq<string>)
    ensures |r| <= |ps|
  {
    if ps == [] then [] else Pick(ps[0], kws) + Selected(ps[1..], kws)
  }

  /** What one piece contributes to a category's list. */
  function Pick(p: string, kws: seq<string>): seq<string> {
    if Mentions(p, kws) then [Strip(p)] else []
  }

  /** One more piece adds its contribution at the end of the list. */
  lemma {:induction false} SelectedSnoc(ps: seq<string>, p: string, kws: seq<string>)
    ensures Selected(ps + [p], kws) == Selected(ps, kws) + Pick(p, kws)
    decreases |ps|
  {
    if ps == [] {
      assert ps + [p] == [p];
      assert Selected([p], kws) == Pick(p, kws) + Selected([], kws);
    } else {
      SelectedSnoc(ps[1..], p, kws);
      assert (ps + [p])[0] == ps[0];
      assert (ps + [p])[1..] == ps[1..] + [p];
    }
  }

  lemma SelectedStep(ps: seq<string>, i: nat, kws: seq<string>)
    requires i < |ps|
    ensures Selected(ps[..i + 1], kws) == Selected(ps[..i], kws) + Pick(ps[i], kws)
  {
    assert ps[..i + 1] == ps[..i] + [ps[i]];
    SelectedSnoc(ps[..i], ps[i], kws);
  }

  /** The loop of the extractor: both lists start empty and each piece of
      the split transcript is tested once per category. */
  method Extract(text: string) returns (decisions: seq<string>, actions: seq<string>)
    ensures decisions == Selected(SplitSentences(text), DecisionKeywords)
    ensures actions == Selected(SplitSentences(text), ActionKeywords)
  {
    decisions := [];
    actions := [];
    var pieces := SplitSentences(text);
    var i := 0;
    while i < |pieces|
      invariant 0 <= i <= |pieces|
      invariant decisions == Selected(pieces[..i], DecisionKeywords)
      invariant actions == Selected(pieces[..i], ActionKeywords)
    {
      var sentence := pieces[i];
      SelectedStep(pieces, i, DecisionKeywords);
      SelectedStep(pieces, i, ActionKeywords);
      if Mentions(sentence, DecisionKeywords) {
        decisions := decisions + [Strip(sentence)];
      }
      if Mentions(sentence, ActionKeywords) {
        actions := actions + [Strip(sentence)];
      }
      i := i + 1;
    }
    assert pieces[..i] == pieces;
  }

  /** Every position moved one place to the right. */
  function Shift(idx: seq<nat>): (r: seq<nat>)
    ensures |r| == |idx|
    ensures forall m :: 0 <= m < |idx| ==> r[m] == idx[m] + 1
  {
    if idx == [] then [] else [idx[0] + 1] + Shift(idx[1..])
  }

  /** `sel[m]` is the stripped text of the matching piece at `idx[m]`. */
  ghost predicate PicksAt(ps: seq<string>, kws: seq<string>, sel: seq<string>, idx: seq<nat>) {
    |idx| == |sel| &&
    forall m :: 0 <= m < |idx| ==> idx[m] < |ps| && Mentions(ps[idx[m]], kws) && sel[m] == Strip(ps[idx[m]])
  }

  ghost predicate StrictlyIncreasing(idx: seq<nat>) {
    forall m, n :: 0 <= m < n < |idx| ==> idx[m] < idx[n]
  }

  /** Every matching position of `ps` is listed in `idx`. */
  ghost predicate ListsAllMatches(ps: seq<string>, kws: seq<string>, idx: seq<nat>) {
    forall j :: 0 <= j < |ps| && Mentions(ps[j], kws) ==> j in idx
  }

  lemma PicksAtShift(ps: seq<string>, kws: seq<string>, sel: seq<string>, tail: seq<nat>)
    requires ps != [] && PicksAt(ps[1..], kws, sel, tail)
    ensures PicksAt(ps, kws, sel, Shift(tail))
  {
    var shifted := Shift(tail);
    forall m | 0 <= m < |shifted| ensures shifted[m] < |ps| && ps[shifted[m]] == ps[1..][tail[m]] {
    }
  }

  lemma PicksAtCons(ps: seq<string>, kws: seq<string>, sel: seq<string>, shifted: seq<nat>)
    requires ps != [] && Mentions(ps[0], kws) && PicksAt(ps, kws, sel, shifted)
    ensures PicksAt(ps, kws, [Strip(ps[0])] + sel, [0] + shifted)
  {
    var idx, sel' := [0] + shifted, [Strip(ps[0])] + sel;
    forall m | 0 <= m < |idx|
      ensures idx[m] < |ps| && Mentions(ps[idx[m]], kws) && sel'[m] == Strip(ps[idx[m]])
    {
      if m > 0 {
        assert idx[m] == shifted[m - 1] && sel'[m] == sel[m - 1];
      }
    }
  }

  lemma IncreasingCons(tail: seq<nat>)
    requires StrictlyIncreasing(tail)
    ensures StrictlyIncreasing(Shift(tail))
    ensures StrictlyIncreasing([0] + Shift(tail))
  {
    var shifted := Shift(tail);
    forall m, n | 0 <= m < n < |shifted| ensures shifted[m] < shifted[n] {
      assert tail[m] < tail[n];
    }
    var idx := [0] + shifted;
    forall m, n | 0 <= m < n < |idx| ensures idx[m] < idx[n] {
      assert idx[n] == shifted[n - 1];
      if m > 0 {
        assert idx[m] == shifted[m - 1];
      }
    }
  }

  lemma ListsAllMatchesCons(ps: seq<string>, kws: seq<string>, tail: seq<nat>)
    requires ps != [] && ListsAllMatches(ps[1..], kws, tail)
    ensures !Mentions(ps[0], kws) ==> ListsAllMatches(ps, kws, Shift(tail))
    ensures ListsAllMatches(ps, kws, [0] + Shift(tail))
  {
    var shifted := Shift(tail);
    forall j | 1 <= j < |ps| && Mentions(ps[j], kws) ensures j in shifted {
      assert ps[1..][j - 1] == ps[j];
      var m :| 0 <= m < |tail| && tail[m] == j - 1;
      assert shifted[m] == j;
    }
  }

  /** Order and multiplicity: the list is exactly the stripped matching
      pieces, one entry per matching piece (no deduplication), taken at
      strictly increasing positions of the transcript (no reordering). */
  lemma {:induction false} SelectedIndices(ps: seq<string>, kws: seq<string>) returns (idx: seq<nat>)
    ensures |idx| == |Selected(ps, kws)|
    ensures forall m :: 0 <= m < |idx| ==>
      idx[m] < |ps| && Mentions(ps[idx[m]], kws) && Selected(ps, kws)[m] == Strip(ps[idx[m]])
    ensures forall m, n :: 0 <= m < n < |idx| ==> idx[m] < idx[n]
    ensures forall j :: 0 <= j < |ps| && Mentions(ps[j], kws) ==> j in idx
    decreases |ps|
  {
    if ps == [] {
      idx := [];
    } else {
      var tail := SelectedIndices(ps[1..], kws);
      var sel := Selected(ps[1..], kws);
      assert PicksAt(ps[1..], kws, sel, tail);
      assert StrictlyIncreasing(tail);
      assert ListsAllMatches(ps[1..], kws, tail);
      PicksAtShift(ps, kws, sel, tail);
      IncreasingCons(tail);
      ListsAllMatchesCons(ps, kws, tail);
      assert Selected(ps, kws) == Pick(ps[0], kws) + sel;
      if Mentions(ps[0], kws) {
        idx := [0] + Shift(tail);
        PicksAtCons(ps, kws, sel, Shift(tail));
        assert Selected(ps, kws) == [Strip(ps[0])] + sel;
        assert PicksAt(ps, kws, Selected(ps, kws), idx);
      } else {
        idx := Shift(tail);
        assert Selected(ps, kws) == sel;
        assert PicksAt(ps, kws, Selected(ps, kws), idx);
      }
      assert StrictlyIncreasing(idx) && ListsAllMatches(ps, kws, idx);
    }
  }

  /** Membership, both directions: a string is in the list exactly when
      some piece of the transcript matches and strips to it. */
  lemma SelectedMembership(ps: seq<string>, kws: seq<string>, x: string)
    ensures x in Selected(ps, kws) <==> exists j :: 0 <= j < |ps| && Mentions(ps[j], kws) && Strip(ps[j]) == x
  {
    var idx := SelectedIndices(ps, kws);
    var r := Selected(ps, kws);
    if x in r {
      var m :| 0 <= m < |r| && r[m] == x;
      assert Mentions(ps[idx[m]], kws) && Strip(ps[idx[m]]) == x;
    }
    if j :| 0 <= j < |ps| && Mentions(ps[j], kws) && Strip(ps[j]) == x {
      var m :| 0 <= m < |idx| && idx[m] == j;
      assert r[m] == x;
    }
  }

  /** Every keyword is non-empty and has no whitespace at either end. */
  ghost predicate KeywordsTrimmed(kws: seq<string>) {
    forall j :: 0 <= j < |kws| ==>
      kws[j] != [] && !IsWhitespace(kws[j][0]) && !IsWhitespace(kws[j][|kws[j]| - 1])
  }

  lemma BuiltInKeywordsTrimmed()
    ensures KeywordsTrimmed(DecisionKeywords) && KeywordsTrimmed(ActionKeywords)
  {
  }

  /** Stripping a piece whose lower-cased text mentions a trimmed keyword
      leaves a string that still mentions it. */
  lemma StripKeepsMention(p: string, kws: seq<string>)
    requires KeywordsTrimmed(kws)
    requires Mentions(p, kws)
    ensures Mentions(Strip(p), kws)
  {
    ContainsAnyIff(Lower(p), kws);
    var j :| 0 <= j < |kws| && Contains(Lower(p), kws[j]);
    StripKeepsWord(p, kws[j]);
    ContainsAnyIff(Lower(Strip(p)), kws);
  }

  /** The converse: a piece whose stripped text mentions a keyword mentions
      it unstripped, whatever the keywords. */
  lemma MentionOfStripped(p: string, kws: seq<string>)
    requires Mentions(Strip(p), kws)
    ensures Mentions(p, kws)
  {
    ContainsAnyIff(Lower(Strip(p)), kws);
    var j :| 0 <= j < |kws| && Contains(Lower(Strip(p)), kws[j]);
    WordOfStripped(p, kws[j]);
    ContainsAnyIff(Lower(p), kws);
  }

  /** Every piece, stripped. */
  function MapStrip(ps: seq<string>): (r: seq<string>)
    ensures |r| == |ps|
    ensures forall j :: 0 <= j < |ps| ==> r[j] == Strip(ps[j])
  {
    if ps == [] then [] else [Strip(ps[0])] + MapStrip(ps[1..])
  }

  /** Testing each piece before stripping it, as the extractor does, gives
      the same lists as stripping every piece first and testing afterwards. */
  lemma {:induction false} OrderIrrelevant(ps: seq<string>, kws: seq<string>)
    requires KeywordsTrimmed(kws)
    ensures Selected(MapStrip(ps), kws) == Selected(ps, kws)
    decreases |ps|
  {
    if ps != [] {
      var q := MapStrip(ps);
      assert q[0] == Strip(ps[0]);
      assert q[1..] == MapStrip(ps[1..]);
      OrderIrrelevant(ps[1..], kws);
      StripIdempotent(ps[0]);
      if Mentions(ps[0], kws) {
        StripKeepsMention(ps[0], kws);
      }
      if Mentions(Strip(ps[0]), kws) {
        MentionOfStripped(ps[0], kws);
      }
      assert Pick(q[0], kws) == Pick(ps[0], kws);
    }
  }

  /** Every entry is stripped already and still contains a keyword of its
      category after lower-casing. */
  lemma {:induction false} SelectedEntriesClean(ps: seq<string>, kws: seq<string>)
    requires KeywordsTrimmed(kws)
    ensures forall m :: 0 <= m < |Selected(ps, kws)| ==>
      Strip(Selected(ps, kws)[m]) == Selected(ps, kws)[m] && Mentions(Selected(ps, kws)[m], kws)
  {
    var idx := SelectedIndices(ps, kws);
    forall m | 0 <= m < |Selected(ps, kws)|
      ensures Strip(Selected(ps, kws)[m]) == Selected(ps, kws)[m] && Mentions(Selected(ps, kws)[m], kws)
    {
      StripIdempotent(ps[idx[m]]);
      StripKeepsMention(ps[idx[m]], kws);
    }
  }

  /** The two categories are independent: a piece that mentions keywords
      of both lands, stripped, in both lists. */
  lemma BothCategories(ps: seq<string>, j: nat)
    requires j < |ps|
    requires Mentions(ps[j], DecisionKeywords) && Mentions(ps[j], ActionKeywords)
    ensures Strip(ps[j]) in Selected(ps, DecisionKeywords)
    ensures Strip(ps[j]) in Selected(ps, ActionKeywords)
  {
    SelectedMembership(ps, DecisionKeywords, Strip(ps[j]));
    SelectedMembership(ps, ActionKeywords, Strip(ps[j]));
  }
}
