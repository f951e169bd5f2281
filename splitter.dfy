/** The transcript's sentence split, `re.split(r"(?<=[.!?]) +", text)`,
    modelled directly rather than through a regular-expression engine. A
    boundary is a run of one or more space characters whose first space
    immediately follows `.`, `!` or `?`. The pattern's ` +` is greedy, so the
    whole run belongs to one boundary; the punctuation stays with the piece
    before it and the run of spaces is dropped. Only the space character
    counts: tabs and newlines never split. */
module SentenceSplit {

  /** The characters of the lookbehind class `[.!?]`. */
  predicate IsTerminal(c: char) {
    c == '.' || c == '!' || c == '?'
  }

  /** A boundary begins right after the first character of `s`. */
  predicate BoundaryAtFront(s: string) {
    |s| >= 2 && IsTerminal(s[0]) && s[1] == ' '
  }

  /** `s` without its leading run of spaces. */
  function SkipSpaces(s: string): (r: string)
    ensures |r| <= |s|
    ensures r == s[|s| - |r|..]
    ensures forall i :: 0 <= i < |s| - |r| ==> s[i] == ' '
    ensures r != [] ==> r[0] != ' '
  {
    if s != [] && s[0] == ' ' then SkipSpaces(s[1..]) else s
  }

  /** The pieces `re.split` returns for the pattern above, in order. There is
      always at least one piece, the first one is empty only for the empty
      input, and otherwise it starts with the input's first character. */
  function SplitSentences(s: string): (ps: seq<string>)
    ensures |ps| >= 1
    ensures ps[0] == [] <==> s == []
    ensures s != [] ==> ps[0][0] == s[0]
    decreases |s|
  {
    if s == [] then [""]
    else if BoundaryAtFront(s) then [[s[0]]] + SplitSentences(SkipSpaces(s[1..]))
    else
      var rest := SplitSentences(s[1..]);
      [[s[0]] + rest[0]] + rest[1..]
  }

  /** `" ".join(ps)`. */
  function JoinWithSpaces(ps: seq<string>): string
    requires |ps| >= 1
  {
    if |ps| == 1 then ps[0] else ps[0] + " " + JoinWithSpaces(ps[1..])
  }

  /** The input with every boundary's run of spaces shortened to one space;
      every other character is kept as it is. */
  function Collapse(s: string): (r: string)
    ensures |r| <= |s|
    decreases |s|
  {
    if s == [] then []
    else if BoundaryAtFront(s) then [s[0], ' '] + Collapse(SkipSpaces(s[1..]))
    else [s[0]] + Collapse(s[1..])
  }

  /** The characters of `s` other than the space, in order. */
  function NonSpaces(s: string): string {
    if s == [] then [] else (if s[0] == ' ' then [] else [s[0]]) + NonSpaces(s[1..])
  }

  function Last(p: string): char
    requires p != []
  {
    p[|p| - 1]
  }

  /** No terminal character inside `p` is followed by a space. */
  ghost predicate NoBoundaryIn(p: string) {
    forall i :: 0 <= i < |p| - 1 ==> !(IsTerminal(p[i]) && p[i + 1] == ' ')
  }

  /** No piece contains a boundary. */
  ghost predicate PiecesBoundaryFree(ps: seq<string>) {
    forall j :: 0 <= j < |ps| ==> NoBoundaryIn(ps[j])
  }

  /** Every piece but the last is non-empty and ends with a terminal. */
  ghost predicate EndsTerminalExceptLast(ps: seq<string>) {
    forall j :: 0 <= j < |ps| - 1 ==> ps[j] != [] && IsTerminal(Last(ps[j]))
  }

  /** Every piece after the first is empty only when it is the last one, and
      otherwise does not start with a space. */
  ghost predicate LaterPiecesStartWell(ps: seq<string>) {
    forall j :: 0 < j < |ps| ==> (ps[j] == [] ==> j == |ps| - 1) && (ps[j] != [] ==> ps[j][0] != ' ')
  }

  /** Joining a first piece with at least one more piece. */
  lemma JoinHead(p: string, rest: seq<string>)
    requires |rest| >= 1
    ensures JoinWithSpaces([p] + rest) == p + " " + JoinWithSpaces(rest)
  {
    assert ([p] + rest)[1..] == rest;
  }

  lemma ConsSpaceJoin(c: char, p: string, tail: string)
    ensures ([c] + p) + " " + tail == [c] + (p + " " + tail)
  {
  }

  /** Prefixing one character to the first piece prefixes it to the join. */
  lemma JoinConsFirst(c: char, ps: seq<string>)
    requires |ps| >= 1
    ensures JoinWithSpaces([[c] + ps[0]] + ps[1..]) == [c] + JoinWithSpaces(ps)
  {
    if |ps| == 1 {
      assert [[c] + ps[0]] + ps[1..] == [[c] + ps[0]];
    } else {
      var rest := ps[1..];
      JoinHead([c] + ps[0], rest);
      assert JoinWithSpaces(ps) == ps[0] + " " + JoinWithSpaces(rest);
      ConsSpaceJoin(c, ps[0], JoinWithSpaces(rest));
    }
  }

  /** Joining the pieces with single spaces gives back the input, with each
      boundary's run of spaces collapsed to one space. */
  lemma {:induction false} SplitRejoin(s: string)
    ensures JoinWithSpaces(SplitSentences(s)) == Collapse(s)
    decreases |s|
  {
    if s == [] {
    } else if BoundaryAtFront(s) {
      var t := SkipSpaces(s[1..]);
      var rest := SplitSentences(t);
      var ps := SplitSentences(s);
      assert ps == [[s[0]]] + rest;
      assert ps[1..] == rest;
      calc {
        JoinWithSpaces(ps);
        [s[0]] + " " + JoinWithSpaces(rest);
        { SplitRejoin(t); }
        [s[0]] + " " + Collapse(t);
        { assert [s[0]] + " " == [s[0], ' ']; }
        [s[0], ' '] + Collapse(t);
        Collapse(s);
      }
    } else {
      var rest := SplitSentences(s[1..]);
      assert SplitSentences(s) == [[s[0]] + rest[0]] + rest[1..];
      calc {
        JoinWithSpaces(SplitSentences(s));
        { JoinConsFirst(s[0], rest); }
        [s[0]] + JoinWithSpaces(rest);
        { SplitRejoin(s[1..]); }
        [s[0]] + Collapse(s[1..]);
        Collapse(s);
      }
    }
  }

  lemma {:induction false} NonSpacesAppend(a: string, b: string)
    ensures NonSpaces(a + b) == NonSpaces(a) + NonSpaces(b)
    decreases |a|
  {
    if a == [] {
      assert a + b == b;
    } else {
      var h := if a[0] == ' ' then [] else [a[0]];
      calc {
        NonSpaces(a + b);
        { assert (a + b)[0] == a[0]; assert (a + b)[1..] == a[1..] + b; }
        h + NonSpaces(a[1..] + b);
        { NonSpacesAppend(a[1..], b); }
        h + (NonSpaces(a[1..]) + NonSpaces(b));
        (h + NonSpaces(a[1..])) + NonSpaces(b);
      }
    }
  }

  lemma {:induction false} NonSpacesSkip(s: string)
    ensures NonSpaces(SkipSpaces(s)) == NonSpaces(s)
    decreases |s|
  {
    if s != [] && s[0] == ' ' {
      NonSpacesSkip(s[1..]);
    }
  }

  /** Collapsing drops spaces only: every other character of the input is
      kept, in order, and none is added. */
  lemma {:induction false} CollapseKeepsNonSpaces(s: string)
    ensures NonSpaces(Collapse(s)) == NonSpaces(s)
    decreases |s|
  {
    if s == [] {
    } else if BoundaryAtFront(s) {
      var t := SkipSpaces(s[1..]);
      CollapseKeepsNonSpaces(t);
      NonSpacesSkip(s[1..]);
      NonSpacesAppend([s[0], ' '], Collapse(t));
      assert NonSpaces([s[0], ' ']) == [s[0]];
    } else {
      CollapseKeepsNonSpaces(s[1..]);
      NonSpacesAppend([s[0]], Collapse(s[1..]));
    }
  }

  /** Some terminal character of `s` is followed by at least two spaces. */
  ghost predicate HasLongBoundary(s: string) {
    exists i :: 0 <= i < |s| - 2 && IsTerminal(s[i]) && s[i + 1] == ' ' && s[i + 2] == ' '
  }

  lemma NoLongBoundaryDrop(s: string, k: nat)
    requires k <= |s| && !HasLongBoundary(s)
    ensures !HasLongBoundary(s[k..])
  {
  }

  /** At a boundary followed by a single space, the skip drops just that
      space. */
  lemma SkipSingleSpace(s: string)
    requires BoundaryAtFront(s) && !HasLongBoundary(s)
    ensures SkipSpaces(s[1..]) == s[2..]
  {
    if |s| > 2 {
      assert !(IsTerminal(s[0]) && s[1] == ' ' && s[2] == ' ');
    }
    assert s[1..][1..] == s[2..];
  }

  /** Where no terminal is followed by two spaces, collapsing changes
      nothing. */
  lemma {:induction false} CollapseKeepsSingleSpaces(s: string)
    requires !HasLongBoundary(s)
    ensures Collapse(s) == s
    decreases |s|
  {
    if s == [] {
    } else if BoundaryAtFront(s) {
      NoLongBoundaryDrop(s, 2);
      calc {
        Collapse(s);
        [s[0], ' '] + Collapse(SkipSpaces(s[1..]));
        { SkipSingleSpace(s); }
        [s[0], ' '] + Collapse(s[2..]);
        { CollapseKeepsSingleSpaces(s[2..]); }
        [s[0], ' '] + s[2..];
        { assert s[..2] == [s[0], ' ']; }
        s[..2] + s[2..];
        { assert s[..2] + s[2..] == s; }
        s;
      }
    } else {
      NoLongBoundaryDrop(s, 1);
      calc {
        Collapse(s);
        [s[0]] + Collapse(s[1..]);
        { CollapseKeepsSingleSpaces(s[1..]); }
        [s[0]] + s[1..];
        { assert [s[0]] + s[1..] == s; }
        s;
      }
    }
  }

  /** Skipping spaces from a string whose last character is not a space
      leaves a non-empty string with that same last character. */
  lemma SkipSpacesKeepsLast(a: string)
    requires a != [] && Last(a) != ' '
    ensures SkipSpaces(a) != [] && Last(SkipSpaces(a)) == Last(a)
  {
    assert a[|a| - 1] != ' ';
  }

  /** The leading run of spaces of `a + b` lies inside `a` when `a` does not
      end with a space. */
  lemma {:induction false} SkipSpacesAppend(a: string, b: string)
    requires a != [] && Last(a) != ' '
    ensures SkipSpaces(a + b) == SkipSpaces(a) + b
    decreases |a|
  {
    if a[0] == ' ' {
      assert |a| >= 2;
      assert (a + b)[1..] == a[1..] + b;
      SkipSpacesAppend(a[1..], b);
    }
  }

  lemma PrefixAssoc(u: string, x: string, y: string)
    ensures u + (x + y) == (u + x) + y
  {
  }

  /** One step of `CollapseAppend` at a boundary that starts inside `a`,
      given the result for the text after the boundary's run. */
  lemma CollapseAppendAtBoundary(a: string, b: string)
    requires a != [] && Last(a) != ' ' && !IsTerminal(Last(a))
    requires BoundaryAtFront(a + b)
    requires Collapse(SkipSpaces(a[1..]) + b) == Collapse(SkipSpaces(a[1..])) + Collapse(b)
    ensures Collapse(a + b) == Collapse(a) + Collapse(b)
  {
    var s := a + b;
    assert s[0] == a[0] && s[1..] == a[1..] + b;
    assert |a| >= 2 && a[1] == s[1];
    SkipSpacesAppend(a[1..], b);
    var x, y := Collapse(SkipSpaces(a[1..])), Collapse(b);
    calc {
      Collapse(s);
      [s[0], ' '] + Collapse(SkipSpaces(s[1..]));
      [a[0], ' '] + (x + y);
      { PrefixAssoc([a[0], ' '], x, y); }
      ([a[0], ' '] + x) + y;
      Collapse(a) + y;
    }
  }

  /** One step of `CollapseAppend` when no boundary starts at the front,
      given the result for `a` without its first character. */
  lemma CollapseAppendPlain(a: string, b: string)
    requires a != [] && !BoundaryAtFront(a + b)
    requires Collapse(a[1..] + b) == Collapse(a[1..]) + Collapse(b)
    ensures Collapse(a + b) == Collapse(a) + Collapse(b)
  {
    var s := a + b;
    assert s[0] == a[0] && s[1..] == a[1..] + b;
    if |a| >= 2 {
      assert a[1] == s[1];
    }
    var x, y := Collapse(a[1..]), Collapse(b);
    calc {
      Collapse(s);
      [s[0]] + Collapse(s[1..]);
      [a[0]] + (x + y);
      { PrefixAssoc([a[0]], x, y); }
      ([a[0]] + x) + y;
      Collapse(a) + y;
    }
  }

  /** Collapsing is local: text cut after a character that is neither a
      space nor a terminal is collapsed piece by piece, so no boundary run
      crosses the cut. */
  lemma {:induction false} CollapseAppend(a: string, b: string)
    requires a != [] ==> Last(a) != ' ' && !IsTerminal(Last(a))
    ensures Collapse(a + b) == Collapse(a) + Collapse(b)
    decreases |a|
  {
    if a == [] {
      assert a + b == b;
    } else if BoundaryAtFront(a + b) {
      assert |a| >= 2;
      SkipSpacesKeepsLast(a[1..]);
      CollapseAppend(SkipSpaces(a[1..]), b);
      CollapseAppendAtBoundary(a, b);
    } else {
      CollapseAppend(a[1..], b);
      CollapseAppendPlain(a, b);
    }
  }

  /** A segment with no terminal followed by two spaces, set between
      characters that are neither spaces nor terminals, comes through
      collapsing unchanged wherever it stands in the text: every space
      outside a boundary run is kept. */
  lemma CollapseKeepsSegment(a: string, m: string, b: string)
    requires a != [] ==> Last(a) != ' ' && !IsTerminal(Last(a))
    requires m != [] ==> Last(m) != ' ' && !IsTerminal(Last(m))
    requires !HasLongBoundary(m)
    ensures Collapse(a + m + b) == Collapse(a) + m + Collapse(b)
  {
    calc {
      Collapse(a + m + b);
      { assert a + m + b == a + (m + b); }
      Collapse(a + (m + b));
      { CollapseAppend(a, m + b); }
      Collapse(a) + Collapse(m + b);
      { CollapseAppend(m, b); CollapseKeepsSingleSpaces(m); }
      Collapse(a) + (m + Collapse(b));
      { assert Collapse(a) + (m + Collapse(b)) == Collapse(a) + m + Collapse(b); }
      Collapse(a) + m + Collapse(b);
    }
  }

  /** A terminal followed by two or more spaces makes the collapsed text
      strictly shorter. */
  lemma {:induction false} CollapseShortens(s: string, i: nat)
    requires i < |s| - 2 && IsTerminal(s[i]) && s[i + 1] == ' ' && s[i + 2] == ' '
    ensures |Collapse(s)| < |s|
    decreases |s|
  {
    if BoundaryAtFront(s) {
      var t := SkipSpaces(s[1..]);
      var d := |s| - 1 - |t|;
      if i == 0 {
        assert s[1..][1] == ' ';
        assert d >= 2;
      } else {
        assert s[1..][0] == ' ';
        assert d >= 1;
        assert i > d;
        assert t[i - 1 - d] == s[i] && t[i - d] == s[i + 1] && t[i + 1 - d] == s[i + 2];
        CollapseShortens(t, i - 1 - d);
      }
    } else {
      assert i != 0;
      var t := s[1..];
      assert t[i - 1] == s[i] && t[i] == s[i + 1] && t[i + 1] == s[i + 2];
      CollapseShortens(t, i - 1);
    }
  }

  /** Collapsing leaves the text unchanged exactly when no terminal in it
      is followed by two spaces. */
  lemma CollapseUnchangedIff(s: string)
    ensures Collapse(s) == s <==> !HasLongBoundary(s)
  {
    if HasLongBoundary(s) {
      var i :| 0 <= i < |s| - 2 && IsTerminal(s[i]) && s[i + 1] == ' ' && s[i + 2] == ' ';
      CollapseShortens(s, i);
    } else {
      CollapseKeepsSingleSpaces(s);
    }
  }

  /** Every piece but the last is non-empty and ends with `.`, `!` or `?`. */
  lemma {:induction false} SplitPiecesEndTerminal(s: string)
    ensures EndsTerminalExceptLast(SplitSentences(s))
    decreases |s|
  {
    var ps := SplitSentences(s);
    if s == [] {
    } else if BoundaryAtFront(s) {
      var t := SkipSpaces(s[1..]);
      var rest := SplitSentences(t);
      SplitPiecesEndTerminal(t);
      assert ps == [[s[0]]] + rest;
      forall j | 0 <= j < |ps| - 1 ensures ps[j] != [] && IsTerminal(Last(ps[j])) {
        if j > 0 {
          assert ps[j] == rest[j - 1];
        }
      }
    } else {
      var rest := SplitSentences(s[1..]);
      SplitPiecesEndTerminal(s[1..]);
      assert ps == [[s[0]] + rest[0]] + rest[1..];
      forall j | 0 <= j < |ps| - 1 ensures ps[j] != [] && IsTerminal(Last(ps[j])) {
        if j == 0 {
          assert Last(ps[0]) == Last(rest[0]);
        } else {
          assert ps[j] == rest[j];
        }
      }
    }
  }

  /** No piece contains `.`, `!` or `?` immediately followed by a space. */
  lemma {:induction false} SplitPiecesHaveNoBoundary(s: string)
    ensures PiecesBoundaryFree(SplitSentences(s))
    decreases |s|
  {
    if s == [] {
    } else if BoundaryAtFront(s) {
      var t := SkipSpaces(s[1..]);
      SplitPiecesHaveNoBoundary(t);
      BoundaryFreeOnePiece(s[0], SplitSentences(t));
    } else {
      var rest := SplitSentences(s[1..]);
      SplitPiecesHaveNoBoundary(s[1..]);
      BoundaryFreeExtendFirst(s[0], rest);
    }
  }

  lemma BoundaryFreeOnePiece(c: char, rest: seq<string>)
    requires PiecesBoundaryFree(rest)
    ensures PiecesBoundaryFree([[c]] + rest)
  {
    var ps := [[c]] + rest;
    forall j | 0 <= j < |ps| ensures NoBoundaryIn(ps[j]) {
      if j > 0 {
        assert ps[j] == rest[j - 1];
      }
    }
  }

  lemma BoundaryFreeExtendFirst(c: char, rest: seq<string>)
    requires |rest| >= 1 && PiecesBoundaryFree(rest)
    requires !(IsTerminal(c) && rest[0] != [] && rest[0][0] == ' ')
    ensures PiecesBoundaryFree([[c] + rest[0]] + rest[1..])
  {
    var ps := [[c] + rest[0]] + rest[1..];
    forall j | 0 <= j < |ps| ensures NoBoundaryIn(ps[j]) {
      if j == 0 {
        NoBoundaryCons(c, rest[0]);
      } else {
        assert ps[j] == rest[j];
      }
    }
  }

  /** Prefixing a character keeps a piece free of boundaries unless that
      character is terminal and the piece starts with a space. */
  lemma NoBoundaryCons(c: char, p: string)
    requires NoBoundaryIn(p)
    requires !(IsTerminal(c) && p != [] && p[0] == ' ')
    ensures NoBoundaryIn([c] + p)
  {
    var q := [c] + p;
    forall i | 0 <= i < |q| - 1 ensures !(IsTerminal(q[i]) && q[i + 1] == ' ') {
      if i > 0 {
        assert q[i] == p[i - 1] && q[i + 1] == p[i];
      }
    }
  }

  /** Every piece after the first is empty only when it is the last one, and
      otherwise starts with a character other than the space. */
  lemma {:induction false} SplitLaterPiecesStart(s: string)
    ensures LaterPiecesStartWell(SplitSentences(s))
    decreases |s|
  {
    var ps := SplitSentences(s);
    if s == [] {
    } else if BoundaryAtFront(s) {
      var t := SkipSpaces(s[1..]);
      var rest := SplitSentences(t);
      SplitLaterPiecesStart(t);
      assert ps == [[s[0]]] + rest;
      forall j | 0 < j < |ps| ensures (ps[j] == [] ==> j == |ps| - 1) && (ps[j] != [] ==> ps[j][0] != ' ') {
        assert ps[j] == rest[j - 1];
      }
    } else {
      var rest := SplitSentences(s[1..]);
      SplitLaterPiecesStart(s[1..]);
      assert ps == [[s[0]] + rest[0]] + rest[1..];
      forall j | 0 < j < |ps| ensures (ps[j] == [] ==> j == |ps| - 1) && (ps[j] != [] ==> ps[j][0] != ' ') {
        assert ps[j] == rest[j];
      }
    }
  }

  /** The three shape facts together: what a list of pieces must look like
      to be the output of the split. */
  ghost predicate WellSplit(ps: seq<string>) {
    |ps| >= 1 && EndsTerminalExceptLast(ps) && LaterPiecesStartWell(ps) && PiecesBoundaryFree(ps)
  }

  /** The split's output always has that shape. */
  lemma SplitIsWellSplit(s: string)
    ensures WellSplit(SplitSentences(s))
  {
    SplitPiecesEndTerminal(s);
    SplitLaterPiecesStart(s);
    SplitPiecesHaveNoBoundary(s);
  }

  lemma WellSplitTail(ps: seq<string>)
    requires WellSplit(ps) && |ps| > 1
    ensures WellSplit(ps[1..])
  {
    var qs := ps[1..];
    forall j | 0 <= j < |qs| - 1 ensures qs[j] != [] && IsTerminal(Last(qs[j])) {
      assert qs[j] == ps[j + 1];
    }
    forall j | 0 < j < |qs| ensures (qs[j] == [] ==> j == |qs| - 1) && (qs[j] != [] ==> qs[j][0] != ' ') {
      assert qs[j] == ps[j + 1];
    }
    forall j | 0 <= j < |qs| ensures NoBoundaryIn(qs[j]) {
      assert qs[j] == ps[j + 1];
    }
  }

  /** Text with no terminal character followed by a space is one piece;
      in particular trailing text without terminal punctuation is kept as
      the last piece. */
  lemma {:induction false} SplitNoBoundary(s: string)
    requires NoBoundaryIn(s)
    ensures SplitSentences(s) == [s]
    decreases |s|
  {
    if s != [] {
      assert !BoundaryAtFront(s);
      var t := s[1..];
      assert NoBoundaryIn(t) by {
        forall i | 0 <= i < |t| - 1 ensures !(IsTerminal(t[i]) && t[i + 1] == ' ') {
          assert t[i] == s[i + 1] && t[i + 1] == s[i + 2];
        }
      }
      SplitNoBoundary(t);
      assert [s[0]] + t == s;
    }
  }

  /** A piece that ends with a terminal and has no boundary inside, followed
      by one space and text that does not start with a space, is split off
      as the first piece. */
  lemma {:induction false} SplitFirstPiece(p: string, r: string)
    requires p != [] && IsTerminal(Last(p)) && NoBoundaryIn(p)
    requires r != [] ==> r[0] != ' '
    ensures SplitSentences(p + " " + r) == [p] + SplitSentences(r)
    decreases |p|
  {
    var s := p + " " + r;
    if |p| == 1 {
      assert s[0] == p[0] && s[1] == ' ' && BoundaryAtFront(s);
      assert s[1..] == " " + r;
      assert SkipSpaces(" " + r) == r;
      assert [s[0]] == p;
    } else {
      var p' := p[1..];
      assert s[0] == p[0] && s[1] == p[1];
      assert !BoundaryAtFront(s);
      assert NoBoundaryIn(p') by {
        forall i | 0 <= i < |p'| - 1 ensures !(IsTerminal(p'[i]) && p'[i + 1] == ' ') {
          assert p'[i] == p[i + 1] && p'[i + 1] == p[i + 2];
        }
      }
      assert Last(p') == Last(p);
      assert s[1..] == p' + " " + r;
      SplitFirstPiece(p', r);
      var rest := SplitSentences(s[1..]);
      assert rest == [p'] + SplitSentences(r);
      assert rest[0] == p' && rest[1..] == SplitSentences(r);
      assert [s[0]] + p' == p;
    }
  }

  /** The join starts with the first piece's first character. */
  lemma JoinFirstChar(ps: seq<string>)
    requires |ps| >= 1 && ps[0] != []
    ensures JoinWithSpaces(ps) != [] && JoinWithSpaces(ps)[0] == ps[0][0]
  {
  }

  /** The inverse direction: splitting the single-space join of pieces of
      that shape gives the pieces back. */
  lemma {:induction false} SplitJoinRoundTrip(ps: seq<string>)
    requires WellSplit(ps)
    ensures SplitSentences(JoinWithSpaces(ps)) == ps
    decreases |ps|
  {
    if |ps| == 1 {
      SplitNoBoundary(ps[0]);
    } else {
      var r := JoinWithSpaces(ps[1..]);
      if ps[1] != [] {
        JoinFirstChar(ps[1..]);
      } else {
        assert |ps| == 2;
      }
      SplitFirstPiece(ps[0], r);
      WellSplitTail(ps);
      SplitJoinRoundTrip(ps[1..]);
      assert [ps[0]] + ps[1..] == ps;
    }
  }

  /** The split is the only list of pieces of that shape whose single-space
      join is the input with each boundary's spaces collapsed. */
  lemma SplitUnique(s: string, ps: seq<string>)
    requires WellSplit(ps) && JoinWithSpaces(ps) == Collapse(s)
    ensures ps == SplitSentences(s)
  {
    SplitJoinRoundTrip(ps);
    SplitIsWellSplit(s);
    SplitJoinRoundTrip(SplitSentences(s));
    SplitRejoin(s);
  }

  /** The empty transcript splits into the one empty piece. */
  lemma SplitEmpty()
    ensures SplitSentences("") == [""]
  {
  }
}
