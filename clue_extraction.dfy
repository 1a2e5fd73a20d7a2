/**
 * The clue extractor: the assistant's replies may carry a line `CLUE: <text>`;
 * the first such marker (letters in any case) yields one evidence entry, which is
 * put at the front of the evidence list unless an entry with the same text exists.
 *
 * The match is that of the regular expression `/CLUE:\s*(.*)/i`: the leftmost
 * position where `CLUE:` occurs, then as much white space as possible (newlines
 * included), then the rest of that line as capture group 1.
 */
module ClueExtraction {
  import opened Wrappers
  import opened JsString
  import opened Types

  /** `CLUE:` starts at position `i`, its letters compared without regard to case. */
  predicate MarkerAt(s: string, i: nat) {
    i + 5 <= |s|
    && (s[i] == 'C' || s[i] == 'c') && (s[i + 1] == 'L' || s[i + 1] == 'l')
    && (s[i + 2] == 'U' || s[i + 2] == 'u') && (s[i + 3] == 'E' || s[i + 3] == 'e')
    && s[i + 4] == ':'
  }

  /** The leftmost marker at or after `from`. */
  function FindMarker(s: string, from: nat): (r: Option<nat>)
    decreases |s| - from
    ensures r.Some? ==> from <= r.value && MarkerAt(s, r.value)
    ensures forall k: nat :: from <= k && (r.None? || k < r.value) ==> !MarkerAt(s, k)
  {
    if |s| < from + 5 then None
    else if MarkerAt(s, from) then Some(from)
    else FindMarker(s, from + 1)
  }

  /** Greedy `\s*` from position `i`: the white run that starts there, up to the
      end of the string. */
  function SkipWhitespace(s: string, i: nat): (j: nat)
    requires i <= |s|
    ensures i <= j <= |s|
    ensures forall k :: i <= k < j ==> IsWhitespace(s[k])
    ensures j == |s| || !IsWhitespace(s[j])
  {
    WhiteRunEnd(s, i, |s|)
  }

  /** Greedy `.*` from position `j`: the first line terminator at or after `j`, or the end. */
  function LineEnd(s: string, j: nat): (k: nat)
    requires j <= |s|
    decreases |s| - j
    ensures j <= k <= |s|
    ensures forall m :: j <= m < k ==> !IsLineTerminator(s[m])
    ensures k == |s| || IsLineTerminator(s[k])
  {
    if j == |s| || IsLineTerminator(s[j]) then j else LineEnd(s, j + 1)
  }

  /** Capture group 1 of `/CLUE:\s*(.*)/i` against `s`, or `None` when nothing matches. */
  function ClueCapture(s: string): Option<string>
  {
    match FindMarker(s, 0)
    case None => None
    case Some(i) =>
      var j := SkipWhitespace(s, i + 5);
      Some(s[j..LineEnd(s, j)])
  }

  /** The text a reply contributes: the trimmed capture, when the capture is non-empty. */
  function ExtractClueText(s: string): Option<string>
  {
    match ClueCapture(s)
    case Some(c) => if c != "" then Some(Trim(c)) else None
    case None => None
  }

  /** Some entry of the list carries exactly this text (`clues.some(c => c.text === text)`). */
  predicate HasClueText(clues: seq<Clue>, text: string) {
    exists i :: 0 <= i < |clues| && clues[i].text == text
  }

  /** No two entries of the list carry the same text. */
  predicate DistinctTexts(clues: seq<Clue>) {
    forall i, j :: 0 <= i < j < |clues| ==> clues[i].text != clues[j].text
  }

  /** Insert-if-absent at the front: afterwards the text is on the list, the old
      entries follow in their order, the list grew by one exactly when the text was
      new (and then the new entry is first), and distinct texts stay distinct. */
  function AddClue(clues: seq<Clue>, text: string, id: string, timestamp: string): (r: seq<Clue>)
    ensures HasClueText(r, text)
    ensures |r| == if HasClueText(clues, text) then |clues| else |clues| + 1
    ensures r[|r| - |clues|..] == clues
    ensures |r| > |clues| ==> r[0] == Clue(id, text, timestamp)
    ensures DistinctTexts(clues) ==> DistinctTexts(r)
  {
    if HasClueText(clues, text) then clues
    else
      var r := [Clue(id, text, timestamp)] + clues;
      assert r[0].text == text;
      assert forall j :: 1 <= j < |r| ==> r[j] == clues[j - 1];
      r
  }

  /** `extractClues` as applied to the game record: only the evidence list can
      change, by at most one new entry at its front whose text is the extracted
      text; a reply without a usable marker, or whose clue is already listed,
      leaves the record exactly as it was. */
  function ExtractClues(g: GameState, reply: string, id: string, timestamp: string): (r: GameState)
    ensures r == g.(clues := r.clues)
    ensures |g.clues| <= |r.clues| <= |g.clues| + 1
    ensures r.clues[|r.clues| - |g.clues|..] == g.clues
    ensures |r.clues| > |g.clues| ==> ExtractClueText(reply) == Some(r.clues[0].text)
    ensures ExtractClueText(reply).None? ==> r == g
    ensures ExtractClueText(reply).Some? && HasClueText(g.clues, ExtractClueText(reply).value) ==> r == g
    ensures ExtractClueText(reply).Some? && !HasClueText(g.clues, ExtractClueText(reply).value) ==>
              r.clues == [Clue(id, ExtractClueText(reply).value, timestamp)] + g.clues
    ensures DistinctTexts(g.clues) ==> DistinctTexts(r.clues)
  {
    match ExtractClueText(reply)
    case None => g
    case Some(t) => g.(clues := AddClue(g.clues, t, id, timestamp))
  }

  /** The capture is the run from the end of the white space after the first
      marker to the end of that line. */
  lemma CaptureAt(s: string, i: nat)
    requires FindMarker(s, 0) == Some(i)
    ensures ClueCapture(s) == Some(s[SkipWhitespace(s, i + 5)..LineEnd(s, SkipWhitespace(s, i + 5))])
  {
  }

  /** The capture starts after the skipped white space and stops at the line's end. */
  lemma CaptureShape(s: string, c: string)
    requires ClueCapture(s) == Some(c)
    ensures c == [] || !IsWhitespace(c[0])
    ensures forall m :: 0 <= m < |c| ==> !IsLineTerminator(c[m])
  {
    var i := FindMarker(s, 0).value;
    var j := SkipWhitespace(s, i + 5);
    var k := LineEnd(s, j);
    assert c == s[j..k];
    forall m | 0 <= m < |c| ensures !IsLineTerminator(c[m]) {
      assert c[m] == s[j + m];
    }
  }

  /** Trimming a line that starts with a non-white character keeps a non-empty part of it. */
  lemma TrimLine(c: string)
    requires c != [] && !IsWhitespace(c[0])
    requires forall m :: 0 <= m < |c| ==> !IsLineTerminator(c[m])
    ensures Trim(c) != []
    ensures forall m :: 0 <= m < |Trim(c)| ==> !IsLineTerminator(Trim(c)[m])
  {
    var t := Trim(c);
    assert !AllWhitespace(c);
    var a, b :| 0 <= a <= b <= |c| && t == c[a..b];
    forall m | 0 <= m < |t| ensures !IsLineTerminator(t[m]) {
      assert t[m] == c[a + m];
    }
  }

  /** An extracted clue is non-empty, starts and ends with a non-white character
      and lies within one line. */
  lemma ExtractedClueIsClean(s: string, t: string)
    requires ExtractClueText(s) == Some(t)
    ensures t != []
    ensures !IsWhitespace(t[0]) && !IsWhitespace(t[|t| - 1])
    ensures forall m :: 0 <= m < |t| ==> !IsLineTerminator(t[m])
  {
    var c := ClueCapture(s).value;
    CaptureShape(s, c);
    TrimLine(c);
  }

  /** Strings that agree position by position on `[j, k)` have the same slice there. */
  lemma SliceAgrees(s1: string, s2: string, j: nat, k: nat)
    requires j <= k <= |s1| && k <= |s2|
    requires forall m :: j <= m < k ==> s1[m] == s2[m]
    ensures s1[j..k] == s2[j..k]
  {
    assert forall m :: 0 <= m < k - j ==> s1[j..k][m] == s1[j + m] == s2[j + m] == s2[j..k][m];
  }

  /** Strings that agree up to and including the first marker of one of them have
      that same first marker. */
  lemma {:induction false} FindMarkerAgrees(s1: string, s2: string, from: nat, i: nat)
    requires FindMarker(s1, from) == Some(i)
    requires forall m :: from <= m < i + 5 ==> m < |s2| && s1[m] == s2[m]
    ensures FindMarker(s2, from) == Some(i)
    decreases |s1| - from
  {
    if from < i {
      assert !MarkerAt(s1, from);
      assert !MarkerAt(s2, from) by {
        assert s1[from..from + 5] == s2[from..from + 5];
      }
      FindMarkerAgrees(s1, s2, from + 1, i);
    }
  }

  /** Strings that agree on `[i, n)` skip the same white space from `i`, provided
      the run ends before `n` or both strings end at `n`. */
  lemma {:induction false} SkipWhitespaceAgrees(s1: string, s2: string, i: nat, n: nat)
    requires i <= n <= |s1| && n <= |s2|
    requires forall m :: i <= m < n ==> s1[m] == s2[m]
    requires SkipWhitespace(s1, i) < n || n == |s1| == |s2|
    ensures SkipWhitespace(s2, i) == SkipWhitespace(s1, i)
    decreases n - i
  {
    if i < n {
      assert s1[i] == s2[i];
      if IsWhitespace(s1[i]) {
        assert SkipWhitespace(s1, i) == SkipWhitespace(s1, i + 1);
        SkipWhitespaceAgrees(s1, s2, i + 1, n);
      }
    }
  }

  /** Strings that agree on `[j, n)` find the same end of line from `j`, provided
      the line ends before `n` or both strings end at `n`. */
  lemma {:induction false} LineEndAgrees(s1: string, s2: string, j: nat, n: nat)
    requires j <= n <= |s1| && n <= |s2|
    requires forall m :: j <= m < n ==> s1[m] == s2[m]
    requires LineEnd(s1, j) < n || n == |s1| == |s2|
    ensures LineEnd(s2, j) == LineEnd(s1, j)
    decreases n - j
  {
    if j < n {
      assert s1[j] == s2[j];
      if !IsLineTerminator(s1[j]) {
        assert LineEnd(s1, j) == LineEnd(s1, j + 1);
        LineEndAgrees(s1, s2, j + 1, n);
      }
    }
  }

  /** The capture after the first marker is empty exactly when only white space
      follows that marker. */
  lemma EmptyCaptureIffBlank(s: string, i: nat)
    requires FindMarker(s, 0) == Some(i)
    ensures ClueCapture(s).Some?
    ensures ClueCapture(s).value == [] <==> AllWhitespace(s[i + 5..])
  {
    var j := SkipWhitespace(s, i + 5);
    var k := LineEnd(s, j);
    assert ClueCapture(s) == Some(s[j..k]);
    var rest := s[i + 5..];
    if j < |s| {
      assert !IsLineTerminator(s[j]);
      assert rest[j - (i + 5)] == s[j];
    } else {
      forall m | 0 <= m < |rest| ensures IsWhitespace(rest[m]) {
        assert rest[m] == s[i + 5 + m];
      }
    }
  }

  /** A reply adds nothing exactly when it has no marker, or only white space
      follows the first one. */
  lemma NothingAfterMarker(s: string)
    ensures ExtractClueText(s).None? <==>
      (FindMarker(s, 0).None? || AllWhitespace(s[FindMarker(s, 0).value + 5..]))
  {
    if FindMarker(s, 0).Some? {
      EmptyCaptureIffBlank(s, FindMarker(s, 0).value);
    }
  }

  /** A string that agrees with `s1` on `[0, n)`, where `s1`'s first marker and the
      line it captures both lie and end before `n`, captures the same text. */
  lemma CaptureAgrees(s1: string, s2: string, n: nat)
    requires n <= |s1| && n <= |s2|
    requires forall m :: 0 <= m < n ==> s1[m] == s2[m]
    requires FindMarker(s1, 0).Some? && FindMarker(s1, 0).value + 5 <= n
    requires LineEnd(s1, SkipWhitespace(s1, FindMarker(s1, 0).value + 5)) < n
    ensures ClueCapture(s2) == ClueCapture(s1)
  {
    var i := FindMarker(s1, 0).value;
    FindMarkerAgrees(s1, s2, 0, i);
    var j := SkipWhitespace(s1, i + 5);
    var k := LineEnd(s1, j);
    assert j < n;
    SkipWhitespaceAgrees(s1, s2, i + 5, n);
    LineEndAgrees(s1, s2, j, n);
    SliceAgrees(s1, s2, j, k);
    CaptureAt(s1, i);
    CaptureAt(s2, i);
  }

  /** A non-empty capture on a line closed by a terminator survives any continuation. */
  lemma CaptureOfFirstLine(p: string, q: string, c: string)
    requires ClueCapture(p) == Some(c) && c != []
    requires IsLineTerminator(p[|p| - 1])
    ensures ClueCapture(p + q) == Some(c)
  {
    var i := FindMarker(p, 0).value;
    var j := SkipWhitespace(p, i + 5);
    var k := LineEnd(p, j);
    assert c == p[j..k];
    assert j <= |p| - 1;
    assert IsLineTerminator(p[|p| - 1]);
    assert !(j <= |p| - 1 < k);
    assert forall m :: 0 <= m < |p| ==> p[m] == (p + q)[m];
    CaptureAgrees(p, p + q, |p|);
  }

  /** Only the first marker counts, and only the line it sits on: whatever follows
      a completed clue line, other markers included, changes nothing. */
  lemma FirstMarkerOnly(p: string, q: string, t: string)
    requires ExtractClueText(p) == Some(t)
    requires IsLineTerminator(p[|p| - 1])
    ensures ExtractClueText(p + q) == Some(t)
  {
    CaptureOfFirstLine(p, q, ClueCapture(p).value);
  }

  /** A marker at `i` with none before it is the first marker. */
  lemma FirstMarkerAt(s: string, i: nat)
    requires MarkerAt(s, i)
    requires forall k: nat :: k < i ==> !MarkerAt(s, k)
    ensures FindMarker(s, 0) == Some(i)
  {
  }

  /** Spelling the first marker of a reply in another letter case keeps it the
      first marker: no earlier marker can reach into it, since its first four
      characters are letters and not `:`. */
  lemma RespelledMarkerFirst(p: string, w1: string, w2: string, rest: string)
    requires |w1| == 5 && MarkerAt(w1, 0)
    requires |w2| == 5 && MarkerAt(w2, 0)
    requires FindMarker(p + w1 + rest, 0) == Some(|p|)
    ensures FindMarker(p + w2 + rest, 0) == Some(|p|)
  {
    var s1, s2 := p + w1 + rest, p + w2 + rest;
    assert forall m :: 0 <= m < |p| ==> s1[m] == p[m] == s2[m];
    assert forall m :: |p| <= m < |p| + 5 ==> s2[m] == w2[m - |p|];
    assert w2[0] != ':' && w2[1] != ':' && w2[2] != ':' && w2[3] != ':';
    forall k: nat | k < |p| ensures !MarkerAt(s2, k) {
      assert !MarkerAt(s1, k);
      if k + 4 < |p| {
        assert s2[k] == s1[k] && s2[k + 1] == s1[k + 1] && s2[k + 2] == s1[k + 2];
        assert s2[k + 3] == s1[k + 3] && s2[k + 4] == s1[k + 4];
      } else {
        var d := k + 4 - |p|;
        assert d == 0 || d == 1 || d == 2 || d == 3;
        assert s2[k + 4] == w2[d];
      }
    }
    assert MarkerAt(s2, |p|);
    FirstMarkerAt(s2, |p|);
  }

  /** Two replies with their first marker at the same place that go on alike
      after it capture the same text. */
  lemma CaptureAfterSameMarker(s1: string, s2: string, i: nat)
    requires FindMarker(s1, 0) == Some(i) && FindMarker(s2, 0) == Some(i) && |s1| == |s2|
    requires forall m :: i + 5 <= m < |s1| ==> s1[m] == s2[m]
    ensures ClueCapture(s1) == ClueCapture(s2)
  {
    SkipWhitespaceAgrees(s1, s2, i + 5, |s1|);
    var j := SkipWhitespace(s1, i + 5);
    LineEndAgrees(s1, s2, j, |s1|);
    var k := LineEnd(s1, j);
    SliceAgrees(s1, s2, j, k);
    CaptureAt(s1, i);
    CaptureAt(s2, i);
  }

  /** The marker's letters may be written in any case: respelling the first marker
      of a reply does not change the clue extracted. */
  lemma MarkerCaseInsensitive(p: string, w1: string, w2: string, rest: string)
    requires |w1| == 5 && MarkerAt(w1, 0)
    requires |w2| == 5 && MarkerAt(w2, 0)
    requires FindMarker(p + w1 + rest, 0) == Some(|p|)
    ensures ExtractClueText(p + w1 + rest) == ExtractClueText(p + w2 + rest)
  {
    var s1, s2 := p + w1 + rest, p + w2 + rest;
    RespelledMarkerFirst(p, w1, w2, rest);
    assert forall m :: |p| + 5 <= m < |s1| ==> s1[m] == rest[m - |p| - 5] == s2[m];
    CaptureAfterSameMarker(s1, s2, |p|);
  }

  /** A reply that opens with the marker contributes the trimmed rest of the line
      that starts after the white space following it. */
  lemma MarkerAtStart(s: string, j: nat, k: nat)
    requires MarkerAt(s, 0) && 5 <= j < k <= |s|
    requires forall m :: 5 <= m < j ==> IsWhitespace(s[m])
    requires !IsWhitespace(s[j])
    requires forall m :: j <= m < k ==> !IsLineTerminator(s[m])
    requires k == |s| || IsLineTerminator(s[k])
    ensures ClueCapture(s) == Some(s[j..k])
  {
    assert FindMarker(s, 0) == Some(0);
    var j' := SkipWhitespace(s, 5);
    assert j' == j;
    var k' := LineEnd(s, j);
    assert k' == k;
  }

  /** A reply made of a marker, one space and a clean rest without a line break
      contributes exactly that rest. */
  lemma MarkerSpaceText(w: string, clue: string)
    requires |w| == 5 && MarkerAt(w, 0)
    requires clue != [] && !IsWhitespace(clue[0]) && !IsWhitespace(clue[|clue| - 1])
    requires forall m :: 0 <= m < |clue| ==> !IsLineTerminator(clue[m])
    ensures ExtractClueText(w + " " + clue) == Some(clue)
  {
    var s := w + " " + clue;
    assert MarkerAt(s, 0);
    assert forall m :: 6 <= m < |s| ==> s[m] == clue[m - 6];
    MarkerAtStart(s, 6, |s|);
    assert s[6..|s|] == clue;
    TrimUnchanged(clue);
  }

  /** The white space after the marker may span line breaks: a reply made of a
      marker, any white run and a clean one-line rest contributes exactly that
      rest, even when the marker ends its own line. */
  lemma MarkerSkipsBlankLines(w: string, blank: string, clue: string)
    requires |w| == 5 && MarkerAt(w, 0) && AllWhitespace(blank)
    requires clue != [] && !IsWhitespace(clue[0]) && !IsWhitespace(clue[|clue| - 1])
    requires forall m :: 0 <= m < |clue| ==> !IsLineTerminator(clue[m])
    ensures ExtractClueText(w + blank + clue) == Some(clue)
  {
    var s := w + blank + clue;
    var j := 5 + |blank|;
    assert MarkerAt(s, 0);
    assert forall m :: 5 <= m < j ==> s[m] == blank[m - 5];
    assert forall m :: j <= m < |s| ==> s[m] == clue[m - j];
    MarkerAtStart(s, j, |s|);
    assert s[j..|s|] == clue;
    TrimUnchanged(clue);
  }

  /** `CLUE:` at the end of a line takes its clue from the next line. */
  lemma MarkerLineBreakExample(w: string, clue: string)
    requires w == "CLUE:" && clue == "foo"
    ensures ExtractClueText(w + "\n" + clue) == Some(clue)
  {
    MarkerSkipsBlankLines(w, "\n", clue);
  }

  /** The two spellings of the marker give the same evidence text. */
  lemma MarkerCaseExample(upper: string, lower: string, clue: string)
    requires upper == "CLUE:" && lower == "clue:" && clue == "subtle footprint"
    ensures ExtractClueText(upper + " " + clue) == Some(clue)
    ensures ExtractClueText(lower + " " + clue) == Some(clue)
  {
    assert forall m :: 0 <= m < |clue| ==> !IsLineTerminator(clue[m]);
    MarkerSpaceText(upper, clue);
    MarkerSpaceText(lower, clue);
  }

  /** A list with a new entry in front has a text when the entry or the rest has it. */
  lemma HasClueTextCons(c: Clue, clues: seq<Clue>, text: string)
    ensures HasClueText([c] + clues, text) <==> c.text == text || HasClueText(clues, text)
  {
    var l := [c] + clues;
    if c.text == text {
      assert l[0].text == text;
    }
    if HasClueText(l, text) && c.text != text {
      var k :| 0 <= k < |l| && l[k].text == text;
      assert clues[k - 1].text == text;
    }
    if HasClueText(clues, text) {
      var k :| 0 <= k < |clues| && clues[k].text == text;
      assert l[k + 1].text == text;
    }
  }

  /** Reporting the same clue twice leaves one entry: the second report is a no-op. */
  lemma DuplicateSuppressed(g: GameState, r1: string, r2: string, id1: string, t1: string, id2: string, t2: string)
    requires ExtractClueText(r1).Some? && ExtractClueText(r1) == ExtractClueText(r2)
    ensures ExtractClues(ExtractClues(g, r1, id1, t1), r2, id2, t2) == ExtractClues(g, r1, id1, t1)
  {
  }

  /** A text not yet on the list goes in front of it as a new entry. */
  lemma AddNewClue(clues: seq<Clue>, c: Clue)
    requires !HasClueText(clues, c.text)
    ensures AddClue(clues, c.text, c.id, c.timestamp) == [c] + clues
  {
  }

  /** Three entries put in front one after the other. */
  lemma FrontThree(c1: Clue, c2: Clue, c3: Clue, clues: seq<Clue>)
    ensures [c3] + ([c2] + ([c1] + clues)) == [c3, c2, c1] + clues
  {
    assert [c3] + ([c2] + ([c1] + clues)) == [c3] + [c2] + [c1] + clues;
  }

  /** Clues reported in the order C1, C2, C3 (all new) read C3, C2, C1 on the board. */
  lemma NewestFirst(clues: seq<Clue>, c1: Clue, c2: Clue, c3: Clue)
    requires !HasClueText(clues, c1.text)
    requires c2.text != c1.text && !HasClueText(clues, c2.text)
    requires c3.text != c1.text && c3.text != c2.text && !HasClueText(clues, c3.text)
    ensures AddClue(AddClue(AddClue(clues, c1.text, c1.id, c1.timestamp), c2.text, c2.id, c2.timestamp),
                    c3.text, c3.id, c3.timestamp)
            == [c3, c2, c1] + clues
  {
    AddNewClue(clues, c1);
    var l1 := [c1] + clues;
    HasClueTextCons(c1, clues, c2.text);
    AddNewClue(l1, c2);
    var l2 := [c2] + l1;
    HasClueTextCons(c1, clues, c3.text);
    HasClueTextCons(c2, l1, c3.text);
    AddNewClue(l2, c3);
    FrontThree(c1, c2, c3, clues);
  }
}
