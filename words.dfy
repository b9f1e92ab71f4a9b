/** The words on screen and the rules that act on them: the prefix test,
    the choice of the word to highlight, confirming a typed word, moving
    and dropping words, and the effect of one keystroke on the buffer. */
module Words {
  import opened Wrappers

  /** A word on screen. The rendered text of the C++ struct is reduced to
      its position; its width only matters when the word is spawned. */
  datatype ActiveWord = ActiveWord(fullWord: string, typedPart: string, x: real, y: real)

  /** The value the highlight scan starts from (`maxPositionX`). */
  const ScanStart: real := -1.0

  const Backspace: char := 8 as char
  const CarriageReturn: char := 13 as char
  const LineFeed: char := 10 as char

  /** `std::string::substr(0, n)`: the first `n` characters, or all of them. */
  function Substr0(s: string, n: nat): (r: string)
    ensures |r| <= |s| && r <= s
    ensures |r| == if n <= |s| then n else |s|
  {
    if n <= |s| then s[..n] else s
  }

  /** The highlight scan's test `fullWord.substr(0, typed.length()) == typed`. */
  predicate Matches(w: ActiveWord, typed: string) {
    Substr0(w.fullWord, |typed|) == typed
  }

  lemma MatchesIsPrefix(w: ActiveWord, typed: string)
    ensures Matches(w, typed) <==> typed <= w.fullWord
  {
    if |typed| > |w.fullWord| {
      assert |Substr0(w.fullWord, |typed|)| < |typed|;
    }
  }

  // ---------------------------------------------------------------
  // Choosing the word to highlight
  // ---------------------------------------------------------------

  /** The x the scan has reached after choosing `c`. */
  function Bound(ws: seq<ActiveWord>, c: Option<nat>): real {
    if c.Some? && c.value < |ws| then ws[c.value].x else ScanStart
  }

  /** The scan of the highlight loop, as a left fold: the last word takes
      over only when it matches and lies strictly further right. */
  function Closest(ws: seq<ActiveWord>, typed: string): (c: Option<nat>)
    ensures c.Some? ==> c.value < |ws|
  {
    if ws == [] then None
    else
      var c := Closest(ws[..|ws| - 1], typed);
      var w := ws[|ws| - 1];
      if Matches(w, typed) && w.x > Bound(ws, c) then Some(|ws| - 1) else c
  }

  /** Word `k` is the first of the right-most matching words, and lies right of -1. */
  ghost predicate IsClosest(ws: seq<ActiveWord>, typed: string, k: nat) {
    && k < |ws|
    && Matches(ws[k], typed)
    && ws[k].x > ScanStart
    && (forall j :: 0 <= j < |ws| && Matches(ws[j], typed) ==> ws[j].x <= ws[k].x)
    && (forall j :: 0 <= j < k && Matches(ws[j], typed) ==> ws[j].x < ws[k].x)
  }

  /** No matching word lies right of -1. */
  ghost predicate NoCandidate(ws: seq<ActiveWord>, typed: string) {
    forall j :: 0 <= j < |ws| && Matches(ws[j], typed) ==> ws[j].x <= ScanStart
  }

  lemma {:induction false} ClosestSound(ws: seq<ActiveWord>, typed: string)
    ensures Closest(ws, typed).None? <==> NoCandidate(ws, typed)
    ensures Closest(ws, typed).Some? ==> IsClosest(ws, typed, Closest(ws, typed).value)
  {
    if ws != [] {
      var n := |ws| - 1;
      var p := ws[..n];
      ClosestSound(p, typed);
      var c := Closest(p, typed);
      assert forall j :: 0 <= j < n ==> p[j] == ws[j];
      if Matches(ws[n], typed) && ws[n].x > Bound(ws, c) {
        assert Closest(ws, typed) == Some(n);
        if c.Some? {
          assert Bound(ws, c) == p[c.value].x;
        }
      } else {
        assert Closest(ws, typed) == c;
        if c.Some? {
          assert Bound(ws, c) == p[c.value].x;
        }
      }
    }
  }

  lemma ClosestUnique(ws: seq<ActiveWord>, typed: string, k: nat, k': nat)
    requires IsClosest(ws, typed, k) && IsClosest(ws, typed, k')
    ensures k == k'
  {
  }

  /** The scan picks exactly the first right-most matching word right of -1. */
  lemma ClosestExactly(ws: seq<ActiveWord>, typed: string, k: nat)
    ensures Closest(ws, typed) == Some(k) <==> IsClosest(ws, typed, k)
  {
    ClosestSound(ws, typed);
    if IsClosest(ws, typed, k) {
      ClosestUnique(ws, typed, k, Closest(ws, typed).value);
    }
  }

  /** The highlight scan of the keystroke handler (`closestWord`, `maxPositionX`). */
  method ClosestWord(ws: seq<ActiveWord>, typed: string) returns (closest: Option<nat>)
    ensures closest == Closest(ws, typed)
    ensures closest.None? <==> NoCandidate(ws, typed)
    ensures closest.Some? ==> IsClosest(ws, typed, closest.value)
  {
    closest := None;
    var maxPositionX := ScanStart;
    var i := 0;
    while i < |ws|
      invariant 0 <= i <= |ws|
      invariant closest == Closest(ws[..i], typed)
      invariant maxPositionX == Bound(ws[..i], closest)
    {
      assert ws[..i + 1][..i] == ws[..i];
      if Matches(ws[i], typed) && ws[i].x > maxPositionX {
        closest := Some(i);
        maxPositionX := ws[i].x;
      }
      i := i + 1;
    }
    assert ws[..|ws|] == ws;
    ClosestSound(ws, typed);
  }

  /** The second loop: the chosen word shows the buffer, every other word nothing. */
  function Mark(ws: seq<ActiveWord>, c: Option<nat>, typed: string): seq<ActiveWord> {
    seq(|ws|, i requires 0 <= i < |ws| => ws[i].(typedPart := if c == Some(i) then typed else []))
  }

  /** Both loops of the keystroke handler together. */
  function Highlight(ws: seq<ActiveWord>, typed: string): seq<ActiveWord> {
    Mark(ws, Closest(ws, typed), typed)
  }

  /** After a keystroke only the first right-most matching word right of
      -1 shows the buffer; all other words, and all words when none
      qualifies, show nothing; text and positions are untouched. */
  lemma HighlightSelectsClosest(ws: seq<ActiveWord>, typed: string)
    ensures |Highlight(ws, typed)| == |ws|
    ensures forall i :: 0 <= i < |ws| ==>
      && Highlight(ws, typed)[i].fullWord == ws[i].fullWord
      && Highlight(ws, typed)[i].x == ws[i].x
      && Highlight(ws, typed)[i].y == ws[i].y
      && Highlight(ws, typed)[i].typedPart == if IsClosest(ws, typed, i) then typed else []
    ensures NoCandidate(ws, typed) ==> forall i :: 0 <= i < |ws| ==> Highlight(ws, typed)[i].typedPart == []
  {
    ClosestSound(ws, typed);
    forall i | 0 <= i < |ws|
      ensures Highlight(ws, typed)[i].typedPart == if IsClosest(ws, typed, i) then typed else []
    {
      ClosestExactly(ws, typed, i);
    }
  }

  /** The example of a highlight: "cat" at 10, "car" at 50, "dog" at 5, buffer "ca". */
  lemma HighlightExample()
    ensures
      var ws := [ActiveWord("cat", "", 10.0, 0.0), ActiveWord("car", "", 50.0, 0.0), ActiveWord("dog", "", 5.0, 0.0)];
      Highlight(ws, "ca") == [ActiveWord("cat", "", 10.0, 0.0), ActiveWord("car", "ca", 50.0, 0.0), ActiveWord("dog", "", 5.0, 0.0)]
  {
    var ws := [ActiveWord("cat", "", 10.0, 0.0), ActiveWord("car", "", 50.0, 0.0), ActiveWord("dog", "", 5.0, 0.0)];
    assert ws[..2][..1] == [ws[0]];
    assert ws[..2] == [ws[0], ws[1]];
    assert Closest([ws[0]], "ca") == Some(0);
    assert Closest(ws[..2], "ca") == Some(1);
    assert Substr0(ws[2].fullWord, 2)[0] == 'd';
    assert !Matches(ws[2], "ca");
    assert Closest(ws, "ca") == Some(1);
  }

  /** A freshly spawned word lies left of -1 and is never highlighted. */
  lemma SpawnedWordNotHighlighted(ws: seq<ActiveWord>, typed: string, word: string, width: real, y: real)
    requires width >= 1.0
    ensures Highlight(ws + [NewWord(word, width, y)], typed)[|ws|].typedPart == []
  {
    var s := ws + [NewWord(word, width, y)];
    ClosestSound(s, typed);
    assert !IsClosest(s, typed, |ws|);
  }

  // ---------------------------------------------------------------
  // At most one highlighted word
  // ---------------------------------------------------------------

  /** The number of words showing a typed part. */
  function MarkCount(ws: seq<ActiveWord>): nat {
    if ws == [] then 0
    else MarkCount(ws[..|ws| - 1]) + (if ws[|ws| - 1].typedPart != [] then 1 else 0)
  }

  /** What the handler keeps true between events: at most one word shows a
      typed part, and that part is the buffer, a prefix of the word. */
  ghost predicate HighlightConsistent(ws: seq<ActiveWord>, typed: string) {
    && MarkCount(ws) <= 1
    && forall i :: 0 <= i < |ws| && ws[i].typedPart != [] ==> ws[i].typedPart == typed && Matches(ws[i], typed)
  }

  lemma {:induction false} MarkCountSameParts(a: seq<ActiveWord>, b: seq<ActiveWord>)
    requires |a| == |b|
    requires forall i :: 0 <= i < |a| ==> a[i].typedPart == b[i].typedPart
    ensures MarkCount(a) == MarkCount(b)
  {
    if a != [] {
      MarkCountSameParts(a[..|a| - 1], b[..|b| - 1]);
    }
  }

  lemma {:induction false} MarkCountOfMark(ws: seq<ActiveWord>, c: Option<nat>, typed: string)
    ensures MarkCount(Mark(ws, c, typed)) == if c.Some? && c.value < |ws| && typed != [] then 1 else 0
  {
    if ws != [] {
      var n := |ws| - 1;
      MarkCountOfMark(ws[..n], c, typed);
      assert Mark(ws, c, typed)[..n] == Mark(ws[..n], c, typed);
    }
  }

  lemma HighlightKeepsConsistent(ws: seq<ActiveWord>, typed: string)
    ensures HighlightConsistent(Highlight(ws, typed), typed)
  {
    MarkCountOfMark(ws, Closest(ws, typed), typed);
    ClosestSound(ws, typed);
  }

  // ---------------------------------------------------------------
  // Confirming a word
  // ---------------------------------------------------------------

  /** `std::find_if` over the words for one whose text equals the buffer. */
  function FirstMatch(ws: seq<ActiveWord>, typed: string): (r: Option<nat>)
    ensures r.Some? ==> r.value < |ws| && ws[r.value].fullWord == typed
    ensures r.Some? ==> forall j :: 0 <= j < r.value ==> ws[j].fullWord != typed
    ensures r.None? ==> forall j :: 0 <= j < |ws| ==> ws[j].fullWord != typed
  {
    if ws == [] then None
    else if ws[0].fullWord == typed then Some(0)
    else match FirstMatch(ws[1..], typed)
      case None => None
      case Some(k) => Some(k + 1)
  }

  /** `vector::erase` of one position. */
  function RemoveAt(ws: seq<ActiveWord>, k: nat): (r: seq<ActiveWord>)
    requires k < |ws|
    ensures |r| == |ws| - 1
    ensures forall j :: 0 <= j < k ==> r[j] == ws[j]
    ensures forall j :: k <= j < |r| ==> r[j] == ws[j + 1]
  {
    ws[..k] + ws[k + 1..]
  }

  // ---------------------------------------------------------------
  // One keystroke on the buffer
  // ---------------------------------------------------------------

  datatype KeyResult = KeyResult(words: seq<ActiveWord>, typed: string, scored: bool)

  predicate IsEnter(c: char) { c == CarriageReturn || c == LineFeed }

  /** The buffer edit of the keystroke handler, before the highlight. */
  function KeyEdit(ws: seq<ActiveWord>, typed: string, c: char): KeyResult {
    if c == Backspace then
      KeyResult(ws, if typed == [] then typed else typed[..|typed| - 1], false)
    else if IsEnter(c) then
      match FirstMatch(ws, typed)
      case Some(k) => KeyResult(RemoveAt(ws, k), [], true)
      case None => KeyResult(ws, typed, false)
    else
      KeyResult(ws, typed + [c], false)
  }

  /** Backspace drops the last character and does nothing to an empty buffer. */
  lemma BackspaceDropsLast(ws: seq<ActiveWord>, typed: string)
    ensures KeyEdit(ws, typed, Backspace).words == ws && !KeyEdit(ws, typed, Backspace).scored
    ensures typed == [] ==> KeyEdit(ws, typed, Backspace).typed == []
    ensures typed != [] ==> KeyEdit(ws, typed, Backspace).typed + [typed[|typed| - 1]] == typed
  {
  }

  /** Enter removes the first word equal to the buffer, scores and clears
      the buffer; without such a word nothing changes. It never appends. */
  lemma EnterConfirms(ws: seq<ActiveWord>, typed: string, c: char)
    requires IsEnter(c)
    ensures KeyEdit(ws, typed, c).scored <==> exists j :: 0 <= j < |ws| && ws[j].fullWord == typed
    ensures KeyEdit(ws, typed, c).scored ==>
      exists k :: 0 <= k < |ws| && ws[k].fullWord == typed
        && (forall j :: 0 <= j < k ==> ws[j].fullWord != typed)
        && KeyEdit(ws, typed, c).words == ws[..k] + ws[k + 1..]
        && KeyEdit(ws, typed, c).typed == []
    ensures !KeyEdit(ws, typed, c).scored ==>
      KeyEdit(ws, typed, c).words == ws && KeyEdit(ws, typed, c).typed == typed
    ensures |KeyEdit(ws, typed, c).typed| <= |typed|
  {
    var m := FirstMatch(ws, typed);
    if m.Some? {
      assert ws[m.value].fullWord == typed;
    }
  }

  /** Every other character is appended once, at the end. */
  lemma OtherKeyAppends(ws: seq<ActiveWord>, typed: string, c: char)
    requires c != Backspace && !IsEnter(c)
    ensures KeyEdit(ws, typed, c).typed == typed + [c]
    ensures KeyEdit(ws, typed, c).words == ws && !KeyEdit(ws, typed, c).scored
  {
  }

  // ---------------------------------------------------------------
  // Moving, spawning and dropping words
  // ---------------------------------------------------------------

  /** `updateWords`: every word moves right by `d`. */
  function Advance(ws: seq<ActiveWord>, d: real): seq<ActiveWord> {
    seq(|ws|, i requires 0 <= i < |ws| => ws[i].(x := ws[i].x + d))
  }

  /** The word `spawnWord` creates: nothing typed, its right edge at x = 0. */
  function NewWord(word: string, width: real, y: real): ActiveWord {
    ActiveWord(word, [], -width, y)
  }

  predicate OutOfBounds(w: ActiveWord, windowWidth: real) { w.x > windowWidth }

  /** The words `removeOutOfBoundsWords` keeps, in their order. */
  function Survivors(ws: seq<ActiveWord>, windowWidth: real): seq<ActiveWord> {
    if ws == [] then []
    else
      var last := ws[|ws| - 1];
      Survivors(ws[..|ws| - 1], windowWidth) + (if OutOfBounds(last, windowWidth) then [] else [last])
  }

  /** The number of words past the right edge; each costs a life. */
  function OutCount(ws: seq<ActiveWord>, windowWidth: real): nat {
    if ws == [] then 0
    else OutCount(ws[..|ws| - 1], windowWidth) + (if OutOfBounds(ws[|ws| - 1], windowWidth) then 1 else 0)
  }

  /** Exactly the removed words are counted. */
  lemma {:induction false} SurvivorsCount(ws: seq<ActiveWord>, windowWidth: real)
    ensures |Survivors(ws, windowWidth)| + OutCount(ws, windowWidth) == |ws|
  {
    if ws != [] {
      SurvivorsCount(ws[..|ws| - 1], windowWidth);
    }
  }

  /** A word survives exactly when it was on screen and not past the edge. */
  lemma {:induction false} SurvivorsMembers(ws: seq<ActiveWord>, windowWidth: real, w: ActiveWord)
    ensures w in Survivors(ws, windowWidth) <==> w in ws && !OutOfBounds(w, windowWidth)
  {
    if ws != [] {
      var n := |ws| - 1;
      SurvivorsMembers(ws[..n], windowWidth, w);
      assert ws == ws[..n] + [ws[n]];
    }
  }

  /** Removal is stable: it works on each part of the list separately. */
  lemma {:induction false} SurvivorsConcat(a: seq<ActiveWord>, b: seq<ActiveWord>, windowWidth: real)
    ensures Survivors(a + b, windowWidth) == Survivors(a, windowWidth) + Survivors(b, windowWidth)
  {
    if b != [] {
      var n := |b| - 1;
      SurvivorsConcat(a, b[..n], windowWidth);
      assert (a + b)[..|a + b| - 1] == a + b[..n];
    } else {
      assert a + b == a;
    }
  }

  /** With no word past the edge, nothing is removed and no life is lost. */
  lemma {:induction false} SurvivorsAllInside(ws: seq<ActiveWord>, windowWidth: real)
    requires forall i :: 0 <= i < |ws| ==> !OutOfBounds(ws[i], windowWidth)
    ensures Survivors(ws, windowWidth) == ws && OutCount(ws, windowWidth) == 0
  {
    if ws != [] {
      var n := |ws| - 1;
      SurvivorsAllInside(ws[..n], windowWidth);
      assert ws[..n] + [ws[n]] == ws;
    }
  }

  lemma {:induction false} SurvivorsMarkCount(ws: seq<ActiveWord>, windowWidth: real)
    ensures MarkCount(Survivors(ws, windowWidth)) <= MarkCount(ws)
  {
    if ws != [] {
      var n := |ws| - 1;
      SurvivorsMarkCount(ws[..n], windowWidth);
      var s := Survivors(ws[..n], windowWidth);
      if !OutOfBounds(ws[n], windowWidth) {
        assert Survivors(ws, windowWidth) == s + [ws[n]];
        assert (s + [ws[n]])[..|s|] == s;
        assert MarkCount(s + [ws[n]]) == MarkCount(s) + (if ws[n].typedPart != [] then 1 else 0);
      } else {
        assert Survivors(ws, windowWidth) == s + [];
        assert s + [] == s;
      }
    }
  }

  /** Moving words neither adds a typed part nor changes one. */
  lemma AdvanceKeepsConsistent(ws: seq<ActiveWord>, typed: string, d: real)
    requires HighlightConsistent(ws, typed)
    ensures HighlightConsistent(Advance(ws, d), typed)
  {
    MarkCountSameParts(Advance(ws, d), ws);
  }

  /** Spawning a word with nothing typed keeps the highlight consistent. */
  lemma AppendKeepsConsistent(ws: seq<ActiveWord>, typed: string, w: ActiveWord)
    requires HighlightConsistent(ws, typed) && w.typedPart == []
    ensures HighlightConsistent(ws + [w], typed)
  {
    assert (ws + [w])[..|ws|] == ws;
  }

  /** Dropping words keeps the highlight consistent. */
  lemma {:induction false} SurvivorsKeepConsistent(ws: seq<ActiveWord>, typed: string, windowWidth: real)
    requires HighlightConsistent(ws, typed)
    ensures HighlightConsistent(Survivors(ws, windowWidth), typed)
  {
    if ws != [] {
      var n := |ws| - 1;
      assert MarkCount(ws[..n]) <= MarkCount(ws);
      SurvivorsKeepConsistent(ws[..n], typed, windowWidth);
      SurvivorsMarkCount(ws, windowWidth);
      var s := Survivors(ws[..n], windowWidth);
      if !OutOfBounds(ws[n], windowWidth) {
        assert Survivors(ws, windowWidth) == s + [ws[n]];
      } else {
        assert Survivors(ws, windowWidth) == s + [];
        assert s + [] == s;
      }
    }
  }
}
