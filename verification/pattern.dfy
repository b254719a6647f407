/** The one regular-expression form the link parser uses: `s.replace(/O(.*)C/, '$1')`,
    where `O` is a literal opening text and `C` a literal closing character.
    Without the `g` flag only the first match is replaced. The engine picks the
    leftmost position where `O` starts a match; `.*` is greedy, so it then takes
    the last `C` that `.` can reach, and `.` does not match a line terminator.
    The match `O…C` is replaced by the text between `O` and `C`. */
module Pattern {

  import opened Wrappers
  import opened Text

  /** `open` occurs in `s` starting at index `i`. */
  predicate OpensAt(s: string, open: string, i: int) {
    0 <= i && i + |open| <= |s| && s[i..i + |open|] == open
  }

  /** `.*` followed by `close` can match `s[from..j + 1]`. */
  ghost predicate ClosesAt(s: string, from: int, close: char, j: int) {
    0 <= from <= j < |s| && s[j] == close
    && forall k :: from <= k < j ==> !IsLineTerminator(s[k])
  }

  /** The pattern matches `s[i..j + 1]`. */
  ghost predicate IsMatch(s: string, open: string, close: char, i: int, j: int) {
    OpensAt(s, open, i) && ClosesAt(s, i + |open|, close, j)
  }

  /** Some match of the pattern starts at `i`. */
  ghost predicate MatchesAt(s: string, open: string, close: char, i: int) {
    exists j :: IsMatch(s, open, close, i, j)
  }

  /** The match a backtracking engine reports: it starts at the leftmost
      position where any match starts, and it is the longest one there. */
  ghost predicate IsChosenMatch(s: string, open: string, close: char, i: int, j: int) {
    && IsMatch(s, open, close, i, j)
    && (forall i' :: 0 <= i' < i ==> !MatchesAt(s, open, close, i'))
    && (forall j' :: IsMatch(s, open, close, i, j') ==> j' <= j)
  }

  /** The greedy end of `.*` followed by `close`, starting at `from`. */
  function LastClose(s: string, from: nat, close: char): (r: Option<nat>)
    requires from <= |s|
    ensures r.Some? ==> ClosesAt(s, from, close, r.value)
    ensures r.Some? ==> forall j :: ClosesAt(s, from, close, j) ==> j <= r.value
    ensures r.None? ==> forall j :: !ClosesAt(s, from, close, j)
    decreases |s| - from
  {
    if from == |s| then None
    else if IsLineTerminator(s[from]) then
      if s[from] == close then Some(from) else None
    else
      var rest := LastClose(s, from + 1, close);
      assert forall j :: from < j ==> (ClosesAt(s, from, close, j) <==> ClosesAt(s, from + 1, close, j));
      if rest.Some? then rest
      else if s[from] == close then Some(from)
      else None
  }

  /** The leftmost match starting at or after `from`, with its greedy end. */
  function FindMatch(s: string, open: string, close: char, from: nat): (r: Option<(nat, nat)>)
    requires from <= |s|
    ensures r.Some? ==> from <= r.value.0 && IsMatch(s, open, close, r.value.0, r.value.1)
    ensures r.Some? ==> forall i :: from <= i < r.value.0 ==> !MatchesAt(s, open, close, i)
    ensures r.Some? ==> forall j :: IsMatch(s, open, close, r.value.0, j) ==> j <= r.value.1
    ensures r.None? ==> forall i :: from <= i ==> !MatchesAt(s, open, close, i)
    decreases |s| - from
  {
    if from + |open| >= |s| then None
    else
      var end := if OpensAt(s, open, from) then LastClose(s, from + |open|, close) else None;
      if end.Some? then Some((from, end.value))
      else
        assert !MatchesAt(s, open, close, from);
        FindMatch(s, open, close, from + 1)
  }

  /** `s.replace(/open(.*)close/, '$1')`. */
  function ReplaceWrapped(s: string, open: string, close: char): string {
    match FindMatch(s, open, close, 0)
    case None => s
    case Some((i, j)) => s[..i] + s[i + |open|..j] + s[j + 1..]
  }

  /** Text in which the pattern matches nowhere is left as it is. */
  lemma ReplaceNoMatch(s: string, open: string, close: char)
    requires forall i :: !MatchesAt(s, open, close, i)
    ensures ReplaceWrapped(s, open, close) == s
  {
    assert FindMatch(s, open, close, 0).None? by {
      var m := FindMatch(s, open, close, 0);
      if m.Some? {
        assert MatchesAt(s, open, close, m.value.0);
      }
    }
  }

  /** Wherever the pattern matches, the engine has a match to report. */
  lemma {:induction false} ChosenMatchExists(s: string, open: string, close: char, i0: int)
    requires MatchesAt(s, open, close, i0)
    ensures exists i, j :: IsChosenMatch(s, open, close, i, j)
  {
    var m := FindMatch(s, open, close, 0);
    assert m.Some? by {
      assert 0 <= i0;
    }
    assert IsChosenMatch(s, open, close, m.value.0, m.value.1);
  }

  /** With a match, the reported match is replaced by the text inside it. */
  lemma ReplaceChosen(s: string, open: string, close: char, i: int, j: int)
    requires IsChosenMatch(s, open, close, i, j)
    ensures ReplaceWrapped(s, open, close) == s[..i] + s[i + |open|..j] + s[j + 1..]
  {
    var m := FindMatch(s, open, close, 0);
    assert m.Some? by {
      assert MatchesAt(s, open, close, i);
    }
    var (i', j') := m.value;
    assert MatchesAt(s, open, close, i');
    assert i' == i by {
      assert MatchesAt(s, open, close, i);
      assert !(i' < i);
      assert !(i < i');
    }
    assert IsMatch(s, open, close, i, j');
    assert j' == j;
  }

  /** A string that is exactly `open`, a line of text and `close` is replaced by
      that text: `<url>` becomes `url`, `rel="next"` becomes `next`. */
  lemma UnwrapWhole(open: string, inner: string, close: char)
    requires forall k :: 0 <= k < |inner| ==> !IsLineTerminator(inner[k])
    ensures ReplaceWrapped(open + inner + [close], open, close) == inner
  {
    var s := open + inner + [close];
    var j := |s| - 1;
    assert s[0..|open|] == open;
    assert forall k :: |open| <= k < j ==> s[k] == inner[k - |open|];
    assert IsMatch(s, open, close, 0, j);
    var m := FindMatch(s, open, close, 0);
    assert m.Some? by {
      assert MatchesAt(s, open, close, 0);
    }
    assert m.value == (0, j);
    assert s[|open|..j] == inner;
    assert s[..0] + s[|open|..j] + s[j + 1..] == inner;
  }
}
