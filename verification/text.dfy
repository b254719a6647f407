/** The JavaScript string primitives the resolvers rely on: `String.prototype.split`
    with a one-character separator, `trim`, `endsWith`, and the "first occurrence"
    cuts that URL query handling needs. Strings are sequences of characters. */
module Text {

  import opened Wrappers

  /** ECMAScript LineTerminator: the characters a regular-expression `.` does not match. */
  predicate IsLineTerminator(c: char) {
    c == '\n' || c == '\r' || c == '\U{2028}' || c == '\U{2029}'
  }

  /** ECMAScript WhiteSpace and LineTerminator, the set `trim` removes. */
  predicate IsWhitespace(c: char) {
    || c == '\t' || c == '\U{000B}' || c == '\U{000C}' || c == ' '
    || c == '\U{00A0}' || c == '\U{FEFF}' || c == '\U{1680}'
    || ('\U{2000}' <= c <= '\U{200A}')
    || c == '\U{202F}' || c == '\U{205F}' || c == '\U{3000}'
    || IsLineTerminator(c)
  }

  predicate AllWhitespace(s: string) {
    forall i :: 0 <= i < |s| ==> IsWhitespace(s[i])
  }

  /** True when neither end of `s` is whitespace (so trimming leaves it alone). */
  predicate Unpadded(s: string) {
    |s| > 0 ==> !IsWhitespace(s[0]) && !IsWhitespace(s[|s| - 1])
  }

  /** Drops leading whitespace. The result does not start with whitespace;
      `TrimStartSuffix` says what was removed. */
  function TrimStart(s: string): (r: string)
    ensures |r| <= |s|
    ensures |r| > 0 ==> !IsWhitespace(r[0])
    decreases |s|
  {
    if |s| > 0 && IsWhitespace(s[0]) then TrimStart(s[1..]) else s
  }

  /** Drops trailing whitespace. The result does not end with whitespace;
      `TrimEndPrefix` says what was removed. */
  function TrimEnd(s: string): (r: string)
    ensures |r| <= |s|
    ensures |r| > 0 ==> !IsWhitespace(r[|r| - 1])
    decreases |s|
  {
    if |s| > 0 && IsWhitespace(s[|s| - 1]) then TrimEnd(s[..|s| - 1]) else s
  }

  /** `String.prototype.trim`. */
  function Trim(s: string): (r: string)
    ensures |r| <= |s|
    ensures Unpadded(r)
  {
    var t := TrimStart(s);
    TrimEndPrefix(t);
    TrimEnd(t)
  }

  /** `TrimStart` removes a whitespace-only prefix and nothing else. */
  lemma {:induction false} TrimStartSuffix(s: string)
    ensures var r := TrimStart(s);
      r == s[|s| - |r|..] && AllWhitespace(s[..|s| - |r|])
    decreases |s|
  {
    if |s| > 0 && IsWhitespace(s[0]) {
      TrimStartSuffix(s[1..]);
      var r := TrimStart(s);
      assert s[1..][|s| - 1 - |r|..] == s[|s| - |r|..];
      assert forall k :: 1 <= k < |s| - |r| ==> s[k] == s[1..][..|s| - 1 - |r|][k - 1];
    }
  }

  /** `TrimEnd` removes a whitespace-only suffix and nothing else. */
  lemma {:induction false} TrimEndPrefix(s: string)
    ensures var r := TrimEnd(s);
      r == s[..|r|] && AllWhitespace(s[|r|..])
    decreases |s|
  {
    if |s| > 0 && IsWhitespace(s[|s| - 1]) {
      var p := s[..|s| - 1];
      TrimEndPrefix(p);
      var r := TrimEnd(s);
      assert p[..|r|] == s[..|r|];
      assert forall k :: |r| <= k < |s| - 1 ==> s[k] == p[|r|..][k - |r|];
    }
  }

  lemma {:induction false} TrimStartPadded(pre: string, rest: string)
    requires AllWhitespace(pre)
    requires |rest| > 0 ==> !IsWhitespace(rest[0])
    ensures TrimStart(pre + rest) == rest
    decreases |pre|
  {
    if |pre| == 0 {
      assert pre + rest == rest;
    } else {
      assert (pre + rest)[1..] == pre[1..] + rest;
      TrimStartPadded(pre[1..], rest);
    }
  }

  lemma {:induction false} TrimEndPadded(rest: string, post: string)
    requires AllWhitespace(post)
    requires |rest| > 0 ==> !IsWhitespace(rest[|rest| - 1])
    ensures TrimEnd(rest + post) == rest
    decreases |post|
  {
    if |post| == 0 {
      assert rest + post == rest;
    } else {
      assert (rest + post)[..|rest + post| - 1] == rest + post[..|post| - 1];
      TrimEndPadded(rest, post[..|post| - 1]);
    }
  }

  /** Trimming is characterised by its result: whitespace padding around an
      unpadded core is exactly what `trim` removes. */
  lemma TrimPadded(pre: string, core: string, post: string)
    requires AllWhitespace(pre) && AllWhitespace(post)
    requires Unpadded(core)
    ensures Trim(pre + core + post) == core
  {
    if |core| == 0 {
      assert pre + core + post == pre + post;
      TrimStartPadded(pre + post, "");
      assert pre + post + "" == pre + post;
    } else {
      assert pre + core + post == pre + (core + post);
      TrimStartPadded(pre, core + post);
      TrimEndPadded(core, post);
    }
  }

  /** `s.split(d)` for a one-character separator `d`: the maximal pieces of `s`
      between occurrences of `d`. There is always at least one piece. */
  function Split(s: string, d: char): (r: seq<string>)
    ensures |r| >= 1
    decreases |s|
  {
    if |s| == 0 then [""]
    else
      var rest := Split(s[1..], d);
      if s[0] == d then
        assert ([""] + rest)[1..] == rest;
        [""] + rest
      else
        var r := [[s[0]] + rest[0]] + rest[1..];
        assert r[1..] == rest[1..];
        r
  }

  /** Joining the pieces with the separator gives back the text. */
  lemma {:induction false} JoinSplit(s: string, d: char)
    ensures Join(Split(s, d), d) == s
    decreases |s|
  {
    if |s| > 0 {
      SplitStep(s, d);
      JoinSplit(s[1..], d);
      var rest := Split(s[1..], d);
      assert rest == [rest[0]] + rest[1..];
      JoinCons(rest[0], rest[1..], d);
      if s[0] == d {
        JoinCons("", rest, d);
      } else {
        JoinCons([s[0]] + rest[0], rest[1..], d);
      }
      assert s == [s[0]] + s[1..];
    }
  }

  /** Joining a first piece and the rest. */
  lemma JoinCons(first: string, rest: seq<string>, d: char)
    ensures Join([first] + rest, d) == if |rest| == 0 then first else first + [d] + Join(rest, d)
  {
    assert ([first] + rest)[1..] == rest;
  }

  /** No piece contains the separator. */
  lemma {:induction false} SplitPiecesFree(s: string, d: char)
    ensures forall i :: 0 <= i < |Split(s, d)| ==> d !in Split(s, d)[i]
    decreases |s|
  {
    if |s| > 0 {
      SplitStep(s, d);
      SplitPiecesFree(s[1..], d);
    }
  }

  /** `pieces.join(d)`: the inverse of `Split`. */
  function Join(pieces: seq<string>, d: char): string
    decreases |pieces|
  {
    if |pieces| == 0 then ""
    else if |pieces| == 1 then pieces[0]
    else pieces[0] + [d] + Join(pieces[1..], d)
  }

  lemma {:induction false} SplitWithoutSeparator(s: string, d: char)
    requires d !in s
    ensures Split(s, d) == [s]
    decreases |s|
  {
    if |s| > 0 {
      assert d !in s[1..] by {
        forall k | 0 <= k < |s[1..]| ensures s[1..][k] != d {
          assert s[1..][k] == s[k + 1];
        }
      }
      SplitWithoutSeparator(s[1..], d);
      assert [s[0]] + s[1..] == s;
    }
  }

  /** One step of `Split`: the first character either ends the first piece or
      joins it. */
  lemma SplitStep(s: string, d: char)
    requires |s| > 0
    ensures var rest := Split(s[1..], d);
      Split(s, d) == if s[0] == d then [""] + rest else [[s[0]] + rest[0]] + rest[1..]
  {
  }

  /** Splitting distributes over a separator: the pieces of `a + d + b` are the
      pieces of `a` followed by the pieces of `b`. */
  lemma {:induction false} SplitConcat(a: string, d: char, b: string)
    ensures Split(a + [d] + b, d) == Split(a, d) + Split(b, d)
    decreases |a|
  {
    var s := a + [d] + b;
    SplitStep(s, d);
    if |a| == 0 {
      assert s[0] == d && s[1..] == b;
    } else {
      assert s[0] == a[0] && s[1..] == a[1..] + [d] + b;
      SplitStep(a, d);
      SplitConcat(a[1..], d, b);
      var tail, rest := Split(a[1..], d), Split(b, d);
      if a[0] == d {
        AppendAssoc([""], tail, rest);
      } else {
        MergeAppend([a[0]], tail, rest);
      }
    }
  }

  lemma AppendAssoc<T>(x: seq<T>, y: seq<T>, z: seq<T>)
    ensures x + (y + z) == (x + y) + z
  {
  }

  /** Extending the first piece commutes with appending more pieces. */
  lemma MergeAppend(h: string, xs: seq<string>, ys: seq<string>)
    requires |xs| >= 1
    ensures [h + (xs + ys)[0]] + (xs + ys)[1..] == ([h + xs[0]] + xs[1..]) + ys
  {
    assert (xs + ys)[0] == xs[0];
    assert (xs + ys)[1..] == xs[1..] + ys;
  }

  /** A string with exactly one separator splits into the text on either side of it. */
  lemma SplitOnce(first: string, d: char, second: string)
    requires d !in first && d !in second
    ensures Split(first + [d] + second, d) == [first, second]
  {
    SplitConcat(first, d, second);
    SplitWithoutSeparator(first, d);
    SplitWithoutSeparator(second, d);
  }

  /** The first piece is the text before the first separator. */
  lemma SplitFirstPiece(first: string, d: char, tail: string)
    requires d !in first
    requires tail == [] || tail[0] == d
    ensures Split(first + tail, d)[0] == first
  {
    SplitWithoutSeparator(first, d);
    if tail == [] {
      assert first + tail == first;
    } else {
      assert first + tail == first + [d] + tail[1..];
      SplitConcat(first, d, tail[1..]);
    }
  }

  /** `Split` undoes `Join` whenever no piece contains the separator. */
  lemma {:induction false} SplitJoin(pieces: seq<string>, d: char)
    requires |pieces| >= 1
    requires forall i :: 0 <= i < |pieces| ==> d !in pieces[i]
    ensures Split(Join(pieces, d), d) == pieces
    decreases |pieces|
  {
    if |pieces| == 1 {
      SplitWithoutSeparator(pieces[0], d);
    } else {
      SplitJoin(pieces[1..], d);
      SplitConcat(pieces[0], d, Join(pieces[1..], d));
      SplitWithoutSeparator(pieces[0], d);
      assert pieces == [pieces[0]] + pieces[1..];
    }
  }

  /** The number of occurrences of `c` in `s`. */
  function Count(s: string, c: char): nat
    decreases |s|
  {
    if |s| == 0 then 0 else (if s[0] == c then 1 else 0) + Count(s[1..], c)
  }

  /** `split(d)` gives one piece more than there are separators. */
  lemma {:induction false} SplitCount(s: string, d: char)
    ensures |Split(s, d)| == Count(s, d) + 1
    decreases |s|
  {
    if |s| > 0 {
      SplitStep(s, d);
      SplitCount(s[1..], d);
    }
  }

  /** Two pieces are the text before and after the only separator. */
  lemma SplitInTwo(s: string, d: char)
    requires |Split(s, d)| == 2
    ensures After(s, d).Some? && Split(s, d) == [Before(s, d), After(s, d).value]
  {
    var pieces := Split(s, d);
    JoinSplit(s, d);
    SplitPiecesFree(s, d);
    assert pieces[1..][0] == pieces[1];
    assert s == pieces[0] + [d] + pieces[1];
    CutAtFirst(pieces[0], d, pieces[1]);
  }

  /** The part of `s` before the first `c`, or all of `s` when there is no `c`. */
  function Before(s: string, c: char): (r: string)
    ensures |r| <= |s|
    decreases |s|
  {
    if |s| == 0 || s[0] == c then ""
    else [s[0]] + Before(s[1..], c)
  }

  /** `Before` is the longest prefix without `c`: it stops at the first `c`. */
  lemma {:induction false} BeforeIsPrefix(s: string, c: char)
    ensures var r := Before(s, c);
      r == s[..|r|] && c !in r && (|r| < |s| ==> s[|r|] == c)
    decreases |s|
  {
    if |s| > 0 && s[0] != c {
      BeforeIsPrefix(s[1..], c);
      var r := Before(s, c);
      assert r == [s[0]] + Before(s[1..], c);
    }
  }

  /** The part of `s` after the first `c`, absent when `s` has no `c`. */
  function After(s: string, c: char): Option<string>
    decreases |s|
  {
    if |s| == 0 then None
    else if s[0] == c then Some(s[1..])
    else After(s[1..], c)
  }

  /** `After` is absent exactly when there is no `c`; otherwise `s` is the text
      before the first `c`, that `c`, and the text after it. */
  lemma {:induction false} AfterSplitsAtFirst(s: string, c: char)
    ensures After(s, c).None? <==> c !in s
    ensures After(s, c).Some? ==> s == Before(s, c) + [c] + After(s, c).value
    decreases |s|
  {
    if |s| > 0 && s[0] != c {
      AfterSplitsAtFirst(s[1..], c);
      assert c in s <==> c in s[1..] by {
        assert s == [s[0]] + s[1..];
      }
      if After(s, c).Some? {
        assert s == [s[0]] + s[1..];
      }
    } else if |s| > 0 {
      assert s == [s[0]] + s[1..];
    }
  }

  /** The first `c` of `a + c + b` is the one between them when `a` has none. */
  lemma CutAtFirst(a: string, c: char, b: string)
    requires c !in a
    ensures Before(a + [c] + b, c) == a
    ensures After(a + [c] + b, c) == Some(b)
  {
    BeforeFirst(a, c, b);
    AfterFirst(a, c, b);
  }

  lemma {:induction false} BeforeFirst(a: string, c: char, b: string)
    requires c !in a
    ensures Before(a + [c] + b, c) == a
    decreases |a|
  {
    var s := a + [c] + b;
    if |a| == 0 {
      assert s[0] == c;
    } else {
      assert s[0] == a[0] && s[1..] == a[1..] + [c] + b;
      assert c !in a[1..];
      BeforeFirst(a[1..], c, b);
      assert a == [a[0]] + a[1..];
    }
  }

  lemma {:induction false} AfterFirst(a: string, c: char, b: string)
    requires c !in a
    ensures After(a + [c] + b, c) == Some(b)
    decreases |a|
  {
    var s := a + [c] + b;
    if |a| == 0 {
      assert s[0] == c && s[1..] == b;
    } else {
      assert s[0] == a[0] && s[1..] == a[1..] + [c] + b;
      assert c !in a[1..];
      AfterFirst(a[1..], c, b);
    }
  }

  lemma CutWithoutSeparator(s: string, c: char)
    requires c !in s
    ensures Before(s, c) == s
    ensures After(s, c) == None
  {
    BeforeIsPrefix(s, c);
    AfterSplitsAtFirst(s, c);
  }

  function EndsWith(s: string, suffix: string): bool {
    |suffix| <= |s| && s[|s| - |suffix|..] == suffix
  }
}
