/** The two things the link parser asks of `new URL(url)`: whether the text
    parses at all (it throws otherwise), and `searchParams.get('page')`.
    Of the URL standard's parser, only the input cleanup and the scheme test
    are modelled; the query is found and split the way the URL standard's
    `application/x-www-form-urlencoded` parser does, without percent-decoding. */
module Url {

  import opened Wrappers
  import opened Text

  predicate IsAsciiAlpha(c: char) {
    ('a' <= c <= 'z') || ('A' <= c <= 'Z')
  }

  predicate IsSchemeChar(c: char) {
    IsAsciiAlpha(c) || ('0' <= c <= '9') || c == '+' || c == '-' || c == '.'
  }

  /** A C0 control or a space (U+0000 to U+0020): the URL parser strips these
      from both ends of its input. */
  predicate IsC0OrSpace(c: char) {
    c <= ' '
  }

  /** ASCII tab or newline: the URL parser removes these wherever they occur. */
  predicate IsTabOrNewline(c: char) {
    c == '\t' || c == '\n' || c == '\r'
  }

  /** Text with no C0 control and no space, which the URL parser reads as is. */
  predicate Visible(u: string) {
    forall k :: 0 <= k < |u| ==> !IsC0OrSpace(u[k])
  }

  function StripStart(u: string): string
    decreases |u|
  {
    if |u| > 0 && IsC0OrSpace(u[0]) then StripStart(u[1..]) else u
  }

  function StripEnd(u: string): string
    decreases |u|
  {
    if |u| > 0 && IsC0OrSpace(u[|u| - 1]) then StripEnd(u[..|u| - 1]) else u
  }

  function RemoveTabOrNewline(u: string): string
    decreases |u|
  {
    if |u| == 0 then ""
    else (if IsTabOrNewline(u[0]) then "" else [u[0]]) + RemoveTabOrNewline(u[1..])
  }

  /** The text the URL standard's parser actually reads: leading and trailing
      C0 controls and spaces stripped, then every tab and newline removed. */
  function Cleaned(u: string): string {
    RemoveTabOrNewline(StripEnd(StripStart(u)))
  }

  /** `new URL(u)` does not throw. Without a base URL the parser needs the
      cleaned text to begin with a scheme; the rest of the URL standard's
      checks are not modelled. */
  predicate HasScheme(u: string) {
    BeginsWithScheme(Cleaned(u))
  }

  /** The text begins with a scheme (`https:`): an ASCII letter, then letters,
      digits, `+`, `-` or `.`, then a colon. */
  predicate BeginsWithScheme(u: string) {
    exists k :: 0 < k < |u| && u[k] == ':' && SchemeBefore(u, k)
  }

  /** `u[..k]` is a syntactically valid scheme name. */
  predicate SchemeBefore(u: string, k: int)
    requires 0 < k <= |u|
  {
    IsAsciiAlpha(u[0]) && forall m :: 0 < m < k ==> IsSchemeChar(u[m])
  }

  /** Visible text with a scheme is accepted. */
  lemma VisibleAccepted(u: string, k: int)
    requires Visible(u) && 0 < k < |u| && u[k] == ':' && SchemeBefore(u, k)
    ensures HasScheme(u)
  {
    VisibleCleaned(u);
  }

  /** Visible text is read unchanged. */
  lemma VisibleCleaned(u: string)
    requires Visible(u)
    ensures Cleaned(u) == u
  {
    KeepsWithoutTabs(u);
  }

  lemma {:induction false} KeepsWithoutTabs(u: string)
    requires forall k :: 0 <= k < |u| ==> !IsTabOrNewline(u[k])
    ensures RemoveTabOrNewline(u) == u
    decreases |u|
  {
    if |u| > 0 {
      KeepsWithoutTabs(u[1..]);
      assert u == [u[0]] + u[1..];
    }
  }

  /** Cleaning never introduces a character. */
  lemma CleanedOmits(u: string, c: char)
    requires c !in u
    ensures c !in Cleaned(u)
  {
    StripStartOmits(u, c);
    StripEndOmits(StripStart(u), c);
    RemoveOmits(StripEnd(StripStart(u)), c);
  }

  lemma {:induction false} StripStartOmits(u: string, c: char)
    requires c !in u
    ensures c !in StripStart(u)
    decreases |u|
  {
    if |u| > 0 && IsC0OrSpace(u[0]) {
      assert c !in u[1..] by {
        forall k | 0 <= k < |u| - 1 ensures u[1..][k] != c {
          assert u[1..][k] == u[k + 1];
        }
      }
      StripStartOmits(u[1..], c);
    }
  }

  lemma {:induction false} StripEndOmits(u: string, c: char)
    requires c !in u
    ensures c !in StripEnd(u)
    decreases |u|
  {
    if |u| > 0 && IsC0OrSpace(u[|u| - 1]) {
      var w := u[..|u| - 1];
      assert c !in w by {
        forall k | 0 <= k < |w| ensures w[k] != c {
          assert w[k] == u[k];
        }
      }
      StripEndOmits(w, c);
    }
  }

  lemma {:induction false} RemoveOmits(u: string, c: char)
    requires c !in u
    ensures c !in RemoveTabOrNewline(u)
    decreases |u|
  {
    if |u| > 0 {
      assert c !in u[1..] by {
        forall k | 0 <= k < |u| - 1 ensures u[1..][k] != c {
          assert u[1..][k] == u[k + 1];
        }
      }
      RemoveOmits(u[1..], c);
    }
  }

  /** C0 controls and spaces around a URL do not matter: `new URL` accepts the
      padded text exactly when the URL itself begins with a scheme. */
  lemma AcceptsPadded(pre: string, u: string, post: string)
    requires forall k :: 0 <= k < |pre| ==> IsC0OrSpace(pre[k])
    requires forall k :: 0 <= k < |post| ==> IsC0OrSpace(post[k])
    requires Visible(u) && |u| > 0
    ensures HasScheme(pre + u + post) <==> BeginsWithScheme(u)
  {
    StripStartPadded(pre, u + post);
    assert pre + u + post == pre + (u + post);
    StripEndPadded(u, post);
    KeepsWithoutTabs(u);
  }

  lemma {:induction false} StripStartPadded(pre: string, rest: string)
    requires forall k :: 0 <= k < |pre| ==> IsC0OrSpace(pre[k])
    requires |rest| > 0 && !IsC0OrSpace(rest[0])
    ensures StripStart(pre + rest) == rest
    decreases |pre|
  {
    if |pre| > 0 {
      assert (pre + rest)[1..] == pre[1..] + rest;
      StripStartPadded(pre[1..], rest);
    }
  }

  lemma {:induction false} StripEndPadded(rest: string, post: string)
    requires forall k :: 0 <= k < |post| ==> IsC0OrSpace(post[k])
    requires |rest| > 0 && !IsC0OrSpace(rest[|rest| - 1])
    ensures StripEnd(rest + post) == rest
    decreases |post|
  {
    if |post| > 0 {
      var n := |post| - 1;
      assert (rest + post)[..|rest + post| - 1] == rest + post[..n];
      StripEndPadded(rest, post[..n]);
    } else {
      assert rest + post == rest;
    }
  }

  /** A link target written `< https://a.b/>` is accepted: the space inside the
      angle brackets survives `trim`, and the URL parser strips it. */
  lemma PaddedUrlAccepted()
    ensures HasScheme(" https://a.b/")
  {
    var u := "https://a.b/";
    assert u[5] == ':' && SchemeBefore(u, 5);
    AcceptsPadded(" ", u, "");
    assert " " + u + "" == " https://a.b/";
  }

  /** The query of a URL: the text after the first `?` that comes before any `#`. */
  function Query(u: string): Option<string> {
    After(Before(u, '#'), '?')
  }

  /** The name of one `name=value` pair: the text before its first `=`. */
  function PairName(pair: string): string {
    Before(pair, '=')
  }

  /** The value of one pair: the text after its first `=`, empty when there is none. */
  function PairValue(pair: string): string {
    After(pair, '=').GetOr("")
  }

  /** The form parser skips empty pairs; any other pair with this name counts. */
  predicate HasName(pair: string, name: string) {
    pair != "" && PairName(pair) == name
  }

  /** The value of the first pair called `name`: `URLSearchParams.get`. */
  function FirstValue(pairs: seq<string>, name: string): Option<string>
    decreases |pairs|
  {
    if |pairs| == 0 then None
    else if HasName(pairs[0], name) then Some(PairValue(pairs[0]))
    else FirstValue(pairs[1..], name)
  }

  /** `FirstValue` is absent exactly when no pair has the name, and otherwise
      is the value of the first pair that has it. */
  lemma {:induction false} FirstValueIsFirst(pairs: seq<string>, name: string)
    ensures var r := FirstValue(pairs, name);
      && (r.None? <==> forall i :: 0 <= i < |pairs| ==> !HasName(pairs[i], name))
      && (r.Some? ==> exists i :: 0 <= i < |pairs| && HasName(pairs[i], name)
                                 && r.value == PairValue(pairs[i])
                                 && forall k :: 0 <= k < i ==> !HasName(pairs[k], name))
    decreases |pairs|
  {
    if |pairs| > 0 && !HasName(pairs[0], name) {
      var rest := pairs[1..];
      FirstValueIsFirst(rest, name);
      assert forall i :: 1 <= i < |pairs| ==> pairs[i] == rest[i - 1];
      var r := FirstValue(pairs, name);
      if r.Some? {
        var i :| 0 <= i < |rest| && HasName(rest[i], name) && r.value == PairValue(rest[i])
                 && forall k :: 0 <= k < i ==> !HasName(rest[k], name);
        assert HasName(pairs[i + 1], name);
      }
    }
  }

  /** `new URL(u).searchParams.get(name)`. */
  function SearchParam(u: string, name: string): Option<string> {
    match Query(Cleaned(u))
    case None => None
    case Some(q) => FirstValue(Split(q, '&'), name)
  }

  /** `new URL(u).searchParams.get('page') || ''`. */
  function PageOf(u: string): string {
    SearchParam(u, "page").GetOr("")
  }

  /** Text appended to a URL with a scheme keeps that scheme. */
  lemma HasSchemeExtend(base: string, rest: string)
    requires HasScheme(base) && Visible(base) && Visible(rest)
    ensures HasScheme(base + rest)
  {
    VisibleCleaned(base);
    var k :| 0 < k < |base| && base[k] == ':' && SchemeBefore(base, k);
    var u := base + rest;
    VisibleConcat(base, rest);
    VisibleCleaned(u);
    assert u[k] == ':' && SchemeBefore(u, k);
  }

  lemma VisibleConcat(a: string, b: string)
    requires Visible(a) && Visible(b)
    ensures Visible(a + b)
  {
    forall k | 0 <= k < |a + b| ensures !IsC0OrSpace((a + b)[k]) {
      if k >= |a| {
        assert (a + b)[k] == b[k - |a|];
      }
    }
  }

  /** The query is everything after the `?` when the URL has no fragment. */
  lemma QueryAfterMark(base: string, q: string)
    requires '?' !in base && '#' !in base && '#' !in q
    ensures Query(base + ['?'] + q) == Some(q)
  {
    var u := base + ['?'] + q;
    assert '#' !in u;
    CutWithoutSeparator(u, '#');
    CutAtFirst(base, '?', q);
  }

  /** A query whose first pair is `page=v` has page `v`. */
  lemma LeadingPagePair(v: string, tail: string)
    requires '&' !in v
    requires tail == "" || tail[0] == '&'
    ensures FirstValue(Split("page=" + v + tail, '&'), "page") == Some(v)
  {
    var first := "page" + ['='] + v;
    assert "page=" + v == first;
    SplitFirstPiece(first, '&', tail);
    CutAtFirst("page", '=', v);
    assert HasName(first, "page") && PairValue(first) == v;
  }

  /** A URL whose query starts with `page=v` carries page `v`, whatever other
      parameters follow. */
  lemma PageOfLeading(base: string, v: string, tail: string)
    requires '?' !in base && '#' !in base
    requires '&' !in v && '#' !in v
    requires '#' !in tail && (tail == "" || tail[0] == '&')
    requires Visible(base) && Visible(v) && Visible(tail)
    ensures PageOf(base + "?page=" + v + tail) == v
  {
    var q := "page=" + v + tail;
    VisibleConcat(base, "?page=");
    VisibleConcat(base + "?page=", v);
    VisibleConcat(base + "?page=" + v, tail);
    VisibleCleaned(base + "?page=" + v + tail);
    assert base + "?page=" + v + tail == base + ['?'] + q;
    assert '#' !in q;
    QueryAfterMark(base, q);
    LeadingPagePair(v, tail);
  }

  /** A URL without a query has no `page` parameter. */
  lemma PageOfNoQuery(u: string)
    requires '?' !in u
    ensures PageOf(u) == ""
  {
    CleanedOmits(u, '?');
    var c := Cleaned(u);
    var head := Before(c, '#');
    BeforeIsPrefix(c, '#');
    assert '?' !in head by {
      forall k | 0 <= k < |head| ensures head[k] != '?' {
        assert head[k] == c[k];
      }
    }
    AfterSplitsAtFirst(head, '?');
  }
}
