/** The pagination `Link` header parser (`parseLinkHeader`), a simplified reader
    for the Web Linking header of RFC 8288, section 3. The header is split on
    `,`; each part is split on `;` and kept only when that gives exactly two
    sections; the first section, trimmed and stripped of `<…>`, is the URL, and
    the second, trimmed and stripped of `rel="…"`, is the relation name. Each
    kept part stores `{url, page}` under its relation name, a later part
    overwriting an earlier one. `new URL` throws on a URL it cannot parse, which
    aborts the whole parse. */
module LinkHeader {

  import opened Wrappers
  import opened Text
  import Pattern
  import Url

  /** What the parser stores per relation: the link's URL and its `page` query
      parameter (empty when the URL has none). */
  datatype Link = Link(url: string, page: string)

  /** A kept comma-separated part: its URL and relation name. */
  datatype Segment = Segment(url: string, rel: string)

  /** The exception `new URL` raises. */
  datatype ParseError = InvalidUrl(url: string)

  /** One comma-separated part, or `None` when its `;`-split does not have
      exactly two sections. */
  function ParseSegment(part: string): Option<Segment> {
    var sections := Split(part, ';');
    if |sections| != 2 then None
    else Some(Segment(Pattern.ReplaceWrapped(Trim(sections[0]), "<", '>'),
                      Pattern.ReplaceWrapped(Trim(sections[1]), "rel=\"", '"')))
  }

  /** A part is kept exactly when it holds a single `;`. Its URL is then the
      text before the `;` and its relation name the text after it, each trimmed
      and stripped of its wrapper. */
  lemma ParseSegmentSections(part: string)
    ensures ParseSegment(part).Some? <==> Count(part, ';') == 1
    ensures ParseSegment(part).Some? ==>
      && After(part, ';').Some?
      && ParseSegment(part).value ==
           Segment(Pattern.ReplaceWrapped(Trim(Before(part, ';')), "<", '>'),
                   Pattern.ReplaceWrapped(Trim(After(part, ';').value), "rel=\"", '"'))
  {
    SplitCount(part, ';');
    if |Split(part, ';')| == 2 {
      SplitInTwo(part, ';');
    }
  }

  /** The entry a kept part stores. */
  function LinkOf(seg: Segment): Link {
    Link(seg.url, Url.PageOf(seg.url))
  }

  /** The kept parts of a header, in header order. */
  function Kept(parts: seq<string>): seq<Segment>
    decreases |parts|
  {
    if |parts| == 0 then [] else KeptPart(parts[0]) + Kept(parts[1..])
  }

  /** The segment of one part, if it is kept. */
  function KeptPart(part: string): seq<Segment> {
    match ParseSegment(part)
    case None => []
    case Some(seg) => [seg]
  }

  /** The `forEach` over the parts, with `links` the map built so far. */
  function Collect(links: map<string, Link>, parts: seq<string>): Result<map<string, Link>, ParseError>
    decreases |parts|
  {
    if |parts| == 0 then Success(links)
    else
      match ParseSegment(parts[0])
      case None => Collect(links, parts[1..])
      case Some(seg) =>
        if !Url.HasScheme(seg.url) then Failure(InvalidUrl(seg.url))
        else Collect(links[seg.rel := LinkOf(seg)], parts[1..])
  }

  predicate AllValid(segs: seq<Segment>) {
    forall i :: 0 <= i < |segs| ==> Url.HasScheme(segs[i].url)
  }

  /** `segs[i]` is the first segment whose URL does not parse. */
  predicate FirstInvalidAt(segs: seq<Segment>, i: int) {
    && 0 <= i < |segs|
    && !Url.HasScheme(segs[i].url)
    && forall k :: 0 <= k < i ==> Url.HasScheme(segs[k].url)
  }

  /** No later segment has the relation name of `segs[i]`. */
  predicate LastWithRel(segs: seq<Segment>, i: int) {
    && 0 <= i < |segs|
    && forall k :: i < k < |segs| ==> segs[k].rel != segs[i].rel
  }

  /** The relation names of the segments. */
  function Rels(segs: seq<Segment>): set<string>
    decreases |segs|
  {
    if |segs| == 0 then {} else {segs[0].rel} + Rels(segs[1..])
  }

  /** A name is among the relation names exactly when some segment carries it. */
  lemma {:induction false} RelsMember(segs: seq<Segment>, name: string)
    ensures name in Rels(segs) <==> exists i :: 0 <= i < |segs| && segs[i].rel == name
    decreases |segs|
  {
    if |segs| > 0 {
      var rest := segs[1..];
      RelsMember(rest, name);
      if name in Rels(rest) {
        var i :| 0 <= i < |rest| && rest[i].rel == name;
        assert segs[i + 1].rel == name;
      }
      if exists i :: 0 <= i < |segs| && segs[i].rel == name {
        var i :| 0 <= i < |segs| && segs[i].rel == name;
        if i > 0 {
          assert rest[i - 1].rel == name;
        }
      }
    }
  }

  /** Every relation name has a last segment carrying it. */
  lemma {:induction false} LastExists(segs: seq<Segment>, name: string)
    requires name in Rels(segs)
    ensures exists i :: LastWithRel(segs, i) && segs[i].rel == name
    decreases |segs|
  {
    RelsMember(segs, name);
    var n := |segs| - 1;
    if segs[n].rel == name {
      assert LastWithRel(segs, n);
    } else {
      var prefix := segs[..n];
      var j :| 0 <= j < |segs| && segs[j].rel == name;
      assert prefix[j].rel == name;
      RelsMember(prefix, name);
      LastExists(prefix, name);
      var i :| LastWithRel(prefix, i) && prefix[i].rel == name;
      LastInPrefix(segs, i);
    }
  }

  /** The last of its name in all but the final segment stays last when the
      final segment has another name. */
  lemma LastInPrefix(segs: seq<Segment>, i: int)
    requires |segs| > 0 && LastWithRel(segs[..|segs| - 1], i)
    requires segs[|segs| - 1].rel != segs[i].rel
    ensures LastWithRel(segs, i)
  {
    var n := |segs| - 1;
    forall k | i < k < |segs| ensures segs[k].rel != segs[i].rel {
      if k < n {
        assert segs[..n][k] == segs[k];
      }
    }
  }

  /** The loop seen through the parts it keeps: stop at the first URL that does
      not parse, otherwise store each kept segment's `entry` under its relation
      name. The parser's entry is `LinkOf`; the lemmas below hold for any. */
  function Apply(links: map<string, Link>, segs: seq<Segment>, entry: Segment -> Link)
    : Result<map<string, Link>, ParseError>
    decreases |segs|
  {
    if |segs| == 0 then Success(links)
    else if !Url.HasScheme(segs[0].url) then Failure(InvalidUrl(segs[0].url))
    else Apply(links[segs[0].rel := entry(segs[0])], segs[1..], entry)
  }

  /** Dropped parts play no role: the loop over all parts is the loop over the kept ones. */
  lemma {:induction false} CollectIsApply(links: map<string, Link>, parts: seq<string>)
    ensures Collect(links, parts) == Apply(links, Kept(parts), LinkOf)
    decreases |parts|
  {
    if |parts| > 0 {
      var p := ParseSegment(parts[0]);
      var rest := parts[1..];
      if p.None? {
        assert Kept(parts) == Kept(rest);
        CollectIsApply(links, rest);
      } else {
        var seg := p.value;
        assert Kept(parts) == [seg] + Kept(rest);
        assert ([seg] + Kept(rest))[1..] == Kept(rest);
        CollectIsApply(links[seg.rel := LinkOf(seg)], rest);
      }
    }
  }

  /** The loop fails exactly when a kept URL does not parse, and then at the first one. */
  lemma {:induction false} ApplyFailure(links: map<string, Link>, segs: seq<Segment>, entry: Segment -> Link)
    ensures Apply(links, segs, entry).Success? <==> AllValid(segs)
    ensures Apply(links, segs, entry).Failure? ==>
      exists i :: FirstInvalidAt(segs, i) && Apply(links, segs, entry).error == InvalidUrl(segs[i].url)
    decreases |segs|
  {
    if |segs| > 0 && Url.HasScheme(segs[0].url) {
      var rest := segs[1..];
      var links' := links[segs[0].rel := entry(segs[0])];
      ApplyFailure(links', rest, entry);
      assert forall i :: 0 < i < |segs| ==> segs[i] == rest[i - 1];
      if Apply(links', rest, entry).Failure? {
        var i :| FirstInvalidAt(rest, i) && Apply(links', rest, entry).error == InvalidUrl(rest[i].url);
        assert FirstInvalidAt(segs, i + 1);
      }
    } else if |segs| > 0 {
      assert FirstInvalidAt(segs, 0);
    }
  }

  /** A successful loop adds exactly the kept relation names to the map. */
  lemma {:induction false} ApplyKeys(links: map<string, Link>, segs: seq<Segment>, entry: Segment -> Link)
    ensures Apply(links, segs, entry).Success? ==> Apply(links, segs, entry).value.Keys == links.Keys + Rels(segs)
    decreases |segs|
  {
    if |segs| > 0 && Url.HasScheme(segs[0].url) {
      ApplyKeys(links[segs[0].rel := entry(segs[0])], segs[1..], entry);
    }
  }

  /** A successful loop leaves keys that no kept part names alone. */
  lemma {:induction false} ApplyUntouched(links: map<string, Link>, segs: seq<Segment>, entry: Segment -> Link)
    ensures Apply(links, segs, entry).Success? ==> forall key :: key in links && key !in Rels(segs) ==>
      key in Apply(links, segs, entry).value && Apply(links, segs, entry).value[key] == links[key]
    decreases |segs|
  {
    if |segs| > 0 && Url.HasScheme(segs[0].url) {
      ApplyUntouched(links[segs[0].rel := entry(segs[0])], segs[1..], entry);
    }
  }

  /** A successful loop stores under each kept name the entry of the last part
      with that name. */
  lemma {:induction false} ApplyValues(links: map<string, Link>, segs: seq<Segment>, entry: Segment -> Link)
    ensures Apply(links, segs, entry).Success? ==> forall i :: LastWithRel(segs, i) ==>
      segs[i].rel in Apply(links, segs, entry).value && Apply(links, segs, entry).value[segs[i].rel] == entry(segs[i])
    decreases |segs|
  {
    if |segs| > 0 && Url.HasScheme(segs[0].url) && Apply(links, segs, entry).Success? {
      var rest := segs[1..];
      var links' := links[segs[0].rel := entry(segs[0])];
      var m := Apply(links, segs, entry).value;
      assert m == Apply(links', rest, entry).value;
      ApplyValues(links', rest, entry);
      forall i | LastWithRel(segs, i) ensures segs[i].rel in m && m[segs[i].rel] == entry(segs[i]) {
        if i == 0 {
          FirstIsLast(segs);
          ApplyUntouched(links', rest, entry);
        } else {
          LastInRest(segs, i);
        }
      }
    }
  }

  /** The first segment is the last of its name only if no later one shares it. */
  lemma FirstIsLast(segs: seq<Segment>)
    requires LastWithRel(segs, 0)
    ensures segs[0].rel !in Rels(segs[1..])
  {
    RelsMember(segs[1..], segs[0].rel);
    forall k | 0 <= k < |segs| - 1 ensures segs[1..][k].rel != segs[0].rel {
      assert segs[1..][k] == segs[k + 1];
    }
  }

  lemma LastInRest(segs: seq<Segment>, i: int)
    requires 0 < i && LastWithRel(segs, i)
    ensures segs[1..][i - 1] == segs[i] && LastWithRel(segs[1..], i - 1)
  {
    var rest := segs[1..];
    forall k | i - 1 < k < |rest| ensures rest[k].rel != rest[i - 1].rel {
      assert rest[k] == segs[k + 1];
    }
  }

  /** The kept parts of a header, in header order. */
  function Segments(header: string): seq<Segment> {
    Kept(Split(header, ','))
  }

  /** `parseLinkHeader(header)`, with the exception `new URL` raises as `Failure`. */
  function ParseLinkHeader(header: string): (r: Result<map<string, Link>, ParseError>)
    ensures var segs := Segments(header);
      r.Success? <==> AllValid(segs)
    ensures var segs := Segments(header);
      r.Failure? ==> exists i :: FirstInvalidAt(segs, i) && r.error == InvalidUrl(segs[i].url)
    ensures var segs := Segments(header);
      r.Success? ==> r.value.Keys == Rels(segs)
    ensures var segs := Segments(header);
      r.Success? ==> forall i :: LastWithRel(segs, i) ==> segs[i].rel in r.value && r.value[segs[i].rel] == LinkOf(segs[i])
  {
    var parts := Split(header, ',');
    CollectIsApply(map[], parts);
    ApplyFailure(map[], Kept(parts), LinkOf);
    ApplyKeys(map[], Kept(parts), LinkOf);
    ApplyValues(map[], Kept(parts), LinkOf);
    Collect(map[], parts)
  }

  /** Processing a list of parts is processing its first half and then, unless
      that threw, its second half from the map the first half built. */
  lemma {:induction false} CollectConcat(links: map<string, Link>, a: seq<string>, b: seq<string>)
    ensures Collect(links, a + b) ==
      match Collect(links, a)
      case Failure(e) => Failure(e)
      case Success(m) => Collect(m, b)
    decreases |a|
  {
    if |a| == 0 {
      assert a + b == b;
    } else {
      assert (a + b)[1..] == a[1..] + b;
      assert (a + b)[0] == a[0];
      match ParseSegment(a[0])
      case None =>
        CollectConcat(links, a[1..], b);
      case Some(seg) =>
        if Url.HasScheme(seg.url) {
          CollectConcat(links[seg.rel := LinkOf(seg)], a[1..], b);
        }
    }
  }

  /** A comma-separated part that does not split into exactly two sections on
      `;` contributes nothing and does not make the parse fail, wherever it sits. */
  lemma MalformedPartDropped(header: string, bad: string)
    requires ',' !in bad
    requires |Split(bad, ';')| != 2
    ensures ParseLinkHeader(header + "," + bad) == ParseLinkHeader(header)
    ensures ParseLinkHeader(bad + "," + header) == ParseLinkHeader(header)
  {
    SplitWithoutSeparator(bad, ',');
    assert header + "," + bad == header + [','] + bad;
    SplitConcat(header, ',', bad);
    CollectConcat(map[], Split(header, ','), [bad]);
    assert bad + "," + header == bad + [','] + header;
    SplitConcat(bad, ',', header);
    CollectConcat(map[], [bad], Split(header, ','));
  }

  /** Text the parser reads back unchanged: no `,`, `;` or line terminator. */
  predicate Plain(s: string) {
    forall k :: 0 <= k < |s| ==> s[k] != ',' && s[k] != ';' && !IsLineTerminator(s[k])
  }

  predicate WellFormed(seg: Segment) {
    Plain(seg.url) && Plain(seg.rel)
  }

  /** One link as servers write it: `<url>; rel="name"`. */
  function Render(seg: Segment): string {
    ("<" + seg.url + ">") + [';'] + (" rel=\"" + seg.rel + "\"")
  }

  lemma RenderSections(pad: string, seg: Segment)
    requires ';' !in pad
    requires WellFormed(seg)
    ensures Split(pad + Render(seg), ';') == [pad + ("<" + seg.url + ">"), " rel=\"" + seg.rel + "\""]
  {
    var first := pad + ("<" + seg.url + ">");
    var second := " rel=\"" + seg.rel + "\"";
    assert pad + Render(seg) == first + [';'] + second;
    PlainHasNo(seg.url, ';');
    PlainHasNo(seg.rel, ';');
    NotInConcat(';', pad, "<", seg.url, ">");
    NotInConcat(';', [], " rel=\"", seg.rel, "\"");
    assert [] + " rel=\"" + seg.rel + "\"" == second;
    SplitOnce(first, ';', second);
  }

  lemma PlainHasNo(s: string, c: char)
    requires Plain(s) && (c == ',' || c == ';')
    ensures c !in s
  {
  }

  lemma NotInConcat(c: char, w: string, x: string, y: string, z: string)
    requires c !in w && c !in x && c !in y && c !in z
    ensures c !in w + (x + y + z)
  {
  }

  lemma UrlSection(pad: string, url: string)
    requires AllWhitespace(pad)
    requires Plain(url)
    ensures Pattern.ReplaceWrapped(Trim(pad + ("<" + url + ">")), "<", '>') == url
  {
    var core := "<" + url + ">";
    assert pad + core == pad + core + "";
    TrimPadded(pad, core, "");
    assert core == "<" + url + ['>'];
    Pattern.UnwrapWhole("<", url, '>');
  }

  lemma RelSection(rel: string)
    requires Plain(rel)
    ensures Pattern.ReplaceWrapped(Trim(" rel=\"" + rel + "\""), "rel=\"", '"') == rel
  {
    var core := "rel=\"" + rel + ['"'];
    assert " rel=\"" + rel + "\"" == " " + core + "";
    assert Unpadded(core) by {
      assert core[0] == 'r' && core[|core| - 1] == '"';
    }
    TrimPadded(" ", core, "");
    Pattern.UnwrapWhole("rel=\"", rel, '"');
  }

  /** A rendered link, with optional leading blanks, reads back as itself. */
  lemma RenderParses(pad: string, seg: Segment)
    requires AllWhitespace(pad) && ';' !in pad
    requires WellFormed(seg)
    ensures ParseSegment(pad + Render(seg)) == Some(seg)
  {
    RenderSections(pad, seg);
    UrlSection(pad, seg.url);
    RelSection(seg.rel);
  }

  /** Blanks just inside the angle brackets: `trim` keeps them, so the URL the
      parser stores starts with them, and `new URL` still accepts that URL
      exactly when the text after the blanks begins with a scheme, because the
      URL parser strips them. */
  lemma BlanksInsideBrackets(blanks: string, u: string, rel: string)
    requires forall k :: 0 <= k < |blanks| ==> blanks[k] == ' '
    requires Plain(u) && Url.Visible(u) && |u| > 0 && Plain(rel)
    ensures ParseSegment(Render(Segment(blanks + u, rel))) == Some(Segment(blanks + u, rel))
    ensures Url.HasScheme(blanks + u) <==> Url.BeginsWithScheme(u)
  {
    var seg := Segment(blanks + u, rel);
    assert Plain(blanks + u) by {
      forall k | 0 <= k < |blanks + u|
        ensures (blanks + u)[k] != ',' && (blanks + u)[k] != ';' && !IsLineTerminator((blanks + u)[k])
      {
        if k >= |blanks| {
          assert (blanks + u)[k] == u[k - |blanks|];
        }
      }
    }
    RenderParses("", seg);
    assert "" + Render(seg) == Render(seg);
    Url.AcceptsPadded(blanks, u, "");
    assert blanks + u + "" == blanks + u;
  }

  lemma {:induction false} KeptConcat(a: seq<string>, b: seq<string>)
    ensures Kept(a + b) == Kept(a) + Kept(b)
    decreases |a|
  {
    if |a| == 0 {
      assert a + b == b;
    } else {
      assert (a + b)[0] == a[0] && (a + b)[1..] == a[1..] + b;
      KeptConcat(a[1..], b);
      AppendAssoc(KeptPart(a[0]), Kept(a[1..]), Kept(b));
    }
  }

  lemma {:induction false} KeptAll(parts: seq<string>, segs: seq<Segment>)
    requires |parts| == |segs|
    requires forall i :: 0 <= i < |parts| ==> ParseSegment(parts[i]) == Some(segs[i])
    ensures Kept(parts) == segs
    decreases |parts|
  {
    if |parts| > 0 {
      KeptAll(parts[1..], segs[1..]);
      assert segs == [segs[0]] + segs[1..];
    }
  }

  /** The parts of a formatted header: each link rendered, all but the first
      after a blank. */
  function Lines(segs: seq<Segment>): seq<string> {
    seq(|segs|, i requires 0 <= i < |segs| => (if i == 0 then "" else " ") + Render(segs[i]))
  }

  /** A header listing `segs` in order, separated by `, `. */
  function Format(segs: seq<Segment>): string {
    Join(Lines(segs), ',')
  }

  /** Each part of a formatted header is a rendered link, possibly after a blank. */
  lemma LineIsRendered(segs: seq<Segment>, i: int, line: string)
    requires 0 <= i < |segs| && line == Lines(segs)[i]
    ensures exists pad :: (pad == "" || pad == " ") && line == pad + Render(segs[i])
  {
    var pad := if i == 0 then "" else " ";
    assert line == pad + Render(segs[i]);
  }

  lemma LineParses(seg: Segment, line: string)
    requires WellFormed(seg)
    requires exists pad :: (pad == "" || pad == " ") && line == pad + Render(seg)
    ensures ',' !in line
    ensures ParseSegment(line) == Some(seg)
  {
    var pad :| (pad == "" || pad == " ") && line == pad + Render(seg);
    RenderParses(pad, seg);
    RenderHasNoComma(pad, seg);
  }

  lemma RenderHasNoComma(pad: string, seg: Segment)
    requires pad == "" || pad == " "
    requires WellFormed(seg)
    ensures ',' !in pad + Render(seg)
  {
  }

  /** An empty header has no links. */
  lemma EmptyHeader()
    ensures Kept(Split("", ',')) == []
  {
    assert Split("", ';') == [""];
    assert ParseSegment("") == None;
  }

  /** Every link of a well-formed header comes back, in order, with its URL and
      relation name exactly as written. */
  lemma FormatParses(segs: seq<Segment>)
    requires forall i :: 0 <= i < |segs| ==> WellFormed(segs[i])
    ensures Kept(Split(Format(segs), ',')) == segs
  {
    if |segs| == 0 {
      EmptyHeader();
    } else {
      var lines := Lines(segs);
      forall i | 0 <= i < |lines| ensures ',' !in lines[i] && ParseSegment(lines[i]) == Some(segs[i]) {
        LineIsRendered(segs, i, lines[i]);
        LineParses(segs[i], lines[i]);
      }
      SplitJoin(lines, ',');
      KeptAll(lines, segs);
    }
  }

  /** Links that share a relation name are the same link. */
  predicate UniqueRels(segs: seq<Segment>) {
    forall s, t :: s in segs && t in segs && s.rel == t.rel ==> s == t
  }

  /** Each relation name of `segs` mapped to its link. */
  function LinkMap(segs: seq<Segment>): map<string, Link>
    requires UniqueRels(segs)
  {
    EntryMap(segs, LinkOf)
  }

  /** Each relation name of `segs` mapped to the `entry` of its segment. */
  function EntryMap(segs: seq<Segment>, entry: Segment -> Link): map<string, Link>
    requires UniqueRels(segs)
  {
    map seg | seg in segs :: seg.rel := entry(seg)
  }

  /** When names are unique, a map is `LinkMap(segs)` as soon as it has the
      right keys and each name's last link. */
  lemma LinkMapOf(segs: seq<Segment>, m: map<string, Link>)
    requires UniqueRels(segs)
    requires m.Keys == Rels(segs)
    requires forall i :: LastWithRel(segs, i) ==> segs[i].rel in m && m[segs[i].rel] == LinkOf(segs[i])
    ensures m == LinkMap(segs)
  {
    EntryMapOf(segs, m, LinkOf);
  }

  lemma EntryMapOf(segs: seq<Segment>, m: map<string, Link>, entry: Segment -> Link)
    requires UniqueRels(segs)
    requires m.Keys == Rels(segs)
    requires forall i :: LastWithRel(segs, i) ==> segs[i].rel in m && m[segs[i].rel] == entry(segs[i])
    ensures m == EntryMap(segs, entry)
  {
    EntryMapKeys(segs, entry);
    EntryMapValues(segs, m, entry);
    SameEntries(m, EntryMap(segs, entry));
  }

  /** Two maps with the same keys and the same value under each key are equal. */
  lemma SameEntries(m: map<string, Link>, n: map<string, Link>)
    requires m.Keys == n.Keys
    requires forall k :: k in m ==> m[k] == n[k]
    ensures m == n
  {
  }

  /** Under each name, `m` holds what the name-to-entry map holds. */
  lemma EntryMapValues(segs: seq<Segment>, m: map<string, Link>, entry: Segment -> Link)
    requires UniqueRels(segs)
    requires m.Keys == Rels(segs)
    requires forall i :: LastWithRel(segs, i) ==> segs[i].rel in m && m[segs[i].rel] == entry(segs[i])
    ensures forall k :: k in m ==> k in EntryMap(segs, entry) && m[k] == EntryMap(segs, entry)[k]
  {
    forall k | k in m ensures k in EntryMap(segs, entry) && m[k] == EntryMap(segs, entry)[k] {
      LastExists(segs, k);
      var j :| LastWithRel(segs, j) && segs[j].rel == k;
      EntryMapAt(segs, entry, segs[j]);
    }
  }

  /** Each segment's name maps to that segment's entry. */
  lemma EntryMapAt(segs: seq<Segment>, entry: Segment -> Link, seg: Segment)
    requires UniqueRels(segs) && seg in segs
    ensures seg.rel in EntryMap(segs, entry) && EntryMap(segs, entry)[seg.rel] == entry(seg)
  {
  }

  /** The keys of the name-to-entry map are the relation names. */
  lemma EntryMapKeys(segs: seq<Segment>, entry: Segment -> Link)
    requires UniqueRels(segs)
    ensures EntryMap(segs, entry).Keys == Rels(segs)
  {
    var lm := EntryMap(segs, entry);
    forall k ensures k in Rels(segs) <==> k in lm {
      RelsMember(segs, k);
      if k in Rels(segs) {
        var i :| 0 <= i < |segs| && segs[i].rel == k;
        assert segs[i] in segs;
      }
      if k in lm {
        var seg :| seg in segs && seg.rel == k;
        var i :| 0 <= i < |segs| && segs[i] == seg;
      }
    }
  }

  /** A well-formed header with parseable URLs, in which links that share a
      relation name are the same link, parses to the map from each name to its
      link. */
  lemma FormatRoundTrip(segs: seq<Segment>)
    requires forall i :: 0 <= i < |segs| ==> WellFormed(segs[i])
    requires AllValid(segs) && UniqueRels(segs)
    ensures ParseLinkHeader(Format(segs)) == Success(LinkMap(segs))
  {
    var header := Format(segs);
    FormatParses(segs);
    var r := ParseLinkHeader(header);
    LinkMapOf(segs, r.value);
  }

  /** The order of the links, and repeating one, do not matter when links
      that share a relation name are the same link: two headers listing the
      same links parse alike. Otherwise the later link with a name wins. */
  lemma OrderIrrelevant(a: seq<Segment>, b: seq<Segment>)
    requires forall i :: 0 <= i < |a| ==> WellFormed(a[i])
    requires AllValid(a) && UniqueRels(a)
    requires forall s :: s in a <==> s in b
    ensures ParseLinkHeader(Format(a)) == ParseLinkHeader(Format(b))
  {
    SameMembers(a, b);
    FormatRoundTrip(a);
    FormatRoundTrip(b);
    EntryMapSameMembers(a, b, LinkOf);
  }

  lemma SameMembers(a: seq<Segment>, b: seq<Segment>)
    requires forall i :: 0 <= i < |a| ==> WellFormed(a[i])
    requires AllValid(a) && UniqueRels(a)
    requires forall s :: s in a <==> s in b
    ensures forall i :: 0 <= i < |b| ==> WellFormed(b[i])
    ensures AllValid(b) && UniqueRels(b)
  {
    forall i | 0 <= i < |b| ensures WellFormed(b[i]) && Url.HasScheme(b[i].url) {
      assert b[i] in b;
      var j :| 0 <= j < |a| && a[j] == b[i];
    }
  }

  lemma EntryMapSameMembers(a: seq<Segment>, b: seq<Segment>, entry: Segment -> Link)
    requires UniqueRels(a) && UniqueRels(b)
    requires forall s :: s in a <==> s in b
    ensures EntryMap(a, entry) == EntryMap(b, entry)
  {
  }

  /** A single link maps its name to its entry. */
  lemma EntryMapSingle(seg: Segment, entry: Segment -> Link)
    ensures UniqueRels([seg]) && EntryMap([seg], entry) == map[seg.rel := entry(seg)]
  {
  }
}
