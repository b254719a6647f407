/** How `listRepositories` turns the `Link` header of the upstream reply and the
    requested page into a `PageInfo`. */
module Pagination {

  import opened Wrappers
  import opened Text
  import opened Numbers
  import Url
  import opened LinkHeader
  import opened Model

  /** `if (linkHeader)`: a missing and an empty header are both skipped. */
  predicate Present(link: Option<string>) {
    link.Some? && link.value != ""
  }

  /** The `PageInfo` fields read from a parsed header. */
  function FromLinks(links: map<string, Link>, page: int, perPage: int): PageInfo {
    PageInfo(
      "next" in links,
      "prev" in links,
      page,
      if "last" in links then ParseInt(links["last"].page) else Some(page),
      perPage)
  }

  /** The pagination block of `listRepositories`. A header that makes the link
      parser throw yields `Failure`. */
  function DerivePageInfo(link: Option<string>, page: int, perPage: int): (r: Result<PageInfo, ParseError>)
    ensures r.Success? ==> r.value.currentPage == page && r.value.perPage == perPage
    ensures !Present(link) ==> r == Success(PageInfo(false, false, page, Some(page), perPage))
    ensures Present(link) ==> var segs := Segments(link.value);
      (r.Success? <==> AllValid(segs))
      && (r.Failure? ==> exists i :: FirstInvalidAt(segs, i) && r.error == InvalidUrl(segs[i].url))
    ensures Present(link) && r.Success? ==> var segs := Segments(link.value);
      && (r.value.hasNextPage <==> "next" in Rels(segs))
      && (r.value.hasPreviousPage <==> "prev" in Rels(segs))
      && ("last" !in Rels(segs) ==> r.value.lastPage == Some(page))
      && (forall i :: LastWithRel(segs, i) && segs[i].rel == "last" ==>
            r.value.lastPage == ParseInt(Url.PageOf(segs[i].url)))
  {
    if !Present(link) then Success(PageInfo(false, false, page, Some(page), perPage))
    else
      var parsed := ParseLinkHeader(link.value);
      if parsed.Failure? then Failure(parsed.error)
      else Success(FromLinks(parsed.value, page, perPage))
  }

  /** Once the header parses, the fields come from the parsed map. */
  lemma FromParsedHeader(header: string, links: map<string, Link>, page: int, perPage: int)
    requires header != "" && ParseLinkHeader(header) == Success(links)
    ensures DerivePageInfo(Some(header), page, perPage) == Success(FromLinks(links, page, perPage))
  {
  }

  /** The link `<base?page=v>; rel="last"`. */
  function LastLink(base: string, v: nat): Segment {
    Segment(base + "?page=" + NatToString(v), "last")
  }

  lemma LastLinkWellFormed(base: string, v: nat)
    requires Url.HasScheme(base) && Plain(base) && Url.Visible(base)
    ensures WellFormed(LastLink(base, v)) && AllValid([LastLink(base, v)])
  {
    var digits := NatToString(v);
    var url := base + "?page=" + digits;
    LastLinkAccepted(base, v);
    assert Plain(url) by {
      forall k | 0 <= k < |url| ensures url[k] != ',' && url[k] != ';' && !IsLineTerminator(url[k]) {
        if k >= |base| + 6 {
          assert url[k] == digits[k - |base| - 6];
        }
      }
    }
  }

  lemma LastLinkAccepted(base: string, v: nat)
    requires Url.HasScheme(base) && Url.Visible(base)
    ensures Url.HasScheme(LastLink(base, v).url)
  {
    var digits := NatToString(v);
    DigitsVisible(digits);
    Url.VisibleConcat("?page=", digits);
    Url.HasSchemeExtend(base, "?page=" + digits);
    assert LastLink(base, v).url == base + ("?page=" + digits);
  }

  /** The `page` of `LastLink(base, v)` reads as `v`. */
  lemma LastLinkPage(base: string, v: nat)
    requires '?' !in base && '#' !in base && Url.Visible(base)
    ensures ParseInt(LinkOf(LastLink(base, v)).page) == Some(v)
  {
    var digits := NatToString(v);
    DigitsVisible(digits);
    Url.PageOfLeading(base, digits, "");
    assert base + "?page=" + digits + "" == LastLink(base, v).url;
    ParseIntToString(v, "");
    assert digits + "" == digits;
  }

  lemma DigitsVisible(ds: string)
    requires AllDigits(ds)
    ensures Url.Visible(ds)
  {
  }

  /** A header whose only link is `last`, pointing at page `v`: no next or
      previous page, and `lastPage` is `v` whatever page was asked for. */
  lemma OnlyLastLink(base: string, v: nat, page: int, perPage: int)
    requires Url.HasScheme(base) && Plain(base) && Url.Visible(base) && '?' !in base && '#' !in base
    ensures DerivePageInfo(Some(Format([LastLink(base, v)])), page, perPage)
            == Success(PageInfo(false, false, page, Some(v), perPage))
  {
    var seg := LastLink(base, v);
    var header := Format([seg]);
    LastLinkWellFormed(base, v);
    EntryMapSingle(seg, LinkOf);
    FormatRoundTrip([seg]);
    var links := map["last" := LinkOf(seg)];
    assert header != "" by {
      assert header == Render(seg);
    }
    FromParsedHeader(header, links, page, perPage);
    LastLinkPage(base, v);
  }

  /** Letters, digits, `+`, `-`, `.`, `:` and `/`: enough for a plain URL. */
  predicate SimpleUrlChar(c: char) {
    Url.IsSchemeChar(c) || c == ':' || c == '/'
  }

  predicate SimpleUrl(s: string) {
    forall k :: 0 <= k < |s| ==> SimpleUrlChar(s[k])
  }

  lemma SimpleUrlPlain(base: string)
    requires SimpleUrl(base)
    ensures Plain(base) && Url.Visible(base) && '?' !in base && '#' !in base
  {
  }

  /** The listing endpoint's URL is one the link parser reads back unchanged. */
  lemma ListingUrlPlain()
    ensures var base := "https://api.github.com/user/repos";
      Url.HasScheme(base) && Plain(base) && Url.Visible(base) && '?' !in base && '#' !in base
  {
    ListingUrlScheme();
    ListingUrlSimple();
    SimpleUrlPlain("https://api.github.com/user/repos");
  }

  lemma ListingUrlScheme()
    ensures Url.HasScheme("https://api.github.com/user/repos")
  {
    var base := "https://api.github.com/user/repos";
    ListingUrlSimple();
    SimpleUrlPlain(base);
    assert base[5] == ':' && Url.SchemeBefore(base, 5);
    Url.VisibleAccepted(base, 5);
  }

  lemma ListingUrlSimple()
    ensures SimpleUrl("https://api.github.com/user/repos")
  {
  }

  /** The requested page is echoed even past the last page the server reports:
      nothing makes `currentPage <= lastPage` hold. */
  lemma CurrentPageCanExceedLastPage()
    ensures var r := DerivePageInfo(Some(Format([LastLink("https://api.github.com/user/repos", 1)])), 2, 30);
      r.Success? && r.value.lastPage == Some(1) && r.value.currentPage == 2
  {
    ListingUrlPlain();
    OnlyLastLink("https://api.github.com/user/repos", 1, 2, 30);
  }
}
