/**
 * The crawl-and-extract pipeline of the boligportal.dk scraper: find every
 * search-result page, collect the listing links on them, fetch each listing
 * page and extract one record per listing.
 *
 * Markup is not parsed here. A page is given by what each CSS selector the
 * scraper uses matches on it (the matched texts, attributes or elements), and
 * HTTP is an oracle from a URL to a response.
 */
module Scrape {
  import opened Wrappers
  import opened Text
  import opened OrderedDict

  datatype Response<D> = Response(status: int, body: D)

  // ---------------------------------------------------------------------
  // Discovering the search-result pages
  // ---------------------------------------------------------------------

  /** A search-result page, as discovery and link extraction see it. */
  datatype IndexDoc = IndexDoc(
    hasEndMarker: bool,            // some element has class `css-16snok8`
    listingDivs: seq<ListingDiv>)  // the `div.css-krvsu4` elements, in document order

  /** A listing container and the first `<a>` inside it, if any. */
  datatype ListingDiv = ListingDiv(anchor: Option<Anchor>)

  /** An anchor and its `href` attribute, if it has one. */
  datatype Anchor = Anchor(href: Option<string>)

  const SearchUrl: string := "https://www.boligportal.dk/lejligheder/k%C3%B8benhavn/?include_units=1"

  /** Listings per result page: page `i` (from 0) is requested at offset `18 * i`. */
  const PageSize: nat := 18

  function PageUrl(i: nat): string {
    SearchUrl + "&offset=" + NatToString(PageSize * i)
  }

  /** Distinct page numbers are requested from distinct URLs. */
  lemma {:induction false} PageUrlInjective(i: nat, j: nat)
    ensures PageUrl(i) == PageUrl(j) ==> i == j
  {
    if PageUrl(i) == PageUrl(j) {
      var p := SearchUrl + "&offset=";
      assert PageUrl(i)[|p|..] == NatToString(PageSize * i);
      assert PageUrl(j)[|p|..] == NatToString(PageSize * j);
      NatToStringInjective(PageSize * i, PageSize * j);
    }
  }

  /** A response that ends discovery: a failed request, or the end-of-results marker. */
  predicate EndsDiscovery(r: Response<IndexDoc>) {
    r.status != 200 || r.body.hasEndMarker
  }

  /**
   * The discovery loop. Page `i` is requested at offset `18 * i`; the first
   * response that is not a 200 or that carries the end marker stops the loop
   * and is not stored; every page before it is stored under key `i + 1`.
   * The loop has no cap: it ends only because some page ends discovery, the
   * page `last` here.
   */
  method DiscoverPages(site: string -> Response<IndexDoc>, ghost last: nat) returns (pages: map<int, IndexDoc>)
    requires EndsDiscovery(site(PageUrl(last)))
    ensures forall k :: k in pages <==> 1 <= k <= |pages|
    ensures forall k :: 1 <= k <= |pages| ==> pages[k] == site(PageUrl(k - 1)).body
    ensures forall j: nat :: j < |pages| ==> !EndsDiscovery(site(PageUrl(j)))
    ensures EndsDiscovery(site(PageUrl(|pages|)))
    ensures |pages| <= last
  {
    pages := map[];
    var i: nat := 0;
    while true
      invariant i <= last
      invariant StoredBefore(site, pages, i)
      invariant ContinuesBefore(site, i)
      decreases last - i
    {
      var response := site(PageUrl(i));
      if response.status == 200 {
        if response.body.hasEndMarker {
          break;
        }
        StorePage(site, pages, i, response.body, pages[i + 1 := response.body]);
        ContinuePast(site, i, last);
        pages := pages[i + 1 := response.body];
      } else {
        break;
      }
      i := i + 1;
    }
  }

  /** No page before page `i` ends discovery. */
  ghost predicate ContinuesBefore(site: string -> Response<IndexDoc>, i: nat) {
    forall j: nat :: j < i ==> !EndsDiscovery(site(PageUrl(j)))
  }

  lemma {:induction false} ContinuePast(site: string -> Response<IndexDoc>, i: nat, last: nat)
    requires ContinuesBefore(site, i) && !EndsDiscovery(site(PageUrl(i)))
    requires EndsDiscovery(site(PageUrl(last)))
    ensures ContinuesBefore(site, i + 1) && i != last
  {
  }

  /** The pages before page `i` are stored under keys `1..i`, and nothing else is. */
  ghost predicate StoredBefore(site: string -> Response<IndexDoc>, pages: map<int, IndexDoc>, i: nat) {
    && (forall k :: k in pages <==> 1 <= k <= i)
    && |pages| == i
    && (forall k :: 1 <= k <= i ==> pages[k] == site(PageUrl(k - 1)).body)
  }

  lemma {:induction false} StorePage(site: string -> Response<IndexDoc>, pages: map<int, IndexDoc>, i: nat, v: IndexDoc, pages': map<int, IndexDoc>)
    requires StoredBefore(site, pages, i)
    requires v == site(PageUrl(i)).body && pages' == pages[i + 1 := v]
    ensures StoredBefore(site, pages', i + 1)
  {
    ExtendNumbered(pages, i, v, pages');
  }

  /** Adding key `i + 1` to a map keyed `1..i` gives a map keyed `1..i + 1`. */
  lemma {:induction false} ExtendNumbered(m: map<int, IndexDoc>, i: nat, v: IndexDoc, m': map<int, IndexDoc>)
    requires forall k :: k in m <==> 1 <= k <= i
    requires |m| == i && m' == m[i + 1 := v]
    ensures forall k :: k in m' <==> 1 <= k <= i + 1
    ensures |m'| == i + 1
  {
    assert i + 1 !in m;
  }

  // ---------------------------------------------------------------------
  // Collecting the listing links
  // ---------------------------------------------------------------------

  /** The anchors of the listing containers that have one, in document order. */
  function Anchored(divs: seq<ListingDiv>): (anchors: seq<Anchor>)
    ensures |anchors| <= |divs|
    ensures forall a :: a in anchors <==> ListingDiv(Some(a)) in divs
    decreases |divs|
  {
    if divs == [] then []
    else
      assert forall d :: d in divs <==> d == divs[0] || d in divs[1..];
      (if divs[0].anchor.Some? then [divs[0].anchor.value] else []) + Anchored(divs[1..])
  }

  /** Each container with an anchor gives that anchor once: the anchors are counted exactly. */
  lemma {:induction false} AnchoredCount(divs: seq<ListingDiv>)
    ensures forall a :: multiset(Anchored(divs))[a] == multiset(divs)[ListingDiv(Some(a))]
    decreases |divs|
  {
    if divs != [] {
      AnchoredCount(divs[1..]);
      assert divs == [divs[0]] + divs[1..];
      assert multiset(divs) == multiset([divs[0]]) + multiset(divs[1..]);
    }
  }

  /** The anchors of two runs of containers, one after the other: document order is kept. */
  lemma {:induction false} AnchoredAppend(divs1: seq<ListingDiv>, divs2: seq<ListingDiv>)
    ensures Anchored(divs1 + divs2) == Anchored(divs1) + Anchored(divs2)
    decreases |divs1|
  {
    if divs1 == [] {
      assert divs1 + divs2 == divs2;
    } else {
      assert (divs1 + divs2)[0] == divs1[0];
      assert (divs1 + divs2)[1..] == divs1[1..] + divs2;
      AnchoredAppend(divs1[1..], divs2);
    }
  }

  /** The `href` of every anchor, in order; `None` (a `KeyError`) when one has none. */
  function Hrefs(anchors: seq<Anchor>): (r: Option<seq<string>>)
    ensures r.None? <==> Anchor(None) in anchors
    ensures r.Some? ==> |r.value| == |anchors|
    ensures r.Some? ==> forall i :: 0 <= i < |anchors| ==> anchors[i].href == Some(r.value[i])
    decreases |anchors|
  {
    if anchors == [] then Some([])
    else
      var rest := Hrefs(anchors[1..]);
      assert forall a :: a in anchors <==> a == anchors[0] || a in anchors[1..];
      match anchors[0].href
      case None => None
      case Some(h) => if rest.None? then None else Some([h] + rest.value)
  }

  /**
   * The hrefs of one page's listing containers that hold an anchor, in
   * document order; `None` when such an anchor has no `href`, which raises
   * a `KeyError` and ends the run.
   */
  function PageLinks(divs: seq<ListingDiv>): (r: Option<seq<string>>)
    ensures r.None? <==> ListingDiv(Some(Anchor(None))) in divs
    ensures r.Some? ==> |r.value| == |Anchored(divs)| <= |divs|
    ensures r.Some? ==> forall i :: 0 <= i < |r.value| ==> Anchored(divs)[i].href == Some(r.value[i])
  {
    Hrefs(Anchored(divs))
  }

  /** Links of pages `1..n`, page after page; `None` once a page raises. */
  function LinksOf(pages: map<int, IndexDoc>, n: nat): Option<seq<string>>
    requires forall k :: 1 <= k <= n ==> k in pages
  {
    if n == 0 then Some([])
    else
      match LinksOf(pages, n - 1)
      case None => None
      case Some(ls) =>
        match PageLinks(pages[n].listingDivs)
        case None => None
        case Some(hs) => Some(ls + hs)
  }

  /** The number of listing containers on pages `1..n`. */
  function DivCount(pages: map<int, IndexDoc>, n: nat): nat
    requires forall k :: 1 <= k <= n ==> k in pages
  {
    if n == 0 then 0 else DivCount(pages, n - 1) + |pages[n].listingDivs|
  }

  /** Containers without an anchor contribute nothing: never more links than containers. */
  lemma {:induction false} LinksBoundedByDivs(pages: map<int, IndexDoc>, n: nat)
    requires forall k :: 1 <= k <= n ==> k in pages
    ensures LinksOf(pages, n).Some? ==> |LinksOf(pages, n).value| <= DivCount(pages, n)
  {
    if n > 0 {
      LinksBoundedByDivs(pages, n - 1);
    }
  }

  /** Once a page raises, every longer prefix of pages raises too. */
  lemma {:induction false} LinksFailureSticks(pages: map<int, IndexDoc>, m: nat, n: nat)
    requires m <= n
    requires forall k :: 1 <= k <= n ==> k in pages
    requires LinksOf(pages, m).None?
    ensures LinksOf(pages, n).None?
    decreases n - m
  {
    if m < n {
      LinksFailureSticks(pages, m, n - 1);
    }
  }

  /** A page of three containers, the middle one without an anchor, gives the other two hrefs in order. */
  lemma {:induction false} ThreeContainersTwoAnchors(a: string, b: string)
    ensures PageLinks([ListingDiv(Some(Anchor(Some(a)))), ListingDiv(None), ListingDiv(Some(Anchor(Some(b))))]) == Some([a, b])
  {
    var divs := [ListingDiv(Some(Anchor(Some(a)))), ListingDiv(None), ListingDiv(Some(Anchor(Some(b))))];
    assert divs[1..][1..] == [ListingDiv(Some(Anchor(Some(b))))];
    assert Anchored(divs[1..][1..]) == [Anchor(Some(b))];
    assert Anchored(divs[1..]) == [Anchor(Some(b))];
    assert Anchored(divs) == [Anchor(Some(a)), Anchor(Some(b))];
    var anchors := [Anchor(Some(a)), Anchor(Some(b))];
    assert anchors[1..] == [Anchor(Some(b))];
    assert anchors[1..][1..] == [];
    assert Hrefs(anchors[1..][1..]) == Some([]);
    assert [b] + [] == [b];
    assert Hrefs(anchors[1..]) == Some([b]);
    assert [a] + [b] == [a, b];
  }

  /**
   * The link-collection loop: every stored page in key order, each page's
   * hrefs appended one by one.
   */
  method ExtractLinks(pages: map<int, IndexDoc>) returns (links: Option<seq<string>>)
    requires forall k :: k in pages <==> 1 <= k <= |pages|
    ensures links == LinksOf(pages, |pages|)
  {
    var acc: seq<string> := [];
    var page := 1;
    while page <= |pages|
      invariant 1 <= page <= |pages| + 1
      invariant LinksOf(pages, page - 1) == Some(acc)
    {
      var hrefs := PageLinks(pages[page].listingDivs);
      if hrefs.None? {
        LinksFailureSticks(pages, page, |pages|);
        return None;
      }
      ghost var before := acc;
      var j := 0;
      while j < |hrefs.value|
        invariant 0 <= j <= |hrefs.value|
        invariant acc == before + hrefs.value[..j]
      {
        acc := acc + [hrefs.value[j]];
        j := j + 1;
      }
      assert hrefs.value[..j] == hrefs.value;
      page := page + 1;
    }
    links := Some(acc);
  }

  // ---------------------------------------------------------------------
  // Fetching the listing pages
  // ---------------------------------------------------------------------

  const SiteRoot: string := "https://www.boligportal.dk"

  /** A fetched listing: the full URL and the page (`{'url': ..., 'html_code': ...}`). */
  datatype Page = Page(url: string, htmlCode: DetailDoc)

  /** `fetch_html_content`: a record exactly when the listing answers 200. */
  function FetchHtmlContent(link: string, get: string -> Response<DetailDoc>): (r: Option<Page>)
    ensures r.Some? <==> get(SiteRoot + link).status == 200
    ensures r.Some? ==> r.value.url == SiteRoot + link && r.value.htmlCode == get(SiteRoot + link).body
  {
    var fullUrl := SiteRoot + link;
    var response := get(fullUrl);
    if response.status == 200 then Some(Page(fullUrl, response.body)) else None
  }

  /** The worker pool's ordered map: one result slot per link, in link order. */
  function FetchAll(links: seq<string>, get: string -> Response<DetailDoc>): (results: seq<Option<Page>>)
    ensures |results| == |links|
    ensures forall i :: 0 <= i < |links| ==> results[i] == FetchHtmlContent(links[i], get)
  {
    seq(|links|, i requires 0 <= i < |links| => FetchHtmlContent(links[i], get))
  }

  /**
   * `[result for result in results if result is not None]`: every record
   * that was a result, as often as it was one; `SomesAppend` says the order
   * is kept.
   */
  function KeepFetched(results: seq<Option<Page>>): (data: seq<Page>)
    ensures |data| <= |results|
    ensures forall p :: multiset(data)[p] == multiset(results)[Some(p)]
  {
    SomesCount(results);
    Somes(results)
  }

  /**
   * Reference definition: the listings that answered 200, in link order,
   * each under its full URL with the page it returned.
   */
  function Successes(links: seq<string>, get: string -> Response<DetailDoc>): (data: seq<Page>)
    ensures forall p :: p in data ==> get(p.url).status == 200 && p.htmlCode == get(p.url).body
    ensures forall p :: p in data ==> exists l :: l in links && p.url == SiteRoot + l
    ensures forall l :: l in links && get(SiteRoot + l).status == 200 ==>
      Page(SiteRoot + l, get(SiteRoot + l).body) in data
    decreases |links|
  {
    if links == [] then []
    else
      var fullUrl := SiteRoot + links[0];
      var rest := Successes(links[1..], get);
      assert forall l :: l in links[1..] ==> l in links;
      assert forall l :: l in links ==> l == links[0] || l in links[1..];
      (if get(fullUrl).status == 200 then [Page(fullUrl, get(fullUrl).body)] else []) + rest
  }

  /** The successes of two runs of links, one after the other, are those of the joined run: link order is kept. */
  lemma {:induction false} SuccessesAppend(links1: seq<string>, links2: seq<string>, get: string -> Response<DetailDoc>)
    ensures Successes(links1 + links2, get) == Successes(links1, get) + Successes(links2, get)
    decreases |links1|
  {
    if links1 == [] {
      assert links1 + links2 == links2;
    } else {
      assert (links1 + links2)[0] == links1[0];
      assert (links1 + links2)[1..] == links1[1..] + links2;
      SuccessesAppend(links1[1..], links2, get);
    }
  }

  /** Fetching every link and dropping the failures gives exactly the successes, in order. */
  lemma {:induction false} FetchedDataIsSuccesses(links: seq<string>, get: string -> Response<DetailDoc>)
    ensures KeepFetched(FetchAll(links, get)) == Successes(links, get)
    decreases |links|
  {
    if links != [] {
      var results := FetchAll(links, get);
      assert results[1..] == FetchAll(links[1..], get);
      FetchedDataIsSuccesses(links[1..], get);
      assert KeepFetched(results) == Somes(results);
    }
  }

  /** When every listing answers 200 nothing is dropped; when none does nothing is kept. */
  lemma {:induction false} SuccessesCount(links: seq<string>, get: string -> Response<DetailDoc>)
    ensures (forall l :: l in links ==> get(SiteRoot + l).status == 200) ==> |Successes(links, get)| == |links|
    ensures (forall l :: l in links ==> get(SiteRoot + l).status != 200) ==> Successes(links, get) == []
    decreases |links|
  {
    if links != [] {
      assert forall l :: l in links[1..] ==> l in links;
      SuccessesCount(links[1..], get);
    }
  }

  // ---------------------------------------------------------------------
  // Extracting one record per listing
  // ---------------------------------------------------------------------

  /** A listing page, as the field extraction sees it: the texts each selector matches. */
  datatype DetailDoc = DetailDoc(
    breadcrumbLinks: seq<string>,    // `.css-7kp13n a`
    titleHeading: Option<string>,    // first `h3.css-1o5zkyw`
    descriptionBlock: Option<string>,// first `div.css-1f7mpex`
    addressBlocks: seq<string>,      // `div.css-o9y6d5`
    rentBlock: Option<string>,       // first `.css-woykcw .css-1fhvb05`
    priceBlocks: seq<string>,        // `.css-30nv8k`
    availableBlock: Option<string>,  // first `.css-2kngtw`
    periodBlocks: seq<string>,       // `.css-14bctuo`
    detailRows: seq<DetailRow>,      // `.css-1n6wxiw`
    energyImage: Option<Image>)      // first `img.css-rdsunt`

  /** One characteristics row: its heading (`.css-1td16zm`) and value (`.css-1f8murc`) texts. */
  datatype DetailRow = DetailRow(heading: Option<string>, value: Option<string>)

  /** The energy-mark image and its `src` attribute. */
  datatype Image = Image(src: Option<string>)

  /** The extraction steps, in the order they run; each has its own error handler. */
  datatype Field =
    | Breadcrumb | Title | Description | Address | MonthlyRent | MonthlyAconto
    | MoveInPrice | AvailableFrom | RentalPeriod | DetailCharacteristics | EnergyMarkSource

  /** Where a step comes in the run: 0 for the breadcrumb up to 10 for the energy mark. */
  function StepIndex(f: Field): nat {
    match f
    case Breadcrumb => 0
    case Title => 1
    case Description => 2
    case Address => 3
    case MonthlyRent => 4
    case MonthlyAconto => 5
    case MoveInPrice => 6
    case AvailableFrom => 7
    case RentalPeriod => 8
    case DetailCharacteristics => 9
    case EnergyMarkSource => 10
  }

  /** The record key a single-field step writes. */
  function Key(f: Field): string
    requires f != DetailCharacteristics
  {
    match f
    case Breadcrumb => "breadcrumb"
    case Title => "title"
    case Description => "description"
    case Address => "address"
    case MonthlyRent => "monthly_rent"
    case MonthlyAconto => "monthly_aconto"
    case MoveInPrice => "move_in_price"
    case AvailableFrom => "available_from"
    case RentalPeriod => "rental_period"
    case EnergyMarkSource => "energy_mark_src"
  }

  const UrlKey: string := "url"
  const EnergyKey: string := "energy_mark_src"

  /** The keys every record starts with, in order. */
  const FixedKeys: seq<string> := [
    "url", "breadcrumb", "title", "description", "address", "monthly_rent",
    "monthly_aconto", "move_in_price", "available_from", "rental_period"]

  /** The text of a single-element selector; `None` (the step raises) when nothing matched. */
  function TextOf(element: Option<string>): Option<Value> {
    match element
    case None => None
    case Some(t) => Some(Str(t))
  }

  /** The `i`-th match of a selector; `None` (an `IndexError`) when there are fewer. */
  function Nth(matches: seq<string>, i: nat): Option<Value> {
    if i < |matches| then Some(Str(matches[i])) else None
  }

  /** What one single-field step produces; `None` when it raises. */
  function FieldStep(doc: DetailDoc, f: Field): Option<Value>
    requires f != DetailCharacteristics
  {
    match f
    case Breadcrumb => Some(Str(Join(doc.breadcrumbLinks, " > ")))
    case Title => TextOf(doc.titleHeading)
    case Description => TextOf(doc.descriptionBlock)
    case Address =>
      if |doc.addressBlocks| >= 2 then Some(Str(doc.addressBlocks[0] + ", " + doc.addressBlocks[1])) else None
    case MonthlyRent =>
      if doc.rentBlock.Some? then Some(Str(doc.rentBlock.value + " kr.")) else None
    case MonthlyAconto => Nth(doc.priceBlocks, 0)
    case MoveInPrice => Nth(doc.priceBlocks, 1)
    case AvailableFrom => TextOf(doc.availableBlock)
    case RentalPeriod => Nth(doc.periodBlocks, 1)
    case EnergyMarkSource =>
      match doc.energyImage
      case None => Some(Str("none"))
      case Some(img) => Some(if img.src.Some? then Str(img.src.value) else Null)
  }

  /**
   * The formats of the single-field steps: a step raises exactly when its
   * element is missing or its selector matched too few elements, and the
   * breadcrumb and the energy mark never raise.
   */
  lemma {:induction false} FieldFormats(doc: DetailDoc, f: Field, r: Option<Value>)
    requires f != DetailCharacteristics && r == FieldStep(doc, f)
    ensures r.None? <==>
      || (f == Title && doc.titleHeading.None?)
      || (f == Description && doc.descriptionBlock.None?)
      || (f == Address && |doc.addressBlocks| < 2)
      || (f == MonthlyRent && doc.rentBlock.None?)
      || (f == MonthlyAconto && |doc.priceBlocks| < 1)
      || (f == MoveInPrice && |doc.priceBlocks| < 2)
      || (f == AvailableFrom && doc.availableBlock.None?)
      || (f == RentalPeriod && |doc.periodBlocks| < 2)
    ensures f == Breadcrumb ==> r == Some(Str(Join(doc.breadcrumbLinks, " > ")))
    ensures f == Breadcrumb && doc.breadcrumbLinks == [] ==> r == Some(Str(""))
    ensures f == Breadcrumb && |doc.breadcrumbLinks| == 1 ==> r == Some(Str(doc.breadcrumbLinks[0]))
    ensures f == Breadcrumb && doc.breadcrumbLinks != [] ==>
      r.value.Str? && |doc.breadcrumbLinks[0]| <= |r.value.text| &&
      r.value.text[..|doc.breadcrumbLinks[0]|] == doc.breadcrumbLinks[0]
    ensures f == Address && r.Some? ==> r.value == Str(doc.addressBlocks[0] + ", " + doc.addressBlocks[1])
    ensures f == MonthlyRent && r.Some? ==> r.value == Str(doc.rentBlock.value + " kr.")
    ensures f == MonthlyAconto && r.Some? ==> r.value == Str(doc.priceBlocks[0])
    ensures f == MoveInPrice && r.Some? ==> r.value == Str(doc.priceBlocks[1])
    ensures f == RentalPeriod && r.Some? ==> r.value == Str(doc.periodBlocks[1])
    ensures f == EnergyMarkSource ==> (r.value == Str("none") <==> doc.energyImage.None? || doc.energyImage.value.src == Some("none"))
    ensures f == EnergyMarkSource ==> (r.value == Null <==> doc.energyImage.Some? && doc.energyImage.value.src.None?)
  {
  }

  /** The value the error handler leaves: the step's result, or `None` when it raised. */
  function Recorded(step: Option<Value>): Value {
    if step.Some? then step.value else Null
  }

  /**
   * The characteristics comprehension: one (heading, value) pair per row that
   * has a value block, in row order; `None` when such a row has no label
   * block, which makes the whole comprehension raise.
   */
  function DetailPairs(rows: seq<DetailRow>): (r: Option<seq<(string, Value)>>)
    ensures r.None? <==> exists i :: 0 <= i < |rows| && rows[i].value.Some? && rows[i].heading.None?
    ensures r.Some? ==> |r.value| <= |rows|
    ensures r.Some? ==> forall p :: p in r.value ==>
      exists l, v :: p == (l, Str(v)) && DetailRow(Some(l), Some(v)) in rows
    decreases |rows|
  {
    if rows == [] then Some([])
    else
      var rest := DetailPairs(rows[1..]);
      assert forall i :: 1 <= i < |rows| ==> rows[i] == rows[1..][i - 1];
      assert forall x :: x in rows[1..] ==> x in rows;
      match rows[0].value
      case None => rest
      case Some(v) =>
        match rows[0].heading
        case None => None
        case Some(l) =>
          if rest.None? then None
          else
            assert rows[0] == DetailRow(Some(l), Some(v));
            Some([(l, Str(v))] + rest.value)
  }

  /** When the comprehension succeeds, every row with both blocks gives its pair. */
  lemma {:induction false} DetailPairsComplete(rows: seq<DetailRow>)
    requires DetailPairs(rows).Some?
    ensures forall l, v :: DetailRow(Some(l), Some(v)) in rows ==> (l, Str(v)) in DetailPairs(rows).value
    decreases |rows|
  {
    if rows != [] {
      DetailPairsComplete(rows[1..]);
      assert forall x :: x in rows ==> x == rows[0] || x in rows[1..];
    }
  }

  /**
   * The comprehension over two runs of rows, one after the other: the pairs
   * of the first run, then those of the second; it raises when either run
   * does.
   */
  lemma {:induction false} DetailPairsAppend(rows1: seq<DetailRow>, rows2: seq<DetailRow>)
    ensures DetailPairs(rows1 + rows2) ==
      if DetailPairs(rows1).Some? && DetailPairs(rows2).Some?
      then Some(DetailPairs(rows1).value + DetailPairs(rows2).value)
      else None
    decreases |rows1|
  {
    if rows1 == [] {
      assert rows1 + rows2 == rows2;
      assert DetailPairs(rows1) == Some([]);
      if DetailPairs(rows2).Some? {
        assert [] + DetailPairs(rows2).value == DetailPairs(rows2).value;
      }
    } else {
      assert (rows1 + rows2)[0] == rows1[0];
      assert (rows1 + rows2)[1..] == rows1[1..] + rows2;
      DetailPairsAppend(rows1[1..], rows2);
      var rest1, rest2 := DetailPairs(rows1[1..]), DetailPairs(rows2);
      if rows1[0].value.Some? && rows1[0].heading.Some? && rest1.Some? && rest2.Some? {
        var p := (rows1[0].heading.value, Str(rows1[0].value.value));
        assert [p] + (rest1.value + rest2.value) == ([p] + rest1.value) + rest2.value;
      }
    }
  }

  /** The pairs the characteristics step merges: none at all when it raised. */
  function MergedDetails(doc: DetailDoc): seq<(string, Value)> {
    if DetailPairs(doc.detailRows).Some? then DetailPairs(doc.detailRows).value else []
  }

  /** Whether a step raised (and so was logged). */
  predicate Failed(doc: DetailDoc, f: Field) {
    if f == DetailCharacteristics then DetailPairs(doc.detailRows).None? else FieldStep(doc, f).None?
  }

  /** What one step adds to the error log. */
  function StepLog(doc: DetailDoc, f: Field): seq<Field> {
    if Failed(doc, f) then [f] else []
  }

  /** The error log after the nine single-field steps before the characteristics. */
  function FixedLog(doc: DetailDoc): seq<Field> {
    StepLog(doc, Breadcrumb) + StepLog(doc, Title) + StepLog(doc, Description) +
    StepLog(doc, Address) + StepLog(doc, MonthlyRent) + StepLog(doc, MonthlyAconto) +
    StepLog(doc, MoveInPrice) + StepLog(doc, AvailableFrom) + StepLog(doc, RentalPeriod)
  }

  /** The error log of one listing: every step's contribution, in the order the steps run. */
  function LogOf(doc: DetailDoc): seq<Field> {
    FixedLog(doc) + StepLog(doc, DetailCharacteristics) + StepLog(doc, EnergyMarkSource)
  }

  /**
   * `log` is the error log after the first `n` steps: exactly the steps
   * among them that raised, each once, in the order they ran.
   */
  predicate LogsFailures(doc: DetailDoc, log: seq<Field>, n: nat) {
    (forall g :: g in log <==> StepIndex(g) < n && Failed(doc, g)) &&
    InStepOrder(log)
  }


  /** Steps listed in strictly increasing step order. */
  predicate InStepOrder(log: seq<Field>) {
    forall i, j :: 0 <= i < j < |log| ==> StepIndex(log[i]) < StepIndex(log[j])
  }

  /** The step that runs `i`-th. */
  function StepAt(i: nat): (f: Field)
    requires i <= StepIndex(EnergyMarkSource)
    ensures StepIndex(f) == i
  {
    if i == 0 then Breadcrumb else if i == 1 then Title else if i == 2 then Description
    else if i == 3 then Address else if i == 4 then MonthlyRent else if i == 5 then MonthlyAconto
    else if i == 6 then MoveInPrice else if i == 7 then AvailableFrom else if i == 8 then RentalPeriod
    else if i == 9 then DetailCharacteristics else EnergyMarkSource
  }

  /** The log after the first `n` steps, one step at a time. */
  function LogBefore(doc: DetailDoc, n: nat): seq<Field>
    requires n <= StepIndex(EnergyMarkSource) + 1
  {
    if n == 0 then [] else LogBefore(doc, n - 1) + StepLog(doc, StepAt(n - 1))
  }

  /** Running step `n` extends a log of the first `n` steps to a log of the first `n + 1`. */
  lemma {:induction false} LogGrows(doc: DetailDoc, log: seq<Field>, f: Field)
    requires LogsFailures(doc, log, StepIndex(f))
    ensures LogsFailures(doc, log + StepLog(doc, f), StepIndex(f) + 1)
  {
  }

  lemma {:induction false} LogBeforeListsFailures(doc: DetailDoc, n: nat)
    requires n <= StepIndex(EnergyMarkSource) + 1
    ensures LogsFailures(doc, LogBefore(doc, n), n)
  {
    if n > 0 {
      LogBeforeListsFailures(doc, n - 1);
      LogGrows(doc, LogBefore(doc, n - 1), StepAt(n - 1));
    }
  }

  /** The log the extraction writes is the step-by-step log of all eleven steps. */
  lemma {:induction false} LogOfIsLogBefore(doc: DetailDoc)
    ensures LogOf(doc) == LogBefore(doc, StepIndex(EnergyMarkSource) + 1)
  {
    assert LogBefore(doc, 1) == StepLog(doc, Breadcrumb);
    assert LogBefore(doc, 2) == LogBefore(doc, 1) + StepLog(doc, Title);
    assert LogBefore(doc, 3) == LogBefore(doc, 2) + StepLog(doc, Description);
    assert LogBefore(doc, 4) == LogBefore(doc, 3) + StepLog(doc, Address);
    assert LogBefore(doc, 5) == LogBefore(doc, 4) + StepLog(doc, MonthlyRent);
    assert LogBefore(doc, 6) == LogBefore(doc, 5) + StepLog(doc, MonthlyAconto);
    assert LogBefore(doc, 7) == LogBefore(doc, 6) + StepLog(doc, MoveInPrice);
    assert LogBefore(doc, 8) == LogBefore(doc, 7) + StepLog(doc, AvailableFrom);
    assert LogBefore(doc, 9) == LogBefore(doc, 8) + StepLog(doc, RentalPeriod);
    assert LogBefore(doc, 9) == FixedLog(doc);
    assert LogBefore(doc, 10) == LogBefore(doc, 9) + StepLog(doc, DetailCharacteristics);
    assert LogBefore(doc, 11) == LogBefore(doc, 10) + StepLog(doc, EnergyMarkSource);
  }

  /** The log of a listing holds exactly the steps that raised, each once, in the order they ran. */
  lemma {:induction false} LogOfListsFailures(doc: DetailDoc)
    ensures LogsFailures(doc, LogOf(doc), StepIndex(EnergyMarkSource) + 1)
  {
    LogOfIsLogBefore(doc);
    LogBeforeListsFailures(doc, StepIndex(EnergyMarkSource) + 1);
  }

  /** The fixed fields' values after their steps ran. */
  function FixedValues(doc: DetailDoc, url: string): map<string, Value> {
    map[
      "url" := Str(url),
      "breadcrumb" := Recorded(FieldStep(doc, Breadcrumb)),
      "title" := Recorded(FieldStep(doc, Title)),
      "description" := Recorded(FieldStep(doc, Description)),
      "address" := Recorded(FieldStep(doc, Address)),
      "monthly_rent" := Recorded(FieldStep(doc, MonthlyRent)),
      "monthly_aconto" := Recorded(FieldStep(doc, MonthlyAconto)),
      "move_in_price" := Recorded(FieldStep(doc, MoveInPrice)),
      "available_from" := Recorded(FieldStep(doc, AvailableFrom)),
      "rental_period" := Recorded(FieldStep(doc, RentalPeriod))]
  }

  /**
   * The record of one listing, declaratively: the fixed keys in order, then
   * the characteristics labels not already present, then the energy key if
   * still absent; the values are the fixed ones, overridden by the
   * characteristics (a later duplicate label winning), overridden by the
   * energy mark.
   */
  function ApartmentInfo(doc: DetailDoc, url: string): Dict {
    var details := MergedDetails(doc);
    var keys := FixedKeys + Fresh(KeysOf(details), FixedValues(doc, url).Keys);
    var vals := FixedValues(doc, url) + MapOf(details);
    Dict(
      keys + (if EnergyKey in vals then [] else [EnergyKey]),
      vals[EnergyKey := Recorded(FieldStep(doc, EnergyMarkSource))])
  }

  /** One single-field step with its handler: assign the step's value, or `None` and log the step. */
  method RunStep(info: Dict, errors: seq<Field>, doc: DetailDoc, f: Field) returns (info': Dict, errors': seq<Field>)
    requires f != DetailCharacteristics
    ensures info' == Put(info, Key(f), Recorded(FieldStep(doc, f)))
    ensures errors' == errors + StepLog(doc, f)
  {
    var step := FieldStep(doc, f);
    if step.Some? {
      info' := Put(info, Key(f), step.value);
      errors' := errors;
    } else {
      info' := Put(info, Key(f), Null);
      errors' := errors + [f];
    }
  }

  /** The url and the nine single-field steps before the characteristics. */
  method RunFixedSteps(doc: DetailDoc, url: string) returns (info: Dict, errors: seq<Field>)
    ensures info == Dict(FixedKeys, FixedValues(doc, url))
    ensures errors == FixedLog(doc)
  {
    info := Dict([UrlKey], map[UrlKey := Str(url)]);
    errors := [];
    ghost var i0 := info;
    info, errors := RunStep(info, errors, doc, Breadcrumb);
    ghost var i1 := info;
    info, errors := RunStep(info, errors, doc, Title);
    ghost var i2 := info;
    info, errors := RunStep(info, errors, doc, Description);
    ghost var i3 := info;
    info, errors := RunStep(info, errors, doc, Address);
    ghost var i4 := info;
    FirstFixedSteps(doc, url, i0, i1, i2, i3, i4);
    info, errors := RunStep(info, errors, doc, MonthlyRent);
    ghost var i5 := info;
    info, errors := RunStep(info, errors, doc, MonthlyAconto);
    ghost var i6 := info;
    info, errors := RunStep(info, errors, doc, MoveInPrice);
    ghost var i7 := info;
    PriceFixedSteps(doc, url, i4, i5, i6, i7);
    info, errors := RunStep(info, errors, doc, AvailableFrom);
    ghost var i8 := info;
    info, errors := RunStep(info, errors, doc, RentalPeriod);
    LastFixedSteps(doc, url, i7, i8, info);
  }

  /** The record after the url and the first four steps. */
  function FirstFixedValues(doc: DetailDoc, url: string): map<string, Value> {
    map[
      "url" := Str(url),
      "breadcrumb" := Recorded(FieldStep(doc, Breadcrumb)),
      "title" := Recorded(FieldStep(doc, Title)),
      "description" := Recorded(FieldStep(doc, Description)),
      "address" := Recorded(FieldStep(doc, Address))]
  }

  lemma {:induction false} FirstFixedSteps(doc: DetailDoc, url: string, i0: Dict, i1: Dict, i2: Dict, i3: Dict, i4: Dict)
    requires i0 == Dict([UrlKey], map[UrlKey := Str(url)])
    requires i1 == Put(i0, Key(Breadcrumb), Recorded(FieldStep(doc, Breadcrumb)))
    requires i2 == Put(i1, Key(Title), Recorded(FieldStep(doc, Title)))
    requires i3 == Put(i2, Key(Description), Recorded(FieldStep(doc, Description)))
    requires i4 == Put(i3, Key(Address), Recorded(FieldStep(doc, Address)))
    ensures i4 == Dict(FixedKeys[..5], FirstFixedValues(doc, url))
  {
  }

  /** The record after the url and the first seven steps. */
  function PricedFixedValues(doc: DetailDoc, url: string): map<string, Value> {
    FirstFixedValues(doc, url)[
      "monthly_rent" := Recorded(FieldStep(doc, MonthlyRent))][
      "monthly_aconto" := Recorded(FieldStep(doc, MonthlyAconto))][
      "move_in_price" := Recorded(FieldStep(doc, MoveInPrice))]
  }

  lemma {:induction false} PriceFixedSteps(doc: DetailDoc, url: string, i4: Dict, i5: Dict, i6: Dict, i7: Dict)
    requires i4 == Dict(FixedKeys[..5], FirstFixedValues(doc, url))
    requires i5 == Put(i4, Key(MonthlyRent), Recorded(FieldStep(doc, MonthlyRent)))
    requires i6 == Put(i5, Key(MonthlyAconto), Recorded(FieldStep(doc, MonthlyAconto)))
    requires i7 == Put(i6, Key(MoveInPrice), Recorded(FieldStep(doc, MoveInPrice)))
    ensures i7 == Dict(FixedKeys[..8], PricedFixedValues(doc, url))
  {
  }

  lemma {:induction false} LastFixedSteps(doc: DetailDoc, url: string, i7: Dict, i8: Dict, i9: Dict)
    requires i7 == Dict(FixedKeys[..8], PricedFixedValues(doc, url))
    requires i8 == Put(i7, Key(AvailableFrom), Recorded(FieldStep(doc, AvailableFrom)))
    requires i9 == Put(i8, Key(RentalPeriod), Recorded(FieldStep(doc, RentalPeriod)))
    ensures i9 == Dict(FixedKeys, FixedValues(doc, url))
  {
  }

  /**
   * The characteristics step with its handler: merge the pairs with
   * `update`, or leave the record as it is and log the step.
   */
  method MergeCharacteristics(info: Dict, errors: seq<Field>, doc: DetailDoc) returns (info': Dict, errors': seq<Field>)
    requires Valid(info)
    ensures Valid(info')
    ensures info'.vals == info.vals + MapOf(MergedDetails(doc))
    ensures info'.keys == info.keys + Fresh(KeysOf(MergedDetails(doc)), info.vals.Keys)
    ensures errors' == errors + StepLog(doc, DetailCharacteristics)
  {
    var details := DetailPairs(doc.detailRows);
    if details.Some? {
      info' := Update(info, FromPairs(details.value));
      FreshTwice(KeysOf(details.value), {}, info.vals.Keys);
      assert {} + info.vals.Keys == info.vals.Keys;
      errors' := errors;
      assert errors + StepLog(doc, DetailCharacteristics) == errors;
    } else {
      info' := info;
      errors' := errors + [DetailCharacteristics];
      assert MergedDetails(doc) == [];
      assert info.vals + MapOf([]) == info.vals;
      assert info.keys + Fresh(KeysOf([]), info.vals.Keys) == info.keys;
    }
  }

  /**
   * `extract_apartment_info`: the record starts with the url; each step runs
   * in turn whatever the earlier ones did; the characteristics are merged
   * with `update`; the energy mark is written last.
   */
  method ExtractApartmentInfo(doc: DetailDoc, url: string) returns (info: Dict, errors: seq<Field>)
    ensures info == ApartmentInfo(doc, url)
    ensures errors == LogOf(doc)
  {
    info, errors := RunFixedSteps(doc, url);
    FixedPartValid(doc, url);
    info, errors := MergeCharacteristics(info, errors, doc);
    EnergyWrittenLast(doc, url, info);
    info, errors := RunStep(info, errors, doc, EnergyMarkSource);
  }

  /** Writing the energy mark into the merged record gives the listing's record. */
  lemma {:induction false} EnergyWrittenLast(doc: DetailDoc, url: string, merged: Dict)
    requires merged.keys == FixedKeys + Fresh(KeysOf(MergedDetails(doc)), FixedValues(doc, url).Keys)
    requires merged.vals == FixedValues(doc, url) + MapOf(MergedDetails(doc))
    ensures Put(merged, Key(EnergyMarkSource), Recorded(FieldStep(doc, EnergyMarkSource))) == ApartmentInfo(doc, url)
  {
    var v := Recorded(FieldStep(doc, EnergyMarkSource));
    var r := Put(merged, EnergyKey, v);
    assert r.keys == merged.keys + (if EnergyKey in merged.vals then [] else [EnergyKey]);
    assert r.vals == merged.vals[EnergyKey := v];
  }

  lemma {:induction false} FixedPartValid(doc: DetailDoc, url: string)
    ensures Valid(Dict(FixedKeys, FixedValues(doc, url)))
    ensures FixedValues(doc, url).Keys == set k | k in FixedKeys
  {
    FixedKeysListed();
    FixedValuesKeys(doc, url);
  }

  /** The fixed keys as a set. */
  const FixedKeySet: set<string> := {
    "url", "breadcrumb", "title", "description", "address", "monthly_rent",
    "monthly_aconto", "move_in_price", "available_from", "rental_period"}

  lemma {:induction false} FixedKeysListed()
    ensures Distinct(FixedKeys)
    ensures (set k | k in FixedKeys) == FixedKeySet
  {
    FixedKeysDistinct();
  }

  lemma {:induction false} FixedKeysDistinct()
    ensures Distinct(FixedKeys)
  {
  }

  lemma {:induction false} FixedValuesKeys(doc: DetailDoc, url: string)
    ensures FixedValues(doc, url).Keys == FixedKeySet
  {
  }

  /** Every record is a well-formed dictionary: each key once, exactly the keys with values. */
  lemma {:induction false} ApartmentInfoValid(doc: DetailDoc, url: string)
    ensures Valid(ApartmentInfo(doc, url))
  {
    var details := MergedDetails(doc);
    FixedPartValid(doc, url);
    var merged := Update(Dict(FixedKeys, FixedValues(doc, url)), FromPairs(details));
    FreshTwice(KeysOf(details), {}, FixedValues(doc, url).Keys);
    assert {} + FixedValues(doc, url).Keys == FixedValues(doc, url).Keys;
    EnergyWrittenLast(doc, url, merged);
    PutKeepsValid(merged, EnergyKey, Recorded(FieldStep(doc, EnergyMarkSource)));
  }

  /** The record starts with the url, then the nine fixed fields in step order. */
  lemma {:induction false} UrlComesFirst(doc: DetailDoc, url: string)
    ensures |ApartmentInfo(doc, url).keys| >= |FixedKeys|
    ensures ApartmentInfo(doc, url).keys[..|FixedKeys|] == FixedKeys
    ensures ApartmentInfo(doc, url).keys[0] == UrlKey
    ensures UrlKey in ApartmentInfo(doc, url).vals
    ensures UrlKey !in MapOf(MergedDetails(doc)) ==> ApartmentInfo(doc, url).vals[UrlKey] == Str(url)
    ensures UrlKey in MapOf(MergedDetails(doc)) ==>
      ApartmentInfo(doc, url).vals[UrlKey] == MapOf(MergedDetails(doc))[UrlKey]
  {
    var r := ApartmentInfo(doc, url);
    var fixed := FixedValues(doc, url);
    var merged := MapOf(MergedDetails(doc));
    var vals := fixed + merged;
    var tail := Fresh(KeysOf(MergedDetails(doc)), fixed.Keys) + (if EnergyKey in vals then [] else [EnergyKey]);
    assert r.keys == FixedKeys + tail;
    assert (FixedKeys + tail)[..|FixedKeys|] == FixedKeys;
    FixedUrl(doc, url);
    UrlValue(fixed, merged, url, r.vals, Recorded(FieldStep(doc, EnergyMarkSource)));
  }

  /** The fixed part maps url to the given URL. */
  lemma {:induction false} FixedUrl(doc: DetailDoc, url: string)
    ensures UrlKey in FixedValues(doc, url) && FixedValues(doc, url)[UrlKey] == Str(url)
  {
  }

  /** The url entry survives the merge and the energy write, unless the merge overrode it. */
  lemma {:induction false} UrlValue(fixed: map<string, Value>, merged: map<string, Value>, url: string, vals: map<string, Value>, mark: Value)
    requires UrlKey in fixed && fixed[UrlKey] == Str(url)
    requires vals == (fixed + merged)[EnergyKey := mark]
    ensures UrlKey in vals
    ensures UrlKey !in merged ==> vals[UrlKey] == Str(url)
    ensures UrlKey in merged ==> vals[UrlKey] == merged[UrlKey]
  {
    assert UrlKey != EnergyKey;
  }

  /**
   * A fixed field holds what its own step produced (`None` when the step
   * raised), unless a characteristics row with the same label overrode it.
   */
  lemma {:induction false} FixedFieldValue(doc: DetailDoc, url: string, f: Field)
    requires f != DetailCharacteristics && f != EnergyMarkSource
    ensures Key(f) in ApartmentInfo(doc, url).vals
    ensures Key(f) !in MapOf(MergedDetails(doc)) ==>
      ApartmentInfo(doc, url).vals[Key(f)] == Recorded(FieldStep(doc, f))
    ensures Key(f) in MapOf(MergedDetails(doc)) ==>
      ApartmentInfo(doc, url).vals[Key(f)] == MapOf(MergedDetails(doc))[Key(f)]
  {
    FixedEntry(doc, url, f);
  }

  /** The energy mark is always present: `"none"` without an image, `None` without a `src`, else the `src`. */
  lemma {:induction false} EnergyMarkAlwaysPresent(doc: DetailDoc, url: string)
    ensures EnergyKey in ApartmentInfo(doc, url).vals
    ensures doc.energyImage.None? ==> ApartmentInfo(doc, url).vals[EnergyKey] == Str("none")
    ensures doc.energyImage.Some? && doc.energyImage.value.src.None? ==>
      ApartmentInfo(doc, url).vals[EnergyKey] == Null
    ensures doc.energyImage.Some? && doc.energyImage.value.src.Some? ==>
      ApartmentInfo(doc, url).vals[EnergyKey] == Str(doc.energyImage.value.src.value)
  {
  }

  /**
   * When the characteristics step raises, nothing of it is merged: the
   * record is the fixed fields and the energy mark, and the step is logged.
   */
  lemma {:induction false} CharacteristicsFailureMergesNothing(doc: DetailDoc, url: string)
    requires DetailPairs(doc.detailRows).None?
    ensures ApartmentInfo(doc, url).keys == FixedKeys + [EnergyKey]
    ensures DetailCharacteristics in LogOf(doc)
  {
    NothingMergedKeys(doc, url, MergedDetails(doc));
    var log := LogOf(doc);
    assert log == FixedLog(doc) + [DetailCharacteristics] + StepLog(doc, EnergyMarkSource);
    assert log[|FixedLog(doc)|] == DetailCharacteristics;
  }

  lemma {:induction false} NothingMergedKeys(doc: DetailDoc, url: string, details: seq<(string, Value)>)
    requires details == MergedDetails(doc) && details == []
    ensures ApartmentInfo(doc, url).keys == FixedKeys + [EnergyKey]
  {
    FixedValuesKeys(doc, url);
    assert KeysOf(details) == [];
    assert Fresh(KeysOf(details), FixedValues(doc, url).Keys) == [];
    assert MapOf(details) == map[];
    assert EnergyKey !in FixedValues(doc, url) + MapOf(details);
  }

  /**
   * A label that occurs again among the characteristics keeps the value of
   * its last occurrence (unless it is the energy key, which is written after).
   */
  lemma {:induction false} LaterDuplicateLabelWins(doc: DetailDoc, url: string, i: nat)
    requires DetailPairs(doc.detailRows).Some?
    requires i < |DetailPairs(doc.detailRows).value|
    requires forall j :: i < j < |DetailPairs(doc.detailRows).value| ==>
      DetailPairs(doc.detailRows).value[j].0 != DetailPairs(doc.detailRows).value[i].0
    requires DetailPairs(doc.detailRows).value[i].0 != EnergyKey
    ensures ApartmentInfo(doc, url).vals[DetailPairs(doc.detailRows).value[i].0] == DetailPairs(doc.detailRows).value[i].1
  {
    LastPairWins(DetailPairs(doc.detailRows).value, i);
  }

  /** A listing page without both address blocks gets `None` as its address, and the step is logged. */
  lemma {:induction false} MissingAddressRecordedAsNone(doc: DetailDoc, url: string)
    requires |doc.addressBlocks| < 2
    requires Key(Address) !in MapOf(MergedDetails(doc))
    ensures ApartmentInfo(doc, url).vals[Key(Address)] == Null
    ensures Address in LogOf(doc)
  {
    FixedFieldValue(doc, url, Address);
    FailedStepLogged(doc, Address);
  }

  /** A single-field step that raised is in the log. */
  lemma {:induction false} FailedStepLogged(doc: DetailDoc, f: Field)
    requires f != DetailCharacteristics && FieldStep(doc, f).None?
    ensures f in LogOf(doc)
  {
    LogOfListsFailures(doc);
    assert StepIndex(f) < StepIndex(EnergyMarkSource) + 1;
  }

  /**
   * Steps are isolated: two pages on which every step other than `f` gives
   * the same outcome yield records with the same keys that agree on every
   * entry other than `f`'s.
   */
  lemma {:induction false} StepIsolation(d1: DetailDoc, d2: DetailDoc, url: string, f: Field)
    requires f != DetailCharacteristics
    requires forall g :: g != f && g != DetailCharacteristics ==> FieldStep(d1, g) == FieldStep(d2, g)
    requires DetailPairs(d1.detailRows) == DetailPairs(d2.detailRows)
    ensures ApartmentInfo(d1, url).keys == ApartmentInfo(d2, url).keys
    ensures forall k :: k in ApartmentInfo(d1, url).vals && k != Key(f) ==>
      k in ApartmentInfo(d2, url).vals && ApartmentInfo(d1, url).vals[k] == ApartmentInfo(d2, url).vals[k]
  {
    FixedValuesAgree(d1, d2, url, f);
    MergeAgrees(FixedValues(d1, url), FixedValues(d2, url), MapOf(MergedDetails(d1)), Key(f),
      ApartmentInfo(d1, url).vals, ApartmentInfo(d2, url).vals);
  }

  /** Merging the same pairs and writing the energy mark preserves agreement outside one key. */
  lemma {:induction false} MergeAgrees(fixed1: map<string, Value>, fixed2: map<string, Value>, merged: map<string, Value>,
                    key: string, record1: map<string, Value>, record2: map<string, Value>)
    requires fixed1.Keys == fixed2.Keys
    requires forall k :: k in fixed1 && k != key ==> fixed1[k] == fixed2[k]
    requires EnergyKey in record1 && EnergyKey in record2
    requires key != EnergyKey ==> record1[EnergyKey] == record2[EnergyKey]
    requires record1 == (fixed1 + merged)[EnergyKey := record1[EnergyKey]]
    requires record2 == (fixed2 + merged)[EnergyKey := record2[EnergyKey]]
    ensures forall k :: k in record1 && k != key ==> k in record2 && record1[k] == record2[k]
  {
  }

  /** Before the merge, the two records agree on every entry other than `f`'s. */
  lemma {:induction false} FixedValuesAgree(d1: DetailDoc, d2: DetailDoc, url: string, f: Field)
    requires f != DetailCharacteristics
    requires forall g :: g != f && g != DetailCharacteristics ==> FieldStep(d1, g) == FieldStep(d2, g)
    ensures FixedValues(d1, url).Keys == FixedValues(d2, url).Keys
    ensures forall k :: k in FixedValues(d1, url) && k != Key(f) ==> FixedValues(d1, url)[k] == FixedValues(d2, url)[k]
  {
    FixedValuesKeys(d1, url);
    FixedValuesKeys(d2, url);
    FixedKeysListed();
    forall k | k in FixedValues(d1, url) && k != Key(f)
      ensures FixedValues(d1, url)[k] == FixedValues(d2, url)[k]
    {
      FixedKeyAgrees(d1, d2, url, f, k);
    }
  }

  lemma {:induction false} FixedKeyAgrees(d1: DetailDoc, d2: DetailDoc, url: string, f: Field, k: string)
    requires f != DetailCharacteristics
    requires forall g :: g != f && g != DetailCharacteristics ==> FieldStep(d1, g) == FieldStep(d2, g)
    requires k in FixedKeys && k != Key(f)
    ensures k in FixedValues(d1, url) && k in FixedValues(d2, url)
    ensures FixedValues(d1, url)[k] == FixedValues(d2, url)[k]
  {
    var i :| 0 <= i < |FixedKeys| && FixedKeys[i] == k;
    if i > 0 {
      FixedKeyOfStep(i - 1);
      var g := StepAt(i - 1);
      assert g != f && g != DetailCharacteristics;
      FixedStepAgrees(d1, d2, url, g);
    } else {
      FixedUrlEntry(d1, d2, url, k);
    }
  }

  lemma {:induction false} FixedStepAgrees(d1: DetailDoc, d2: DetailDoc, url: string, g: Field)
    requires g != DetailCharacteristics && g != EnergyMarkSource
    requires FieldStep(d1, g) == FieldStep(d2, g)
    ensures Key(g) in FixedValues(d1, url) && Key(g) in FixedValues(d2, url)
    ensures FixedValues(d1, url)[Key(g)] == FixedValues(d2, url)[Key(g)]
  {
    FixedEntry(d1, url, g);
    FixedEntry(d2, url, g);
  }

  lemma {:induction false} FixedUrlEntry(d1: DetailDoc, d2: DetailDoc, url: string, k: string)
    requires k == FixedKeys[0]
    ensures k in FixedValues(d1, url) && k in FixedValues(d2, url)
    ensures FixedValues(d1, url)[k] == FixedValues(d2, url)[k]
  {
    FixedUrl(d1, url);
    FixedUrl(d2, url);
  }


  /** The fixed key after the url at position `j + 1` is written by step `j`. */
  lemma {:induction false} FixedKeyOfStep(j: nat)
    requires j + 1 < |FixedKeys|
    ensures StepAt(j) != DetailCharacteristics && StepAt(j) != EnergyMarkSource
    ensures FixedKeys[j + 1] == Key(StepAt(j))
  {
  }

  /** A fixed field's entry before the merge is its step's recorded value. */
  lemma {:induction false} FixedEntry(doc: DetailDoc, url: string, f: Field)
    requires f != DetailCharacteristics && f != EnergyMarkSource
    ensures Key(f) in FixedValues(doc, url) && Key(f) != EnergyKey
    ensures FixedValues(doc, url)[Key(f)] == Recorded(FieldStep(doc, f))
  {
  }

  /** `process_apartment_info`: the pool's entry point, unpacking a (page, url) pair. */
  method ProcessApartmentInfo(args: (DetailDoc, string)) returns (info: Dict)
    ensures info == ApartmentInfo(args.0, args.1)
  {
    var errors;
    info, errors := ExtractApartmentInfo(args.0, args.1);
  }

  /** The records of the fetched pages, in order. */
  function Records(data: seq<Page>): (records: seq<Dict>)
    ensures |records| == |data|
    decreases |data|
  {
    if data == [] then [] else Records(data[..|data| - 1]) + [ApartmentInfo(data[|data| - 1].htmlCode, data[|data| - 1].url)]
  }

  /** Each record is the one extracted from the page at its index. */
  lemma {:induction false} RecordsAt(data: seq<Page>, i: nat)
    requires i < |data|
    ensures Records(data)[i] == ApartmentInfo(data[i].htmlCode, data[i].url)
    decreases |data|
  {
    if i < |data| - 1 {
      RecordsAt(data[..|data| - 1], i);
    }
  }

  lemma {:induction false} RecordsSnoc(data: seq<Page>, i: nat, records: seq<Dict>, info: Dict)
    requires i < |data|
    requires records == Records(data[..i])
    requires info == ApartmentInfo(data[i].htmlCode, data[i].url)
    ensures records + [info] == Records(data[..i + 1])
  {
    assert data[..i + 1][..i] == data[..i];
  }

  /** The second worker pool's ordered map: one record per fetched page, in order. */
  method ExtractAll(data: seq<Page>) returns (records: seq<Dict>)
    ensures records == Records(data)
  {
    records := [];
    var i := 0;
    while i < |data|
      invariant 0 <= i <= |data|
      invariant records == Records(data[..i])
    {
      var info := ProcessApartmentInfo((data[i].htmlCode, data[i].url));
      RecordsSnoc(data, i, records, info);
      records := records + [info];
      i := i + 1;
    }
    assert data[..i] == data;
  }

  /**
   * The whole run: discover the pages, collect the links, fetch the
   * listings, keep the ones that answered 200 and extract their records.
   * A link-collection `KeyError` ends the run with no records.
   */
  method Crawl(site: string -> Response<IndexDoc>, get: string -> Response<DetailDoc>, ghost last: nat)
    returns (pages: map<int, IndexDoc>, links: Option<seq<string>>, data: seq<Page>, records: Option<seq<Dict>>)
    requires EndsDiscovery(site(PageUrl(last)))
    ensures forall k :: k in pages <==> 1 <= k <= |pages|
    ensures forall k :: 1 <= k <= |pages| ==> pages[k] == site(PageUrl(k - 1)).body
    ensures links == LinksOf(pages, |pages|)
    ensures links.None? ==> data == [] && records.None?
    ensures links.Some? ==> data == Successes(links.value, get)
    ensures links.Some? ==> records == Some(Records(data))
  {
    pages := DiscoverPages(site, last);
    links := ExtractLinks(pages);
    if links.None? {
      data, records := [], None;
      return;
    }
    data := KeepFetched(FetchAll(links.value, get));
    FetchedDataIsSuccesses(links.value, get);
    var recs := ExtractAll(data);
    records := Some(recs);
  }
}
