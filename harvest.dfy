/**
 * `get_all_products` and `get_products_from_page` (scraping_OFF_dict.py:14-48):
 * the product records of a range of listing pages, page by page and link by
 * link, in order.
 */
module Harvest {
  import opened Wrappers
  import opened Text
  import opened Records
  import opened Assembly

  /**
   * The site as the harvester sees it, in place of the HTTP requests: for a
   * listing URL, the `href` of each `a` of `div#search_results` in order (`None`
   * for an anchor without `href`), or `None` when the page cannot be fetched or
   * has no results block; for a product URL, its main column, or `None` when it
   * cannot be fetched or has none.
   */
  datatype Site = Site(listing: string -> Option<seq<Option<string>>>, item: string -> Option<MainColumn>)

  const Host := "https://fr.openfoodfacts.org"

  /** The URL of listing page `page` (line 34). */
  function ListingUrl(page: int): string
  {
    Host + "/" + IntToString(page)
  }

  /** The URL of a product from its relative link (line 39): plain concatenation. */
  function ItemUrl(href: string): (url: string)
    ensures |url| == |Host| + |href| && url[..|Host|] == Host && url[|Host|..] == href
  {
    Host + href
  }

  /** Distinct pages are fetched from distinct URLs. */
  lemma ListingUrlInjective(p: int, q: int)
    requires ListingUrl(p) == ListingUrl(q)
    ensures p == q
  {
    var n := |Host| + 1;
    assert ListingUrl(p)[n..] == IntToString(p);
    assert ListingUrl(q)[n..] == IntToString(q);
    IntToStringInjective(p, q);
  }

  /** The record of the product a relative link points to. */
  function ProductAt(site: Site, href: string): Record
  {
    Product(site.item(ItemUrl(href)))
  }

  /**
   * One record per link, in order; the first link without `href` raises and
   * ends the page with the records collected so far.
   */
  function LinkRecords(site: Site, hrefs: seq<Option<string>>): (r: seq<Record>)
    ensures |r| <= |hrefs|
    ensures forall i :: 0 <= i < |r| ==> hrefs[i].Some? && r[i] == ProductAt(site, hrefs[i].value)
  {
    if hrefs == [] || hrefs[0].None? then []
    else
      var first, rest := ProductAt(site, hrefs[0].value), LinkRecords(site, hrefs[1..]);
      assert forall i :: 0 < i <= |rest| ==> ([first] + rest)[i] == rest[i - 1] && hrefs[1..][i - 1] == hrefs[i];
      [first] + rest
  }

  /** The records of one listing page; none when the page cannot be read. */
  function PageProducts(site: Site, page: int): seq<Record>
  {
    match site.listing(ListingUrl(page))
    case None => []
    case Some(hrefs) => LinkRecords(site, hrefs)
  }

  /** The records of pages `first` to `last - 1`, page after page. */
  function AllProducts(site: Site, first: int, last: int): seq<Record>
    decreases last - first
  {
    if last <= first then [] else AllProducts(site, first, last - 1) + PageProducts(site, last - 1)
  }

  /** A link without `href` ends the page: exactly the records of the links before it. */
  lemma {:induction false} LinkRecordsStop(site: Site, hrefs: seq<Option<string>>, i: nat)
    requires i < |hrefs| && hrefs[i].None?
    requires forall j :: 0 <= j < i ==> hrefs[j].Some?
    ensures |LinkRecords(site, hrefs)| == i
  {
    if i > 0 {
      LinkRecordsStop(site, hrefs[1..], i - 1);
    }
  }

  /** The link at `i` has an `href`: its record comes first, then those of the links after it. */
  lemma LinkRecordsStep(site: Site, hrefs: seq<Option<string>>, i: nat)
    requires i < |hrefs| && hrefs[i].Some?
    ensures LinkRecords(site, hrefs[i..]) == [ProductAt(site, hrefs[i].value)] + LinkRecords(site, hrefs[i + 1..])
  {
    assert hrefs[i..][1..] == hrefs[i + 1..];
  }

  /** Every link with an `href`: one record per link. */
  lemma {:induction false} LinkRecordsAll(site: Site, hrefs: seq<Option<string>>)
    requires forall j :: 0 <= j < |hrefs| ==> hrefs[j].Some?
    ensures |LinkRecords(site, hrefs)| == |hrefs|
  {
    if hrefs != [] {
      LinkRecordsAll(site, hrefs[1..]);
    }
  }

  /**
   * Pages are visited once each, in order: the records of `[a, c)` are those of
   * `[a, b)` followed by those of `[b, c)`.
   */
  /** Concatenation is associative, whatever the element type. */
  lemma ConcatAssoc<T>(x: seq<T>, y: seq<T>, z: seq<T>)
    ensures (x + y) + z == x + (y + z)
  {
  }

  /** One more page appends that page's records. */
  lemma AllProductsStep(site: Site, first: int, last: int)
    requires first < last
    ensures AllProducts(site, first, last) == AllProducts(site, first, last - 1) + PageProducts(site, last - 1)
  {
  }

  /**
   * Pages are visited once each, in order: the records of `[a, c)` are those of
   * `[a, b)` followed by those of `[b, c)`.
   */
  lemma {:induction false} AllProductsSplit(site: Site, a: int, b: int, c: int)
    requires a <= b <= c
    ensures AllProducts(site, a, c) == AllProducts(site, a, b) + AllProducts(site, b, c)
    decreases c - b
  {
    if b < c {
      AllProductsSplit(site, a, b, c - 1);
      AllProductsStep(site, a, c);
      AllProductsStep(site, b, c);
      ConcatAssoc(AllProducts(site, a, b), AllProducts(site, b, c - 1), PageProducts(site, c - 1));
    } else {
      assert AllProducts(site, b, c) == [];
    }
  }

  /** A single page contributes exactly its own records. */
  lemma SinglePage(site: Site, p: int)
    ensures AllProducts(site, p, p + 1) == PageProducts(site, p)
  {
  }

  /** `get_products_from_page`: one `append` per link until a link has no `href`. */
  method ProductsFromPage(site: Site, page: int) returns (products: seq<Record>)
    ensures products == PageProducts(site, page)
  {
    products := [];
    var links := site.listing(ListingUrl(page));
    if links.None? {
      return;
    }
    var hrefs := links.value;
    var i := 0;
    while i < |hrefs|
      invariant 0 <= i <= |hrefs|
      invariant products + LinkRecords(site, hrefs[i..]) == LinkRecords(site, hrefs)
    {
      if hrefs[i].None? {
        return;
      }
      var product := GetProduct(site.item(ItemUrl(hrefs[i].value)));
      LinkRecordsStep(site, hrefs, i);
      ConcatAssoc(products, [product], LinkRecords(site, hrefs[i + 1..]));
      products := products + [product];
      i := i + 1;
    }
  }

  /** `get_all_products`: the pages of `[first, last)` in order, their records concatenated. */
  method GetAllProducts(site: Site, first: int, last: int) returns (products: seq<Record>)
    ensures products == AllProducts(site, first, last)
  {
    products := [];
    var page := first;
    while page < last
      invariant first <= page || last <= first
      invariant page <= last || last <= first
      invariant products == AllProducts(site, first, if last <= first then first else page)
    {
      var pageProducts := ProductsFromPage(site, page);
      products := products + pageProducts;
      page := page + 1;
    }
  }
}
