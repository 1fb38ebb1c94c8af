/** One search result (`p.row`) and the rule that turns it into a record.
    A node is given abstractly: the `a` elements of its subtree in document
    order, and the concatenated text of its `span.price` and `span.pnr`
    descendants. */
module Listings {
  import opened Options
  import opened RubyString

  /** An `a` element: its text content and its `href` attribute, if any. */
  datatype Anchor = Anchor(text: string, href: Option<string>)

  /** A listing node as the extraction rule sees it. */
  datatype ListingNode = ListingNode(anchors: seq<Anchor>, priceText: string, pnrText: string)

  /** The derived record; `location` is nil when the slice is out of range. */
  datatype Listing = Listing(name: string, url: string, price: string, location: Option<string>)

  /** The two ways a node makes the script raise: `css('a')[1]` is nil and
      `nil.text` is called, or the link has no `href` and `nil.value` is called. */
  datatype ExtractError = MissingLink | MissingHref

  /** Base that every detail-page path is appended to. */
  const SiteBase: string := "http://sfbay.craigslist.org"

  /** The `span.pnr` text loses its first 3 and last 12 characters: `[3..-13]`. */
  const LocationFrom: int := 3
  const LocationTo: int := -13

  /** A node the rule can handle: a second anchor exists and carries an `href`. */
  predicate WellFormed(node: ListingNode) {
    |node.anchors| >= 2 && node.anchors[1].href.Some?
  }

  /** The title link: the anchor at index 1 of the node's anchors. */
  function TitleLink(node: ListingNode): Result<Anchor, ExtractError> {
    if |node.anchors| < 2 then Err(MissingLink) else Ok(node.anchors[1])
  }

  /** `link.text.strip`. */
  function NameOf(link: Anchor): string {
    Strip(link.text)
  }

  /** The site base followed by the raw `href`, with no normalisation. */
  function UrlOf(link: Anchor): (r: Result<string, ExtractError>)
    ensures r.Ok? <==> link.href.Some?
    ensures r.Ok? ==>
      |r.value| == |SiteBase| + |link.href.value| &&
      r.value[..|SiteBase|] == SiteBase && r.value[|SiteBase|..] == link.href.value
    ensures r.Err? ==> r.error == MissingHref
  {
    match link.href
    case None => Err(MissingHref)
    case Some(h) => Ok(SiteBase + h)
  }

  /** The `span.price` text, unchanged. */
  function PriceOf(node: ListingNode): string {
    node.priceText
  }

  /** The `span.pnr` text sliced with `[3..-13]`. */
  function LocationOf(node: ListingNode): Option<string> {
    RangeSlice(node.pnrText, LocationFrom, LocationTo)
  }

  /** The whole per-node rule: name, then url, then price and location. */
  function Derive(node: ListingNode): (r: Result<Listing, ExtractError>)
    ensures r.Ok? <==> WellFormed(node)
    ensures r == Err(MissingLink) <==> |node.anchors| < 2
    ensures r == Err(MissingHref) <==> |node.anchors| >= 2 && node.anchors[1].href.None?
  {
    match TitleLink(node)
    case Err(e) => Err(e)
    case Ok(link) =>
      var name := NameOf(link);
      match UrlOf(link)
      case Err(e) => Err(e)
      case Ok(url) => Ok(Listing(name, url, PriceOf(node), LocationOf(node)))
  }

  /** The four fields of a record come from the title link and the two span
      texts of the node it was derived from. */
  lemma DeriveFields(node: ListingNode)
    requires WellFormed(node)
    ensures Derive(node).value.name == Strip(node.anchors[1].text)
    ensures Derive(node).value.url == SiteBase + node.anchors[1].href.value
    ensures Derive(node).value.price == node.priceText
    ensures Derive(node).value.location == LocationOf(node)
  {
  }

  /** The location is nil below 3 characters, empty up to 15, and otherwise
      the raw text with exactly its first 3 and last 12 characters removed. */
  lemma LocationCases(node: ListingNode)
    ensures |node.pnrText| < 3 ==> LocationOf(node) == None
    ensures 3 <= |node.pnrText| <= 15 ==> LocationOf(node) == Some("")
    ensures |node.pnrText| >= 16 ==>
      var raw := node.pnrText;
      var n := |raw|;
      LocationOf(node).Some? && |LocationOf(node).value| == n - 15 &&
      LocationOf(node).value == raw[3..n - 12] &&
      raw == raw[..3] + LocationOf(node).value + raw[n - 12..]
  {
    var raw := node.pnrText;
    var n := |raw|;
    if n >= 16 {
      assert raw == raw[..3] + raw[3..n - 12] + raw[n - 12..];
    }
  }

  /** The name of a derived record is the title text stripped: trimmed from
      the title text as above, and unchanged by stripping again. */
  lemma NameProperties(node: ListingNode)
    requires WellFormed(node)
    ensures IsTrimmedFrom(Derive(node).value.name, node.anchors[1].text)
    ensures Strip(Derive(node).value.name) == Derive(node).value.name
  {
    var text := node.anchors[1].text;
    DeriveFields(node);
    StripCharacterization(text);
    StripIdempotent(text);
  }

  /** The url of a derived record starts with the site base and ends with
      the raw `href`, character for character. */
  lemma UrlProperties(node: ListingNode)
    requires WellFormed(node)
    ensures
      var url := Derive(node).value.url;
      var href := node.anchors[1].href.value;
      |url| == |SiteBase| + |href| &&
      url[..|SiteBase|] == SiteBase && url[|SiteBase|..] == href
  {
    DeriveFields(node);
    var _ := UrlOf(node.anchors[1]);
  }

  /** The price of a derived record is the `span.price` text as is. */
  lemma PriceProperties(node: ListingNode)
    requires WellFormed(node)
    ensures Derive(node).value.price == node.priceText
  {
    DeriveFields(node);
  }

  /** The price text never decides whether a node yields a record: any
      price text, the empty one of a node without price spans included,
      gives the same outcome kind. */
  lemma PriceNeverFails(node: ListingNode, p: string)
    ensures Derive(node.(priceText := p)).Ok? <==> Derive(node).Ok?
    ensures Derive(node.(priceText := "")).Ok? <==> WellFormed(node)
  {
  }

  /** The title anchor quoted in scrape.rb's comment gives this url and name. */
  lemma QuotedAnchorExample()
    ensures
      var node := ListingNode([Anchor("", Some("/sfc/apa/5015026228.html")),
                               Anchor("3bd/1.5 Bath with Yard & Garden", Some("/sfc/apa/5015026228.html"))],
                              "", "");
      Derive(node) == Ok(Listing("3bd/1.5 Bath with Yard & Garden",
                                 "http://sfbay.craigslist.org/sfc/apa/5015026228.html", "", None))
  {
    var name := "3bd/1.5 Bath with Yard & Garden";
    assert name[0] == '3' && name[|name| - 1] == 'n';
    assert name[0..|name|] == name;
    StripUnique(name, 0, |name|);
    assert SiteBase + "/sfc/apa/5015026228.html" == "http://sfbay.craigslist.org/sfc/apa/5015026228.html";
    assert RangeSlice("", LocationFrom, LocationTo) == None;
  }

  /** A location wrapped as "  (Noe Valley)  " is 16 characters long, so the
      slice keeps only the single character at offset 3, the "N". */
  lemma SixteenCharLocation()
    ensures LocationOf(ListingNode([], "", "  (Noe Valley)  ")) == Some("N")
  {
    var raw := "  (Noe Valley)  ";
    assert |raw| == 16 && raw[3] == 'N';
    assert raw[3..4] == "N";
  }
}
