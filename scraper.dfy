/**
  The extraction rule of backend/scraper.py: the brand name and the
  description are each the first usable value of a fixed list of page
  features, and the script emits either those two fields or an error.

  The HTTP request and the HTML parser are not modelled. The parsed page is
  given as the values its lookups produce, `None` standing for a missing tag
  as well as for a tag without the attribute (both are falsy in Python, so
  the rule treats them alike).
*/
module Scraper {
  import opened Wrappers

  /** What the lookups on the parsed page give. */
  datatype Page = Page(
    siteName: Option<string>,         // content of <meta property="og:site_name">
    title: Option<string>,            // soup.title.string, when there is a <title>
    metaDescription: Option<string>,  // content of <meta name="description">
    ogDescription: Option<string>,    // content of <meta property="og:description">
    firstParagraph: Option<string>    // stripped text of the first <p>, when there is one
  )

  /**
    The outcome of `requests.get(url, timeout=10)`: a response, with the error
    `raise_for_status` raises for it if any, and its parsed page; or the
    message of the exception the request raised.
  */
  datatype Fetch = Fetched(statusError: Option<string>, page: Page) | RequestFailed(message: string)

  const DescriptionDefault := "No description found"

  /** Python truthiness of an optional string: present and not empty. */
  predicate Truthy(o: Option<string>) {
    o.Some? && o.value != ""
  }

  /**
    The value of `a or b or ... or otherwise`: the first truthy option, or
    `otherwise` when none is.
  */
  function FirstTruthy(options: seq<Option<string>>, otherwise: string): (r: string)
    ensures (forall i :: 0 <= i < |options| ==> !Truthy(options[i])) ==> r == otherwise
    ensures forall i :: 0 <= i < |options| && Truthy(options[i]) && (forall j :: 0 <= j < i ==> !Truthy(options[j])) ==>
              r == options[i].value
  {
    if options == [] then otherwise
    else if Truthy(options[0]) then options[0].value
    else
      var r := FirstTruthy(options[1..], otherwise);
      assert forall i :: 1 <= i < |options| ==> options[i] == options[1..][i - 1];
      r
  }

  /** The result of `FirstTruthy` is empty only when it is `otherwise`. */
  lemma {:induction false} FirstTruthyNonEmpty(options: seq<Option<string>>, otherwise: string)
    ensures FirstTruthy(options, otherwise) == "" ==> otherwise == ""
  {
    if options != [] && !Truthy(options[0]) {
      FirstTruthyNonEmpty(options[1..], otherwise);
    }
  }

  /** The `brand` expression: a non-empty site name or title, or else the url. */
  function Brand(page: Page, url: string): (brand: string)
    ensures brand == url || (brand != "" && (Some(brand) == page.siteName || Some(brand) == page.title))
  {
    FirstTruthy([page.siteName, page.title], url)
  }

  /**
    The `description` expression. A Python conditional binds weaker than `or`,
    so without its parentheses the paragraph conditional would take the whole
    `or` chain as its true branch; the parentheses make it the chain's last
    operand.
  */
  function Description(page: Page): (description: string)
    ensures (description != "" && (Some(description) == page.metaDescription || Some(description) == page.ogDescription)) ||
            Some(description) == page.firstParagraph ||
            (page.firstParagraph.None? && description == DescriptionDefault)
  {
    FirstTruthy([page.metaDescription, page.ogDescription],
                if page.firstParagraph.Some? then page.firstParagraph.value else DescriptionDefault)
  }

  /** The brand is the site name, else the title, else the url; empty strings are skipped. */
  lemma BrandOrder(page: Page, url: string)
    ensures Truthy(page.siteName) ==> Brand(page, url) == page.siteName.value
    ensures !Truthy(page.siteName) && Truthy(page.title) ==> Brand(page, url) == page.title.value
    ensures !Truthy(page.siteName) && !Truthy(page.title) ==> Brand(page, url) == url
  {
    var o := [page.siteName, page.title];
    assert o[0] == page.siteName && o[1] == page.title;
  }

  /** A non-empty url always gives a non-empty brand. */
  lemma BrandNonEmpty(page: Page, url: string)
    requires url != ""
    ensures Brand(page, url) != ""
  {
    FirstTruthyNonEmpty([page.siteName, page.title], url);
  }

  /**
    The description is the meta description, else the Open Graph description
    (empty strings skipped), else the first paragraph's text even when empty,
    else the default text.
  */
  lemma DescriptionOrder(page: Page)
    ensures Truthy(page.metaDescription) ==> Description(page) == page.metaDescription.value
    ensures !Truthy(page.metaDescription) && Truthy(page.ogDescription) ==>
              Description(page) == page.ogDescription.value
    ensures !Truthy(page.metaDescription) && !Truthy(page.ogDescription) && page.firstParagraph.Some? ==>
              Description(page) == page.firstParagraph.value
    ensures !Truthy(page.metaDescription) && !Truthy(page.ogDescription) && page.firstParagraph.None? ==>
              Description(page) == DescriptionDefault
  {
    var o := [page.metaDescription, page.ogDescription];
    assert o[0] == page.metaDescription && o[1] == page.ogDescription;
  }

  /** An empty description comes only from an empty first paragraph. */
  lemma DescriptionEmpty(page: Page)
    requires Description(page) == ""
    ensures page.firstParagraph == Some("")
  {
    FirstTruthyNonEmpty([page.metaDescription, page.ogDescription],
                        if page.firstParagraph.Some? then page.firstParagraph.value else DescriptionDefault);
  }

  /** The JSON object `scrape` prints for a fetch of `url`. */
  function Scrape(fetch: Fetch, url: string): (out: map<string, string>)
    ensures fetch.RequestFailed? ==> out == map["error" := fetch.message]
    ensures fetch.Fetched? && fetch.statusError.Some? ==> out == map["error" := fetch.statusError.value]
    ensures fetch.Fetched? && fetch.statusError.None? ==>
              out.Keys == {"brandname", "description"} &&
              out["brandname"] == Brand(fetch.page, url) && out["description"] == Description(fetch.page)
  {
    match fetch
    case RequestFailed(e) => map["error" := e]
    case Fetched(statusError, page) =>
      if statusError.Some? then map["error" := statusError.value]
      else map["brandname" := Brand(page, url), "description" := Description(page)]
  }

  /** Exactly one of the two shapes is emitted: the two fields, or the error alone. */
  lemma OneShape(fetch: Fetch, url: string)
    ensures var out := Scrape(fetch, url);
            (out.Keys == {"brandname", "description"} || out.Keys == {"error"}) &&
            ("error" in out <==> "brandname" !in out)
  {
  }
}
