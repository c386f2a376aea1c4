/**
 * global.js: the navigation bar every page injects. The base path is chosen
 * from the host name, one anchor is built per page with the page's url
 * prefixed by the base path unless it starts with "http", and the first
 * anchor that points at the current page is marked "current".
 *
 * The browser's resolution of an href against the document (what a.host
 * and a.pathname report) is the parameter `resolve`.
 */
module Navigation {
  import opened Wrappers

  datatype Page = Page(url: string, title: string)

  /** The parts of window.location, or of a resolved href, that global.js reads. */
  datatype Location = Location(hostname: string, host: string, pathname: string)

  /**
   * An anchor of the nav: href and text as set, host and pathname as the
   * browser resolves the href, whether target is "_blank", and whether it
   * has the class "current".
   */
  datatype Anchor = Anchor(href: string, text: string, host: string, pathname: string, newTab: bool, current: bool)

  const LocalBasePath: string := "/"
  const SiteBasePath: string := "/website.github.io/"

  const SitePages: seq<Page> := [
    Page("", "Home"),
    Page("projects/", "Projects"),
    Page("contact/", "Contact"),
    Page("resume/", "Resume"),
    Page("https://github.com/ritazaarour", "GitHub")
  ]

  predicate StartsWith(s: string, prefix: string) {
    |prefix| <= |s| && s[..|prefix|] == prefix
  }

  /** BASE_PATH: the server root on a local server, the repository's path on the hosted site. */
  function BasePath(hostname: string): (base: string)
    ensures base == LocalBasePath <==> hostname == "localhost" || hostname == "127.0.0.1"
    ensures base == LocalBasePath || base == SiteBasePath
    ensures StartsWith(base, "/")
  {
    if hostname == "localhost" || hostname == "127.0.0.1" then LocalBasePath else SiteBasePath
  }

  /**
   * The href of a page's anchor: a url starting with "http" is kept, any
   * other url is placed under the base path, from where it can be read back.
   */
  function Href(base: string, url: string): (href: string)
    ensures StartsWith(url, "http") ==> href == url
    ensures !StartsWith(url, "http") ==> StartsWith(href, base) && href[|base|..] == url
  {
    if StartsWith(url, "http") then url else base + url
  }

  /** The anchor the loop body creates for page p. */
  predicate IsAnchorFor(a: Anchor, p: Page, base: string, here: Location, resolve: string -> Location) {
    && a.href == Href(base, p.url)
    && a.text == p.title
    && a.host == resolve(a.href).host
    && a.pathname == resolve(a.href).pathname
    && a.newTab == (a.host != here.host)
    && !a.current
  }

  /** An anchor points at the current page when host and pathname both agree. */
  predicate PointsAt(a: Anchor, here: Location) {
    a.host == here.host && a.pathname == here.pathname
  }

  /** The for-loop over pages: one anchor per page, appended in page order. */
  method BuildNav(pages: seq<Page>, base: string, here: Location, resolve: string -> Location)
    returns (nav: seq<Anchor>)
    ensures |nav| == |pages|
    ensures forall i :: 0 <= i < |pages| ==> IsAnchorFor(nav[i], pages[i], base, here, resolve)
  {
    nav := [];
    for k := 0 to |pages|
      invariant |nav| == k
      invariant forall i :: 0 <= i < k ==> IsAnchorFor(nav[i], pages[i], base, here, resolve)
    {
      var url := pages[k].url;
      var title := pages[k].title;
      url := if !StartsWith(url, "http") then base + url else url;
      var target := resolve(url);
      var a := Anchor(url, title, target.host, target.pathname, target.host != here.host, false);
      nav := nav + [a];
    }
  }

  /** The search for the current anchor: the position of the first anchor pointing at the location, if any. */
  method FindCurrent(nav: seq<Anchor>, here: Location) returns (found: Option<nat>)
    ensures found.Some? ==> found.value < |nav| && PointsAt(nav[found.value], here)
    ensures found.Some? ==> forall j :: 0 <= j < found.value ==> !PointsAt(nav[j], here)
    ensures found.None? <==> forall j :: 0 <= j < |nav| ==> !PointsAt(nav[j], here)
  {
    var k := 0;
    while k < |nav|
      invariant k <= |nav|
      invariant forall j :: 0 <= j < k ==> !PointsAt(nav[j], here)
    {
      if PointsAt(nav[k], here) {
        return Some(k);
      }
      k := k + 1;
    }
    return None;
  }

  /**
   * The whole script up to the theme selector: the anchors of the site's
   * pages, in order, with exactly the first one pointing at the current
   * location marked "current".
   */
  method InjectNav(location: Location, resolve: string -> Location) returns (nav: seq<Anchor>)
    ensures |nav| == |SitePages|
    ensures forall i :: 0 <= i < |nav| ==>
      nav[i].text == SitePages[i].title && nav[i].href == Href(BasePath(location.hostname), SitePages[i].url)
    ensures forall i :: 0 <= i < |nav| ==>
      nav[i].host == resolve(nav[i].href).host && nav[i].pathname == resolve(nav[i].href).pathname &&
      nav[i].newTab == (nav[i].host != location.host)
    ensures forall i :: 0 <= i < |nav| ==>
      (nav[i].current <==> PointsAt(nav[i], location) && forall j :: 0 <= j < i ==> !PointsAt(nav[j], location))
  {
    var base := BasePath(location.hostname);
    nav := BuildNav(SitePages, base, location, resolve);
    var found := FindCurrent(nav, location);
    if found.Some? {
      nav := nav[found.value := nav[found.value].(current := true)];
    }
  }

  /** The hrefs of the site's pages on a local server and on the hosted site. */
  lemma SiteHrefs()
    ensures Href(LocalBasePath, SitePages[0].url) == "/"
    ensures Href(LocalBasePath, SitePages[1].url) == "/projects/"
    ensures Href(SiteBasePath, SitePages[0].url) == "/website.github.io/"
    ensures Href(SiteBasePath, SitePages[3].url) == "/website.github.io/resume/"
    ensures Href(LocalBasePath, SitePages[4].url) == Href(SiteBasePath, SitePages[4].url) == "https://github.com/ritazaarour"
  {
    assert StartsWith(SitePages[4].url, "http");
    assert !StartsWith(SitePages[0].url, "http");
    assert SitePages[1].url[..4][0] == 'p' && SitePages[3].url[..4][0] == 'r';
  }
}
