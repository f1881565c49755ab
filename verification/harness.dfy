/** The `harness-page` element: its static catalog of Hyperverse modules and
    the click path that hands a card's `data-link` to the page loader. */
module Harness {
  import opened Optional
  import opened PageLoader

  /** The custom-element name the harness registers itself under. */
  const HarnessTag: string := "harness-page"

  /** A catalog entry for the Hyperverse module `m`: named `core-<m>`,
      routed at `/core-<m>`. */
  function Entry(m: string, title: string, description: string): (p: PageItem)
    requires m != [] && '-' !in m && '_' !in m && m[0] != 'p'
    requires m !in {"dapp", "harness", "customizer"}
    ensures CoreName(p.name) && p.name[5..] == m && p.route == "/" + p.name
    ensures p.title == title && p.description == description && p.category == "Hyperverse"
  {
    CoreNameOf(m);
    var name := "core-" + m;
    PageItem(name, title, description, "Hyperverse", "/" + name)
  }

  function HelloWorld(): PageItem {
    Entry("helloworld", "Hello World",
          "Hello, World!")
  }
  function SimpleNft(): PageItem {
    Entry("nft", "SimpleNFT",
          "Mint, own, and trade Simple NFTs with a name field.")
  }
  function SimpleToken(): PageItem {
    Entry("token", "SimpleToken",
          "Mint, own, and trade Simple Fungible Tokens.")
  }
  function Tribes(): PageItem {
    Entry("tribes", "Tribes",
          "Join tribes and become part of a group.")
  }
  function SimpleNftMarketplace(): PageItem {
    Entry("simplenftmarketplace", "SimpleNFT Marketplace",
          "Buy/sell SimpleNFTs using FlowToken.")
  }
  function Rewards(): PageItem {
    Entry("rewards", "Rewards",
          "Mint, own, and trade Simple NFTs, and get a reward when you have __ SimpleNFTs.")
  }
  function Marketplace(): PageItem {
    Entry("marketplace", "Marketplace",
          "Buy/sell SimpleNFTs using SimpleTokens.")
  }

  /** `getPages()`: the fixed catalog, in display order. */
  function GetPages(): (r: seq<PageItem>)
    ensures |r| == 7
    ensures forall i :: 0 <= i < |r| ==> r[i].category == "Hyperverse"
    ensures forall i :: 0 <= i < |r| ==> CoreName(r[i].name) && r[i].route == "/" + r[i].name
  {
    [HelloWorld(), SimpleNft(), SimpleToken(), Tribes(), SimpleNftMarketplace(), Rewards(), Marketplace()]
  }

  /** The `data-link` attribute of a card's button: the page's name. */
  function DataLink(page: PageItem): string {
    page.name
  }

  /** `setPageLoader(name)`: ask the page loader to load `name` against the
      catalog; `ok` is the outcome of the loader's dynamic import. */
  function SetPageLoader(s: Loader, name: string, staticPages: seq<PageItem>, ok: bool): (r: Loader)
    ensures r == s <==> forall i :: 0 <= i < |GetPages()| ==> GetPages()[i].route != name
  {
    Load(s, name, Some(GetPages()), staticPages, ok)
  }

  /** `handleClick`: forward the clicked button's `data-link`. */
  function HandleClick(s: Loader, link: string, staticPages: seq<PageItem>, ok: bool): Loader {
    SetPageLoader(s, link, staticPages, ok)
  }

  /** A module page name of the catalog's shape: `core-` followed by a
      non-empty module name with no hyphen or underscore, not starting
      with `p`, and not one of the loader's keywords. */
  predicate CoreName(name: string) {
    && |name| > 5 && name[..5] == "core-"
    && '-' !in name[5..] && '_' !in name[5..] && name[5] != 'p'
    && name[5..] !in {"dapp", "harness", "customizer"}
  }

  /** `core-` followed by a qualifying module name is a core name. */
  lemma CoreNameOf(rest: string)
    requires rest != [] && '-' !in rest && '_' !in rest && rest[0] != 'p'
    requires rest !in {"dapp", "harness", "customizer"}
    ensures CoreName("core-" + rest)
  {
    var name := "core-" + rest;
    assert name[..5] == "core-" && name[5..] == rest;
  }

  /** Names, and therefore routes, are pairwise distinct: no two names
      even have the same length. */
  lemma CatalogDistinct(i: int, j: int)
    requires 0 <= i < |GetPages()| && 0 <= j < |GetPages()| && i != j
    ensures GetPages()[i].name != GetPages()[j].name
    ensures GetPages()[i].route != GetPages()[j].route
  {
    var ps := GetPages();
    var lengths := [15, 8, 10, 11, 25, 12, 16];
    assert forall k :: 0 <= k < 7 ==> |ps[k].name| == lengths[k];
    assert |ps[i].route| == |ps[i].name| + 1 && |ps[j].route| == |ps[j].name| + 1;
  }

  /** A core module name goes to the default arm: it imports
      `../harness/<module>-harness.js` and mounts `<module>-harness`. */
  lemma CoreNameIsDefault(name: string)
    requires CoreName(name)
    ensures ModulePage(name) == name[5..]
    ensures Classify(name) == Default
    ensures ElementKey(name) == Some(name[5..] + "-harness")
    ensures ImportPath(name) == "../harness/" + name[5..] + "-harness.js"
  {
    NameSplit(name);
    assert name[4] == '-';
    assert forall k :: 0 <= k < 4 ==> name[k] == name[..5][k];
    var p := Prefix(name);
    assert |p| == 5;
    var m := ModulePage(name);
    NoPageInName(name);
    NoCustomizerWithoutHyphen(m);
    ClassifySpec(name);
    ElementKeySpec(name);
    StemSpec(m);
  }

  /** The harness's own tag is exactly the tag the loader builds for a
      name whose module part is `harness`. */
  lemma HarnessTagMatchesLoader(name: string)
    requires ModulePage(name) == "harness"
    ensures ElementKey(name) == Some(HarnessTag)
    ensures ImportPath(name) == "../harness/harness.js"
  {
    KeywordKey(name);
    ClassifySpec(name);
    TagSpelling();
  }

  lemma TagSpelling()
    ensures "harness" + "-page" == HarnessTag
  {
  }

  /** The shape of the harness catalog: every name is a core name routed
      at `/` + name, and no two entries share a route. */
  predicate WellFormedCatalog(ps: seq<PageItem>) {
    && (forall i :: 0 <= i < |ps| ==> CoreName(ps[i].name) && ps[i].route == "/" + ps[i].name)
    && (forall j, k :: 0 <= j < k < |ps| ==> ps[j].route != ps[k].route)
  }

  /** The harness catalog has that shape. */
  lemma GetPagesWellFormed()
    ensures WellFormedCatalog(GetPages())
  {
    var ps := GetPages();
    forall j, k | 0 <= j < k < |ps| ensures ps[j].route != ps[k].route {
      CatalogDistinct(j, k);
    }
  }

  /** In such a catalog no name matches a route: a route starts with `/`,
      a name with `c`. */
  lemma NameIsNoRoute(ps: seq<PageItem>, i: int)
    requires WellFormedCatalog(ps) && 0 <= i < |ps|
    ensures Lookup(ps[i].name, ps).None?
  {
    var n := ps[i].name;
    assert n[0] == n[..5][0];
    forall j | 0 <= j < |ps| ensures ps[j].route != n {
      assert ps[j].route[0] == '/';
    }
  }

  /** Clicking any catalog card forwards the page's name, which the loader
      looks up as a route and misses: the click changes nothing. */
  lemma CatalogClickIsNoop(s: Loader, i: int, staticPages: seq<PageItem>, ok: bool)
    requires 0 <= i < |GetPages()|
    ensures HandleClick(s, DataLink(GetPages()[i]), staticPages, ok) == s
  {
    GetPagesWellFormed();
    NameIsNoRoute(GetPages(), i);
  }

  /** Given one of its routes, `load` over a catalog of this shape finds
      that entry and, when the import succeeds, mounts `<module>-harness`
      with the entry's title, description and category. The harness itself
      never calls `load` this way: its clicks pass names. */
  lemma LoadOwnRoute(s: Loader, ps: seq<PageItem>, i: int, staticPages: seq<PageItem>)
    requires WellFormedCatalog(ps) && 0 <= i < |ps|
    ensures Load(s, ps[i].route, Some(ps), staticPages, true).content ==
      Element(ps[i].name[5..] + "-harness", ConfigOf(ps[i]))
  {
    LookupOwnRoute(ps, i);
    CoreNameIsDefault(ps[i].name);
  }

  /** What `load` would mount for a route of the harness catalog, were it
      called with one; the category is always `Hyperverse`. */
  lemma LoadByRoute(s: Loader, i: int, staticPages: seq<PageItem>)
    requires 0 <= i < |GetPages()|
    ensures var p := GetPages()[i];
      Load(s, p.route, Some(GetPages()), staticPages, true).content ==
        Element(p.name[5..] + "-harness", Config(p.title, p.description, "Hyperverse"))
  {
    GetPagesWellFormed();
    LoadOwnRoute(s, GetPages(), i, staticPages);
  }
}
