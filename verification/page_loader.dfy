/** The `page-loader` element: resolving a requested route against the page
    catalog, the client-side history rule, deriving a module name from the
    page name, choosing which module to import, building the custom-element
    tag to mount, and the single error outcome. Effects are replaced by an
    explicit state value and the outcome of the dynamic import by a flag. */
module PageLoader {
  import opened Optional
  import opened Strings

  /** One catalog entry. */
  datatype PageItem = PageItem(name: string, title: string, description: string,
                               category: string, route: string)

  /** The configuration object handed to the mounted element. */
  datatype Config = Config(title: string, description: string, category: string)

  /** `pageContent`: null until the first mount, then a created element or
      the error text node. */
  datatype Content = NoContent | Element(tag: string, config: Config) | ErrorText(text: string)

  /** An entry pushed with `history.pushState(null, title, url)`. */
  datatype HistoryEntry = HistoryEntry(title: string, url: string)

  /** What `load` reads and writes: `location.pathname`, the session history
      it pushes onto, `pageContent`, the module React last rendered into
      `#content`, and the number of re-render requests. */
  datatype Loader = Loader(path: string, history: seq<HistoryEntry>, content: Content,
                           reactRoot: Option<string>, updates: nat)

  /** The element before any load. */
  function Initial(path: string): Loader {
    Loader(path, [], NoContent, None, 0)
  }

  /** The two fields `Array.prototype.find` is asked to match on. */
  datatype Field = ByRoute | ByName

  function FieldOf(p: PageItem, f: Field): string {
    match f
    case ByRoute => p.route
    case ByName => p.name
  }

  /** `pages.find(x => x.<field> === key)`: the first entry whose field is `key`. */
  function Find(pages: seq<PageItem>, f: Field, key: string): (r: Option<PageItem>)
    ensures r.None? <==> forall i :: 0 <= i < |pages| ==> FieldOf(pages[i], f) != key
    ensures r.Some? ==>
      exists i :: 0 <= i < |pages| && pages[i] == r.value && FieldOf(pages[i], f) == key &&
        forall j :: 0 <= j < i ==> FieldOf(pages[j], f) != key
  {
    if |pages| == 0 then None
    else if FieldOf(pages[0], f) == key then Some(pages[0])
    else
      var r := Find(pages[1..], f, key);
      assert forall i :: 1 <= i < |pages| ==> pages[i] == pages[1..][i - 1];
      r
  }

  /** The route lookup at the head of `load`. */
  function Lookup(key: string, pages: seq<PageItem>): Option<PageItem> {
    Find(pages, ByRoute, key)
  }

  /** `pages || staticPages`: an omitted catalog falls back to the static one;
      any array, even an empty one, is kept. */
  function Pages(pages: Option<seq<PageItem>>, staticPages: seq<PageItem>): (r: seq<PageItem>)
    ensures pages.None? ==> r == staticPages
    ensures pages.Some? ==> r == pages.value
    ensures pages == Some([]) ==> r == []
  {
    pages.GetOr(staticPages)
  }

  /** In a catalog whose routes are pairwise distinct, looking up an
      entry's route finds that entry. */
  lemma LookupOwnRoute(pages: seq<PageItem>, i: int)
    requires 0 <= i < |pages|
    requires forall j, k :: 0 <= j < k < |pages| ==> pages[j].route != pages[k].route
    ensures Lookup(pages[i].route, pages) == Some(pages[i])
  {
    var r := Lookup(pages[i].route, pages);
    var k :| 0 <= k < |pages| && pages[k] == r.value && pages[k].route == pages[i].route &&
      forall j :: 0 <= j < k ==> pages[j].route != pages[i].route;
    assert k == i;
  }

  /** The re-resolution block after the history step: with no entry, take
      the last segment of `href` and find the entry of that name, or the
      first entry when the segment is empty. */
  function Recover(item: Option<PageItem>, href: string, pages: seq<PageItem>): (r: Option<PageItem>)
    ensures item.Some? ==> r == item
    ensures item.None? && r.Some? ==> r.value in pages
    ensures item.None? && LastSegment(href) != "" ==>
      (r.Some? <==> exists i :: 0 <= i < |pages| && pages[i].name == LastSegment(href))
    ensures item.None? && LastSegment(href) == "" ==> (r.Some? <==> |pages| > 0)
    ensures item.None? && LastSegment(href) != "" ==> r == Find(pages, ByName, LastSegment(href))
    ensures item.None? && LastSegment(href) == "" && |pages| > 0 ==> r == Some(pages[0])
  {
    if item.Some? then item
    else
      var pageName := LastSegment(href);
      if pageName != "" then Find(pages, ByName, pageName)
      else if |pages| > 0 then Some(pages[0])
      else None
  }

  /** The re-resolution block can never change the entry: `load` only reaches
      it with the entry its route lookup found. */
  lemma FallbackUnreachable(key: string, pages: seq<PageItem>, href: string)
    ensures Lookup(key, pages).Some? ==>
      Recover(Lookup(key, pages), href, pages) == Lookup(key, pages)
    ensures Lookup(key, pages).Some? ==> Lookup(key, pages).value.route == key
  {
  }

  /** The pushState guard: the current path differs from the entry's route
      and is not the root. */
  predicate ShouldPush(path: string, route: string) {
    path != route && path != "/"
  }

  /** The history step; a push also moves `location.pathname` to the route. */
  function PushHistory(s: Loader, item: PageItem): (r: Loader)
    ensures r.content == s.content && r.reactRoot == s.reactRoot && r.updates == s.updates
    ensures ShouldPush(s.path, item.route) ==>
      r.history == s.history + [HistoryEntry(item.title, item.route)] && r.path == item.route
    ensures !ShouldPush(s.path, item.route) ==> r == s
    ensures r.path == item.route || r.path == "/"
  {
    if ShouldPush(s.path, item.route) then
      s.(path := item.route, history := s.history + [HistoryEntry(item.title, item.route)])
    else s
  }

  // ----- name derivation -----

  /** `name.substr(0, name.indexOf("-") + 1)`. */
  function Prefix(name: string): string {
    name[..IndexOf(name, "-") + 1]
  }

  /** `name.replace(prefix, "")`. */
  function ModulePage(name: string): string {
    ReplaceFirst(name, Prefix(name), "")
  }

  /** The prefix is the name up to and including its first hyphen (empty
      when there is none), and the module name is the rest. */
  lemma NameSplit(name: string)
    ensures Prefix(name) + ModulePage(name) == name
    ensures ModulePage(name) == name[|Prefix(name)|..]
    ensures Prefix(name) == "" <==> '-' !in name
    ensures |Prefix(name)| > 0 ==>
      Prefix(name)[|Prefix(name)| - 1] == '-' && '-' !in Prefix(name)[..|Prefix(name)| - 1]
    ensures forall i :: 0 <= i < |name| && name[i] == '-' ==> i >= |Prefix(name)| - 1
  {
    IndexOfChar(name, "-"[0]);
    assert "-" == ['-'];
    var p := Prefix(name);
    ReplaceLeading(name, p);
    if |p| > 0 {
      assert p[..|p| - 1] == name[..|p| - 1];
      assert forall i :: 0 <= i < |p| - 1 ==> name[i] == name[..|p| - 1][i];
    }
  }

  /** A word starting with a hyphen cannot occur in a string whose hyphens
      all sit at index `k` when the character after `k` differs from the
      word's second one. */
  lemma HyphenWordAbsent(s: string, pat: string, k: int)
    requires |pat| >= 2 && pat[0] == '-'
    requires forall i :: 0 <= i < |s| && s[i] == '-' ==> i == k
    requires 0 <= k && k + 1 < |s| ==> s[k + 1] != pat[1]
    ensures !Contains(s, pat)
  {
    IndexOfSpec(s, pat);
    forall j | 0 <= j && j + |pat| <= |s| ensures !OccursAt(s, pat, j) {
      if s[j] == '-' {
        assert s[j..j + |pat|][1] == s[j + 1];
      } else {
        assert s[j..j + |pat|][0] == s[j];
      }
    }
  }

  // ----- branch selection -----

  /** The arms of the if/else chain, in source order. */
  datatype Branch = Dapp | ReactPage | DappPrefixed | HarnessArm | Customizer | CustomizerVariant | Default

  /** The chain, evaluated in order: module name `dapp`; full name contains
      `-page`; prefix `dapp`; module name `harness`; module name
      `customizer`; module name contains `-customizer`; otherwise. */
  function Classify(name: string): Branch {
    var m := ModulePage(name);
    if m == "dapp" then Dapp
    else if Contains(name, "-page") then ReactPage
    else if Prefix(name) == "dapp" then DappPrefixed
    else if m == "harness" then HarnessArm
    else if m == "customizer" then Customizer
    else if Contains(m, "-customizer") then CustomizerVariant
    else Default
  }

  /** A prefix whose only hyphen is its last character, followed by a
      hyphen-free text not starting with `p`, contains no `-page`: the only
      hyphen is followed by the text's first letter. */
  lemma NoPageInConcat(p: string, m: string)
    requires p == [] || (p[|p| - 1] == '-' && '-' !in p[..|p| - 1])
    requires '-' !in m && m != [] && m[0] != 'p'
    ensures !Contains(p + m, "-page")
  {
    var s := p + m;
    assert forall i :: 0 <= i < |p| - 1 ==> s[i] == p[..|p| - 1][i];
    assert forall i :: |p| <= i < |s| ==> s[i] == m[i - |p|];
    assert forall i :: 0 <= i < |s| && s[i] == '-' ==> i == |p| - 1;
    assert s[|p|] == m[0];
    HyphenWordAbsent(s, "-page", |p| - 1);
  }

  /** A name whose module part holds no hyphen and does not start with `p`
      contains no `-page`. */
  lemma NoPageInName(name: string)
    requires '-' !in ModulePage(name)
    requires ModulePage(name) != [] && ModulePage(name)[0] != 'p'
    ensures !Contains(name, "-page")
  {
    NameSplit(name);
    NoPageInConcat(Prefix(name), ModulePage(name));
  }

  /** A module name without hyphens contains no `-customizer`. */
  lemma NoCustomizerWithoutHyphen(m: string)
    requires '-' !in m
    ensures !Contains(m, "-customizer")
  {
    HyphenWordAbsent(m, "-customizer", -1);
  }

  /** The order of the chain, read as independent conditions: every branch
      is selected exactly when its own test holds and no earlier test does,
      the `dapp` prefix arm is never selected (a non-empty prefix ends in a
      hyphen), and the keyword arms are unaffected by the `-page` test. */
  lemma ClassifySpec(name: string)
    ensures Classify(name) != DappPrefixed
    ensures Classify(name) == Dapp <==> ModulePage(name) == "dapp"
    ensures Classify(name) == ReactPage <==> Contains(name, "-page")
    ensures Classify(name) == HarnessArm <==> ModulePage(name) == "harness"
    ensures Classify(name) == Customizer <==> ModulePage(name) == "customizer"
    ensures Classify(name) == CustomizerVariant <==>
      Contains(ModulePage(name), "-customizer") && !Contains(name, "-page")
    ensures Classify(name) == Default <==>
      ModulePage(name) !in {"dapp", "harness", "customizer"} &&
      !Contains(name, "-page") && !Contains(ModulePage(name), "-customizer")
  {
    PrefixNeverDapp(name);
    var m := ModulePage(name);
    if m in {"dapp", "harness", "customizer"} {
      KeywordShape(m);
      NoPageInName(name);
      NoCustomizerWithoutHyphen(m);
    }
  }

  /** The prefix is empty or ends in a hyphen, so it is never `dapp`. */
  lemma PrefixNeverDapp(name: string)
    ensures Prefix(name) != "dapp"
  {
    NameSplit(name);
    var p := Prefix(name);
    if |p| == 4 {
      assert p[3] == '-';
    }
  }

  /** The keyword module names hold no hyphen and do not start with `p`. */
  lemma KeywordShape(m: string)
    requires m in {"dapp", "harness", "customizer"}
    ensures '-' !in m && m != [] && m[0] != 'p'
  {
  }

  // ----- what each branch imports and mounts -----

  /** The suffix appended to the element tag: `-page` as initialised,
      overwritten only by the `-customizer` and default arms. */
  function Suffix(b: Branch): string {
    match b
    case CustomizerVariant => ""
    case Default => "-harness"
    case _ => "-page"
  }

  /** The module specifier each arm hands to the dynamic import, given the
      full name and the module name. */
  function ImportPathFor(b: Branch, name: string, m: string): string {
    match b
    case Dapp => "../pages/" + m + ".js"
    case ReactPage => "../pages/" + name
    case DappPrefixed => "../pages/" + m + ".js"
    case HarnessArm => "../harness/harness.js"
    case Customizer => "./customizer.js"
    case CustomizerVariant => "../harness/" + m + ".js"
    case Default => "../harness/" + m + "-harness.js"
  }

  /** The module specifier `load` imports for a page name. */
  function ImportPath(name: string): string {
    ImportPathFor(Classify(name), name, ModulePage(name))
  }

  /** The module each page name imports, stated by the tests that select
      its arm rather than by the chain's order. */
  lemma ImportPathSpec(name: string)
    ensures ModulePage(name) == "dapp" ==> ImportPath(name) == "../pages/" + ModulePage(name) + ".js"
    ensures ModulePage(name) != "dapp" && Contains(name, "-page") ==>
      ImportPath(name) == "../pages/" + name
    ensures ModulePage(name) == "harness" ==> ImportPath(name) == "../harness/harness.js"
    ensures ModulePage(name) == "customizer" ==> ImportPath(name) == "./customizer.js"
    ensures !Contains(name, "-page") && Contains(ModulePage(name), "-customizer") ==>
      ImportPath(name) == "../harness/" + ModulePage(name) + ".js"
    ensures (ModulePage(name) !in {"dapp", "harness", "customizer"} &&
             !Contains(name, "-page") && !Contains(ModulePage(name), "-customizer")) ==>
      ImportPath(name) == "../harness/" + ModulePage(name) + "-harness.js"
  {
    ClassifySpec(name);
  }

  /** `m.replace("_", "-")`: the module name with its first underscore
      turned into a hyphen. */
  function Stem(m: string): string {
    ReplaceFirst(m, "_", "-")
  }

  /** The tag each arm mounts: the stem followed by the arm's suffix; none
      for the `-page` arm, which renders through React and returns early. */
  function KeyFor(b: Branch, m: string): Option<string> {
    if b == ReactPage then None else Some(Stem(m) + Suffix(b))
  }

  /** The custom-element tag `load` mounts for a page name. */
  function ElementKey(name: string): Option<string> {
    KeyFor(Classify(name), ModulePage(name))
  }

  /** The stem keeps the module name's length and differs from it only at
      its first underscore. */
  lemma StemSpec(m: string)
    ensures |Stem(m)| == |m|
    ensures '_' !in m ==> Stem(m) == m
    ensures '_' in m ==>
      exists i :: 0 <= i < |m| && m[i] == '_' && '_' !in m[..i] &&
        Stem(m) == m[..i] + "-" + m[i + 1..]
  {
    assert "_" == ['_'] && "-" == ['-'];
    ReplaceFirstChar(m, '_', '-');
  }

  /** Only the first underscore is replaced: any later one survives into
      the stem. */
  lemma StemKeepsLaterUnderscore(m: string, i: int, j: int)
    requires 0 <= i < j < |m| && m[i] == '_' && m[j] == '_'
    ensures j < |Stem(m)| && Stem(m)[j] == '_'
  {
    StemSpec(m);
    var k :| 0 <= k < |m| && m[k] == '_' && '_' !in m[..k] && Stem(m) == m[..k] + "-" + m[k + 1..];
    assert forall x :: 0 <= x < k ==> m[x] == m[..k][x];
    assert k <= i;
    assert Stem(m)[j] == m[k + 1..][j - k - 1];
  }

  /** ... and so into the mounted tag. */
  lemma OnlyFirstUnderscore(name: string, i: int, j: int)
    requires 0 <= i < j < |ModulePage(name)|
    requires ModulePage(name)[i] == '_' && ModulePage(name)[j] == '_'
    ensures ElementKey(name).Some? ==> j < |ElementKey(name).value| && ElementKey(name).value[j] == '_'
  {
    var m := ModulePage(name);
    StemKeepsLaterUnderscore(m, i, j);
    KeyForSpec(Classify(name), m);
  }

  /** Per arm: only the `-page` arm mounts no tag; the `-customizer` arm
      appends no suffix, the default arm appends `-harness`, and every
      other arm keeps the initial `-page`. */
  lemma KeyForSpec(b: Branch, m: string)
    ensures KeyFor(b, m).None? <==> b == ReactPage
    ensures b == CustomizerVariant ==> KeyFor(b, m) == Some(Stem(m))
    ensures b == Default ==> KeyFor(b, m) == Some(Stem(m) + "-harness")
    ensures b in {Dapp, DappPrefixed, HarnessArm, Customizer} ==> KeyFor(b, m) == Some(Stem(m) + "-page")
  {
    assert Stem(m) + "" == Stem(m);
  }

  /** Only names containing `-page` mount no tag; the `-customizer` arm
      appends no suffix and the default arm appends `-harness`. */
  lemma ElementKeySpec(name: string)
    ensures ElementKey(name).None? <==> Contains(name, "-page")
    ensures Classify(name) == CustomizerVariant ==> ElementKey(name) == Some(Stem(ModulePage(name)))
    ensures Classify(name) == Default ==> ElementKey(name) == Some(Stem(ModulePage(name)) + "-harness")
  {
    ClassifySpec(name);
    KeyForSpec(Classify(name), ModulePage(name));
  }

  /** An arm that keeps the initial suffix mounts `<module>-page`, once
      the module name holds no underscore for the stem to rewrite. */
  lemma PageSuffixKey(b: Branch, m: string)
    requires b in {Dapp, DappPrefixed, HarnessArm, Customizer} && '_' !in m
    ensures KeyFor(b, m) == Some(m + "-page")
  {
    StemSpec(m);
  }

  /** The keyword arms keep the initial suffix: the module names `dapp`,
      `harness` and `customizer` mount `dapp-page`, `harness-page` and
      `customizer-page`. */
  lemma KeywordKey(name: string)
    requires ModulePage(name) in {"dapp", "harness", "customizer"}
    ensures ElementKey(name) == Some(ModulePage(name) + "-page")
  {
    ClassifySpec(name);
    PageSuffixKey(Classify(name), ModulePage(name));
  }

  /** In the two arms that import from `../harness/`, the imported file is
      named after the mounted tag exactly when the module name holds no
      underscore, since only the tag rewrites it. */
  lemma ArmImportMatchesTag(b: Branch, name: string, m: string)
    requires b in {CustomizerVariant, Default}
    ensures '_' !in m ==> ImportPathFor(b, name, m) == "../harness/" + KeyFor(b, m).value + ".js"
    ensures '_' in m ==> ImportPathFor(b, name, m) != "../harness/" + KeyFor(b, m).value + ".js"
  {
    var stem := Stem(m);
    var sfx := Suffix(b);
    var dir := "../harness/";
    assert KeyFor(b, m) == Some(stem + sfx);
    if b == Default {
      assert "-harness" + ".js" == "-harness.js";
    } else {
      assert m + "" == m;
    }
    assert ImportPathFor(b, name, m) == dir + (m + sfx) + ".js";
    StemSpec(m);
    if '_' in m {
      var i :| 0 <= i < |m| && m[i] == '_' && '_' !in m[..i] && stem == m[..i] + "-" + m[i + 1..];
      assert (dir + (m + sfx) + ".js")[|dir| + i] == m[i];
      assert (dir + (stem + sfx) + ".js")[|dir| + i] == stem[i] == '-';
    } else {
      assert stem == m;
    }
  }

  /** For page names: in the arms importing from `../harness/`, the file
      matches the tag exactly when the module name holds no underscore. */
  lemma ImportMatchesTag(name: string)
    requires Classify(name) in {CustomizerVariant, Default}
    ensures '_' !in ModulePage(name) ==>
      ImportPath(name) == "../harness/" + ElementKey(name).value + ".js"
    ensures '_' in ModulePage(name) ==>
      ImportPath(name) != "../harness/" + ElementKey(name).value + ".js"
  {
    ArmImportMatchesTag(Classify(name), name, ModulePage(name));
  }

  // ----- load -----

  /** The text node shown when anything in the `try` block of `load`
      (page-loader.js:59-92) throws. */
  function ErrorMessage(title: string): string {
    "Error loading content page for \"" + title + "\""
  }

  /** The configuration passed to the mounted element. */
  function ConfigOf(item: PageItem): Config {
    Config(item.title, item.description, item.category)
  }

  /** `load(key, pages)`, with `ok` standing for whether the dynamic import
      (and the mount after it) completed without throwing. A lookup miss
      changes nothing. Otherwise the history rule applies, one re-render is
      requested, and the content becomes the tagged element with the entry's
      title, description and category, or, for a `-page` name, React renders
      the imported module and `pageContent` is left as it was; any failure
      replaces the content with the error text for the entry's title. */
  function Load(s: Loader, key: string, pages: Option<seq<PageItem>>,
                staticPages: seq<PageItem>, ok: bool): (r: Loader)
    ensures Lookup(key, Pages(pages, staticPages)).None? ==> r == s
    ensures Lookup(key, Pages(pages, staticPages)).Some? ==>
      var item := Lookup(key, Pages(pages, staticPages)).value;
      && item in Pages(pages, staticPages) && item.route == key
      && r.updates == s.updates + 1
      && r.history == PushHistory(s, item).history
      && r.path == PushHistory(s, item).path
      && (!ok ==> r.content == ErrorText(ErrorMessage(item.title)) && r.reactRoot == s.reactRoot)
      && (ok && ElementKey(item.name).Some? ==>
            r.content == Element(ElementKey(item.name).value, ConfigOf(item)) && r.reactRoot == s.reactRoot)
      && (ok && ElementKey(item.name).None? ==>
            r.content == s.content && r.reactRoot == Some("../pages/" + item.name))
  {
    match Lookup(key, Pages(pages, staticPages))
    case None => s
    case Some(item) =>
      var s1 := PushHistory(s, item);
      var s2 :=
        if !ok then s1.(content := ErrorText(ErrorMessage(item.title)))
        else match ElementKey(item.name)
          case None => s1.(reactRoot := Some(ImportPath(item.name)))
          case Some(tag) => s1.(content := Element(tag, ConfigOf(item)));
      s2.(updates := s2.updates + 1)
  }

  /** The error text always names the page: it is the fixed sentence with
      the title in double quotes. */
  lemma ErrorMessageSpec(title: string)
    ensures |ErrorMessage(title)| == |title| + 33
    ensures ErrorMessage(title)[32..32 + |title|] == title
    ensures ErrorMessage(title)[..32] == "Error loading content page for \""
    ensures ErrorMessage(title)[|ErrorMessage(title)| - 1] == '"'
  {
  }

  /** Except after a successful React render, which leaves `pageContent` as
      it was, what `load` leaves as content depends only on the entry and
      the outcome, not on the loader's earlier state: re-entering a route
      shows the same thing again. */
  lemma LoadContentDeterministic(s: Loader, t: Loader, key: string,
                                 pages: Option<seq<PageItem>>, staticPages: seq<PageItem>, ok: bool)
    requires Lookup(key, Pages(pages, staticPages)).Some?
    requires ok ==> ElementKey(Lookup(key, Pages(pages, staticPages)).value.name).Some?
    ensures Load(s, key, pages, staticPages, ok).content == Load(t, key, pages, staticPages, ok).content
  {
  }

  /** Loading the same route twice pushes at most one history entry: after
      the first load the path is the route, or still the root. */
  lemma ReloadPushesOnce(s: Loader, key: string, pages: Option<seq<PageItem>>,
                         staticPages: seq<PageItem>, ok1: bool, ok2: bool)
    ensures var s1 := Load(s, key, pages, staticPages, ok1);
      Load(s1, key, pages, staticPages, ok2).history == s1.history
  {
  }

  /** Starting from the element as constructed (`pageContent` null) at the
      root, a load never pushes history: the guard excludes `/`, so the
      path stays `/` and the history empty; a hit requests exactly one
      re-render. */
  lemma LoadFromRoot(key: string, pages: Option<seq<PageItem>>,
                     staticPages: seq<PageItem>, ok: bool)
    ensures Load(Initial("/"), key, pages, staticPages, ok).history == []
    ensures Load(Initial("/"), key, pages, staticPages, ok).path == "/"
    ensures Lookup(key, Pages(pages, staticPages)).Some? <==>
      Load(Initial("/"), key, pages, staticPages, ok).updates == 1
  {
  }

  /** The popstate listener passes `staticPages` explicitly; that is the
      same load as omitting the catalog. */
  lemma ListenerCatalog(s: Loader, key: string, staticPages: seq<PageItem>, ok: bool)
    ensures Load(s, key, Some(staticPages), staticPages, ok) == Load(s, key, None, staticPages, ok)
  {
  }

  /** A route that is not in the catalog leaves the history, the content
      and the render count untouched, whatever else happened before. */
  lemma MissIsNoop(s: Loader, key: string, pages: seq<PageItem>, staticPages: seq<PageItem>, ok: bool)
    requires forall i :: 0 <= i < |pages| ==> pages[i].route != key
    ensures Load(s, key, Some(pages), staticPages, ok) == s
  {
  }
}
