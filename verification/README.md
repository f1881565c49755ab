# Page loader and harness catalog

A Dafny model of the client-side page loading of the Hyperverse playground.
The `page-loader` element's `load(page, pages)` works as follows:

- It resolves a requested route against a page catalog.
- It pushes a history entry when the current path is neither the entry's
  route nor `/`.
- It derives a module name from the page name and picks one of seven import
  arms.
- It then mounts a custom element whose tag is built from the module name,
  or, for a `-page` name, renders the page through React; if anything in
  that step throws, it shows an error text.

The `harness-page` element of the emulator client supplies a fixed catalog
of seven Hyperverse modules. Clicking a card hands the card's `data-link`
to the element with id `page-loader`. The two files live in different
packages; the model takes that element to run the playground loader's
`load` (see "## Left out").

The files:

- `option.dfy`: an `Option` type.
- `strings.dfy`: the JavaScript string operations the loader relies on, each
  with its specification:
  - `indexOf`;
  - `includes`;
  - `replace` with a string pattern, which replaces the first occurrence only;
  - `split("/").pop()`.
- `page_loader.dfy`: the loader.
  - The browser state it touches is an explicit `Loader` value. That value
    holds the path, the session history, `pageContent`, the module React
    rendered, and the count of re-render requests.
  - The outcome of the dynamic import is a boolean `ok`.
- `harness.dfy`: the harness catalog and the click path.

## Model

| member | source | states |
|---|---|---|
| PageLoader.Find | packages/playground/src/components/page-loader.js:36 | `find` yields nothing exactly when no entry's field equals the key; otherwise it yields the first entry whose field equals it |
| PageLoader.Pages | packages/playground/src/components/page-loader.js:35 | the fallback to `staticPages`: an omitted catalog falls back to the static one; any given array is kept, even an empty one, since an array is truthy |
| PageLoader.ListenerCatalog | packages/playground/src/components/page-loader.js:19-21 | the listener's explicit `staticPages` gives the same load as omitting the catalog |
| PageLoader.LookupOwnRoute | packages/playground/src/components/page-loader.js:36 | in a catalog whose routes are pairwise distinct, looking up an entry's route finds exactly that entry |
| PageLoader.Recover | packages/playground/src/components/page-loader.js:46-53 | a found entry is kept. Without one: a non-empty last `href` segment yields the first entry with that name, and none iff no entry has it; an empty segment yields `pages[0]`, or none for an empty catalog |
| PageLoader.FallbackUnreachable | packages/playground/src/components/page-loader.js:36-53 | whenever the re-resolution block is reached, the route lookup already found an entry, so the block returns that same entry, whose route is the requested key |
| PageLoader.PushHistory | packages/playground/src/components/page-loader.js:42-44 | an entry `(title, route)` is pushed, and the path becomes the route, exactly when the path is neither the route nor `/`; otherwise nothing changes; afterwards the path is the route or `/` |
| PageLoader.NameSplit | packages/playground/src/components/page-loader.js:59-60 | prefix followed by module name is the page name; the prefix runs up to and including the first hyphen, and is empty iff the name has no hyphen |
| PageLoader.ClassifySpec | packages/playground/src/components/page-loader.js:62-86 | each arm is chosen exactly when its own test holds and no earlier one does, stated without the chain's order; the `pagePrefix === "dapp"` arm is never chosen; the keyword module names are never captured by the `-page` test |
| PageLoader.PrefixNeverDapp | packages/playground/src/components/page-loader.js:59-73 | the prefix is empty or ends in a hyphen, so it never equals `dapp` |
| PageLoader.NoPageInName | packages/playground/src/components/page-loader.js:64 | a name whose module part has no hyphen and does not start with `p` does not contain `-page` |
| PageLoader.NoCustomizerWithoutHyphen | packages/playground/src/components/page-loader.js:79 | a module name without a hyphen never contains `-customizer` |
| PageLoader.ImportPathSpec | packages/playground/src/components/page-loader.js:62-86 | the imported module per arm, stated by the tests that select the arm: `../pages/<module>.js`, `../pages/<name>`, `../harness/harness.js`, `./customizer.js`, `../harness/<module>.js`, `../harness/<module>-harness.js` |
| PageLoader.StemSpec | packages/playground/src/components/page-loader.js:87 | `replace("_", "-")` keeps the length; it changes nothing without an underscore, and otherwise turns only the first underscore into a hyphen |
| PageLoader.StemKeepsLaterUnderscore | packages/playground/src/components/page-loader.js:87 | a second underscore in the module name is still an underscore in the stem |
| PageLoader.OnlyFirstUnderscore | packages/playground/src/components/page-loader.js:87 | a second underscore in the module name is still an underscore in the mounted tag |
| PageLoader.KeyForSpec | packages/playground/src/components/page-loader.js:61-87 | per arm: only the React arm mounts no tag; the `-customizer` arm appends nothing, the default arm appends `-harness`, and all other arms keep the initial `-page` |
| PageLoader.ElementKeySpec | packages/playground/src/components/page-loader.js:61-87 | a page name mounts no tag iff it contains `-page`; the `-customizer` and default arms mount the stem plus `""` and `-harness` respectively |
| PageLoader.PageSuffixKey | packages/playground/src/components/page-loader.js:61-87 | the arms that keep the suffix mount `<module>-page` for an underscore-free module name |
| PageLoader.KeywordKey | packages/playground/src/components/page-loader.js:62-87 | the modules `dapp`, `harness` and `customizer` mount `dapp-page`, `harness-page` and `customizer-page` |
| PageLoader.ArmImportMatchesTag | packages/playground/src/components/page-loader.js:79-87 | in the two arms importing from `../harness/`, the imported file is `<tag>.js` iff the module name has no underscore |
| PageLoader.ImportMatchesTag | packages/playground/src/components/page-loader.js:79-87 | the same, for a page name routed to one of those two arms |
| PageLoader.Load | packages/playground/src/components/page-loader.js:34-100 | a route miss changes nothing. A hit applies the history rule to both the history and the path, and requests one re-render. On failure it shows the error text for the entry's title. On success it mounts the arm's tag with the entry's title, description and category, or, for a `-page` name, renders `../pages/<name>` through React and leaves `pageContent` as it was |
| PageLoader.ErrorMessageSpec | packages/playground/src/components/page-loader.js:95-97 | the error text is the fixed sentence followed by the title in double quotes; the title sits at a fixed offset |
| PageLoader.LoadContentDeterministic | packages/playground/src/components/page-loader.js:58-98 | except after a successful React render (which leaves `pageContent` as it was), the content `load` leaves behind depends only on the entry and the outcome, not on the earlier state |
| PageLoader.ReloadPushesOnce | packages/playground/src/components/page-loader.js:42-44 | loading the same route twice pushes at most one history entry |
| PageLoader.MissIsNoop | packages/playground/src/components/page-loader.js:36-40 | a route absent from the given catalog leaves the whole state untouched |
| PageLoader.LoadFromRoot | packages/playground/src/components/page-loader.js:24-44 | from the element as constructed at `/`, a load pushes no history and leaves the path at `/`; it requests one re-render exactly when the route is found |
| Strings.IndexOfSpec | packages/playground/src/components/page-loader.js:59 | `indexOf` returns the first position where the pattern occurs, or -1 iff it occurs nowhere |
| Strings.ContainsIff | packages/playground/src/components/page-loader.js:64 | `includes` holds iff the pattern occurs somewhere |
| Strings.ReplaceFirstChar | packages/playground/src/components/page-loader.js:87 | replacing one character by another keeps the length and rewrites exactly the first occurrence |
| Strings.LastSegment | packages/playground/src/components/page-loader.js:47 | `split("/").pop()` is a slash-free suffix, preceded by a slash whenever it is not the whole text |
| Harness.Entry | emulator/packages/client/src/harness/harness.js:34-82 | a catalog entry for module `m` is named `core-m` and routed at `/core-m`, in category `Hyperverse` |
| Harness.GetPages | emulator/packages/client/src/harness/harness.js:32-84 | seven entries, all in category `Hyperverse`, each with a core module name and route `/` + name |
| Harness.CatalogDistinct | emulator/packages/client/src/harness/harness.js:33-83 | no two entries share a name or a route |
| Harness.CoreNameIsDefault | emulator/packages/client/src/harness/harness.js:35-81 | every catalog-shaped name takes the default arm: it imports `../harness/<module>-harness.js` and mounts `<module>-harness` |
| Harness.HarnessTagMatchesLoader | emulator/packages/client/src/harness/harness.js:12 | the tag the loader builds for the module name `harness` equals the literal `harness-page` this element registers under |
| Harness.SetPageLoader | emulator/packages/client/src/harness/harness.js:91-95 | the loader is given the harness catalog, not the static one: the state changes iff some catalog route equals the requested key |
| Harness.GetPagesWellFormed | emulator/packages/client/src/harness/harness.js:33-83 | every catalog name is a core name routed at `/` + name, and no two entries share a route |
| Harness.NameIsNoRoute | emulator/packages/client/src/harness/harness.js:112 | in a catalog of that shape no name (the `data-link` value) equals any route, so looking a name up as a route misses |
| Harness.CatalogClickIsNoop | emulator/packages/client/src/harness/harness.js:86-95 | clicking any catalog card, which forwards the entry's name, leaves the loader's state unchanged |
| Harness.LoadOwnRoute | emulator/packages/client/src/harness/harness.js:35-81 | given one of its routes, `load` over a catalog of that shape mounts `<module>-harness` with that entry's title, description and category |
| Harness.LoadByRoute | emulator/packages/client/src/harness/harness.js:33-83 | were `load` called with a route of the harness catalog (no visible code does so), it would mount `<module>-harness` with that entry's title and description and category `Hyperverse` |

The tag suffix starts as `-page` (page-loader.js:61) and only the last two
arms overwrite it, so the keyword arms mount `dapp-page`, `harness-page`
and `customizer-page`.

`Harness.NameIsNoRoute` and `Harness.CatalogClickIsNoop` describe the click
path as written: a card's button carries the page's name, and `load` looks
that name up as a route, which never matches, provided the `page-loader`
element of the emulator client runs this `load`. No visible code loads the
harness catalog by route; `Harness.LoadByRoute` states what such a load
would mount.

## Left out

- The dynamic `import()`, `DOM.create`, `DOM.div` and `ReactDOM.render` are collapsed into the outcome flag `ok`: the module graph and the DOM they act on are not modelled.
- The class and style changes on the element (page-loader.js:55-56) and `console.log` have no effect the model observes.
- The popstate listener (page-loader.js:19-21) is not an operation of its own: it is `PageLoader.Load` with `location.pathname` as the key and `Some(staticPages)` as the catalog (the same load as omitting it, by `PageLoader.ListenerCatalog`), so `staticPages` decides what it opens.
- `staticPages` comes from `./routes`, which is not part of this model. It is a parameter of `PageLoader.Load`.
- The `async` interleaving of overlapping loads is not modelled. Each `load` is one atomic step.
- The harness's rendering, its widget imports, and its own `requestUpdate` after `setPageLoader` (harness.js:94-125) change no state the loader reads.
- `event.preventDefault()` in `handleClick` is not modelled; `Harness.HandleClick` only forwards the link.
- `PageLoader.Load` skips the re-resolution block at page-loader.js:46-53. That block is modelled on its own as `PageLoader.Recover`, and `PageLoader.FallbackUnreachable` proves that whenever `load` reaches it, it returns the entry `load` already holds.
- PageLoader.PushHistory: takes `pushState(null, title, route)` to set `location.pathname` to `route` verbatim. That holds for an absolute path without `?`, `#` or characters the URL parser percent-encodes, as every harness route is; for other routes in `staticPages` the pathname would differ from the route (so `PageLoader.ReloadPushesOnce` and the path clause of `PageLoader.Load` would not hold), and a cross-origin route makes `pushState` throw outside the `try`, which is not modelled.
- Harness.SetPageLoader: assumes the element with id `page-loader` in the emulator client's document (harness.js:92) runs the `load` of packages/playground/src/components/page-loader.js; that element's own source is not part of this model. When no such element exists, `getElementById` returns null and the click throws, which is not modelled. The loader's `import("../harness/harness.js")` resolves to the playground package's harness, not to the emulator file the catalog comes from; `Harness.HarnessTagMatchesLoader` only compares tag strings.
- The history entry's state object, which is always `null`, is not stored.
- `location.href` appears only as the parameter of `PageLoader.Recover`.
