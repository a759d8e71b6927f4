# View routing of a personal website

This project models the one piece of logic in the single-page personal website
`PersonalWebsite.js`: the root component `PersonalWebsite` keeps two state cells,
the active page (a string that starts as `'Home'`) and the selected blog post
(starts as `null`), and its `renderContent` switch maps them to the content shown
below the header. Three user actions change the state: a header button sets the
page, a click on a post in the blog listing selects that post, and the
"Back to Blog" button clears the selection.

- `wrappers.dfy` — `Option`, standing for a value or JavaScript's `null`.
- `routing.dfy` (module `Routing`) — the pure model: `BlogPost`, `ViewState`, the
  content descriptor `Content`, the static `Catalog` and header `NavItems`,
  `Resolve` (the `renderContent` switch), `Step` (one action) and `Run` (a trace of
  actions), the predicate `Enabled` saying which controls are on screen in a state,
  and the lemmas about single actions and traces.
- `website.dfy` (module `Website`) — the component as a class whose two fields are
  overwritten in place by `Navigate`, `SelectPost` and `ClearPost`; each method
  states its new state both field by field and as `Step` of the old state, so every
  lemma about `Run` applies to the component. `DetourWalkThrough` is a client that
  replays the detour walk-through using only those contracts.

The page stays a `string`, so the `default` arm of the switch (any other string
shows Home) is a real case. The header draws exactly five buttons, so in any
sequence of clicks a user can make the page is one of those five; `UserTraceReachable`
proves that the fallback arm is then never taken and that a selected post is always
a catalog post.

## Model

| member | source | states |
|---|---|---|
| Routing.Resolve | PersonalWebsite.js:174-201 | For every state, which view is shown: About, Contact and Data exactly when the page is that name; Home exactly when the page is none of About, Blog, Contact, Data (the Home arm and the fallback arm); the listing of the whole catalog exactly when the page is Blog and nothing is selected; the detail of exactly the selected post exactly when the page is Blog and a post is selected |
| Routing.InitialShowsHome | PersonalWebsite.js:171-177 | The site opens on page Home with no post selected, shows the home page, and that state is reachable |
| Routing.NavigateSetsPage | PersonalWebsite.js:15-18 | A header click sets the page to exactly the clicked item and leaves the selection as it was |
| Routing.NavigateIdempotent | PersonalWebsite.js:18 | Clicking the same header button twice leaves the same state as clicking it once |
| Routing.StaticPagesIgnoreSelection | PersonalWebsite.js:175-199 | For every page other than Blog the view is the same whatever is selected, and is neither the listing nor a detail view |
| Routing.HeaderItemsDistinct | PersonalWebsite.js:15 | Two different header buttons never lead to the same view, with or without a selection |
| Routing.SelectFromListing | PersonalWebsite.js:136-137 | In the listing, the click on the k-th catalog post is available, selects exactly that post, and the next view is its detail |
| Routing.BackShowsListing | PersonalWebsite.js:184-192 | "Back to Blog" from any detail view shows the listing of the whole catalog |
| Routing.CatalogWellFormed | PersonalWebsite.js:119-132 | The catalog holds one post, with id 1 and a cover image, and its ids are unique |
| Routing.RunAppend | PersonalWebsite.js:171-172 | Applying two traces of actions one after the other equals applying their concatenation (each action overwrites the state left by the previous one) |
| Routing.LastNavigationDecidesPage | PersonalWebsite.js:18 | After any trace, the page is the item of the last header click in it, or the starting page when there is none |
| Routing.LastSelectionDecidesPost | PersonalWebsite.js:137 | After any trace, the selection is the post of the last post click, or none if the last selection action was "Back to Blog", or the starting selection when there is neither (the calls at lines 137 and 185) |
| Routing.NavigationKeepsSelection | PersonalWebsite.js:171-172 | A trace of header clicks alone never changes the selected post |
| Routing.NavigationsCollapse | PersonalWebsite.js:18 | A non-empty trace of header clicks leaves the same state as its last click alone |
| Routing.DetourKeepsDetail | PersonalWebsite.js:181-183 | From the detail of post p, any header clicks that end on Blog show the detail of p again |
| Routing.BackThenListing | PersonalWebsite.js:184-192 | After "Back to Blog", whatever was selected before, every later trace without a post click shows the full listing whenever its page is Blog |
| Routing.UserTraceReachable | PersonalWebsite.js:15-18 | In every sequence of clicks a user can make from the start (header buttons always, a post only from the listing, back only from a detail view) the page is one of the five header items and any selection is a catalog post |
| Routing.UserSeesCatalogPosts | PersonalWebsite.js:194-199 | After any user clicks the page is a header item, so the fallback arm is never taken, and a detail view shows only a catalog post |
| Routing.DetourScenario | PersonalWebsite.js:171-192 | Open the site, go to Blog (listing), open the first post (its detail), go Home (home page, selection kept), back to Blog (the same detail); every click in it is available to a user |
| Website.PersonalWebsite.constructor | PersonalWebsite.js:171-172 | The component starts with page Home and no selection, the initial state of the routing model |
| Website.PersonalWebsite.Navigate | PersonalWebsite.js:18 | Sets the page field to exactly the item, leaves the selection field unchanged, as one routing step |
| Website.PersonalWebsite.SelectPost | PersonalWebsite.js:137 | Sets the selection field to the clicked post, leaves the page field unchanged, as one routing step |
| Website.PersonalWebsite.ClearPost | PersonalWebsite.js:184-189 | Clears the selection field, leaves the page field unchanged, as one routing step |

## Left out

- Markup, CSS class strings and the static text of the Home, About, Contact and Footer sections: presentation only; each page is one variant of `Content`.
- The animation parameters of the home page: floating-point timing handled by an animation library.
- The chart library's registration and the data page's dataset and options: a foreign rendering library; only the `DataVisualizationPage` variant is modelled.
- The post's `content` markup is an opaque string and is not parsed; whether a cover image is drawn (a JavaScript truthiness test on `image`) is presentation and not modelled.
- The external profile link and the `mailto:` link: browser navigation.
- React's render cycle and the batching of state updates: each setter is a synchronous assignment, and a re-render is a fresh call of `Resolve`.
- The listing is rebuilt from the same literal on each render, so a clicked post is compared with catalog entries by value, not by object identity.
- Nothing is left out of the page's type: the code stores any string rather than a closed set of five names, and the model does the same, so the fallback to Home is a case of `Resolve` that verification covers.
