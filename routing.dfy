/** The view-routing state machine of the personal website: the state held by the
    root component, the content descriptor it renders, the three user actions that
    change the state, and traces of those actions. */
module Routing {
  import opened Wrappers

  /** A blog post of the static catalog. `content` is opaque markup; `image` is the
      optional cover picture. */
  datatype BlogPost = BlogPost(id: int, title: string, date: string, content: string, image: Option<string>)

  /** The two state cells of the root component: the active page (any string, so the
      fallback arm is a real case) and the selected post, if any. */
  datatype ViewState = ViewState(page: string, post: Option<BlogPost>)

  /** What the root component shows below the header. */
  datatype Content =
    | HomePage
    | AboutPage
    | ContactPage
    | DataVisualizationPage
    | BlogPage(posts: seq<BlogPost>)      // the listing, one clickable entry per post
    | PostDetail(post: BlogPost)          // one post with its "Back to Blog" button

  /** The three user actions: a header button, a click on a listed post, "Back to Blog". */
  datatype Action = Navigate(item: string) | SelectPost(selected: BlogPost) | ClearPost

  /** The header's buttons, in the order they are drawn. */
  const NavItems: seq<string> := ["Home", "About", "Blog", "Contact", "Data"]

  /** The static catalog of blog posts, in listing order. */
  const Catalog: seq<BlogPost> := [
    BlogPost(
      1,
      "The Impact of AI on Economics",
      "2024-03-15",
      "\n        <p>Artificial Intelligence is reshaping the field of economics...</p>\n"
      + "        <img src=\"/images/ai-impact.jpg\" alt=\"AI Impact\" class=\"w-full h-64 object-cover my-4 rounded\" />\n"
      + "        <p>Further discussion on the topic...</p>\n      ",
      Some("/images/ai-economics.jpg"))
  ]

  /** No two posts in `posts` share an id (the listing keys its entries by id). */
  predicate UniqueIds(posts: seq<BlogPost>)
  {
    forall i, j :: 0 <= i < j < |posts| ==> posts[i].id != posts[j].id
  }

  /** The state the site starts in. */
  function Initial(): ViewState
  {
    ViewState("Home", None)
  }

  /** The content shown for a state: a switch on the page with a fallback to Home,
      and the Blog page split on whether a post is selected. */
  function Resolve(s: ViewState): (c: Content)
    ensures c == AboutPage <==> s.page == "About"
    ensures c == ContactPage <==> s.page == "Contact"
    ensures c == DataVisualizationPage <==> s.page == "Data"
    ensures c == HomePage <==> s.page !in {"About", "Blog", "Contact", "Data"}
    ensures c.BlogPage? <==> s.page == "Blog" && s.post.None?
    ensures c.BlogPage? ==> c.posts == Catalog
    ensures c.PostDetail? <==> s.page == "Blog" && s.post.Some?
    ensures c.PostDetail? ==> s.post == Some(c.post)
  {
    match s.page
    case "Home" => HomePage
    case "About" => AboutPage
    case "Blog" => if s.post.Some? then PostDetail(s.post.value) else BlogPage(Catalog)
    case "Contact" => ContactPage
    case "Data" => DataVisualizationPage
    case _ => HomePage
  }

  /** One action applied to the state, each setter overwriting exactly its own cell. */
  function Step(s: ViewState, a: Action): ViewState
  {
    match a
    case Navigate(item) => s.(page := item)
    case SelectPost(p) => s.(post := Some(p))
    case ClearPost => s.(post := None)
  }

  /** A trace of actions applied in order, from the first to the last. */
  function Run(s: ViewState, t: seq<Action>): ViewState
    decreases |t|
  {
    if |t| == 0 then s else Step(Run(s, t[..|t| - 1]), t[|t| - 1])
  }

  /** Whether the control that issues `a` is on screen in state `s`: the header with
      its five buttons is always drawn, a post can be clicked only in the listing,
      and "Back to Blog" exists only in the detail view. */
  predicate Enabled(s: ViewState, a: Action)
  {
    match a
    case Navigate(item) => item in NavItems
    case SelectPost(p) => Resolve(s).BlogPage? && p in Resolve(s).posts
    case ClearPost => Resolve(s).PostDetail?
  }

  /** `t` is a sequence of clicks a user can make starting from `s`. */
  predicate UserTrace(s: ViewState, t: seq<Action>)
    decreases |t|
  {
    |t| == 0 || (UserTrace(s, t[..|t| - 1]) && Enabled(Run(s, t[..|t| - 1]), t[|t| - 1]))
  }

  /** Every state a user can reach: a header page, and a selection from the catalog. */
  predicate Reachable(s: ViewState)
  {
    s.page in NavItems && (s.post.Some? ==> s.post.value in Catalog)
  }

  /** A trace made only of header clicks. */
  predicate OnlyNavigation(t: seq<Action>)
  {
    forall i :: 0 <= i < |t| ==> t[i].Navigate?
  }

  /** A trace with no post click in it. */
  predicate NoSelection(t: seq<Action>)
  {
    forall i :: 0 <= i < |t| ==> !t[i].SelectPost?
  }

  // ---------------------------------------------------------------------------
  // Single actions

  /** The catalog keys its entries by a unique id, and holds the one post. */
  lemma CatalogWellFormed()
    ensures UniqueIds(Catalog) && |Catalog| == 1 && Catalog[0].id == 1
    ensures Catalog[0].image == Some("/images/ai-economics.jpg")
  {
  }

  /** The site opens on Home with nothing selected, and shows the home page. */
  lemma InitialShowsHome()
    ensures Initial().page == "Home" && Initial().post == None
    ensures Resolve(Initial()) == HomePage
    ensures Reachable(Initial())
  {
  }

  /** A header click sets the page to exactly the item and keeps the selection. */
  lemma NavigateSetsPage(s: ViewState, item: string)
    ensures Step(s, Navigate(item)).page == item
    ensures Step(s, Navigate(item)).post == s.post
  {
  }

  /** Clicking the same header button twice is the same as clicking it once. */
  lemma NavigateIdempotent(s: ViewState, item: string)
    ensures Step(Step(s, Navigate(item)), Navigate(item)) == Step(s, Navigate(item))
  {
  }

  /** The pages other than Blog never depend on the selection. */
  lemma StaticPagesIgnoreSelection(page: string, p: Option<BlogPost>, q: Option<BlogPost>)
    requires page != "Blog"
    ensures Resolve(ViewState(page, p)) == Resolve(ViewState(page, q))
    ensures !Resolve(ViewState(page, p)).BlogPage? && !Resolve(ViewState(page, p)).PostDetail?
  {
  }

  /** Each header button leads to its own view; distinct buttons to distinct views
      when nothing is selected. */
  lemma HeaderItemsDistinct(i: nat, j: nat, post: Option<BlogPost>)
    requires i < j < |NavItems|
    ensures Resolve(ViewState(NavItems[i], None)) != Resolve(ViewState(NavItems[j], None))
    ensures Resolve(ViewState(NavItems[i], post)) != Resolve(ViewState(NavItems[j], post))
  {
  }

  /** Clicking the k-th listed post shows the detail of exactly that catalog entry. */
  lemma SelectFromListing(s: ViewState, k: nat)
    requires Resolve(s).BlogPage? && k < |Catalog|
    ensures Enabled(s, SelectPost(Catalog[k]))
    ensures Step(s, SelectPost(Catalog[k])).post == Some(Catalog[k])
    ensures Resolve(Step(s, SelectPost(Catalog[k]))) == PostDetail(Catalog[k])
  {
  }

  /** "Back to Blog" from any detail view returns to the listing of the whole catalog. */
  lemma BackShowsListing(s: ViewState)
    requires Resolve(s).PostDetail?
    ensures Resolve(Step(s, ClearPost)) == BlogPage(Catalog)
  {
  }

  // ---------------------------------------------------------------------------
  // Traces of actions

  /** Running two traces one after the other is running their concatenation. */
  lemma {:induction false} RunAppend(s: ViewState, t: seq<Action>, u: seq<Action>)
    ensures Run(s, t + u) == Run(Run(s, t), u)
    decreases |u|
  {
    if |u| == 0 {
      assert t + u == t;
    } else {
      var w := t + u;
      assert w[..|w| - 1] == t + u[..|u| - 1];
      assert w[|w| - 1] == u[|u| - 1];
      RunAppend(s, t, u[..|u| - 1]);
    }
  }

  /** The page after a trace is the item of its last header click, or the starting
      page when it has none. */
  lemma {:induction false} LastNavigationDecidesPage(s: ViewState, t: seq<Action>, k: int)
    requires -1 <= k < |t|
    requires k >= 0 ==> t[k].Navigate?
    requires forall j :: k < j < |t| ==> !t[j].Navigate?
    ensures Run(s, t).page == if k >= 0 then t[k].item else s.page
    decreases |t|
  {
    if |t| > 0 {
      var t' := t[..|t| - 1];
      if k == |t| - 1 {
      } else {
        LastNavigationDecidesPage(s, t', k);
      }
    }
  }

  /** The selection after a trace is set by its last post click or "Back to Blog",
      or is the starting selection when it has neither. */
  lemma {:induction false} LastSelectionDecidesPost(s: ViewState, t: seq<Action>, k: int)
    requires -1 <= k < |t|
    requires k >= 0 ==> !t[k].Navigate?
    requires forall j :: k < j < |t| ==> t[j].Navigate?
    ensures Run(s, t).post == if k < 0 then s.post
                              else if t[k].SelectPost? then Some(t[k].selected) else None
    decreases |t|
  {
    if |t| > 0 {
      var t' := t[..|t| - 1];
      if k == |t| - 1 {
      } else {
        LastSelectionDecidesPost(s, t', k);
      }
    }
  }

  /** Header clicks alone never change the selection. */
  lemma {:induction false} NavigationKeepsSelection(s: ViewState, t: seq<Action>)
    requires OnlyNavigation(t)
    ensures Run(s, t).post == s.post
    decreases |t|
  {
    if |t| > 0 {
      NavigationKeepsSelection(s, t[..|t| - 1]);
    }
  }

  /** A run of header clicks leaves the same state as its last click alone. */
  lemma {:induction false} NavigationsCollapse(s: ViewState, t: seq<Action>)
    requires |t| > 0 && OnlyNavigation(t)
    ensures Run(s, t) == Step(s, t[|t| - 1])
  {
    NavigationKeepsSelection(s, t[..|t| - 1]);
  }

  /** The selection survives a detour: from the detail of p, any header clicks that
      end on Blog lead back to the detail of p. */
  lemma DetourKeepsDetail(s: ViewState, t: seq<Action>, p: BlogPost)
    requires Resolve(s) == PostDetail(p)
    requires |t| > 0 && OnlyNavigation(t) && t[|t| - 1] == Navigate("Blog")
    ensures Resolve(Run(s, t)) == PostDetail(p)
  {
    NavigationsCollapse(s, t);
  }

  /** After "Back to Blog", whatever was selected before, any later actions without
      a post click show the listing whenever the page is Blog. */
  lemma {:induction false} BackThenListing(s: ViewState, t: seq<Action>)
    requires NoSelection(t)
    requires Run(s, [ClearPost] + t).page == "Blog"
    ensures Resolve(Run(s, [ClearPost] + t)) == BlogPage(Catalog)
  {
    var w := [ClearPost] + t;
    var k := |w| - 1;
    while k >= 0 && w[k].Navigate?
      invariant -1 <= k < |w|
      invariant forall j :: k < j < |w| ==> w[j].Navigate?
      decreases k
    {
      k := k - 1;
    }
    assert w[0] == ClearPost;
    LastSelectionDecidesPost(s, w, k);
  }

  /** Whatever a user clicks from the start, the page is a header item (so the
      fallback arm is never taken) and any selection is a catalog post. */
  lemma {:induction false} UserTraceReachable(t: seq<Action>)
    requires UserTrace(Initial(), t)
    ensures Reachable(Run(Initial(), t))
    decreases |t|
  {
    if |t| > 0 {
      var t' := t[..|t| - 1];
      UserTraceReachable(t');
      var s' := Run(Initial(), t');
      match t[|t| - 1]
      case Navigate(item) =>
      case SelectPost(p) =>
        assert Resolve(s').posts == Catalog;
      case ClearPost =>
    }
  }

  /** What a user sees after any clicks is one of the header's views, and a detail
      view only ever shows a catalog post. */
  lemma UserSeesCatalogPosts(t: seq<Action>)
    requires UserTrace(Initial(), t)
    ensures Run(Initial(), t).page in NavItems
    ensures Resolve(Run(Initial(), t)).PostDetail? ==> Resolve(Run(Initial(), t)).post in Catalog
  {
    UserTraceReachable(t);
  }

  /** The walk-through: open the site, go to Blog, open the first post, go Home,
      come back to Blog and find the post still open. */
  lemma DetourScenario()
    ensures var t := [Navigate("Blog"), SelectPost(Catalog[0]), Navigate("Home"), Navigate("Blog")];
      && UserTrace(Initial(), t)
      && Resolve(Run(Initial(), t[..1])) == BlogPage(Catalog)
      && Resolve(Run(Initial(), t[..2])) == PostDetail(Catalog[0])
      && Resolve(Run(Initial(), t[..3])) == HomePage
      && Run(Initial(), t[..3]).post == Some(Catalog[0])
      && Resolve(Run(Initial(), t)) == PostDetail(Catalog[0])
  {
    var t := [Navigate("Blog"), SelectPost(Catalog[0]), Navigate("Home"), Navigate("Blog")];
    assert t[..0] == [] && t[..1][..0] == [];
    assert t[..2][..1] == t[..1] && t[..3][..2] == t[..2] && t[..|t| - 1] == t[..3];
    assert NavItems[0] == "Home" && NavItems[2] == "Blog";
    assert Run(Initial(), []) == Initial() && UserTrace(Initial(), []);
    assert Enabled(Initial(), t[0]);
    assert UserTrace(Initial(), t[..1]);
    assert UserTrace(Initial(), t[..2]);
    assert UserTrace(Initial(), t[..3]);
  }
}
