/** The root component of the site: its two state cells, overwritten in place by the
    header buttons, a click on a listed post and the "Back to Blog" button. */
module Website {
  import opened Wrappers
  import opened Routing

  class PersonalWebsite {
    var activePage: string
    var activePost: Option<BlogPost>

    /** The two cells as one value of the routing model. */
    function State(): ViewState
      reads this
    {
      ViewState(activePage, activePost)
    }

    /** The component mounts on Home with no post selected. */
    constructor ()
      ensures activePage == "Home" && activePost == None
      ensures State() == Initial()
    {
      activePage := "Home";
      activePost := None;
    }

    /** A header button: sets the page to exactly `item`, keeps the selection. */
    method Navigate(item: string)
      modifies this
      ensures activePage == item && activePost == old(activePost)
      ensures State() == Step(old(State()), Action.Navigate(item))
    {
      activePage := item;
    }

    /** A click on a listed post: selects it, keeps the page. */
    method SelectPost(post: BlogPost)
      modifies this
      ensures activePost == Some(post) && activePage == old(activePage)
      ensures State() == Step(old(State()), Action.SelectPost(post))
    {
      activePost := Some(post);
    }

    /** "Back to Blog": clears the selection, keeps the page. */
    method ClearPost()
      modifies this
      ensures activePost == None && activePage == old(activePage)
      ensures State() == Step(old(State()), Action.ClearPost)
    {
      activePost := None;
    }
  }

  /** A client that uses only the contracts above: the detour walk-through, on the
      component itself. */
  method DetourWalkThrough()
  {
    var site := new PersonalWebsite();
    assert Resolve(site.State()) == HomePage;
    site.Navigate("Blog");
    assert Resolve(site.State()) == BlogPage(Catalog);
    site.SelectPost(Catalog[0]);
    assert Resolve(site.State()) == PostDetail(Catalog[0]);
    site.Navigate("Home");
    assert Resolve(site.State()) == HomePage && site.activePost == Some(Catalog[0]);
    site.Navigate("Blog");
    assert Resolve(site.State()) == PostDetail(Catalog[0]);
    site.ClearPost();
    assert Resolve(site.State()) == BlogPage(Catalog);
  }
}
