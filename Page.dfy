/**
 * The page-level handlers: the navigation menu flags of `initNavigation`
 * (assets/js/script.js:19-88), the highlighted link of `initActiveLink`
 * (assets/js/script.js:93-111) and the theme of `initThemeToggle` (assets/js/script.js:462-479).
 */
module Page {
  import opened Optional

  // ------------------------------------------------------------------ navigation

  /** Class `active` on the hamburger, the menu and the overlay, and `menu-open` on the body. */
  datatype NavFlags = NavFlags(hamburger: bool, menu: bool, body: bool, overlay: bool)

  /** The width at or below which the menu is the mobile one. */
  const MobileWidth: int := 1024

  /** The four flags agree: the menu is either open everywhere or closed everywhere; a page
      without an overlay never flags one. */
  predicate Synced(f: NavFlags, hasOverlay: bool)
  {
    f.hamburger == f.menu && f.body == f.menu && f.overlay == (hasOverlay && f.menu)
  }

  /** The hamburger's click handler: toggle each flag (the overlay's only if there is one). */
  function Toggled(f: NavFlags, hasOverlay: bool): NavFlags
  {
    NavFlags(!f.hamburger, !f.menu, !f.body, if hasOverlay then !f.overlay else f.overlay)
  }

  /** Every close path: remove each flag (the overlay's only if there is one). */
  function Closed(f: NavFlags, hasOverlay: bool): NavFlags
  {
    NavFlags(false, false, false, if hasOverlay then false else f.overlay)
  }

  /** Two clicks on the hamburger restore the flags. */
  lemma ToggleTwice(f: NavFlags, hasOverlay: bool)
    ensures Toggled(Toggled(f, hasOverlay), hasOverlay) == f
  {
  }

  /** Toggling an agreeing state keeps it agreeing and flips whether the menu is open. */
  lemma ToggleSynced(f: NavFlags, hasOverlay: bool)
    requires Synced(f, hasOverlay)
    ensures var t := Toggled(f, hasOverlay);
            Synced(t, hasOverlay) && t.menu == !f.menu
  {
  }

  /** Closing an agreeing state leaves every flag off and is idempotent. */
  lemma CloseSynced(f: NavFlags, hasOverlay: bool)
    requires Synced(f, hasOverlay)
    ensures Closed(f, hasOverlay) == NavFlags(false, false, false, false)
    ensures Closed(Closed(f, hasOverlay), hasOverlay) == Closed(f, hasOverlay)
  {
  }

  /** The navigation of a page that has both a `.hamburger` and a `.nav-menu` (the handlers
      are installed only then). */
  class Nav {
    const hasOverlay: bool
    var hamburger: bool
    var menu: bool
    var body: bool
    var overlay: bool

    function Flags(): NavFlags
      reads this
    {
      NavFlags(hamburger, menu, body, overlay)
    }

    constructor (hasOverlay: bool)
      ensures this.hasOverlay == hasOverlay && Flags() == NavFlags(false, false, false, false)
      ensures Synced(Flags(), hasOverlay)
    {
      this.hasOverlay := hasOverlay;
      hamburger, menu, body, overlay := false, false, false, false;
    }

    method Close()
      modifies this
      ensures Flags() == Closed(old(Flags()), hasOverlay)
    {
      hamburger := false;
      menu := false;
      body := false;
      if hasOverlay {
        overlay := false;
      }
    }

    /** A click on the hamburger. */
    method HamburgerClick()
      modifies this
      ensures Flags() == Toggled(old(Flags()), hasOverlay)
      ensures old(Synced(Flags(), hasOverlay)) ==> Synced(Flags(), hasOverlay) && menu == !old(menu)
    {
      hamburger := !hamburger;
      menu := !menu;
      body := !body;
      if hasOverlay {
        overlay := !overlay;
      }
    }

    /** A click on the overlay (its handler exists only when the overlay does). */
    method OverlayClick()
      requires hasOverlay
      modifies this
      ensures Flags() == NavFlags(false, false, false, false)
    {
      hamburger := false;
      menu := false;
      body := false;
      overlay := false;
    }

    /** A click anywhere, seen by the document: it closes an open menu unless it landed inside
        the menu or on the hamburger. */
    method DocumentClick(insideNav: bool, onHamburger: bool)
      modifies this
      ensures Flags() == if !insideNav && !onHamburger && old(menu) then Closed(old(Flags()), hasOverlay)
                         else old(Flags())
    {
      if !insideNav && !onHamburger && menu {
        Close();
      }
    }

    /** The debounced resize handler, run with the window's new inner width. */
    method Resize(width: int)
      modifies this
      ensures Flags() == if width > MobileWidth && old(menu) then Closed(old(Flags()), hasOverlay)
                         else old(Flags())
    {
      if width > MobileWidth && menu {
        Close();
      }
    }

    /** A click on a link of the menu, at the window's inner width. */
    method LinkClick(width: int)
      modifies this
      ensures Flags() == if width <= MobileWidth then Closed(old(Flags()), hasOverlay) else old(Flags())
    {
      if width <= MobileWidth {
        Close();
      }
    }
  }

  // ------------------------------------------------------------------ active link

  /** `path.split('/').pop()`: what follows the last `/`, or the whole path without one. */
  function LastSegment(path: string): (r: string)
    ensures |r| <= |path| && r == path[|path| - |r|..]
    ensures '/' !in r
    ensures |r| < |path| ==> path[|path| - |r| - 1] == '/'
  {
    if path == [] then []
    else if path[|path| - 1] == '/' then []
    else LastSegment(path[..|path| - 1]) + [path[|path| - 1]]
  }

  /** The page the location names, `index.html` for a path ending in `/`. */
  function CurrentPage(pathname: string): (r: string)
    ensures r != ""
    ensures LastSegment(pathname) != "" ==> r == LastSegment(pathname)
    ensures LastSegment(pathname) == "" ==> r == "index.html"
  {
    var seg := LastSegment(pathname);
    if seg == "" then "index.html" else seg
  }

  /** The condition under which `initActiveLink` gives a link with that `href` class `active`. */
  predicate IsActiveLink(href: Option<string>, currentPage: string)
  {
    || href == Some(currentPage)
    || (currentPage == "" && href == Some("index.html"))
    || (currentPage == "index.html" && href == Some("index.html"))
    || (currentPage == "home2.html" && href == Some("home2.html"))
  }

  /** For a non-empty current page the extra cases add nothing: a link is active exactly when
      its `href` is that page. */
  lemma ActiveWhenNonEmpty(href: Option<string>, currentPage: string)
    requires currentPage != ""
    ensures IsActiveLink(href, currentPage) <==> href == Some(currentPage)
  {
  }

  /** Since the current page is never empty, a link is active exactly when its `href` is the
      current page. */
  lemma ActiveIsEquality(href: Option<string>, pathname: string)
    ensures IsActiveLink(href, CurrentPage(pathname)) <==> href == Some(CurrentPage(pathname))
  {
    ActiveWhenNonEmpty(href, CurrentPage(pathname));
  }

  /** `initActiveLink` over the `.nav-menu a` elements with these `href` attributes. */
  method MarkActiveLinks(hrefs: seq<Option<string>>, pathname: string) returns (active: seq<bool>)
    ensures |active| == |hrefs|
    ensures forall k :: 0 <= k < |hrefs| ==> (active[k] <==> hrefs[k] == Some(CurrentPage(pathname)))
  {
    var currentPage := CurrentPage(pathname);
    active := [];
    var k := 0;
    while k < |hrefs|
      invariant k <= |hrefs| && |active| == k
      invariant forall j :: 0 <= j < k ==> (active[j] <==> hrefs[j] == Some(currentPage))
    {
      var linkPage := hrefs[k];
      var on := IsActiveLink(linkPage, currentPage);
      ActiveWhenNonEmpty(linkPage, currentPage);
      active := active + [on];
      k := k + 1;
    }
  }

  // ------------------------------------------------------------------ theme

  /** `localStorage.getItem('theme') || 'light'`. */
  function InitialTheme(stored: Option<string>): (r: string)
    ensures r != ""
    ensures stored.Some? && stored.value != "" ==> r == stored.value
    ensures stored.None? || stored.value == "" ==> r == "light"
  {
    if stored.Some? && stored.value != "" then stored.value else "light"
  }

  /** The theme a click switches to from the `data-theme` attribute: `light` from `dark`,
      `dark` from anything else, a missing attribute included. */
  function NextTheme(current: Option<string>): (r: string)
    ensures r == "light" || r == "dark"
    ensures (r == "light") <==> current == Some("dark")
  {
    if current == Some("dark") then "light" else "dark"
  }

  /** Two clicks come back exactly when the theme was `light` or `dark`. */
  lemma NextThemeTwice(t: string)
    ensures NextTheme(Some(NextTheme(Some(t)))) == t <==> t == "light" || t == "dark"
  {
  }

  /** The `data-theme` attribute of the document and the stored preference. */
  class Theme {
    var attribute: Option<string>
    var stored: Option<string>

    /** `initThemeToggle` on a page with a `#themeToggle`, with the stored preference `saved`. */
    constructor (saved: Option<string>)
      ensures attribute == Some(InitialTheme(saved)) && stored == saved
    {
      attribute := Some(InitialTheme(saved));
      stored := saved;
    }

    /** A click on the toggle: flip the theme and store it. */
    method Click()
      modifies this
      ensures attribute == Some(NextTheme(old(attribute))) && stored == attribute
    {
      var newTheme := NextTheme(attribute);
      attribute := Some(newTheme);
      stored := Some(newTheme);
    }
  }
}
