/** The page's scroll and click behaviour, with the browser reduced to the
    events it delivers: the navbar's `scrolled` class, the mobile menu's
    `active` classes and hamburger icon, the navigation-link highlighter fed
    by the sections' intersection observer, and the one-shot fade-in
    observer over the content cards. */
module PageUi {
  import opened Wrappers

  /** The scroll offset, in pixels, above which the navbar is `scrolled`. */
  const ScrollThreshold: real := 50.0

  /** The widest viewport, in pixels, counted as mobile. */
  const MobileBreakpoint: int := 768

  /** An element's inline fade style: opacity 0 shifted down by 20px
      (Hidden) or opacity 1 in place (Shown). */
  datatype FadeStyle = Hidden | Shown

  /** An intersection-observer entry: the observed target and whether it
      is now intersecting the (margin-adjusted) viewport. */
  datatype Entry<T> = Entry(target: T, isIntersecting: bool)

  /** `document.querySelector('.nav-link[href="' + href + '"]')`: the
      position of the first link, in document order, whose href is `href`. */
  function FirstLink(hrefs: seq<string>, href: string): (r: Option<nat>)
    ensures r.Some? ==> r.value < |hrefs| && hrefs[r.value] == href && href !in hrefs[..r.value]
    ensures r.None? ==> href !in hrefs
  {
    if |hrefs| == 0 then None
    else if hrefs[0] == href then Some(0)
    else match FirstLink(hrefs[1..], href)
      case None => None
      case Some(k) =>
        assert hrefs[..k + 1] == [hrefs[0]] + hrefs[1..][..k];
        Some(k + 1)
  }

  /** The link flags after section `id` was highlighted: exactly the first
      link pointing at `#id` is active. */
  ghost predicate Highlights(hrefs: seq<string>, id: string, active: seq<bool>) {
    && |active| == |hrefs|
    && forall k :: 0 <= k < |active| ==> (active[k] <==> FirstLink(hrefs, "#" + id) == Some(k))
  }

  predicate AtMostOneActive(active: seq<bool>) {
    forall i, j :: 0 <= i < j < |active| ==> !(active[i] && active[j])
  }

  /** A highlighted state has at most one active link, that link points at
      the section, and there is one exactly when some link points at it. */
  lemma HighlightIsExclusive(hrefs: seq<string>, id: string, active: seq<bool>)
    requires Highlights(hrefs, id, active)
    ensures AtMostOneActive(active)
    ensures forall k :: 0 <= k < |active| && active[k] ==> hrefs[k] == "#" + id
    ensures (exists k :: 0 <= k < |active| && active[k]) <==> "#" + id in hrefs
  {
    var first := FirstLink(hrefs, "#" + id);
    if first.Some? {
      assert active[first.value];
    }
  }

  /** The section of the last intersecting entry of a batch, if any. */
  function LastIntersecting(entries: seq<Entry<string>>): (r: Option<string>)
    ensures r.None? <==> forall k :: 0 <= k < |entries| ==> !entries[k].isIntersecting
    ensures r.Some? ==>
      exists k :: (0 <= k < |entries| && entries[k] == Entry(r.value, true)
        && forall j :: k < j < |entries| ==> !entries[j].isIntersecting)
  {
    if entries == [] then None
    else if entries[|entries| - 1].isIntersecting then Some(entries[|entries| - 1].target)
    else
      var r := LastIntersecting(entries[..|entries| - 1]);
      assert forall k :: 0 <= k < |entries| - 1 ==> entries[..|entries| - 1][k] == entries[k];
      r
  }

  /** The targets of a batch's intersecting entries. */
  function Intersected(entries: seq<Entry<nat>>): (r: set<nat>)
    ensures forall x :: x in r <==>
      exists k :: 0 <= k < |entries| && entries[k].isIntersecting && entries[k].target == x
  {
    if entries == [] then {}
    else
      var init := entries[..|entries| - 1];
      var last := entries[|entries| - 1];
      var r := Intersected(init);
      assert forall k :: 0 <= k < |init| ==> init[k] == entries[k];
      if last.isIntersecting then r + {last.target} else r
  }

  predicate Distinct<T(==)>(s: seq<T>) {
    forall i, j :: 0 <= i < j < |s| ==> s[i] != s[j]
  }

  /** The page once `DOMContentLoaded` has run its initialisers. */
  class Page {
    /** `scrolled` class on the navbar */
    var scrolled: bool
    /** `active` class on `navMenu` and on `mobileToggle` */
    var menuActive: bool
    var toggleActive: bool
    /** the hamburger's spans drawn as an X (true) or with their styles reset */
    var hamburgerX: bool

    /** the href of each `.nav-link`, in document order, and its `active` class */
    const hrefs: seq<string>
    var active: seq<bool>
    /** the section last reported intersecting, if any */
    ghost var lastSection: Option<string>

    /** the `.about-card, .service-card, .ministry-item` elements */
    const fadeTargets: set<nat>
    var style: map<nat, FadeStyle>
    /** the elements the fade observer still observes */
    var observed: set<nat>
    /** the elements that faded in, in the order they did */
    ghost var fadedIn: seq<nat>

    ghost predicate Valid()
      reads this
    {
      && menuActive == toggleActive
      && (menuActive ==> hamburgerX)
      && |active| == |hrefs|
      && (lastSection.Some? ==> Highlights(hrefs, lastSection.value, active))
      && style.Keys == fadeTargets
      && observed <= fadeTargets
      && (forall e :: e in style ==> (e in observed <==> style[e] == Hidden))
      && (forall e :: e in style ==> (style[e] == Shown <==> e in fadedIn))
      && (forall i :: 0 <= i < |fadedIn| ==> fadedIn[i] in fadeTargets)
      && Distinct(fadedIn)
    }

    /** Page load: the menu is closed, the navbar unscrolled, the links carry
        the classes of the markup, and every fade element is hidden before
        the fade observer starts observing it. */
    constructor (hrefs: seq<string>, initialActive: seq<bool>, fadeElements: seq<nat>)
      requires |initialActive| == |hrefs|
      ensures Valid()
      ensures !scrolled && !menuActive && !hamburgerX
      ensures this.hrefs == hrefs && active == initialActive && lastSection == None
      ensures fadeTargets == set e | e in fadeElements
      ensures observed == fadeTargets && fadedIn == []
      ensures forall e :: e in fadeTargets ==> style[e] == Hidden
    {
      var hidden: map<nat, FadeStyle> := map[];
      var watched: set<nat> := {};
      for i := 0 to |fadeElements|
        invariant forall e :: e in hidden <==> e in fadeElements[..i]
        invariant forall e :: e in hidden ==> hidden[e] == Hidden
        invariant watched == hidden.Keys
      {
        var el := fadeElements[i];
        hidden := hidden[el := Hidden];
        watched := watched + {el};
        assert fadeElements[..i + 1] == fadeElements[..i] + [el];
      }
      assert fadeElements[..|fadeElements|] == fadeElements;
      scrolled, menuActive, toggleActive, hamburgerX := false, false, false, false;
      this.hrefs := hrefs;
      active := initialActive;
      lastSection := None;
      fadeTargets := set e | e in fadeElements;
      style, observed, fadedIn := hidden, watched, [];
    }

    /** The scroll handler, with `window.scrollY` as `y`. */
    method Scroll(y: real)
      requires Valid()
      modifies this`scrolled
      ensures scrolled == (y > ScrollThreshold)
      ensures Valid()
    {
      if y > ScrollThreshold {
        scrolled := true;
      } else {
        scrolled := false;
      }
    }

    /** A click on `mobileToggle`: both classes flip and the hamburger
        follows the menu. */
    method ToggleClick()
      requires Valid()
      modifies this`menuActive, this`toggleActive, this`hamburgerX
      ensures menuActive == !old(menuActive) && toggleActive == menuActive
      ensures hamburgerX == menuActive
      ensures Valid()
    {
      menuActive := !menuActive;
      toggleActive := !toggleActive;
      if menuActive {
        hamburgerX := true;
      } else {
        hamburgerX := false;
      }
    }

    /** A click on a `.nav-link` with `window.innerWidth` equal to `width`:
        on a mobile width the menu closes and the hamburger resets, open or not. */
    method NavLinkClick(width: int)
      requires Valid()
      modifies this`menuActive, this`toggleActive, this`hamburgerX
      ensures if width <= MobileBreakpoint then !menuActive && !toggleActive && !hamburgerX
        else menuActive == old(menuActive) && toggleActive == old(toggleActive) && hamburgerX == old(hamburgerX)
      ensures Valid()
    {
      if width <= MobileBreakpoint {
        menuActive := false;
        toggleActive := false;
        hamburgerX := false;
      }
    }

    /** A click whose target lies outside `.nav-container`: an open menu
        closes and the hamburger resets. */
    method OutsideClick()
      requires Valid()
      modifies this`menuActive, this`toggleActive, this`hamburgerX
      ensures if old(menuActive) then !menuActive && !toggleActive && !hamburgerX
        else menuActive == old(menuActive) && toggleActive == old(toggleActive) && hamburgerX == old(hamburgerX)
      ensures Valid()
    {
      if menuActive {
        menuActive := false;
        toggleActive := false;
        hamburgerX := false;
      }
    }

    /** The debounced resize callback, run once the resizing has settled at
        `width`: an open menu closes on a desktop width. */
    method Resize(width: int)
      requires Valid()
      modifies this`menuActive, this`toggleActive, this`hamburgerX
      ensures if width > MobileBreakpoint && old(menuActive) then !menuActive && !toggleActive && !hamburgerX
        else menuActive == old(menuActive) && toggleActive == old(toggleActive) && hamburgerX == old(hamburgerX)
      ensures Valid()
    {
      if width > MobileBreakpoint && menuActive {
        menuActive := false;
        toggleActive := false;
        hamburgerX := false;
      }
    }

    /** A `keydown` on the document: Escape closes an open menu but, unlike
        the other ways of closing it, leaves the hamburger's spans as they are. */
    method KeyDown(key: string)
      requires Valid()
      modifies this`menuActive, this`toggleActive
      ensures if key == "Escape" && old(menuActive) then !menuActive && !toggleActive
        else menuActive == old(menuActive) && toggleActive == old(toggleActive)
      ensures Valid()
    {
      if key == "Escape" && menuActive {
        menuActive := false;
        toggleActive := false;
      }
    }

    /** The highlighter's reaction to section `id` intersecting: clear
        `active` on every link, then set it on the first link to `#id`. */
    method Highlight(id: string)
      requires Valid()
      modifies this`active, this`lastSection
      ensures Highlights(hrefs, id, active) && lastSection == Some(id)
      ensures Valid()
    {
      var i := 0;
      while i < |active|
        invariant 0 <= i <= |active| == |hrefs|
        invariant forall k :: 0 <= k < i ==> !active[k]
      {
        active := active[i := false];
        i := i + 1;
      }
      var href := "#" + id;
      var j := 0;
      while j < |hrefs| && hrefs[j] != href
        invariant 0 <= j <= |hrefs|
        invariant href !in hrefs[..j]
      {
        assert hrefs[..j + 1] == hrefs[..j] + [hrefs[j]];
        j := j + 1;
      }
      var first := FirstLink(hrefs, href);
      if j < |hrefs| {
        active := active[j := true];
        assert first == Some(j);
      } else {
        assert hrefs[..j] == hrefs;
      }
      lastSection := Some(id);
    }

    /** The section observer's callback on a batch of entries: each
        intersecting entry re-highlights, so the last one decides, and a
        batch without one changes nothing. */
    method SectionEntries(entries: seq<Entry<string>>)
      requires Valid()
      modifies this`active, this`lastSection
      ensures var last := LastIntersecting(entries);
        && (last.Some? ==> Highlights(hrefs, last.value, active) && lastSection == last)
        && (last.None? ==> active == old(active) && lastSection == old(lastSection))
      ensures Valid()
    {
      var i := 0;
      while i < |entries|
        invariant 0 <= i <= |entries|
        invariant Valid()
        invariant var last := LastIntersecting(entries[..i]);
          && (last.Some? ==> Highlights(hrefs, last.value, active) && lastSection == last)
          && (last.None? ==> active == old(active) && lastSection == old(lastSection))
      {
        assert entries[..i + 1][..i] == entries[..i];
        if entries[i].isIntersecting {
          Highlight(entries[i].target);
        }
        i := i + 1;
      }
      assert entries[..i] == entries;
    }

    /** One entry of the fade observer's callback: an intersecting target
        gets opacity 1 and no offset, and is unobserved; anything else
        changes nothing. */
    method FadeEntry(entry: Entry<nat>)
      requires Valid()
      requires entry.target in fadeTargets
      modifies this`style, this`observed, this`fadedIn
      ensures entry.isIntersecting ==>
        style == old(style)[entry.target := Shown] && observed == old(observed) - {entry.target}
      ensures !entry.isIntersecting ==> style == old(style) && observed == old(observed)
      ensures |old(fadedIn)| <= |fadedIn| && fadedIn[..|old(fadedIn)|] == old(fadedIn)
      ensures Valid()
    {
      if entry.isIntersecting {
        var el := entry.target;
        ghost var wasHidden := style[el] == Hidden;
        style := style[el := Shown];
        observed := observed - {el};
        if wasHidden {
          fadedIn := fadedIn + [el];
        }
      }
    }

    /** The fade observer's callback on a batch of entries: each intersecting
        target is shown and unobserved. An element therefore fades in at most
        once, and a shown element never changes again. */
    method FadeEntries(entries: seq<Entry<nat>>)
      requires Valid()
      requires forall k :: 0 <= k < |entries| ==> entries[k].target in fadeTargets
      modifies this`style, this`observed, this`fadedIn
      ensures observed == old(observed) - Intersected(entries)
      ensures style.Keys == old(style).Keys
      ensures forall e :: e in style ==>
        style[e] == if e in Intersected(entries) then Shown else old(style)[e]
      ensures |old(fadedIn)| <= |fadedIn| && fadedIn[..|old(fadedIn)|] == old(fadedIn)
      ensures Valid()
    {
      for i := 0 to |entries|
        invariant Valid()
        invariant observed == old(observed) - Intersected(entries[..i])
        invariant style.Keys == old(style).Keys
        invariant forall e :: e in style ==>
          style[e] == if e in Intersected(entries[..i]) then Shown else old(style)[e]
        invariant |old(fadedIn)| <= |fadedIn| && fadedIn[..|old(fadedIn)|] == old(fadedIn)
      {
        assert entries[..i + 1][..i] == entries[..i];
        FadeEntry(entries[i]);
      }
      assert entries[..|entries|] == entries;
    }
  }

  /** Scrolling to 0, then 100, then 0 pixels, then the threshold itself and one
      past it: the navbar flag follows `scrollY > 50` each time. */
  method ScrollScenario() returns (flags: seq<bool>)
    ensures flags == [false, true, false, false, true]
  {
    var page := new Page([], [], []);
    flags := [];
    var offsets := [0.0, 100.0, 0.0, 50.0, 51.0];
    for i := 0 to |offsets|
      invariant |flags| == i
      invariant forall k :: 0 <= k < i ==> flags[k] == (offsets[k] > ScrollThreshold)
      invariant page.Valid()
    {
      page.Scroll(offsets[i]);
      flags := flags + [page.scrolled];
    }
  }

  /** Opening the menu and pressing Escape closes it but leaves the
      hamburger drawn as an X; a click outside would have reset it. */
  method EscapeScenario() returns (menuOpen: bool, toggleOpen: bool, spansX: bool)
    ensures !menuOpen && !toggleOpen && spansX
  {
    var page := new Page([], [], []);
    page.ToggleClick();
    page.KeyDown("Escape");
    menuOpen, toggleOpen, spansX := page.menuActive, page.toggleActive, page.hamburgerX;
  }

  /** Two links to `#about`: only the first is marked, the initial marking
      on `#home` is cleared, and a later non-intersecting entry changes nothing. */
  method HighlightScenario() returns (active: seq<bool>)
    ensures active == [false, true, false]
  {
    var page := new Page(["#home", "#about", "#about"], [true, false, false], []);
    page.SectionEntries([Entry("about", true), Entry("home", false)]);
    assert LastIntersecting([Entry("about", true), Entry("home", false)]) == Some("about");
    assert "#" + "about" == "#about";
    assert FirstLink(page.hrefs, "#about") == Some(1);
    active := page.active;
    assert |active| == 3 && !active[0] && active[1] && !active[2];
  }

  /** A card that enters, leaves and re-enters the viewport fades in once,
      on its first entry, and is no longer observed afterwards. */
  method FadeScenario() returns (styles: seq<FadeStyle>, stillObserved: bool)
    ensures styles == [Hidden, Shown, Shown, Shown] && !stillObserved
  {
    var page := new Page([], [], [7]);
    styles := [page.style[7]];
    page.FadeEntries([Entry(7, true)]);
    styles := styles + [page.style[7]];
    page.FadeEntries([Entry(7, false)]);
    styles := styles + [page.style[7]];
    page.FadeEntries([Entry(7, true)]);
    styles := styles + [page.style[7]];
    stillObserved := 7 in page.observed;
  }
}
