/**
 * The basic page chrome of script.js: the mobile menu toggle and the
 * highlighting of the navigation link that points at the current page.
 */
module Chrome {
  import opened Dom
  import PagePath

  const OpenClass: string := "open"
  const ActiveClass: string := "active"
  const AriaExpanded: string := "aria-expanded"

  /** The value written to aria-expanded for an open or closed menu. */
  function AriaValue(open: bool): (v: string)
    ensures v == "true" <==> open
    ensures !open ==> v == "false"
  {
    if open then "true" else "false"
  }

  /** Whether the menu is currently shown. */
  ghost predicate IsOpen(menu: Element)
    reads menu
  {
    OpenClass in menu.classList
  }

  /**
   * One click on the menu toggle: the menu's "open" class is toggled and
   * the toggle's aria-expanded attribute is set to mirror the new state.
   */
  method ClickMenuToggle(menuToggle: Element, menu: Element)
    modifies menu`classList, menuToggle`attributes
    ensures menu.classList == Toggle(old(menu.classList), OpenClass).1
    ensures IsOpen(menu) <==> !old(IsOpen(menu))
    ensures menuToggle.attributes == old(menuToggle.attributes)[AriaExpanded := AriaValue(IsOpen(menu))]
    ensures menuToggle.attributes[AriaExpanded] == "true" <==> IsOpen(menu)
  {
    var toggled := Toggle(menu.classList, OpenClass);
    menu.classList := toggled.1;
    var open := toggled.0;
    menuToggle.attributes := menuToggle.attributes[AriaExpanded := AriaValue(open)];
  }

  /** The class list a link has after highlighting, given the page name. */
  function Highlighted(href: Option<string>, classes: set<string>, page: string): (r: set<string>)
    ensures classes <= r
    ensures ActiveClass in r <==> ActiveClass in classes || href == Some(page)
    ensures r - {ActiveClass} == classes - {ActiveClass}
    ensures href != Some(page) ==> r == classes
  {
    if href == Some(page) then classes + {ActiveClass} else classes
  }

  /** Highlighting is idempotent: running it twice is the same as once. */
  lemma HighlightedIdempotent(href: Option<string>, classes: set<string>, page: string)
    ensures Highlighted(href, Highlighted(href, classes, page), page) == Highlighted(href, classes, page)
  {
  }

  /**
   * The forEach loop over the menu links for a given page name: every link
   * whose href attribute equals it gains "active", every other link is left
   * as it is. A link listed twice is marked once, as adding a class is
   * idempotent.
   */
  method MarkLinks(links: seq<Element>, page: string)
    modifies (set l | l in links)`classList
    ensures forall i :: 0 <= i < |links| ==>
              links[i].classList == Highlighted(links[i].GetAttribute("href"), old(links[i].classList), page)
  {
    var i := 0;
    while i < |links|
      invariant 0 <= i <= |links|
      invariant forall j :: 0 <= j < |links| ==>
                  var marked := Highlighted(links[j].GetAttribute("href"), old(links[j].classList), page);
                  links[j].classList == old(links[j].classList) || links[j].classList == marked
      invariant forall j :: 0 <= j < i ==>
                  links[j].classList == Highlighted(links[j].GetAttribute("href"), old(links[j].classList), page)
    {
      var a := links[i];
      if a.GetAttribute("href") == Some(page) {
        a.classList := a.classList + {ActiveClass};
      }
      i := i + 1;
    }
  }

  /**
   * Active-link highlighting for the current location: the page name is
   * taken from the path, and the menu links are marked against it. The
   * callback recomputes the name for every link, but the location does not
   * change during the loop, so it is the same name each time.
   */
  method HighlightActive(links: seq<Element>, pathname: string)
    modifies (set l | l in links)`classList
    ensures forall i :: 0 <= i < |links| ==>
              links[i].classList ==
                Highlighted(links[i].GetAttribute("href"), old(links[i].classList), PagePath.PageName(pathname))
  {
    var path := PagePath.PageName(pathname);
    MarkLinks(links, path);
  }
}
