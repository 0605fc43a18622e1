/**
 * The "back to list" link of the certificate and project pages: a click is
 * turned into a step back in the browser history whenever the history has
 * more than one entry, and is otherwise left to follow the link's target.
 */
module BackToList {

  /** What the click listener does with the click event. */
  datatype ClickHandling = ClickHandling(defaultPrevented: bool, wentBack: bool)

  /**
   * The listener of script.js lines 179-184: it prevents the default
   * navigation and calls history.back() exactly when history.length > 1.
   */
  function OnBackClick(historyLength: nat): (e: ClickHandling)
    ensures e.defaultPrevented <==> historyLength > 1
    ensures e.wentBack <==> historyLength > 1
  {
    if historyLength > 1 then ClickHandling(true, true) else ClickHandling(false, false)
  }

  /**
   * The browser's session history for the tab: its entries (history.length
   * is their number) and the index of the entry being shown.
   */
  datatype Session = Session(entries: seq<string>, index: nat)

  ghost predicate Valid(s: Session) {
    s.index < |s.entries|
  }

  function Current(s: Session): string
    requires Valid(s)
  {
    s.entries[s.index]
  }

  /** history.back(): show the previous entry, or do nothing when there is none. */
  function Back(s: Session): (r: Session)
    requires Valid(s)
    ensures Valid(r) && r.entries == s.entries
    ensures r.index == if s.index > 0 then s.index - 1 else s.index
  {
    if s.index > 0 then Session(s.entries, s.index - 1) else s
  }

  /** Following a link: the forward entries are dropped and the target becomes the current entry. */
  function FollowLink(s: Session, href: string): (r: Session)
    requires Valid(s)
    ensures Valid(r) && Current(r) == href
    ensures r.entries == s.entries[..s.index + 1] + [href]
  {
    Session(s.entries[..s.index + 1] + [href], s.index + 1)
  }

  /** The session after a click on the back link whose href is the given target. */
  function AfterBackClick(s: Session, href: string): (r: Session)
    requires Valid(s)
    ensures Valid(r)
    ensures |s.entries| > 1 ==> r == Back(s)
    ensures |s.entries| <= 1 ==> r == FollowLink(s, href)
  {
    var e := OnBackClick(|s.entries|);
    if e.defaultPrevented then Back(s) else FollowLink(s, href)
  }

  /**
   * What a click on the back link shows. A tab whose history holds only the
   * current page follows the link. Otherwise the click goes one entry back
   * in the history; when the page shown is the first entry (the history has
   * only forward entries), history.back() has nothing to go to and the
   * click changes nothing, since its default was prevented.
   */
  lemma BackClickOutcome(s: Session, href: string)
    requires Valid(s)
    ensures Valid(AfterBackClick(s, href))
    ensures |s.entries| == 1 ==>
              AfterBackClick(s, href) == Session([Current(s), href], 1)
    ensures |s.entries| > 1 && s.index > 0 ==>
              AfterBackClick(s, href) == Session(s.entries, s.index - 1)
    ensures |s.entries| > 1 && s.index == 0 ==> AfterBackClick(s, href) == s
  {
  }

  /** A tab opened on a certificate page that moved forward and came back: the click does nothing. */
  lemma BackClickStallsOnFirstEntry()
    ensures var s := Session(["certifications/aws.html", "index.html"], 0);
            Valid(s) && OnBackClick(|s.entries|).defaultPrevented && AfterBackClick(s, "certifications.html") == s
  {
  }
}
