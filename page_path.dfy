/**
 * The page name the navigation highlights: the last '/'-separated segment
 * of the location's path, or "index.html" when that segment is empty
 * (JavaScript's `pathname.split('/').pop() || 'index.html'`).
 */
module PagePath {

  const DefaultPage: string := "index.html"

  /** The final element of a non-empty sequence (JavaScript's `pop()` result). */
  function Last<T>(xs: seq<T>): (x: T)
    requires |xs| >= 1
  {
    xs[|xs| - 1]
  }

  /** pop() returns the element whose removal leaves the rest of the sequence. */
  lemma LastSplitsOff<T>(xs: seq<T>)
    requires |xs| >= 1
    ensures xs == xs[..|xs| - 1] + [Last(xs)]
  {
  }

  /** Array.prototype.join with the separator "/". */
  function Join(segments: seq<string>): string
    requires |segments| >= 1
  {
    if |segments| == 1 then segments[0]
    else Join(segments[..|segments| - 1]) + "/" + Last(segments)
  }

  /**
   * The index of the last occurrence of c in s, or -1 when there is none
   * (String.prototype.lastIndexOf).
   */
  function LastIndexOf(s: string, c: char): (k: int)
    ensures -1 <= k < |s|
    ensures k >= 0 ==> s[k] == c
    ensures forall j :: k < j < |s| ==> s[j] != c
  {
    if |s| == 0 then -1
    else if s[|s| - 1] == c then |s| - 1
    else LastIndexOf(s[..|s| - 1], c)
  }

  /**
   * lastIndexOf is determined by its contract: an index holding c with no c
   * after it, or -1 when c does not occur at all.
   */
  lemma LastIndexOfIs(s: string, c: char, k: int)
    requires -1 <= k < |s|
    requires k >= 0 ==> s[k] == c
    requires forall j :: k < j < |s| ==> s[j] != c
    ensures LastIndexOf(s, c) == k
  {
  }

  /**
   * String.prototype.split with the separator "/": the segments between
   * the separators, in order, always at least one, none holding a '/'.
   * Joining them with '/' gives s back (JoinSplit), and it is the only
   * such sequence of segments (SplitJoin).
   */
  function Split(s: string): (r: seq<string>)
    ensures |r| >= 1
    ensures forall i :: 0 <= i < |r| ==> '/' !in r[i]
    decreases |s|
  {
    var k := LastIndexOf(s, '/');
    if k < 0 then [s]
    else
      var tail := s[k + 1..];
      assert '/' !in tail by {
        assert forall j :: 0 <= j < |tail| ==> tail[j] == s[k + 1 + j];
      }
      Split(s[..k]) + [tail]
  }

  /** The last segment of the split is exactly what follows the last '/'. */
  lemma LastSegmentAfterLastSlash(s: string)
    ensures Last(Split(s)) == s[LastIndexOf(s, '/') + 1..]
  {
  }

  /**
   * The page name of script.js line 21. It is never empty, never holds a
   * '/', and is the part of the path after its last '/' unless that part
   * is empty, in which case it is "index.html".
   */
  function PageName(pathname: string): (page: string)
    ensures page != "" && '/' !in page
    ensures var k := LastIndexOf(pathname, '/');
            page == if k + 1 == |pathname| then DefaultPage else pathname[k + 1..]
  {
    var segments := Split(pathname);
    var segment := Last(segments);
    LastSegmentAfterLastSlash(pathname);
    assert '/' !in segment by {
      assert segment == segments[|segments| - 1];
    }
    assert '/' !in DefaultPage by {
      assert forall i :: 0 <= i < |DefaultPage| ==> DefaultPage[i] != '/';
    }
    if segment == "" then DefaultPage else segment
  }

  /** An empty path, or one naming a directory, gives "index.html". */
  lemma PageNameOfDirectory(pathname: string)
    requires pathname == "" || pathname[|pathname| - 1] == '/'
    ensures PageName(pathname) == DefaultPage
  {
    if pathname != "" {
      LastIndexOfIs(pathname, '/', |pathname| - 1);
    }
  }

  /** A path naming a file under a directory gives the part after its last '/'. */
  lemma PageNameOfNestedFile(pathname: string)
    requires pathname != "" && pathname[|pathname| - 1] != '/'
    requires '/' in pathname
    ensures var k := LastIndexOf(pathname, '/');
            0 <= k && pathname[k] == '/' && PageName(pathname) == pathname[k + 1..]
  {
    var k := LastIndexOf(pathname, '/');
    var j :| 0 <= j < |pathname| && pathname[j] == '/';
    assert j <= k;
    assert k + 1 != |pathname|;
  }

  /** A path without any '/' names itself. */
  lemma PageNameOfBareFile(pathname: string)
    requires pathname != "" && '/' !in pathname
    ensures PageName(pathname) == pathname
  {
    assert forall j :: 0 <= j < |pathname| ==> pathname[j] != '/';
    LastIndexOfIs(pathname, '/', -1);
    assert pathname[0..] == pathname;
  }

  /** The parts of a + "/" + b: a, then the '/', then b, which holds no '/'. */
  lemma JoinedParts(a: string, b: string)
    requires '/' !in b
    ensures var s := a + "/" + b;
            && s[|a|] == '/'
            && (forall j :: |a| < j < |s| ==> s[j] != '/')
            && s[..|a|] == a && s[|a| + 1..] == b
  {
    var s := a + "/" + b;
    forall j | |a| < j < |s|
      ensures s[j] != '/'
    {
      assert s[j] == b[j - |a| - 1];
    }
    assert s[..|a|] == a;
    assert s[|a| + 1..] == b;
  }

  /** The last '/' of a + "/" + b, when b holds none, is the one between them. */
  lemma LastSlashOfJoined(a: string, b: string)
    requires '/' !in b
    ensures LastIndexOf(a + "/" + b, '/') == |a|
    ensures (a + "/" + b)[..|a|] == a && (a + "/" + b)[|a| + 1..] == b
  {
    JoinedParts(a, b);
    LastIndexOfIs(a + "/" + b, '/', |a|);
  }

  /** Splitting and joining again gives back the path. */
  lemma {:induction false} JoinSplit(s: string)
    ensures Join(Split(s)) == s
    decreases |s|
  {
    var k := LastIndexOf(s, '/');
    if k >= 0 {
      var front := Split(s[..k]);
      JoinSplit(s[..k]);
      var r := Split(s);
      assert r == front + [s[k + 1..]];
      assert r[..|r| - 1] == front;
      assert s == s[..k] + "/" + s[k + 1..];
    }
  }

  /** Joining separator-free segments and splitting again gives back the segments. */
  lemma {:induction false} SplitJoin(segments: seq<string>)
    requires |segments| >= 1
    requires forall i :: 0 <= i < |segments| ==> '/' !in segments[i]
    ensures Split(Join(segments)) == segments
  {
    var n := |segments|;
    var last := segments[n - 1];
    if n == 1 {
      assert forall j :: 0 <= j < |last| ==> last[j] != '/';
      LastIndexOfIs(last, '/', -1);
    } else {
      var front := segments[..n - 1];
      assert forall i :: 0 <= i < |front| ==> '/' !in front[i] by {
        forall i | 0 <= i < |front| ensures '/' !in front[i] {
          assert front[i] == segments[i];
        }
      }
      SplitJoin(front);
      LastSlashOfJoined(Join(front), last);
      assert front + [last] == segments;
    }
  }

  /** A page at the root of the site, the site root itself and the empty path. */
  lemma PageNameExamples()
    ensures PageName("projects.html") == "projects.html"
    ensures PageName("/") == DefaultPage
    ensures PageName("") == DefaultPage
  {
    var top := "projects.html";
    assert forall i :: 0 <= i < |top| ==> top[i] != '/';
    PageNameOfBareFile(top);
    PageNameOfDirectory("/");
    PageNameOfDirectory("");
  }

  /** A page under a directory is named by its file name alone. */
  lemma NestedPageNameExample()
    ensures PageName("/portfolio/projects.html") == "projects.html"
  {
    var nested := "/portfolio/projects.html";
    assert nested[10] == '/';
    assert forall j :: 10 < j < |nested| ==> nested[j] != '/';
    LastIndexOfIs(nested, '/', 10);
    assert nested[11..] == "projects.html";
  }
}
