/**
 * The header navigation of `components/NavLinks.tsx`: the link set for the role, and
 * the single link highlighted for the current path, the longest href that is the
 * path itself or one of its ancestors.
 */
module NavLinks {
  import opened Wrappers
  import opened Strings

  datatype Link = Link(name: string, href: string)

  const StudentLinks := [Link("Dashboard", "/dashboard"), Link("Exams", "/exams"),
                         Link("Results", "/results"), Link("Profile", "/profile")]

  const AdminLinks := [Link("Admin Dashboard", "/admin"), Link("Manage Exams", "/admin/exams"),
                       Link("Results", "/admin/results")]

  function VisibleLinks(isAdmin: bool): (links: seq<Link>)
    ensures isAdmin ==> links == AdminLinks
    ensures !isAdmin ==> links == StudentLinks
  {
    if isAdmin then AdminLinks else StudentLinks
  }

  function Hrefs(links: seq<Link>): (hrefs: seq<string>)
    ensures |hrefs| == |links| && forall i :: 0 <= i < |links| ==> hrefs[i] == links[i].href
  {
    if |links| == 0 then [] else [links[0].href] + Hrefs(links[1..])
  }

  /** The path is the href itself or lies below it, one whole segment at a time. */
  predicate Matches(pathname: string, href: string)
  {
    pathname == href || StartsWith(pathname, href + "/")
  }

  /** `hrefs.filter(...)`: the matching hrefs, in their original order. */
  function MatchingHrefs(pathname: string, hrefs: seq<string>): (ms: seq<string>)
    ensures forall h :: h in ms <==> h in hrefs && Matches(pathname, h)
  {
    if |hrefs| == 0 then []
    else
      var rest := MatchingHrefs(pathname, hrefs[1..]);
      if Matches(pathname, hrefs[0]) then [hrefs[0]] + rest else rest
  }

  /**
   * The first element of `matches.sort((a, b) => b.length - a.length)`: the sort is
   * stable, so it is the earliest of the longest candidates.
   */
  function Longest(ms: seq<string>): (h: string)
    requires |ms| >= 1
    ensures h in ms
    ensures forall g :: g in ms ==> |g| <= |h|
    ensures exists k :: 0 <= k < |ms| && ms[k] == h && forall j :: 0 <= j < k ==> |ms[j]| < |h|
  {
    if |ms| == 1 then ms[0]
    else
      var rest := Longest(ms[1..]);
      if |rest| > |ms[0]| then
        var k :| 0 <= k < |ms[1..]| && ms[1..][k] == rest && forall j :: 0 <= j < k ==> |ms[1..][j]| < |rest|;
        assert ms[k + 1] == rest;
        rest
      else
        ms[0]
  }

  /** `activeHref`: the longest matching visible href, or `None` when none matches. */
  function ActiveHref(isAdmin: bool, pathname: string): Option<string>
  {
    var matches := MatchingHrefs(pathname, Hrefs(VisibleLinks(isAdmin)));
    if |matches| == 0 then None else Some(Longest(matches))
  }

  /** The link is drawn highlighted (`link.href === activeHref`). */
  predicate IsActive(isAdmin: bool, pathname: string, link: Link)
  {
    ActiveHref(isAdmin, pathname) == Some(link.href)
  }

  /**
   * No active link exactly when no visible href matches; otherwise the active href is
   * visible, matches, and is at least as long as every matching visible href.
   */
  lemma ActiveHrefIsLongestMatch(isAdmin: bool, pathname: string)
    ensures var hrefs := Hrefs(VisibleLinks(isAdmin));
      && (ActiveHref(isAdmin, pathname).None? <==> forall h :: h in hrefs ==> !Matches(pathname, h))
      && (ActiveHref(isAdmin, pathname).Some? ==>
            var a := ActiveHref(isAdmin, pathname).value;
            && a in hrefs && Matches(pathname, a)
            && forall h :: h in hrefs && Matches(pathname, h) ==> |h| <= |a|)
  {
    var hrefs := Hrefs(VisibleLinks(isAdmin));
    var matches := MatchingHrefs(pathname, hrefs);
    if |matches| > 0 {
      assert matches[0] in matches;
    }
  }

  /** The hrefs of both menus are pairwise distinct. */
  lemma VisibleHrefsDistinct(isAdmin: bool)
    ensures var links := VisibleLinks(isAdmin);
      forall i, j :: 0 <= i < j < |links| ==> links[i].href != links[j].href
  {
    assert |"/dashboard"| == 10 && |"/exams"| == 6 && |"/results"| == 8 && |"/profile"| == 8;
    assert "/results"[1] != "/profile"[1];
    assert |"/admin"| == 6 && |"/admin/exams"| == 12 && |"/admin/results"| == 14;
  }

  /** At most one rendered link is highlighted. */
  lemma AtMostOneActive(isAdmin: bool, pathname: string, i: nat, j: nat)
    requires i < |VisibleLinks(isAdmin)| && j < |VisibleLinks(isAdmin)|
    requires IsActive(isAdmin, pathname, VisibleLinks(isAdmin)[i])
    requires IsActive(isAdmin, pathname, VisibleLinks(isAdmin)[j])
    ensures i == j
  {
    VisibleHrefsDistinct(isAdmin);
  }

  /** A deeper admin page highlights the most specific section, not the dashboard. */
  lemma NestedAdminPage()
    ensures ActiveHref(true, "/admin/exams/x") == Some("/admin/exams")
  {
    var p := "/admin/exams/x";
    assert Matches(p, "/admin/exams") by {
      assert p[..|"/admin/exams/"|] == "/admin/exams/";
    }
    assert Matches(p, "/admin") by {
      assert p[..|"/admin/"|] == "/admin/";
    }
    assert !Matches(p, "/admin/results") by {
      assert p[7] != "/admin/results/"[7];
    }
    var hrefs := Hrefs(AdminLinks);
    assert hrefs == ["/admin", "/admin/exams", "/admin/results"];
    assert hrefs[1..] == ["/admin/exams", "/admin/results"];
    assert hrefs[2..] == ["/admin/results"];
    assert MatchingHrefs(p, hrefs[2..]) == [];
    assert MatchingHrefs(p, hrefs[1..]) == ["/admin/exams"];
    assert MatchingHrefs(p, hrefs) == ["/admin", "/admin/exams"];
    assert Longest(["/admin", "/admin/exams"]) == "/admin/exams" by {
      assert ["/admin", "/admin/exams"][1..] == ["/admin/exams"];
    }
  }

  /** A path that merely shares a prefix with an href does not match it. */
  lemma SegmentBoundary()
    ensures !Matches("/adminx", "/admin")
    ensures Matches("/admin", "/admin") && Matches("/admin/", "/admin")
  {
    assert "/adminx"[6] != "/admin/"[6];
    assert "/admin/"[..7] == "/admin" + "/";
  }
}
