/**
 * Whether a navigation link is active for the current page
 * (src/components/navigation/isActive.ts): exact matching compares the
 * paths, non-exact matching also accepts any page below the link's path.
 */
module Navigation {

  /** `s.startsWith(p)`: p is a prefix of s. */
  function StartsWith(s: string, p: string): (r: bool)
    ensures r <==> |p| <= |s| && s[..|p|] == p
  {
    if p == [] then true
    else if s == [] then false
    else s[0] == p[0] && StartsWith(s[1..], p[1..])
  }

  /** isActive(currentPath, href, exact). */
  function IsActive(currentPath: string, href: string, exact: bool): (r: bool)
    ensures exact ==> (r <==> currentPath == href)
    ensures !exact ==> (r <==> currentPath == href || (|currentPath| > |href| && currentPath[..|href| + 1] == href + "/"))
  {
    if exact then currentPath == href
    else currentPath == href || StartsWith(currentPath, href + "/")
  }

  /** A path is active for itself, whichever matching is asked for. */
  lemma ActiveForItself(path: string, exact: bool)
    ensures IsActive(path, path, exact)
  {
  }

  /** Exact matching only narrows: an exact match is also a non-exact one. */
  lemma ExactNarrows(currentPath: string, href: string)
    ensures IsActive(currentPath, href, true) ==> IsActive(currentPath, href, false)
  {
  }

  /** A page below the link's path, separated by "/", is active only under
      non-exact matching. */
  lemma BelowIsActive(href: string, rest: string)
    ensures IsActive(href + "/" + rest, href, false)
    ensures !IsActive(href + "/" + rest, href, true)
  {
    var s := href + "/" + rest;
    assert s[..|href| + 1] == href + "/";
    assert |s| > |href|;
  }

  /** A path that merely extends the link's path without a "/" right after
      it is not active: "/blogging" is not under "/blog". */
  lemma SharedPrefixNotActive(href: string, rest: string, exact: bool)
    requires rest != [] && rest[0] != '/'
    ensures !IsActive(href + rest, href, exact)
  {
    var s := href + rest;
    assert s[..|href| + 1][|href|] == rest[0] != (href + "/")[|href|];
  }

  /** The example from the site's navigation. */
  lemma BloggingIsNotBlog()
    ensures !IsActive("/blogging", "/blog", false)
  {
    assert "/blogging" == "/blog" + "ging";
    SharedPrefixNotActive("/blog", "ging", false);
  }

  /** An active path is at least as long as the link's path. */
  lemma ActiveIsLonger(currentPath: string, href: string, exact: bool)
    ensures IsActive(currentPath, href, exact) ==> |currentPath| >= |href|
  {
  }
}
