/**
 Which menu link a page of the admin console belongs to, which link the menu marks, and who may
 open the page.
 */
module PageAccess {
  import opened Text

  datatype Link = Link(href: string, exact: bool, needs: Option<string>, alsoNeeds: seq<string>, children: seq<Link>)

  datatype Group = Group(key: string, links: seq<Link>)

  datatype Viewer = Viewer(roles: set<string>, permissions: set<string>)

  function LinksOf(links: seq<Link>): seq<Link> {
    if links == [] then []
    else var n := |links| - 1; LinksOf(links[..n]) + [links[n]] + links[n].children
  }

  /** Every link, flattened, in menu order: each link, then its children. */
  function AllNavLinks(nav: seq<Group>): seq<Link> {
    if nav == [] then [] else AllNavLinks(nav[..|nav| - 1]) + LinksOf(nav[|nav| - 1].links)
  }

  predicate Covers(href: string, path: string) { path == href || href + "/" <= path }

  predicate IsLinkActive(path: string, link: Link) { if link.exact then path == link.href else Covers(link.href, path) }

  /** The links a loop considers: all that cover the path, or only those the menu may mark. */
  predicate Applies(link: Link, path: string, marking: bool) {
    if marking then IsLinkActive(path, link) else Covers(link.href, path)
  }

  /** `!best || link.href.length > best.length`; an empty href counts as no best. */
  predicate Improves(best: Option<string>, href: string) {
    best.None? || best.value == "" || |href| > |best.value|
  }

  /** What the loops leave in `best`. */
  function Best(links: seq<Link>, path: string, marking: bool): Option<string> {
    if links == [] then None
    else
      var n := |links| - 1;
      var before := Best(links[..n], path, marking);
      if Applies(links[n], path, marking) && Improves(before, links[n].href) then Some(links[n].href) else before
  }

  method OwningLinkHref(path: string, nav: seq<Group>) returns (best: Option<string>)
    ensures best == Best(AllNavLinks(nav), path, false)
  {
    best := None;
    var links := AllNavLinks(nav);
    for i := 0 to |links|
      invariant best == Best(links[..i], path, false)
    {
      assert links[..i + 1][..i] == links[..i];
      if Covers(links[i].href, path) && Improves(best, links[i].href) {
        best := Some(links[i].href);
      }
    }
    assert links[..|links|] == links;
  }

  method ActiveHref(path: string, nav: seq<Group>) returns (best: Option<string>)
    ensures best == Best(AllNavLinks(nav), path, true)
  {
    best := None;
    var links := AllNavLinks(nav);
    for i := 0 to |links|
      invariant best == Best(links[..i], path, true)
    {
      assert links[..i + 1][..i] == links[..i];
      if IsLinkActive(path, links[i]) && Improves(best, links[i].href) {
        best := Some(links[i].href);
      }
    }
    assert links[..|links|] == links;
  }

  // ---------------------------------------------------------------------------------------
  // The loop is the longest match

  /** Declaratively: nothing when no link applies, else the href of an applying link no other exceeds. */
  ghost predicate IsLongest(best: Option<string>, links: seq<Link>, path: string, marking: bool) {
    match best
    case None => forall l :: l in links ==> !Applies(l, path, marking)
    case Some(h) =>
      && (exists l :: l in links && Applies(l, path, marking) && l.href == h)
      && (forall l :: l in links && Applies(l, path, marking) ==> |l.href| <= |h|)
  }

  lemma AppliesCovers(link: Link, path: string, marking: bool)
    requires Applies(link, path, marking)
    ensures Covers(link.href, path)
  {
  }

  /** Of two covering hrefs the longer begins with the shorter, so equal lengths are equal texts. */
  lemma CoversSameLength(a: string, b: string, path: string)
    requires Covers(a, path) && Covers(b, path) && |a| == |b|
    ensures a == b
  {
    assert a == path[..|a|];
    assert b == path[..|b|];
  }

  lemma {:induction false} BestIsLongest(links: seq<Link>, path: string, marking: bool)
    ensures IsLongest(Best(links, path, marking), links, path, marking)
    decreases |links|
  {
    hide Applies;
    if links != [] {
      var n := |links| - 1;
      BestIsLongest(links[..n], path, marking);
      assert links == links[..n] + [links[n]];
      assert links[n] in links;
      assert forall l :: l in links[..n] ==> l in links;
    }
  }

  /** At most one href is the longest. */
  lemma LongestIsUnique(a: Option<string>, b: Option<string>, links: seq<Link>, path: string, marking: bool)
    requires IsLongest(a, links, path, marking) && IsLongest(b, links, path, marking)
    ensures a == b
  {
    if a.Some? && b.Some? {
      var l :| l in links && Applies(l, path, marking) && l.href == a.value;
      var m :| m in links && Applies(m, path, marking) && m.href == b.value;
      AppliesCovers(l, path, marking);
      AppliesCovers(m, path, marking);
      CoversSameLength(a.value, b.value, path);
    }
  }

  /** The answer does not depend on the menu's order, or on links being repeated. */
  lemma MenuOrderIsIrrelevant(links: seq<Link>, other: seq<Link>, path: string, marking: bool)
    requires forall l :: l in links <==> l in other
    ensures Best(links, path, marking) == Best(other, path, marking)
  {
    hide Best, Applies;
    BestIsLongest(links, path, marking);
    BestIsLongest(other, path, marking);
    LongestIsUnique(Best(links, path, marking), Best(other, path, marking), links, path, marking);
  }

  /** The marked link is the owner exactly when there is none, or the owner may be marked at this path. */
  lemma MarkedIsOwnerExactly(links: seq<Link>, path: string)
    ensures var owner, marked := Best(links, path, false), Best(links, path, true);
            owner == marked <==>
              owner.None? || exists l :: l in links && l.href == owner.value && (!l.exact || l.href == path)
  {
    hide Best;
    var owner, marked := Best(links, path, false), Best(links, path, true);
    BestIsLongest(links, path, false);
    BestIsLongest(links, path, true);
    if owner.None? {
      assert forall l :: l in links ==> !Applies(l, path, false);
      assert forall l :: l in links && Applies(l, path, true) ==> Applies(l, path, false);
      assert IsLongest(None, links, path, true);
      LongestIsUnique(marked, None, links, path, true);
    } else if exists l :: l in links && l.href == owner.value && (!l.exact || l.href == path) {
      var l :| l in links && l.href == owner.value && (!l.exact || l.href == path);
      var o :| o in links && Applies(o, path, false) && o.href == owner.value;
      assert Applies(l, path, true);
      forall m | m in links && Applies(m, path, true) ensures |m.href| <= |owner.value| {
        assert Applies(m, path, false);
      }
      LongestIsUnique(marked, owner, links, path, true);
    }
  }

  // ---------------------------------------------------------------------------------------
  // Who may open a page

  /** The first link with this href. */
  function Find(links: seq<Link>, href: string): (l: Option<Link>)
    ensures l.Some? ==> l.value in links && l.value.href == href
    ensures l.None? ==> forall m :: m in links ==> m.href != href
  {
    if links == [] then None else if links[0].href == href then Some(links[0]) else Find(links[1..], href)
  }

  function Capabilities(path: string, links: seq<Link>): seq<string> {
    var href := Best(links, path, false);
    if href.None? || href.value == "" then []
    else
      var link := Find(links, href.value);
      if link.None? || link.value.needs.None? || link.value.needs.value == "" then []
      else [link.value.needs.value] + link.value.alsoNeeds
  }

  predicate PageAllowed(path: string, viewer: Viewer, links: seq<Link>) {
    || "SUPER_ADMIN" in viewer.roles
    || forall c :: c in Capabilities(path, links) ==> c in viewer.permissions
  }

  /** Nobody loses a page by holding more. */
  lemma AccessIsMonotone(path: string, less: Viewer, more: Viewer, links: seq<Link>)
    requires less.roles <= more.roles && less.permissions <= more.permissions
    requires PageAllowed(path, less, links)
    ensures PageAllowed(path, more, links)
  {
    hide Capabilities;
  }

  /** A longer path below a page is covered by everything that covers the page. */
  lemma CoversBelow(href: string, path: string, rest: string)
    requires Covers(href, path)
    ensures Covers(href, path + "/" + rest)
  {
    if path == href {
      assert (path + "/" + rest)[..|href| + 1] == href + "/";
    } else {
      assert (path + "/" + rest)[..|href| + 1] == path[..|href| + 1];
    }
  }

  /** A link that covers the longer path and is no longer than the page's own path covers the page. */
  lemma ShorterCovers(href: string, path: string, rest: string)
    requires Covers(href, path + "/" + rest) && |href| <= |path|
    ensures Covers(href, path)
  {
    var below := path + "/" + rest;
    assert below == path + ("/" + rest);
    assert href == below[..|href|] == path[..|href|];
    if |href| < |path| {
      assert href + "/" == below[..|href| + 1] == path[..|href| + 1];
    }
  }

  /** A detail page has its list's owner exactly when no link covers the detail page without covering the list. */
  lemma DetailInheritsExactly(path: string, rest: string, links: seq<Link>)
    ensures var below := path + "/" + rest;
            Best(links, below, false) == Best(links, path, false) <==>
              forall l :: l in links && Covers(l.href, below) ==> Covers(l.href, path)
  {
    hide Best, Covers;
    var below := path + "/" + rest;
    var owner := Best(links, path, false);
    BestIsLongest(links, path, false);
    BestIsLongest(links, below, false);
    forall l | l in links && Covers(l.href, path) ensures Covers(l.href, below) { CoversBelow(l.href, path, rest); }
    if forall l :: l in links && Covers(l.href, below) ==> Covers(l.href, path) {
      SameCovering(links, path, below, owner);
      LongestIsUnique(owner, Best(links, below, false), links, below, false);
    } else {
      var l :| l in links && Covers(l.href, below) && !Covers(l.href, path);
      if |l.href| <= |path| { ShorterCovers(l.href, path, rest); }
      assert Applies(l, below, false);
      if owner.Some? { OwnerIsNotLonger(links, path, owner.value); }
    }
  }

  lemma SameCovering(links: seq<Link>, path: string, below: string, best: Option<string>)
    requires IsLongest(best, links, path, false)
    requires forall l :: l in links ==> (Covers(l.href, path) <==> Covers(l.href, below))
    ensures IsLongest(best, links, below, false)
  {
    hide Covers;
    assert forall l :: l in links ==> (Applies(l, path, false) <==> Applies(l, below, false));
  }

  lemma OwnerIsNotLonger(links: seq<Link>, path: string, h: string)
    requires IsLongest(Some(h), links, path, false)
    ensures |h| <= |path|
  {
    var l :| l in links && Applies(l, path, false) && l.href == h;
    assert Covers(h, path);
  }

  /** So a detail page under a list with no deeper link is open to exactly the same people. */
  lemma DetailAccessIsInherited(path: string, rest: string, viewer: Viewer, links: seq<Link>)
    requires forall l :: l in links && Covers(l.href, path + "/" + rest) ==> Covers(l.href, path)
    ensures PageAllowed(path + "/" + rest, viewer, links) <==> PageAllowed(path, viewer, links)
  {
    DetailInheritsExactly(path, rest, links);
  }

  // ---------------------------------------------------------------------------------------
  // What a page needs, and what the menu holds

  /** An href covers itself and everything below it, a slash further on. */
  lemma CoversExactly(href: string, path: string)
    ensures Covers(href, path) <==> path == href || exists rest :: path == href + "/" + rest
  {
    if href + "/" <= path {
      assert path == href + "/" + path[|href| + 1..];
    }
    if rest :| path == href + "/" + rest {
      assert path == (href + "/") + rest;
    }
  }

  /** A group's links are its own and their children. */
  lemma {:induction false} LinksExactly(links: seq<Link>, l: Link)
    ensures l in LinksOf(links) <==> exists i :: 0 <= i < |links| && (l == links[i] || l in links[i].children)
    decreases |links|
  {
    if links != [] {
      var n := |links| - 1;
      LinksExactly(links[..n], l);
      assert links == links[..n] + [links[n]];
      if i :| 0 <= i < |links| && (l == links[i] || l in links[i].children) {
        if i < n { assert links[..n][i] == links[i]; }
      }
    }
  }

  /** The flattened menu holds every link of every group and every child of such a link, and nothing else. */
  lemma {:induction false} NavExactly(nav: seq<Group>, l: Link)
    ensures l in AllNavLinks(nav) <==>
              exists g, i :: 0 <= g < |nav| && 0 <= i < |nav[g].links|
                             && (l == nav[g].links[i] || l in nav[g].links[i].children)
    decreases |nav|
  {
    hide LinksOf;
    if nav != [] {
      var n := |nav| - 1;
      NavExactly(nav[..n], l);
      LinksExactly(nav[n].links, l);
      assert AllNavLinks(nav) == AllNavLinks(nav[..n]) + LinksOf(nav[n].links);
      if g, i :| 0 <= g < |nav| && 0 <= i < |nav[g].links|
                 && (l == nav[g].links[i] || l in nav[g].links[i].children) {
        if g < n { assert nav[..n][g] == nav[g]; }
      }
      if l in AllNavLinks(nav[..n]) {
        var g, i :| 0 <= g < |nav[..n]| && 0 <= i < |nav[..n][g].links|
                    && (l == nav[..n][g].links[i] || l in nav[..n][g].links[i].children);
        assert nav[g] == nav[..n][g];
      }
    }
  }

  /** Menu order: the groups one after another. */
  lemma {:induction false} GroupsInOrder(nav: seq<Group>, more: seq<Group>, group: Group)
    ensures AllNavLinks(nav + more) == AllNavLinks(nav) + AllNavLinks(more)
    ensures AllNavLinks([group]) == LinksOf(group.links)
    decreases |more|
  {
    hide LinksOf;
    assert AllNavLinks([]) == [] && [group][..0] == [];
    if more == [] {
      assert nav + more == nav;
    } else {
      var n := |more| - 1;
      GroupsInOrder(nav, more[..n], group);
      assert (nav + more)[..|nav| + n] == nav + more[..n];
    }
  }

  /** In a group each link right before its children. */
  lemma {:induction false} LinksBegin(l: Link, rest: seq<Link>)
    ensures LinksOf([l] + rest) == [l] + l.children + LinksOf(rest)
    decreases |rest|
  {
    if rest == [] {
      assert [l] + rest == [l] && [l][..0] == [];
      assert LinksOf([]) == [];
    } else {
      var n := |rest| - 1;
      LinksBegin(l, rest[..n]);
      assert ([l] + rest)[..n + 1] == [l] + rest[..n];
    }
  }

  /** Whether a viewer holds all that a link asks for. */
  predicate Meets(viewer: Viewer, link: Link) {
    link.needs.Some? && link.needs.value != "" ==>
      link.needs.value in viewer.permissions && forall c :: c in link.alsoNeeds ==> c in viewer.permissions
  }

  /**
   Who may open a page: the super admin; everybody, when no link covers it; else those who hold everything
   that the first link with the longest covering href asks for.
   */
  lemma PageAllowedExactly(path: string, viewer: Viewer, links: seq<Link>, owner: Option<string>)
    requires IsLongest(owner, links, path, false)
    ensures "SUPER_ADMIN" in viewer.roles ==> PageAllowed(path, viewer, links)
    ensures "SUPER_ADMIN" !in viewer.roles && (owner.None? || owner.value == "") ==> PageAllowed(path, viewer, links)
    ensures "SUPER_ADMIN" !in viewer.roles && owner.Some? && owner.value != "" ==>
              forall i :: 0 <= i < |links| && links[i].href == owner.value
                          && (forall j :: 0 <= j < i ==> links[j].href != owner.value) ==>
                (PageAllowed(path, viewer, links) <==> Meets(viewer, links[i]))
  {
    hide Best, Applies;
    BestIsLongest(links, path, false);
    LongestIsUnique(owner, Best(links, path, false), links, path, false);
    if "SUPER_ADMIN" !in viewer.roles && owner.Some? && owner.value != "" {
      forall i | 0 <= i < |links| && links[i].href == owner.value
                 && (forall j :: 0 <= j < i ==> links[j].href != owner.value)
        ensures PageAllowed(path, viewer, links) <==> Meets(viewer, links[i])
      {
        FindIsFirst(links, owner.value, i);
        NeedsAll(links[i], viewer.permissions);
      }
    }
  }

  lemma {:induction false} FindIsFirst(links: seq<Link>, href: string, i: nat)
    requires i < |links| && links[i].href == href && forall j :: 0 <= j < i ==> links[j].href != href
    ensures Find(links, href) == Some(links[i])
    decreases |links|
  {
    if i > 0 {
      assert links[0].href != href;
      assert forall j :: 0 <= j < i - 1 ==> links[1..][j] == links[j + 1];
      FindIsFirst(links[1..], href, i - 1);
    }
  }

  lemma NeedsAll(link: Link, held: set<string>)
    ensures link.needs.Some? ==>
              ((forall c :: c in [link.needs.value] + link.alsoNeeds ==> c in held)
               <==> link.needs.value in held && forall c :: c in link.alsoNeeds ==> c in held)
  {
    if link.needs.Some? {
      assert link.needs.value in [link.needs.value] + link.alsoNeeds;
      assert forall c :: c in link.alsoNeeds ==> c in [link.needs.value] + link.alsoNeeds;
    }
  }
}
