/**
 * The navigation controller of app.js: the nav-click scroll target, explicit
 * marking of the active `.nav-link`, the scroll-derived active section and the
 * header's `scrolled` threshold (app.js:40-78, 535-567).
 */
module Navigation {
  import opened Wrappers
  import MobileMenu

  /** A `section[id]` element: its `id` attribute, `offsetTop` and `offsetHeight`. */
  datatype Section = Section(id: string, top: int, height: nat)

  /** A `.nav-link` element: its `href` attribute and whether it carries the `active` class. */
  datatype NavLink = NavLink(href: string, active: bool)

  /** Distance below the scroll position at which a section counts as the current one. */
  const Lookahead: int := 150
  /** Header height assumed when `.navigation` reports an `offsetHeight` of 0. */
  const DefaultNavHeight: nat := 80
  /** Extra space left between the fixed header and a scrolled-to section. */
  const Gap: int := 10
  /** `pageYOffset` above which the header carries the `scrolled` class. */
  const ScrolledThreshold: int := 50

  // ---------------------------------------------------------------------------
  // Scroll-derived active section (highlightActiveNavItem)
  // ---------------------------------------------------------------------------

  /** The section's vertical span `[top, top + height)` contains `y`. */
  predicate Spans(s: Section, y: int) {
    s.top <= y < s.top + s.height
  }

  /** The id of the last section, in document order, whose span contains `y`; "" when none does. */
  function ActiveSection(sections: seq<Section>, y: int): (current: string)
    ensures current != "" ==> exists i :: 0 <= i < |sections| && Spans(sections[i], y) && sections[i].id == current
  {
    if sections == [] then ""
    else if Spans(sections[|sections| - 1], y) then sections[|sections| - 1].id
    else ActiveSection(sections[..|sections| - 1], y)
  }

  /** When no section's span contains `y`, there is no current section. */
  lemma {:induction false} ActiveSectionNone(sections: seq<Section>, y: int)
    requires forall i :: 0 <= i < |sections| ==> !Spans(sections[i], y)
    ensures ActiveSection(sections, y) == ""
  {
    if sections != [] {
      var n := |sections| - 1;
      assert forall i :: 0 <= i < n ==> sections[..n][i] == sections[i];
      ActiveSectionNone(sections[..n], y);
    }
  }

  /** A matching section with no matching section after it is the current one. */
  lemma {:induction false} ActiveSectionLastMatch(sections: seq<Section>, y: int, i: nat)
    requires i < |sections| && Spans(sections[i], y)
    requires forall j :: i < j < |sections| ==> !Spans(sections[j], y)
    ensures ActiveSection(sections, y) == sections[i].id
  {
    var n := |sections| - 1;
    if i < n {
      var init := sections[..n];
      assert forall j :: 0 <= j < n ==> init[j] == sections[j];
      ActiveSectionLastMatch(init, y, i);
    }
  }

  /** Conversely, a non-empty current id belongs to a matching section with no match after it. */
  lemma {:induction false} ActiveSectionIsMatch(sections: seq<Section>, y: int)
    ensures ActiveSection(sections, y) == "" ||
              exists i :: 0 <= i < |sections| && Spans(sections[i], y) &&
                (forall j :: i < j < |sections| ==> !Spans(sections[j], y)) &&
                ActiveSection(sections, y) == sections[i].id
  {
    if sections != [] {
      var n := |sections| - 1;
      var init := sections[..n];
      if Spans(sections[n], y) {
        assert ActiveSection(sections, y) == sections[n].id;
      } else {
        assert ActiveSection(sections, y) == ActiveSection(init, y);
        ActiveSectionIsMatch(init, y);
        if ActiveSection(init, y) != "" {
          var i :| 0 <= i < n && Spans(init[i], y) &&
                   (forall j :: i < j < n ==> !Spans(init[j], y)) &&
                   ActiveSection(init, y) == init[i].id;
          assert sections[i] == init[i];
          forall j | i < j < |sections| ensures !Spans(sections[j], y) {
            if j < n {
              assert sections[j] == init[j];
            }
          }
          assert Spans(sections[i], y) && ActiveSection(sections, y) == sections[i].id;
        }
      }
    }
  }

  /** A later matching section overrides every earlier one. */
  lemma {:induction false} LaterMatchWins(sections: seq<Section>, more: seq<Section>, y: int)
    requires exists k :: 0 <= k < |more| && Spans(more[k], y)
    ensures ActiveSection(sections + more, y) == ActiveSection(more, y)
  {
    var s := sections + more;
    var n := |more| - 1;
    if Spans(more[n], y) {
      assert s[|s| - 1] == more[n];
    } else {
      assert s[..|s| - 1] == sections + more[..n];
      assert s[|s| - 1] == more[n];
      var k :| 0 <= k < |more| && Spans(more[k], y);
      assert more[..n][k] == more[k];
      LaterMatchWins(sections, more[..n], y);
    }
  }

  /**
   * The `sections.forEach` scan of `highlightActiveNavItem`: every section whose span
   * contains `scrollY + 150` overwrites `current`.
   */
  method ResolveActiveSection(sections: seq<Section>, scrollY: int) returns (current: string)
    ensures current == ActiveSection(sections, scrollY + Lookahead)
  {
    current := "";
    var scrollPosition := scrollY + Lookahead;
    var i := 0;
    while i < |sections|
      invariant 0 <= i <= |sections|
      invariant current == ActiveSection(sections[..i], scrollPosition)
    {
      var section := sections[i];
      if scrollPosition >= section.top && scrollPosition < section.top + section.height {
        current := section.id;
      }
      assert sections[..i + 1][..i] == sections[..i];
      i := i + 1;
    }
    assert sections[..i] == sections;
  }

  // ---------------------------------------------------------------------------
  // Marking the active link (updateActiveNavLink and the second half of highlightActiveNavItem)
  // ---------------------------------------------------------------------------

  /** One link after the loop body: `active` removed, then added back iff its href is the target. */
  function Mark(link: NavLink, target: string): (r: NavLink)
    ensures r.href == link.href && (r.active <==> link.href == target)
  {
    var cleared := link.(active := false);
    if cleared.href == target then cleared.(active := true) else cleared
  }

  /** Every link after the marking loop. */
  function MarkActive(links: seq<NavLink>, target: string): (r: seq<NavLink>)
    ensures |r| == |links|
  {
    seq(|links|, i requires 0 <= i < |links| => Mark(links[i], target))
  }

  /** After marking, a link is active exactly when its href is the target; hrefs are untouched. */
  lemma MarkActiveExactly(links: seq<NavLink>, target: string)
    ensures forall i :: 0 <= i < |links| ==>
              MarkActive(links, target)[i].href == links[i].href &&
              (MarkActive(links, target)[i].active <==> links[i].href == target)
  {
  }

  /** No stale flag survives: the outcome depends only on the hrefs, never on the old flags. */
  lemma MarkActiveForgetsOldFlags(a: seq<NavLink>, b: seq<NavLink>, target: string)
    requires |a| == |b|
    requires forall i :: 0 <= i < |a| ==> a[i].href == b[i].href
    ensures MarkActive(a, target) == MarkActive(b, target)
  {
  }

  /** Marking twice with the same target is the same as marking once. */
  lemma MarkActiveIdempotent(links: seq<NavLink>, target: string)
    ensures MarkActive(MarkActive(links, target), target) == MarkActive(links, target)
  {
  }

  /** With distinct hrefs, exactly one link is active when the target is among them, none otherwise. */
  lemma MarkActiveSingle(links: seq<NavLink>, target: string)
    requires forall i, j :: 0 <= i < j < |links| ==> links[i].href != links[j].href
    ensures forall i, j ::
              (0 <= i < |links| && 0 <= j < |links| &&
               MarkActive(links, target)[i].active && MarkActive(links, target)[j].active) ==> i == j
    ensures (exists i :: 0 <= i < |links| && links[i].href == target) <==>
              (exists i :: 0 <= i < |links| && MarkActive(links, target)[i].active)
  {
    var r := MarkActive(links, target);
    if i :| 0 <= i < |links| && links[i].href == target {
      assert r[i].active;
    }
  }

  /** `updateActiveNavLink`: clear every link, then mark those whose href equals `targetId`. */
  method UpdateActiveNavLink(links: array<NavLink>, targetId: string)
    modifies links
    ensures links[..] == MarkActive(old(links[..]), targetId)
  {
    var i := 0;
    while i < links.Length
      invariant 0 <= i <= links.Length
      invariant forall k :: 0 <= k < i ==> links[k] == Mark(old(links[k]), targetId)
      invariant forall k :: i <= k < links.Length ==> links[k] == old(links[k])
    {
      links[i] := links[i].(active := false);
      if links[i].href == targetId {
        links[i] := links[i].(active := true);
      }
      i := i + 1;
    }
  }

  /** `highlightActiveNavItem`: the links are rewritten for the target `'#' + current`. */
  method HighlightActiveNavItem(sections: seq<Section>, scrollY: int, links: array<NavLink>)
    modifies links
    ensures links[..] == MarkActive(old(links[..]), "#" + ActiveSection(sections, scrollY + Lookahead))
  {
    var current := ResolveActiveSection(sections, scrollY);
    UpdateActiveNavLink(links, "#" + current);
  }

  // ---------------------------------------------------------------------------
  // Nav-click scroll target
  // ---------------------------------------------------------------------------

  /** `document.querySelector(href)` over the sections: the first one whose `'#' + id` is the href. */
  function FindSection(sections: seq<Section>, href: string): (r: Option<nat>)
    ensures r.Some? ==> r.value < |sections| && "#" + sections[r.value].id == href &&
                        forall j :: 0 <= j < r.value ==> "#" + sections[j].id != href
    ensures r.None? ==> forall j :: 0 <= j < |sections| ==> "#" + sections[j].id != href
  {
    if sections == [] then None
    else if "#" + sections[0].id == href then Some(0)
    else match FindSection(sections[1..], href)
      case None => None
      case Some(k) => Some(k + 1)
  }

  /** `navigation.offsetHeight || 80`. */
  function NavHeight(offsetHeight: nat): (h: nat)
    ensures h > 0
    ensures offsetHeight > 0 ==> h == offsetHeight
    ensures offsetHeight == 0 ==> h == DefaultNavHeight
  {
    if offsetHeight == 0 then DefaultNavHeight else offsetHeight
  }

  /** `Math.max(0, targetSection.offsetTop - navHeight - 10)`. */
  function ScrollTarget(sectionTop: int, navOffsetHeight: nat): (y: nat)
    ensures y >= sectionTop - NavHeight(navOffsetHeight) - Gap
    ensures y == 0 || y == sectionTop - NavHeight(navOffsetHeight) - Gap
  {
    var target := sectionTop - NavHeight(navOffsetHeight) - Gap;
    if target < 0 then 0 else target
  }

  /** The clamped target is the raw one exactly when that is not negative. */
  lemma ScrollTargetClamp(sectionTop: int, navOffsetHeight: nat)
    ensures ScrollTarget(sectionTop, navOffsetHeight) == 0 <==>
              sectionTop <= NavHeight(navOffsetHeight) + Gap
  {
  }

  /**
   * A click on a `.nav-link` whose href is `href`. When the target section exists:
   * the page scrolls to the clamped target, the link marks switch to `href` and the
   * mobile menu closes. Otherwise nothing happens. `scroll` is the position handed
   * to `smoothScrollTo`.
   */
  method NavClick(href: string, sections: seq<Section>, navOffsetHeight: nat,
                  links: array<NavLink>, menu: MobileMenu.Menu) returns (scroll: Option<nat>)
    requires menu.Valid()
    modifies links, menu
    ensures menu.Valid()
    ensures FindSection(sections, href).None? ==>
              scroll.None? && links[..] == old(links[..]) &&
              menu.menuActive == old(menu.menuActive) && menu.toggleActive == old(menu.toggleActive)
    ensures FindSection(sections, href).Some? ==>
              scroll == Some(ScrollTarget(sections[FindSection(sections, href).value].top, navOffsetHeight)) &&
              links[..] == MarkActive(old(links[..]), href) &&
              !menu.IsOpen()
  {
    var found := FindSection(sections, href);
    match found {
      case None =>
        scroll := None;
      case Some(i) =>
        scroll := Some(ScrollTarget(sections[i].top, navOffsetHeight));
        UpdateActiveNavLink(links, href);
        menu.Close();
    }
  }

  // ---------------------------------------------------------------------------
  // Header threshold
  // ---------------------------------------------------------------------------

  /** Whether `.navigation` carries `scrolled` after the scroll handler ran at `pageYOffset`. */
  function Scrolled(pageYOffset: int): (on: bool)
    ensures on <==> pageYOffset >= ScrolledThreshold + 1
  {
    pageYOffset > ScrolledThreshold
  }

  /** The class is off up to 50 and on from 51, and once on it stays on further down. */
  lemma ScrolledThresholdMonotone(a: int, b: int)
    requires a <= b
    ensures Scrolled(a) ==> Scrolled(b)
    ensures !Scrolled(ScrolledThreshold) && Scrolled(ScrolledThreshold + 1)
  {
  }
}
