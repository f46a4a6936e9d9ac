/**
 * The window's scroll listener: it picks the section the reader has reached
 * and marks the navigation link pointing at it as `active`.
 */
module ScrollSpy {

  /** A section is reached this many pixels before its top meets the viewport top. */
  const ReachMargin: int := 150

  /** A `section[id]` element in document order: its id, `offsetTop` and `clientHeight`. */
  datatype Section = Section(id: string, offsetTop: int, clientHeight: int)

  /** A `.nav-links a` element: its `href` attribute and whether it has the class `active`. */
  datatype NavLink = NavLink(href: string, active: bool)

  predicate Reached(s: Section, pageYOffset: real)
  {
    pageYOffset >= (s.offsetTop - ReachMargin) as real
  }

  /** The id the scan settles on: that of the last reached section, or "" when none is reached. */
  function CurrentId(sections: seq<Section>, pageYOffset: real): (id: string)
    ensures id == "" || exists i :: 0 <= i < |sections| && Reached(sections[i], pageYOffset) && sections[i].id == id
  {
    if sections == [] then ""
    else if Reached(sections[|sections| - 1], pageYOffset) then sections[|sections| - 1].id
    else CurrentId(sections[..|sections| - 1], pageYOffset)
  }

  /** Index i holds the last reached section. */
  predicate IsLastReached(sections: seq<Section>, pageYOffset: real, i: int)
  {
    && 0 <= i < |sections|
    && Reached(sections[i], pageYOffset)
    && forall j :: i < j < |sections| ==> !Reached(sections[j], pageYOffset)
  }

  /** `CurrentId` is the id of the last reached section in document order, or "" if none is reached. */
  lemma CurrentIdIsLastReached(sections: seq<Section>, pageYOffset: real)
    ensures (forall j :: 0 <= j < |sections| ==> !Reached(sections[j], pageYOffset)) ==>
              CurrentId(sections, pageYOffset) == ""
    ensures forall i :: IsLastReached(sections, pageYOffset, i) ==>
              CurrentId(sections, pageYOffset) == sections[i].id
    ensures (exists j :: 0 <= j < |sections| && Reached(sections[j], pageYOffset)) ==>
              exists i :: IsLastReached(sections, pageYOffset, i)
  {
    NoneReachedGivesEmpty(sections, pageYOffset);
    forall i | IsLastReached(sections, pageYOffset, i)
      ensures CurrentId(sections, pageYOffset) == sections[i].id
    {
      LastReachedGivesId(sections, pageYOffset, i);
    }
    if exists j :: 0 <= j < |sections| && Reached(sections[j], pageYOffset) {
      var j :| 0 <= j < |sections| && Reached(sections[j], pageYOffset);
      var i := LastReachedExists(sections, pageYOffset, j);
    }
  }

  /** With no section reached the scan keeps "". */
  lemma {:induction false} NoneReachedGivesEmpty(sections: seq<Section>, pageYOffset: real)
    ensures (forall j :: 0 <= j < |sections| ==> !Reached(sections[j], pageYOffset)) ==>
              CurrentId(sections, pageYOffset) == ""
  {
    if sections != [] {
      var n := |sections| - 1;
      NoneReachedGivesEmpty(sections[..n], pageYOffset);
      if forall j :: 0 <= j < |sections| ==> !Reached(sections[j], pageYOffset) {
        assert forall j :: 0 <= j < n ==> sections[..n][j] == sections[j];
      }
    }
  }

  /** The scan settles on the id of the last reached section. */
  lemma {:induction false} LastReachedGivesId(sections: seq<Section>, pageYOffset: real, i: int)
    requires IsLastReached(sections, pageYOffset, i)
    ensures CurrentId(sections, pageYOffset) == sections[i].id
    decreases |sections|
  {
    var n := |sections| - 1;
    if i < n {
      var init := sections[..n];
      assert !Reached(sections[n], pageYOffset);
      assert CurrentId(sections, pageYOffset) == CurrentId(init, pageYOffset);
      forall j | i < j < n
        ensures !Reached(init[j], pageYOffset)
      {
        assert init[j] == sections[j];
      }
      assert init[i] == sections[i];
      LastReachedGivesId(init, pageYOffset, i);
    }
  }

  /** A reached section j has a last reached section at or after it. */
  lemma {:induction false} LastReachedExists(sections: seq<Section>, pageYOffset: real, j: int) returns (i: int)
    requires 0 <= j < |sections| && Reached(sections[j], pageYOffset)
    ensures j <= i && IsLastReached(sections, pageYOffset, i)
    decreases |sections| - j
  {
    if forall k :: j < k < |sections| ==> !Reached(sections[k], pageYOffset) {
      i := j;
    } else {
      var k :| j < k < |sections| && Reached(sections[k], pageYOffset);
      i := LastReachedExists(sections, pageYOffset, k);
    }
  }

  /** Section heights are read by the handler but never influence the choice. */
  lemma {:induction false} HeightIsIrrelevant(a: seq<Section>, b: seq<Section>, pageYOffset: real)
    requires |a| == |b|
    requires forall i :: 0 <= i < |a| ==> a[i].id == b[i].id && a[i].offsetTop == b[i].offsetTop
    ensures CurrentId(a, pageYOffset) == CurrentId(b, pageYOffset)
    decreases |a|
  {
    if a != [] {
      var n := |a| - 1;
      HeightIsIrrelevant(a[..n], b[..n], pageYOffset);
    }
  }

  /** The first loop of the handler: scan the sections, remembering the last reached id. */
  method FindCurrent(sections: seq<Section>, pageYOffset: real) returns (current: string)
    ensures current == CurrentId(sections, pageYOffset)
  {
    current := "";
    var i := 0;
    while i < |sections|
      invariant 0 <= i <= |sections|
      invariant current == CurrentId(sections[..i], pageYOffset)
    {
      var section := sections[i];
      if Reached(section, pageYOffset) {
        current := section.id;
      }
      assert sections[..i + 1][..i] == sections[..i];
      i := i + 1;
    }
    assert sections[..i] == sections;
  }

  /**
   * The second loop: every link loses `active`, and regains it when its href
   * is `#` followed by the current id.
   */
  method Highlight(links: array<NavLink>, current: string)
    modifies links
    ensures forall k :: 0 <= k < links.Length ==>
              links[k].href == old(links[k].href) && (links[k].active <==> links[k].href == "#" + current)
  {
    var i := 0;
    while i < links.Length
      invariant 0 <= i <= links.Length
      invariant forall k :: 0 <= k < i ==>
                  links[k].href == old(links[k].href) && (links[k].active <==> links[k].href == "#" + current)
      invariant forall k :: i <= k < links.Length ==> links[k] == old(links[k])
    {
      var link := NavLink(links[i].href, false);
      if link.href == "#" + current {
        link := link.(active := true);
      }
      links[i] := link;
      i := i + 1;
    }
  }

  /** The whole scroll listener. */
  method OnScroll(sections: seq<Section>, pageYOffset: real, links: array<NavLink>)
    modifies links
    ensures forall k :: 0 <= k < links.Length ==>
              links[k].href == old(links[k].href) &&
              (links[k].active <==> links[k].href == "#" + CurrentId(sections, pageYOffset))
  {
    var current := FindCurrent(sections, pageYOffset);
    Highlight(links, current);
  }

  /** When no section is reached, the one link marked active is a bare `#`. */
  lemma NoSectionActivatesBareHash(sections: seq<Section>, pageYOffset: real, link: NavLink)
    requires forall j :: 0 <= j < |sections| ==> !Reached(sections[j], pageYOffset)
    ensures (link.href == "#" + CurrentId(sections, pageYOffset)) <==> link.href == "#"
  {
    CurrentIdIsLastReached(sections, pageYOffset);
  }
}
