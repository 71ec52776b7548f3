/**
 * The rules the scroll handlers apply to the vertical scroll offset, and the
 * specification of the active-link highlighting. Offsets are whole pixels.
 */
module Scroll {
  import opened Wrappers

  /** The navbar takes its `scrolled` look past this offset. */
  const NavbarThreshold := 100
  /** The scroll-to-top button shows past this offset. */
  const ScrollTopThreshold := 300
  /** Height of the fixed navbar that an anchor jump leaves clear above its target. */
  const AnchorClearance := 80
  /** How far above a section its highlight range starts. */
  const SectionLead := 100

  predicate NavbarScrolled(y: int)
  {
    y > NavbarThreshold
  }

  predicate ScrollTopVisible(y: int)
  {
    y > ScrollTopThreshold
  }

  /** Whenever the scroll-to-top button shows, the navbar already has its scrolled look. */
  lemma ScrollTopImpliesNavbar(y: int)
    ensures ScrollTopVisible(y) ==> NavbarScrolled(y)
    ensures NavbarScrolled(y) <==> y >= 101
  {
  }

  /**
   * Where a click on an in-page anchor scrolls to, given the target element's `offsetTop`
   * if an element with that id exists; nothing happens without a target.
   */
  function AnchorTarget(targetTop: Option<int>): (y: Option<int>)
    ensures y.Some? <==> targetTop.Some?
    ensures y.Some? ==> y.value + AnchorClearance == targetTop.value
  {
    match targetTop
    case None => None
    case Some(top) => Some(top - AnchorClearance)
  }

  /** A `section[id]` element: its id, `offsetTop` and `offsetHeight`. */
  datatype Section = Section(id: string, top: int, height: int)

  /** The offsets at which a section's link is highlighted: `top - 100 < y <= top - 100 + height`. */
  predicate Covers(s: Section, y: int)
    ensures Covers(s, y) ==> s.height > 0
  {
    s.top - SectionLead < y <= s.top - SectionLead + s.height
  }

  /** The range excludes the offset 100 pixels above the section and includes the one `height` below that. */
  lemma CoversBounds(s: Section)
    ensures !Covers(s, s.top - SectionLead)
    ensures s.height > 0 ==> Covers(s, s.top - SectionLead + s.height) && Covers(s, s.top - SectionLead + 1)
    ensures !Covers(s, s.top - SectionLead + s.height + 1)
  {
  }

  /** The last section, in document order, whose range holds `y`. */
  function LastCovering(sections: seq<Section>, y: int): (r: Option<nat>)
    ensures r.Some? ==> r.value < |sections| && Covers(sections[r.value], y)
    ensures r.Some? ==> forall j :: r.value < j < |sections| ==> !Covers(sections[j], y)
    ensures r.None? ==> forall j :: 0 <= j < |sections| ==> !Covers(sections[j], y)
    decreases |sections|
  {
    if sections == [] then None
    else if Covers(sections[|sections| - 1], y) then Some(|sections| - 1)
    else LastCovering(sections[..|sections| - 1], y)
  }

  /** The first navigation link whose `href` is `#` followed by the id (what `querySelector` returns). */
  function LinkFor(hrefs: seq<string>, id: string): (r: Option<nat>)
    ensures r.Some? ==> r.value < |hrefs| && hrefs[r.value] == "#" + id
    ensures r.Some? ==> forall k :: 0 <= k < r.value ==> hrefs[k] != "#" + id
    ensures r.None? ==> forall k :: 0 <= k < |hrefs| ==> hrefs[k] != "#" + id
    decreases |hrefs|
  {
    if hrefs == [] then None
    else if hrefs[0] == "#" + id then Some(0)
    else match LinkFor(hrefs[1..], id)
      case None => None
      case Some(k) => Some(k + 1)
  }

  /** Exactly the link at `k` active, or none when there is no such link. */
  function OnlyActive(n: nat, k: Option<nat>): (r: seq<bool>)
    ensures |r| == n
    ensures forall j :: 0 <= j < n ==> (r[j] <==> k == Some(j))
  {
    seq(n, j => k == Some(j))
  }

  /**
   * The links' `active` classes after one highlighting pass at offset `y`: if some section
   * covers `y`, only the link of the last such section is active (none, if it has no
   * link); otherwise the classes are as they were.
   */
  function Highlighted(active: seq<bool>, hrefs: seq<string>, sections: seq<Section>, y: int): (r: seq<bool>)
    requires |active| == |hrefs|
    ensures |r| == |hrefs|
    ensures LastCovering(sections, y).None? ==> r == active
    ensures LastCovering(sections, y).Some? ==>
      var id := sections[LastCovering(sections, y).value].id;
      forall j :: 0 <= j < |hrefs| ==> (r[j] <==> hrefs[j] == "#" + id && forall k :: 0 <= k < j ==> hrefs[k] != "#" + id)
  {
    match LastCovering(sections, y)
    case None => active
    case Some(i) => OnlyActive(|hrefs|, LinkFor(hrefs, sections[i].id))
  }

  /** After a pass, at most one link is active, unless no section covered `y`. */
  lemma HighlightedAtMostOne(active: seq<bool>, hrefs: seq<string>, sections: seq<Section>, y: int)
    requires |active| == |hrefs|
    requires LastCovering(sections, y).Some?
    ensures forall j, k :: 0 <= j < k < |hrefs| ==> !(Highlighted(active, hrefs, sections, y)[j] && Highlighted(active, hrefs, sections, y)[k])
  {
  }

  /** A second pass at the same offset changes nothing. */
  lemma HighlightedIdempotent(active: seq<bool>, hrefs: seq<string>, sections: seq<Section>, y: int)
    requires |active| == |hrefs|
    ensures Highlighted(Highlighted(active, hrefs, sections, y), hrefs, sections, y)
         == Highlighted(active, hrefs, sections, y)
  {
  }

  /** Sections laid out one after another, each starting where the previous one ends. */
  predicate Contiguous(sections: seq<Section>)
  {
    && (forall i :: 0 <= i < |sections| ==> sections[i].height >= 0)
    && (forall i :: 0 <= i < |sections| - 1 ==> sections[i + 1].top == sections[i].top + sections[i].height)
  }

  /** In a contiguous layout every later section starts at or after the end of an earlier one. */
  lemma {:induction false} ContiguousOrdered(sections: seq<Section>, i: nat, j: nat)
    requires Contiguous(sections) && i < j < |sections|
    ensures sections[j].top >= sections[i].top + sections[i].height
    decreases j - i
  {
    if j > i + 1 {
      ContiguousOrdered(sections, i, j - 1);
    }
  }

  /** In a contiguous layout no offset lies in two sections' ranges, so "the last match" is "the match". */
  lemma ContiguousCoversAtMostOne(sections: seq<Section>, y: int, i: nat, j: nat)
    requires Contiguous(sections) && i < j < |sections|
    ensures !(Covers(sections[i], y) && Covers(sections[j], y))
  {
    ContiguousOrdered(sections, i, j);
  }

  /** An anchor jump to a section at least 20 pixels tall lands inside that section's highlight range. */
  lemma AnchorLandsInSection(s: Section)
    requires s.height >= SectionLead - AnchorClearance
    ensures Covers(s, AnchorTarget(Some(s.top)).value)
  {
  }
}
