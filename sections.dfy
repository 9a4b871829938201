/**
 * The section table of a filing and its lookup by page: `find_section_for_page`
 * picks, among the rows that start at or before a page, the latest main section
 * and the latest subsection; `format_section_info` renders the pair.
 */
module Sections {
  import opened Wrappers
  import opened PyText

  /**
   * One row of the section table. Every key may be missing; a missing start
   * page reads as 0 and a missing subsection flag as false.
   */
  datatype Section = Section(
    name: Option<string>,
    title: Option<string>,
    startPage: Option<int>,
    isSubsection: Option<bool>,
    description: Option<string>)
  {
    /** `row.get("start_page_number", 0)` */
    function StartPage(): int {
      startPage.GetOr(0)
    }

    /** `row.get("is_subsection", False)` */
    predicate IsSub() {
      isSubsection.GetOr(false)
    }

    /** A row is truthy unless it has no key at all. */
    predicate Truthy() {
      name.Some? || title.Some? || startPage.Some? || isSubsection.Some? || description.Some?
    }
  }

  /**
   * What the lookup returns for a non-empty table: the raw first row when the
   * page precedes every row, else the latest main section and subsection.
   */
  datatype SectionInfo =
    | FirstRecord(record: Section)
    | Active(main: Option<Section>, sub: Option<Section>)
  {
    /** A dict with the keys `main_section` and `subsection` is always truthy. */
    predicate Truthy() {
      match this
      case FirstRecord(record) => record.Truthy()
      case Active(_, _) => true
    }
  }

  /** Row `i` starts at or before `page` and is of the wanted kind. */
  ghost predicate IsCandidate(rows: seq<Section>, i: int, page: int, sub: bool) {
    0 <= i < |rows| && rows[i].StartPage() <= page && rows[i].IsSub() == sub
  }

  /**
   * Row `i` is what `max(candidates, key=start page)` returns: a candidate
   * whose start page no candidate exceeds, and the first such in table order.
   */
  ghost predicate IsFirstMax(rows: seq<Section>, i: int, page: int, sub: bool) {
    IsCandidate(rows, i, page, sub)
    && (forall j :: IsCandidate(rows, j, page, sub) ==> rows[j].StartPage() <= rows[i].StartPage())
    && (forall j :: 0 <= j < i && IsCandidate(rows, j, page, sub) ==> rows[j].StartPage() < rows[i].StartPage())
  }

  /** Index of the latest-starting candidate of one kind (main or subsection), if any. */
  function LatestOfKind(rows: seq<Section>, page: int, sub: bool): (r: Option<nat>)
    ensures r.None? <==> forall j :: !IsCandidate(rows, j, page, sub)
    ensures r.Some? ==> IsFirstMax(rows, r.value, page, sub)
    decreases |rows|
  {
    if rows == [] then None
    else
      var init := rows[..|rows| - 1];
      var last := |rows| - 1;
      var best := LatestOfKind(init, page, sub);
      assert forall j :: 0 <= j < last ==> (IsCandidate(init, j, page, sub) <==> IsCandidate(rows, j, page, sub));
      if !(rows[last].StartPage() <= page && rows[last].IsSub() == sub) then best
      else
        assert IsCandidate(rows, last, page, sub);
        if best.None? || rows[last].StartPage() > rows[best.value].StartPage() then Some(last)
      else best
  }

  /** Some row starts at or before `page`. */
  predicate AnyStartsBy(rows: seq<Section>, page: int) {
    exists i | 0 <= i < |rows| :: rows[i].StartPage() <= page
  }

  /** `find_section_for_page(sections_data, page_number)`; None stands for an empty table. */
  function FindSectionForPage(rows: seq<Section>, page: int): (r: Option<SectionInfo>)
    ensures r.None? <==> rows == []
    ensures r.Some? && r.value.FirstRecord? <==> rows != [] && !AnyStartsBy(rows, page)
    ensures r.Some? && r.value.FirstRecord? ==> r.value.record == rows[0]
  {
    if rows == [] then None
    else if !AnyStartsBy(rows, page) then Some(FirstRecord(rows[0]))
    else
      var m := LatestOfKind(rows, page, false);
      var s := LatestOfKind(rows, page, true);
      Some(Active(
        if m.Some? then Some(rows[m.value]) else None,
        if s.Some? then Some(rows[s.value]) else None))
  }

  /**
   * The sides of an active lookup: the main side is present exactly when some
   * main section starts at or before the page, and it is then the first row
   * among those with the greatest start page; likewise for the subsection side.
   * Neither side ever starts after the page.
   */
  lemma ActiveSides(rows: seq<Section>, page: int)
    requires AnyStartsBy(rows, page)
    ensures FindSectionForPage(rows, page).Some? && FindSectionForPage(rows, page).value.Active?
    ensures var info := FindSectionForPage(rows, page).value;
      && (info.main.Some? <==> exists j :: IsCandidate(rows, j, page, false))
      && (info.main.Some? ==> exists i :: IsFirstMax(rows, i, page, false) && rows[i] == info.main.value)
      && (info.sub.Some? <==> exists j :: IsCandidate(rows, j, page, true))
      && (info.sub.Some? ==> exists i :: IsFirstMax(rows, i, page, true) && rows[i] == info.sub.value)
  {
    var m := LatestOfKind(rows, page, false);
    var s := LatestOfKind(rows, page, true);
    if m.Some? {
      assert IsFirstMax(rows, m.value, page, false);
    }
    if s.Some? {
      assert IsFirstMax(rows, s.value, page, true);
    }
  }

  /** Every candidate row is a main section or a subsection, so an active lookup has at least one side. */
  lemma ActiveHasASide(rows: seq<Section>, page: int)
    requires AnyStartsBy(rows, page)
    ensures var info := FindSectionForPage(rows, page).value;
      info.Active? && (info.main.Some? || info.sub.Some?)
  {
    var i :| 0 <= i < |rows| && rows[i].StartPage() <= page;
    assert IsCandidate(rows, i, page, rows[i].IsSub());
  }

  /** One side of the display: `name (title)` when they differ, else `name`; both default to "Unknown". */
  function RenderSide(s: Section): (r: string)
    ensures s.name.GetOr("Unknown") != s.title.GetOr("Unknown") ==>
      r == s.name.GetOr("Unknown") + " (" + s.title.GetOr("Unknown") + ")"
    ensures s.name.GetOr("Unknown") == s.title.GetOr("Unknown") ==> r == s.name.GetOr("Unknown")
    ensures s.name.Some? && s.name == s.title ==> r == s.name.value
    ensures s.name.None? && s.title.None? ==> r == "Unknown"
    ensures |r| >= |s.name.GetOr("Unknown")| && r[..|s.name.GetOr("Unknown")|] == s.name.GetOr("Unknown")
  {
    var n := s.name.GetOr("Unknown");
    var t := s.title.GetOr("Unknown");
    if n != t then n + " (" + t + ")" else n
  }

  /** The rendered sides that are present and truthy, main first. */
  function Parts(main: Option<Section>, sub: Option<Section>): seq<string> {
    (if main.Some? && main.value.Truthy() then [RenderSide(main.value)] else [])
    + (if sub.Some? && sub.value.Truthy() then [RenderSide(sub.value)] else [])
  }

  /** `format_section_info(section_info)`. */
  function FormatSectionInfo(info: Option<SectionInfo>): (r: string)
    ensures info.None? ==> r == "Unknown"
    ensures info.Some? && info.value.FirstRecord? ==> r == "Unknown"
  {
    match info
    case None => "Unknown"
    case Some(FirstRecord(_)) => "Unknown"
    case Some(Active(main, sub)) =>
      var parts := Parts(main, sub);
      if parts == [] then "Unknown" else Join(" > ", parts)
  }

  /** With both sides present the display is `main > sub`; with one side it is that side alone. */
  lemma FormatHierarchy(main: Section, sub: Section)
    requires main.Truthy() && sub.Truthy()
    ensures FormatSectionInfo(Some(Active(Some(main), Some(sub)))) == RenderSide(main) + " > " + RenderSide(sub)
    ensures FormatSectionInfo(Some(Active(Some(main), None))) == RenderSide(main)
    ensures FormatSectionInfo(Some(Active(None, Some(sub)))) == RenderSide(sub)
  {
    var parts := [RenderSide(main), RenderSide(sub)];
    assert Parts(Some(main), Some(sub)) == parts;
    assert parts[1..] == [RenderSide(sub)];
    assert Join(" > ", parts) == RenderSide(main) + " > " + Join(" > ", [RenderSide(sub)]);
  }

  /** A page that precedes every row of a non-empty table displays as "Unknown". */
  lemma PageBeforeAllRows(rows: seq<Section>, page: int)
    requires rows != [] && forall i :: 0 <= i < |rows| ==> rows[i].StartPage() > page
    ensures FindSectionForPage(rows, page) == Some(FirstRecord(rows[0]))
    ensures FormatSectionInfo(FindSectionForPage(rows, page)) == "Unknown"
  {
  }
}
