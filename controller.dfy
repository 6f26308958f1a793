/** The table view controller (JMStaticContentTableViewController): an ordered
    list of sections, renumbered after every addition, insertion or removal so
    that each section's index is its position, and the data-source and delegate
    lookups the table view makes by index path. */
module Controllers {
  import opened TableView
  import opened Cells
  import opened Sections

  class TableViewController {
    var sections: seq<Section>

    /** Each section object occurs once and knows its own position. */
    ghost predicate Valid()
      reads this`sections, sections`sectionIndex
    {
      && Distinct(sections)
      && forall i :: 0 <= i < |sections| ==> sections[i].sectionIndex == i
    }

    /** Initialisation together with viewDidLoad, which removes every section. */
    constructor ()
      ensures Valid() && sections == []
    {
      sections := [];
    }

    /** Creates a section numbered with the current count, lets the block
        configure it, then appends it and renumbers. `blockIndex` is the index
        handed to the block. */
    method AddSection(block: seq<Edit>) returns (section: Section, blockIndex: int, events: seq<TableEvent>)
      requires Valid()
      requires After(Content([], None, None), block).Some?
      modifies this`sections, sections`sectionIndex, Named(block)`indexPath
      ensures Valid()
      ensures fresh(section) && sections == old(sections) + [section]
      ensures blockIndex == |old(sections)| && section.sectionIndex == |old(sections)|
      ensures Some(section.Snapshot()) == After(Content([], None, None), block)
      ensures section.attached && section.Resolved()
      ensures Distinct(section.cells) ==> section.IndexedAt(|old(sections)|)
      ensures forall s :: s in old(sections) ==> s.cells == old(s.cells)
    {
      blockIndex := |sections|;
      section, events := ConfiguredSection(blockIndex, block);
      sections := sections + [section];
      UpdateSectionIndexes();
    }

    /** Creates a section, lets the block configure it while its index is
        still the initial 0, then inserts it at `index` and renumbers. The
        cells the block added keep section 0 in their index paths. */
    method InsertSection(block: seq<Edit>, index: int, animated: bool := true)
      returns (section: Section, blockIndex: int, events: seq<TableEvent>)
      requires Valid()
      requires 0 <= index <= |sections|
      requires After(Content([], None, None), block).Some?
      modifies this`sections, sections`sectionIndex, Named(block)`indexPath
      ensures Valid()
      ensures fresh(section) && sections == Inserted(old(sections), index, section)
      ensures blockIndex == index && section.sectionIndex == index
      ensures Some(section.Snapshot()) == After(Content([], None, None), block)
      ensures section.attached && section.ResolvedAt(0)
      ensures Distinct(section.cells) ==> section.IndexedAt(0)
      ensures forall s :: s in old(sections) ==> s.cells == old(s.cells)
      ensures |events| > 0 && events[|events| - 1] == if animated then InsertSections(index, Automatic) else ReloadData
    {
      blockIndex := index;
      var blockEvents;
      section, blockEvents := ConfiguredSection(0, block);
      sections := Inserted(sections, index, section);
      InsertedDistinct(old(sections), index, section);
      UpdateSectionIndexes();
      events := blockEvents + if animated then [InsertSections(index, Automatic)] else [ReloadData];
    }

    method RemoveAllSections() returns (events: seq<TableEvent>)
      modifies this`sections
      ensures Valid() && sections == []
      ensures events == [ReloadData]
    {
      sections := [];
      events := [ReloadData];
    }

    /** Drops section `index` and renumbers the rest; an index outside the
        table changes nothing. The removed section keeps its old index. */
    method RemoveSection(index: int, animated: bool := true) returns (events: seq<TableEvent>)
      requires Valid()
      modifies this`sections, sections`sectionIndex
      ensures Valid()
      ensures !InRange(index, |old(sections)|) ==> sections == old(sections) && events == []
      ensures InRange(index, |old(sections)|) ==>
        && sections == Removed(old(sections), index)
        && old(sections)[index].sectionIndex == index
        && events == if animated then [BeginUpdates, DeleteSections(index, Automatic), EndUpdates] else [ReloadData]
      ensures forall s :: s in old(sections) ==> s.cells == old(s.cells)
      ensures forall s :: s in old(sections) && old(s.RowsResolved()) ==> s.RowsResolved()
    {
      events := [];
      if !InRange(index, |sections|) {
        return;
      }
      RemovedDistinct(sections, index);
      sections := Removed(sections, index);
      UpdateSectionIndexes();
      events := if animated then [BeginUpdates, DeleteSections(index, Automatic), EndUpdates] else [ReloadData];
    }

    /** Asks the table to redraw section `index`; nothing else changes. */
    method ReloadSection(index: int, animated: bool := true) returns (events: seq<TableEvent>)
      ensures events == if InRange(index, |sections|)
                        then [ReloadSections(index, if animated then Automatic else NoAnimation)]
                        else []
    {
      events := [];
      if !InRange(index, |sections|) {
        return;
      }
      var animation := if animated then Automatic else NoAnimation;
      events := [ReloadSections(index, animation)];
    }

    /** The section at `index`, or None when there is none. */
    function SectionAt(index: int): (r: Option<Section>)
      reads this
      ensures r.None? <==> !(0 <= index < |sections|)
      ensures r.Some? ==> r.value == sections[index]
    {
      if !InRange(index, |sections|) then None else Some(sections[index])
    }

    /** Inserts `cell` at row `path.row` of section `path.section`; a section
        outside the table changes nothing. The row itself is unguarded. */
    method InsertCell(cell: Cell, path: IndexPath, animated: bool := true) returns (events: seq<TableEvent>)
      requires Valid()
      requires InRange(path.section, |sections|) ==> 0 <= path.row <= |sections[path.section].cells|
      modifies (if InRange(path.section, |sections|) then {sections[path.section]} else {})`cells
      modifies (if InRange(path.section, |sections|) then sections[path.section].cells else [])`indexPath
      modifies cell`indexPath
      ensures Valid() && sections == old(sections)
      ensures !InRange(path.section, |sections|) ==> events == [] && cell.indexPath == old(cell.indexPath)
      ensures InRange(path.section, |sections|) ==>
        && sections[path.section].cells == Inserted(old(sections[path.section].cells), path.row, cell)
        && sections[path.section].Resolved()
        && NumberOfRowsInSection(path.section) == old(NumberOfRowsInSection(path.section)) + 1
        && HasRow(path) && CellAt(path) == cell
        && events == if animated && sections[path.section].attached
                     then [InsertRows([path], Automatic)] else []
      ensures forall k :: 0 <= k < |sections| && k != path.section ==> sections[k].cells == old(sections[k].cells)
    {
      events := [];
      if !InRange(path.section, |sections|) {
        return;
      }
      var section := sections[path.section];
      events := section.InsertCell(cell, path.row, animated);
    }

    /** Numbers every section with its position. */
    method UpdateSectionIndexes()
      requires Distinct(sections)
      modifies sections`sectionIndex
      ensures Valid()
    {
      var i := 0;
      while i < |sections|
        invariant 0 <= i <= |sections|
        invariant forall j :: 0 <= j < i ==> sections[j].sectionIndex == j
      {
        sections[i].sectionIndex := i;
        i := i + 1;
      }
    }

    // The data source and delegate. UIKit only asks about sections and rows
    // that the two counts announced, and the source indexes without a guard.

    function NumberOfSections(): (n: nat)
      reads this
    {
      |sections|
    }

    function NumberOfRowsInSection(section: int): (n: nat)
      requires 0 <= section < |sections|
      reads this, sections
    {
      |sections[section].cells|
    }

    function TitleForHeaderInSection(section: int): (r: Option<string>)
      requires 0 <= section < |sections|
      reads this, sections
    {
      sections[section].headerTitle
    }

    function TitleForFooterInSection(section: int): (r: Option<string>)
      requires 0 <= section < |sections|
      reads this, sections
    {
      sections[section].footerTitle
    }

    /** `path` names a row the counts announced. */
    predicate HasRow(path: IndexPath)
      reads this, sections
    {
      0 <= path.section < |sections| && 0 <= path.row < |sections[path.section].cells|
    }

    function CellAt(path: IndexPath): (r: Cell)
      requires HasRow(path)
      reads this, sections
    {
      sections[path.section].cells[path.row]
    }

    /** The cell's own height, except that an automatic cell height defers to
        the table's `rowHeight`. */
    function HeightForRow(path: IndexPath, rowHeight: Height): (h: Height)
      requires HasRow(path)
      reads this, sections, CellAt(path)
      ensures CellAt(path).cellHeight.Fixed? ==> h == CellAt(path).cellHeight
      ensures CellAt(path).cellHeight == AutomaticDimension ==> h == rowHeight
    {
      var cell := CellAt(path);
      if cell.cellHeight == AutomaticDimension then
        if rowHeight == AutomaticDimension then AutomaticDimension else rowHeight
      else cell.cellHeight
    }

    function EditingStyleForRow(path: IndexPath): (r: EditingStyle)
      requires HasRow(path)
      reads this, sections, CellAt(path)
    {
      CellAt(path).editingStyle
    }

    function CanEditRow(path: IndexPath): (r: bool)
      requires HasRow(path)
      reads this, sections, CellAt(path)
    {
      CellAt(path).isEditable
    }

    function CanMoveRow(path: IndexPath): (r: bool)
      requires HasRow(path)
      reads this, sections, CellAt(path)
    {
      CellAt(path).isMoveable
    }
  }

  /** `section(at:)` as written agrees with `SectionAt` on every index that
      is not negative; at a negative index it traps where `SectionAt` answers
      None. */
  lemma SectionAtCorrectsLookup(controller: TableViewController, index: int)
    ensures index >= 0 ==> LookupAsWritten(controller.sections, index) == Some(controller.SectionAt(index))
    ensures index < 0 ==> LookupAsWritten(controller.sections, index).None? && controller.SectionAt(index).None?
  {
  }

  /** `removeSection(at: -1)` as written traps, whatever the table holds,
      while the corrected guard leaves the sections as they are. */
  lemma RemoveSectionAtMinusOne(sections: seq<Section>)
    ensures RemoveAtAsWritten(sections, -1).None?
  {
  }

  /** Where a section's cells are numbered by position, the data source and
      the cells agree: the cell shown at `path` carries `path` itself. */
  lemma IndexedRowCarriesItsPath(controller: TableViewController, path: IndexPath)
    requires controller.Valid() && controller.HasRow(path)
    requires controller.sections[path.section].Indexed()
    ensures controller.CellAt(path).indexPath == Some(path)
  {
  }

  /** The row half holds even when a cell object occurs twice: the row that a
      displayed cell's index path names, in the same section, shows that cell. */
  lemma ResolvedRowShowsItsCell(controller: TableViewController, path: IndexPath)
    requires controller.HasRow(path) && controller.sections[path.section].RowsResolved()
    ensures controller.CellAt(path).indexPath.Some?
    ensures var back := IndexPath(controller.CellAt(path).indexPath.value.row, path.section);
      controller.HasRow(back) && controller.CellAt(back) == controller.CellAt(path)
  {
  }

  /** A row showing a cell with the initializer's editing defaults, which
      every builder keeps, offers no editing style and can be neither edited
      nor moved. */
  lemma DefaultRowIsFixed(controller: TableViewController, path: IndexPath)
    requires controller.HasRow(path) && controller.CellAt(path).HasEditingDefaults()
    ensures controller.EditingStyleForRow(path) == EditingNone
    ensures !controller.CanEditRow(path) && !controller.CanMoveRow(path)
  {
  }

  /** A new section attached to the table, given index `sectionIndex` and
      then configured by `block`, as both ways of adding a section begin. */
  method ConfiguredSection(sectionIndex: int, block: seq<Edit>) returns (section: Section, events: seq<TableEvent>)
    requires After(Content([], None, None), block).Some?
    modifies Named(block)`indexPath
    ensures fresh(section) && section.attached && section.sectionIndex == sectionIndex
    ensures Some(section.Snapshot()) == After(Content([], None, None), block)
    ensures section.ResolvedAt(sectionIndex)
    ensures Distinct(section.cells) ==> section.IndexedAt(sectionIndex)
  {
    section := new Section();
    section.attached := true;
    section.sectionIndex := sectionIndex;
    events := section.Run(block);
    if Distinct(section.cells) {
      ResolvedDistinctIsIndexed(section, sectionIndex);
    }
  }
}
