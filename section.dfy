/** A section (JMStaticContentSection): an ordered list of cell objects plus
    header and footer titles. After every insertion or removal it rewrites the
    index path of each cell it holds so that the row is the cell's position. */
module Sections {
  import opened TableView
  import opened Cells

  /** One call a section's configuration block makes on the section it is given. */
  datatype Edit =
    | SetHeaderTitle(title: Option<string>)
    | SetFooterTitle(title: Option<string>)
    | AddCell(cell: Cell, animated: bool)
    | InsertCell(cell: Cell, row: int, animated: bool)
    | RemoveCell(row: int, animated: bool)
    | RemoveAllCells
    | ReloadCell(row: int, animated: bool)

  /** The value part of a section: its cells in order and its titles. */
  datatype Content = Content(cells: seq<Cell>, headerTitle: Option<string>, footerTitle: Option<string>)

  /** The cells a block hands to the section. */
  function Named(block: seq<Edit>): (r: set<Cell>) {
    set e | e in block && (e.AddCell? || e.InsertCell?) :: e.cell
  }

  /** The cell one edit hands to the section, if any. */
  function Touched(e: Edit): (r: set<Cell>) {
    if e.AddCell? || e.InsertCell? then {e.cell} else {}
  }

  /** The effect of one edit on the content; None when it is an insertion at a
      row that does not exist, where Swift's Array.insert traps. */
  function Step(c: Content, e: Edit): (r: Option<Content>)
    ensures r.None? <==> e.InsertCell? && !(0 <= e.row <= |c.cells|)
    ensures r.Some? ==> forall x :: x in r.value.cells ==> x in c.cells || x in Touched(e)
  {
    match e
    case SetHeaderTitle(t) => Some(c.(headerTitle := t))
    case SetFooterTitle(t) => Some(c.(footerTitle := t))
    case AddCell(x, _) => Some(c.(cells := c.cells + [x]))
    case InsertCell(x, row, _) =>
      if 0 <= row <= |c.cells| then Some(c.(cells := Inserted(c.cells, row, x))) else None
    case RemoveCell(row, _) =>
      Some(if InRange(row, |c.cells|) then c.(cells := Removed(c.cells, row)) else c)
    case RemoveAllCells => Some(c.(cells := []))
    case ReloadCell(_, _) => Some(c)
  }

  /** `Step` with the guard of `removeCell` as written (`index < count`):
      None also when the removal is at a negative row, where Swift's
      Array.remove(at:) traps. Every edit on which it does not trap has the
      effect `Step` gives it. */
  function StepAsWritten(c: Content, e: Edit): (r: Option<Content>)
    ensures r.None? <==> (e.InsertCell? && !(0 <= e.row <= |c.cells|)) || (e.RemoveCell? && e.row < 0)
    ensures r.Some? ==> r == Step(c, e)
  {
    match e
    case RemoveCell(row, _) =>
      (match RemoveAtAsWritten(c.cells, row)
       case None => None
       case Some(cells) => Some(c.(cells := cells)))
    case _ => Step(c, e)
  }

  /** `removeCell(at: -1)` traps as written, whatever the section holds, while
      the corrected guard leaves the section as it is. */
  lemma RemoveCellAtMinusOne(c: Content, animated: bool)
    ensures StepAsWritten(c, RemoveCell(-1, animated)).None?
    ensures Step(c, RemoveCell(-1, animated)) == Some(c)
  {
  }

  /** The effect of a whole block, edit after edit. A block only ever adds the
      cells it names. */
  function After(c: Content, block: seq<Edit>): (r: Option<Content>)
    ensures r.Some? ==> forall x :: x in r.value.cells ==> x in c.cells || x in Named(block)
    decreases |block|
  {
    if block == [] then Some(c)
    else
      match Step(c, block[0])
      case None => None
      case Some(c') =>
        var r := After(c', block[1..]);
        assert forall e :: e in block[1..] ==> e in block;
        assert block[0] in block;
        r
  }

  class Section {
    /** Whether the section's weak `tableView` reference is set. */
    var attached: bool
    var cells: seq<Cell>
    var sectionIndex: int
    var headerTitle: Option<string>
    var footerTitle: Option<string>

    function Snapshot(): (r: Content)
      reads this`cells, this`headerTitle, this`footerTitle
    {
      Content(cells, headerTitle, footerTitle)
    }

    /** Every cell's index path names `section` and a row that holds that very
        cell. This survives a cell object occurring twice. */
    ghost predicate ResolvedAt(section: int)
      reads this`cells, cells`indexPath
    {
      forall c :: c in cells ==>
        && c.indexPath.Some?
        && c.indexPath.value.section == section
        && 0 <= c.indexPath.value.row < |cells|
        && cells[c.indexPath.value.row] == c
    }

    /** The row half of ResolvedAt: every cell's index path names a row that
        holds that very cell, whatever section it names. */
    ghost predicate RowsResolved()
      reads this`cells, cells`indexPath
    {
      forall c :: c in cells ==>
        && c.indexPath.Some?
        && 0 <= c.indexPath.value.row < |cells|
        && cells[c.indexPath.value.row] == c
    }

    ghost predicate Resolved()
      reads this`cells, this`sectionIndex, cells`indexPath
    {
      ResolvedAt(sectionIndex)
    }

    /** Every cell's index path is its own position in `section`. */
    ghost predicate IndexedAt(section: int)
      reads this`cells, cells`indexPath
    {
      forall i :: 0 <= i < |cells| ==> cells[i].indexPath == Some(IndexPath(i, section))
    }

    ghost predicate Indexed()
      reads this`cells, this`sectionIndex, cells`indexPath
    {
      IndexedAt(sectionIndex)
    }

    constructor ()
      ensures cells == [] && sectionIndex == 0 && !attached
      ensures headerTitle == None && footerTitle == None
    {
      attached := false;
      cells := [];
      sectionIndex := 0;
      headerTitle := None;
      footerTitle := None;
    }

    constructor WithHeaderTitle(headerTitle: Option<string>)
      ensures cells == [] && sectionIndex == 0 && !attached
      ensures this.headerTitle == headerTitle && footerTitle == None
    {
      attached := false;
      cells := [];
      sectionIndex := 0;
      this.headerTitle := headerTitle;
      footerTitle := None;
    }

    constructor WithTitles(headerTitle: Option<string>, footerTitle: Option<string>)
      ensures cells == [] && sectionIndex == 0 && !attached
      ensures this.headerTitle == headerTitle && this.footerTitle == footerTitle
    {
      attached := false;
      cells := [];
      sectionIndex := 0;
      this.headerTitle := headerTitle;
      this.footerTitle := footerTitle;
    }

    /** Appends without animation. */
    method AddCell(cell: Cell) returns (events: seq<TableEvent>)
      modifies this`cells, cell`indexPath
      ensures cells == old(cells) + [cell]
      ensures cell.indexPath == Some(IndexPath(|old(cells)|, sectionIndex))
      ensures old(Resolved()) ==> Resolved()
      ensures old(Indexed()) && cell !in old(cells) ==> Indexed()
      ensures events == []
    {
      events := AddCellAnimated(cell, false);
    }

    /** Appends `cell`, giving it the next row of this section. */
    method AddCellAnimated(cell: Cell, animated: bool) returns (events: seq<TableEvent>)
      modifies this`cells, cell`indexPath
      ensures cells == old(cells) + [cell]
      ensures cell.indexPath == Some(IndexPath(|old(cells)|, sectionIndex))
      ensures old(Resolved()) ==> Resolved()
      ensures old(Indexed()) && cell !in old(cells) ==> Indexed()
      ensures events == if animated && attached
                        then [InsertRows([IndexPath(|old(cells)|, sectionIndex)], Automatic)] else []
    {
      var newRowIndex := |cells|;
      cell.indexPath := Some(IndexPath(newRowIndex, sectionIndex));
      cells := cells + [cell];
      events := [];
      if animated && attached {
        events := [InsertRows([IndexPath(newRowIndex, sectionIndex)], Automatic)];
      }
    }

    /** Appends a new default cell carrying the given blocks. */
    method AddConfiguredCell(configure: Configuration, whenSelected: Option<Handler> := None)
      returns (cell: Cell, events: seq<TableEvent>)
      modifies this`cells
      ensures fresh(cell) && cells == old(cells) + [cell]
      ensures cell.configureBlock == Some(configure) && cell.whenSelectedBlock == whenSelected
      ensures cell.indexPath == Some(IndexPath(|old(cells)|, sectionIndex))
      ensures cell.reuseIdentifier == DefaultReuseIdentifier && cell.cellStyle == Default
      ensures cell.cellHeight == AutomaticDimension && cell.HasEditingDefaults()
      ensures old(Resolved()) ==> Resolved()
      ensures old(Indexed()) ==> Indexed()
      ensures events == []
    {
      cell := new Cell();
      cell.configureBlock := Some(configure);
      cell.whenSelectedBlock := whenSelected;
      assert cell !in cells;
      events := AddCell(cell);
    }

    /** Puts `cell` at row `index` and renumbers every row. Swift's
        Array.insert traps outside 0..count, so callers must stay inside. */
    method InsertCell(cell: Cell, index: int, animated: bool := true) returns (events: seq<TableEvent>)
      requires 0 <= index <= |cells|
      modifies this`cells, cells`indexPath, cell`indexPath
      ensures cells == Inserted(old(cells), index, cell)
      ensures Resolved()
      ensures Distinct(cells) ==> Indexed()
      ensures events == if animated && attached
                        then [InsertRows([IndexPath(index, sectionIndex)], Automatic)] else []
    {
      cell.indexPath := Some(IndexPath(index, sectionIndex));
      cells := Inserted(cells, index, cell);
      UpdateCellIndexPaths();
      events := [];
      if animated && attached {
        events := [InsertRows([IndexPath(index, sectionIndex)], Automatic)];
      }
    }

    /** Drops row `index` and renumbers the remaining rows; an index outside
        the section changes nothing. */
    method RemoveCell(index: int, animated: bool := true) returns (events: seq<TableEvent>)
      modifies this`cells, cells`indexPath
      ensures old(Resolved()) ==> Resolved()
      ensures !InRange(index, |old(cells)|) ==>
        && cells == old(cells)
        && (forall c :: c in cells ==> c.indexPath == old(c.indexPath))
        && events == []
      ensures InRange(index, |old(cells)|) ==>
        && cells == Removed(old(cells), index)
        && Resolved()
        && (Distinct(cells) ==> Indexed())
        && (old(cells)[index] !in cells ==> old(cells)[index].indexPath == old(cells[index].indexPath))
        && events == if animated && attached
                     then [DeleteRows([IndexPath(index, sectionIndex)], Automatic)] else []
    {
      events := [];
      if !InRange(index, |cells|) {
        return;
      }
      cells := Removed(cells, index);
      UpdateCellIndexPaths();
      if animated && attached {
        events := [DeleteRows([IndexPath(index, sectionIndex)], Automatic)];
      }
    }

    /** Empties the section; the removed cells keep their index paths. */
    method RemoveAllCells() returns (events: seq<TableEvent>)
      modifies this`cells
      ensures cells == []
      ensures events == if attached then [ReloadSections(sectionIndex, Automatic)] else []
    {
      cells := [];
      events := if attached then [ReloadSections(sectionIndex, Automatic)] else [];
    }

    /** Asks the table to redraw row `index`; the section itself is untouched. */
    method ReloadCell(index: int, animated: bool := true) returns (events: seq<TableEvent>)
      ensures !InRange(index, |cells|) ==> events == []
      ensures InRange(index, |cells|) ==>
        events == if attached
                  then [ReloadRows([IndexPath(index, sectionIndex)], if animated then Automatic else NoAnimation)]
                  else []
    {
      events := [];
      if !InRange(index, |cells|) {
        return;
      }
      var animation := if animated then Automatic else NoAnimation;
      if attached {
        events := [ReloadRows([IndexPath(index, sectionIndex)], animation)];
      }
    }

    /** Gives each cell the index path of its position, in order. */
    method UpdateCellIndexPaths()
      modifies cells`indexPath
      ensures Resolved()
      ensures Distinct(cells) ==> Indexed()
    {
      var i := 0;
      while i < |cells|
        invariant 0 <= i <= |cells|
        invariant forall j :: 0 <= j < i ==>
          && cells[j].indexPath.Some?
          && cells[j].indexPath.value.section == sectionIndex
          && 0 <= cells[j].indexPath.value.row < i
          && cells[cells[j].indexPath.value.row] == cells[j]
      {
        label Before:
        cells[i].indexPath := Some(IndexPath(i, sectionIndex));
        forall j | 0 <= j <= i
          ensures && cells[j].indexPath.Some?
                  && cells[j].indexPath.value.section == sectionIndex
                  && 0 <= cells[j].indexPath.value.row < i + 1
                  && cells[cells[j].indexPath.value.row] == cells[j]
        {
          if cells[j] != cells[i] {
            assert cells[j].indexPath == old@Before(cells[j].indexPath);
          }
        }
        i := i + 1;
      }
      assert Resolved();
      if Distinct(cells) {
        ResolvedDistinctIsIndexed(this, sectionIndex);
      }
    }

    /** Performs one call of a configuration block. */
    method Apply(e: Edit) returns (events: seq<TableEvent>)
      requires Step(Snapshot(), e).Some?
      modifies this`cells, this`headerTitle, this`footerTitle, cells`indexPath, Touched(e)`indexPath
      ensures Some(Snapshot()) == Step(old(Snapshot()), e)
      ensures old(Resolved()) ==> Resolved()
    {
      events := [];
      ghost var before := Snapshot();
      ghost var wasResolved := Resolved();
      match e {
        case SetHeaderTitle(t) =>
          headerTitle := t;
        case SetFooterTitle(t) =>
          footerTitle := t;
        case AddCell(c, a) =>
          events := AddCellAnimated(c, a);
          assert Snapshot() == before.(cells := before.cells + [c]);
        case InsertCell(c, row, a) =>
          events := InsertCell(c, row, a);
          assert Snapshot() == before.(cells := Inserted(before.cells, row, c));
        case RemoveCell(row, a) =>
          events := RemoveCell(row, a);
          assert Snapshot() == if InRange(row, |before.cells|) then before.(cells := Removed(before.cells, row)) else before;
        case RemoveAllCells =>
          events := RemoveAllCells();
          assert Snapshot() == before.(cells := []);
        case ReloadCell(row, a) =>
          events := ReloadCell(row, a);
      }
      assert Some(Snapshot()) == Step(before, e);
      assert wasResolved ==> Resolved();
    }

    /** Runs a configuration block of section calls, in order. Every insertion
        in it must name an existing row when it is reached. */
    method Run(block: seq<Edit>) returns (events: seq<TableEvent>)
      requires After(Snapshot(), block).Some?
      modifies this`cells, this`headerTitle, this`footerTitle, cells`indexPath, Named(block)`indexPath
      ensures Some(Snapshot()) == After(old(Snapshot()), block)
      ensures old(Resolved()) ==> Resolved()
    {
      events := [];
      var i := 0;
      while i < |block|
        invariant 0 <= i <= |block|
        invariant After(Snapshot(), block[i..]) == After(old(Snapshot()), block)
        invariant forall x :: x in cells ==> x in old(cells) || x in Named(block)
        invariant old(Resolved()) ==> Resolved()
      {
        var e := block[i];
        assert block[i..][0] == e && block[i..][1..] == block[i + 1..];
        assert Touched(e) <= Named(block) by {
          assert e in block;
        }
        ghost var before := cells;
        var more := Apply(e);
        assert forall x :: x in cells ==> x in before || x in Touched(e);
        events := events + more;
        i := i + 1;
      }
    }
  }

  /** On a section without repeated cells the two invariants coincide. */
  lemma ResolvedDistinctIsIndexed(s: Section, section: int)
    requires Distinct(s.cells)
    ensures s.ResolvedAt(section) <==> s.IndexedAt(section)
  {
  }
}
