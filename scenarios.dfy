/** Fixed call sequences taken from the library's test suite, with the
    outcome each one is proved to have. A client of the controller and the
    section can show these using their contracts alone. */
module Scenarios {
  import opened TableView
  import opened Cells
  import opened Sections
  import opened Controllers

  /** Two text cells added inside a block carry rows 0 and 1 and the index of
      the section being added, here the second one. */
  method CellIndexPathsInAddedSection() returns (first: Option<IndexPath>, second: Option<IndexPath>)
    ensures first == Some(IndexPath(0, 1)) && second == Some(IndexPath(1, 1))
  {
    var controller := new TableViewController();
    var _, _, _ := controller.AddSection([]);
    var one := Cell.Text("Cell 1");
    var two := Cell.Text("Cell 2");
    var block := [Edit.AddCell(one, false), Edit.AddCell(two, false)];
    AfterTwoAdds(one, two);
    var section, _, _ := controller.AddSection(block);
    assert section.cells == [one, two] && Distinct(section.cells);
    first, second := one.indexPath, two.indexPath;
  }

  /** A cell added inside insertSection's block is numbered while the new
      section still has index 0, so after inserting the section at position 1
      the cell's index path still names section 0. */
  method InsertedSectionCellKeepsSectionZero() returns (path: Option<IndexPath>, sectionIndex: int)
    ensures path == Some(IndexPath(0, 0)) && sectionIndex == 1
  {
    var controller := new TableViewController();
    var _, _, _ := controller.AddSection([]);
    var cell := new Cell();
    var block := [Edit.AddCell(cell, false)];
    assert block[1..] == [];
    var section, _, _ := controller.InsertSection(block, 1, false);
    assert section.cells == [cell] && Distinct(section.cells);
    path, sectionIndex := cell.indexPath, section.sectionIndex;
  }

  lemma AfterTwoAdds(one: Cell, two: Cell)
    ensures After(Content([], None, None), [Edit.AddCell(one, false), Edit.AddCell(two, false)])
         == Some(Content([one, two], None, None))
  {
    var empty: Content := Content([], None, None);
    var first, second := Edit.AddCell(one, false), Edit.AddCell(two, false);
    var middle: Content := Content([one], None, None);
    assert Step(empty, first).value.cells == [one];
    assert Step(middle, second).value.cells == [one, two];
    var block, tail := [first, second], [second];
    assert block[0] == first && block[1..] == tail;
    assert tail[0] == second && tail[1..] == [];
    assert After(middle, tail) == Some(Content([one, two], None, None));
    assert After(empty, block) == After(middle, tail);
  }

  /** A block that only sets the header title. */
  lemma TitleOnly(title: Option<string>)
    ensures After(Content([], None, None), [SetHeaderTitle(title)]) == Some(Content([], title, None))
  {
    var block := [SetHeaderTitle(title)];
    assert block[0] == SetHeaderTitle(title) && block[1..] == [];
  }

  /** A controller holding two sections titled "Section 1" and "Section 2". */
  method TwoSections() returns (controller: TableViewController, s1: Section, s2: Section)
    ensures fresh(controller) && fresh(s1) && fresh(s2)
    ensures controller.Valid() && controller.sections == [s1, s2]
    ensures s1.headerTitle == Some("Section 1")
  {
    controller := new TableViewController();
    TitleOnly(Some("Section 1"));
    TitleOnly(Some("Section 2"));
    var i, e;
    s1, i, e := controller.AddSection([SetHeaderTitle(Some("Section 1"))]);
    assert s1.Snapshot() == Content([], Some("Section 1"), None);
    s2, i, e := controller.AddSection([SetHeaderTitle(Some("Section 2"))]);
  }

  /** A controller holding three sections titled "Section 1" to "Section 3",
      added one after the other. */
  method ThreeSections() returns (controller: TableViewController, s1: Section, s2: Section, s3: Section)
    ensures fresh(controller) && fresh(s1) && fresh(s2) && fresh(s3)
    ensures controller.Valid() && controller.sections == [s1, s2, s3]
    ensures s1.headerTitle == Some("Section 1") && s3.headerTitle == Some("Section 3")
  {
    controller, s1, s2 := TwoSections();
    TitleOnly(Some("Section 3"));
    var i, e;
    s3, i, e := controller.AddSection([SetHeaderTitle(Some("Section 3"))]);
    assert s3.Snapshot() == Content([], Some("Section 3"), None);
  }

  /** Removing the middle one of three sections keeps the outer two in order
      and renumbers them; the removed section keeps its old index. */
  method RemoveMiddleSection() returns (titles: seq<Option<string>>, indexes: seq<int>, removedIndex: int)
    ensures titles == [Some("Section 1"), Some("Section 3")]
    ensures indexes == [0, 1] && removedIndex == 1
  {
    var controller, s1, s2, s3 := ThreeSections();
    var _ := controller.RemoveSection(1, false);
    assert |controller.sections| == 2 && controller.sections[0] == s1 && controller.sections[1] == s3;
    titles := [controller.TitleForHeaderInSection(0), controller.TitleForHeaderInSection(1)];
    indexes := [controller.sections[0].sectionIndex, controller.sections[1].sectionIndex];
    removedIndex := s2.sectionIndex;
    assert removedIndex == 1;
    assert indexes == [0, 1];
    assert titles == [Some("Section 1"), Some("Section 3")];
  }

  /** A fresh section holding two fresh text cells added one after the other. */
  method TwoCellSection() returns (section: Section, one: Cell, three: Cell)
    ensures fresh(section) && fresh(one) && fresh(three) && one != three
    ensures section.cells == [one, three] && section.sectionIndex == 0 && !section.attached
  {
    one := Cell.Text("Cell 1");
    three := Cell.Text("Cell 3");
    section := new Section();
    var _ := section.AddCell(one);
    assert section.sectionIndex == 0;
    var _ := section.AddCell(three);
  }

  /** Inserting between two added cells shifts the later one down a row. */
  method InsertCellBetween() returns (count: nat, paths: seq<Option<IndexPath>>)
    ensures count == 3
    ensures paths == [Some(IndexPath(0, 0)), Some(IndexPath(1, 0)), Some(IndexPath(2, 0))]
  {
    var section, one, three := TwoCellSection();
    var two := Cell.Text("Cell 2");
    ghost var before := section.cells;
    assert Distinct(before) && two !in before;
    var _ := section.InsertCell(two, 1, false);
    InsertedDistinct(before, 1, two);
    assert section.cells == [one, two, three];
    assert section.IndexedAt(0);
    assert one.indexPath == Some(IndexPath(0, 0)) by { assert section.cells[0] == one; }
    assert two.indexPath == Some(IndexPath(1, 0)) by { assert section.cells[1] == two; }
    assert three.indexPath == Some(IndexPath(2, 0)) by { assert section.cells[2] == three; }
    count := |section.cells|;
    paths := [one.indexPath, two.indexPath, three.indexPath];
  }

  /** The data source reports one section holding the two cells the block added. */
  method RowCountOfAddedSection() returns (sectionCount: nat, rowCount: nat)
    ensures sectionCount == 1 && rowCount == 2
  {
    var controller := new TableViewController();
    var one := Cell.Text("Cell 1");
    var two := Cell.Text("Cell 2");
    var block := [Edit.AddCell(one, false), Edit.AddCell(two, false)];
    AfterTwoAdds(one, two);
    var _, _, _ := controller.AddSection(block);
    sectionCount := controller.NumberOfSections();
    rowCount := controller.NumberOfRowsInSection(0);
  }
}
