# JMStaticContentTableViewController, index bookkeeping

JMStaticContentTableViewController is a UIKit table view controller for static screens such as
settings pages. The application builds the table from *sections*. Each section holds an ordered
list of *cells*. A cell is a `JMStaticContentCell`: a description of one row, with its style,
height, editing flags and two closures. One closure configures the displayed `UITableViewCell`.
The other runs when the row is selected.

This project models the bookkeeping that keeps that object graph consistent:

- **A section** (`Sections.Section`) owns a list of cell objects. Appending writes an index path
  into the new cell only, naming the row it lands in. Inserting or removing a cell renumbers every
  cell it holds, so that each index path's row is the cell's position.
- **The controller** (`Controllers.TableViewController`) owns a list of sections. After every
  addition, insertion or removal it writes into each section a `sectionIndex` equal to its
  position.
- **Removal, reload and lookup** calls ignore indices at or beyond the count. The source does not
  guard against negative indices (see "## Findings"); the model ignores those as well. Insertions
  have no guard:
  Swift's `Array.insert` traps outside `0...count`, so the model's insertions carry that range as
  a precondition.
- **Cells** (`Cells.Cell`) get their defaults from the initializer. Three builders (`Text`,
  `Toggle`, `Value`) pick the style, the selection handler and the accessory.

The files, in dependency order:

- `table_view.dfy` (module `TableView`): index paths, the calls made on the UIKit table view
  (kept as a returned event log), the positional sequence edits of `Array.insert`/`Array.remove`,
  and the index guard.
- `cell.dfy` (module `Cells`): the cell class and its builders.
- `section.dfy` (module `Sections`): the section class. It also holds the *configuration block* a
  section is handed when it is added: a script of section calls with a pure meaning (`Step`,
  `After`).
- `controller.dfy` (module `Controllers`): the controller class and its data-source and delegate
  lookups.
- `scenarios.dfy` (module `Scenarios`): fixed call sequences from the library's test suite, each
  with its outcome proved.

Two features of the source shape the invariants:

- **Cells and sections are reference objects**, and nothing stops the application from adding one
  cell object twice. `Section.ResolvedAt(s)` states what every section operation keeps even then:
  each cell's path names section `s`, and a row that holds that very cell. When the cells are
  pairwise distinct, this is exactly "each cell's path is its own position"
  (`Sections.ResolvedDistinctIsIndexed`). The controller's `Valid()` requires the sections to be
  distinct, and `InsertSection` and `RemoveSection` preserve that.
- **The section half of a cell's index path is not kept in step with the controller.**
  `insertSection` runs its block before the new section has been numbered, so the cells the block
  adds record section 0. `updateSectionIndexes` never touches cells. The model therefore promises
  the section part only where the code provides it: `AddSection` promises the new section's own
  index, `InsertSection` promises section 0, and removing a section promises only the row half
  (`RowsResolved`).

## Model

| member | source | states |
|---|---|---|
| TableView.Inserted | Sources/JMStaticContentTableViewController/JMStaticContentSection.swift:104 | `Array.insert(x, at: k)`: the result is one longer, holds `x` at `k`, keeps earlier positions, shifts later ones up by one, and is the old contents plus `x` as a multiset |
| TableView.Removed | Sources/JMStaticContentTableViewController/JMStaticContentSection.swift:119 | `Array.remove(at: k)`: the result is one shorter, keeps earlier positions, shifts later ones down by one, and with the removed element added back is the old contents as a multiset |
| TableView.RemovedInserted | Sources/JMStaticContentTableViewController/JMStaticContentSection.swift:102-125 | removing at the position just inserted at gives back the original list |
| TableView.InsertedDistinct | Sources/JMStaticContentTableViewController/JMStaticContentTableViewController.swift:93 | an insertion leaves a list without repeats exactly when the list had none and the new element is new (both directions) |
| TableView.RemovedDistinct | Sources/JMStaticContentTableViewController/JMStaticContentTableViewController.swift:119 | a removal keeps a list free of repeats, and the removed element no longer occurs in it |
| TableView.LookupAsWritten | Sources/JMStaticContentTableViewController/JMStaticContentTableViewController.swift:145-148 | `section(at:)` as written: it traps exactly when the index is negative; otherwise it gives nothing exactly when the index is at or beyond the count, and else the element there |
| TableView.RemoveAtAsWritten | Sources/JMStaticContentTableViewController/JMStaticContentTableViewController.swift:116-119 | `removeSection`/`removeCell` as written: they trap exactly when the index is negative; otherwise the result is the removal at an existing position and the unchanged list beyond the count |
| Cells.TextStyle | Sources/JMStaticContentTableViewController/JMStaticContentCell.swift:94 | a text cell has the subtitle style exactly when there is detail text, and the default style exactly when there is none |
| Cells.ValueAccessory | Sources/JMStaticContentTableViewController/JMStaticContentCell.swift:157 | a value cell shows a disclosure indicator exactly when it has a selection handler, and no accessory exactly when it has none |
| Cells.Cell.constructor | Sources/JMStaticContentTableViewController/JMStaticContentCell.swift:59-72 | the given reuse identifier, style, cell class and height are stored unchanged (defaults "JMStaticContentCell", default style, `UITableViewCell`, automatic height); editing style none, not editable, not moveable; no index path and no blocks |
| Cells.Cell.Text | Sources/JMStaticContentTableViewController/JMStaticContentCell.swift:87-107 | a fresh cell with style `TextStyle(detailText)`, a configure block that sets text, detail text, image and accessory, selection handler exactly `onSelect`, and the initializer's other defaults |
| Cells.Cell.Toggle | Sources/JMStaticContentTableViewController/JMStaticContentCell.swift:115-139 | a fresh cell with the default style, a switch-installing configure block, no selection handler, and the initializer's defaults |
| Cells.Cell.Value | Sources/JMStaticContentTableViewController/JMStaticContentCell.swift:147-163 | a fresh cell with style value1, a configure block whose accessory is `ValueAccessory(onSelect)`, selection handler exactly `onSelect`, and the initializer's defaults |
| Sections.Step | Sources/JMStaticContentTableViewController/JMStaticContentSection.swift:73-142 | one section call traps exactly when it is an insertion outside `0...count`; otherwise the cells afterwards are old cells or the cell the call hands over |
| Sections.StepAsWritten | Sources/JMStaticContentTableViewController/JMStaticContentSection.swift:116-119 | one section call with `removeCell`'s written guard traps exactly when it is an insertion outside `0...count` or a removal at a negative row; when it does not trap it has the effect `Step` gives |
| Sections.RemoveCellAtMinusOne | Sources/JMStaticContentTableViewController/JMStaticContentSection.swift:117-119 | `removeCell(at: -1)` traps as written in every section, while the corrected `Step` leaves the section unchanged |
| Sections.After | Sources/JMStaticContentTableViewController/JMStaticContentTableViewController.swift:66-72 | a configuration block, call after call, only ever adds the cells it names |
| Sections.Section.constructor | Sources/JMStaticContentTableViewController/JMStaticContentSection.swift:44 | a new section is empty, has index 0, no titles and no table view |
| Sections.Section.WithHeaderTitle | Sources/JMStaticContentTableViewController/JMStaticContentSection.swift:48-50 | as the plain initializer, with the given header title |
| Sections.Section.WithTitles | Sources/JMStaticContentTableViewController/JMStaticContentSection.swift:56-59 | as the plain initializer, with the given header and footer titles |
| Sections.Section.AddCell | Sources/JMStaticContentTableViewController/JMStaticContentSection.swift:65-67 | appends without any table call, with the same guarantees as the animated form |
| Sections.Section.AddCellAnimated | Sources/JMStaticContentTableViewController/JMStaticContentSection.swift:73-81 | the cell is appended last and gets path (old count, `sectionIndex`); the path invariant survives, and so does numbering by position when the cell was not already there; rows are inserted in the table only when animated and attached |
| Sections.Section.AddConfiguredCell | Sources/JMStaticContentTableViewController/JMStaticContentSection.swift:87-95 | appends a fresh default cell carrying exactly the given blocks, numbered with the old count; numbering by position survives |
| Sections.Section.InsertCell | Sources/JMStaticContentTableViewController/JMStaticContentSection.swift:102-110 | requires `0 <= index <= count`; the cells become `Inserted(old, index, cell)`, every path resolves afterwards, and without repeated cells every path is its own position; the row insertion is reported only when animated and attached |
| Sections.Section.RemoveCell | Sources/JMStaticContentTableViewController/JMStaticContentSection.swift:116-125 | an index outside the section changes no cell and no path and makes no table call; otherwise the cells become `Removed(old, index)`, every path resolves, without repeats every path is its position, and the removed cell keeps its last path |
| Sections.Section.RemoveAllCells | Sources/JMStaticContentTableViewController/JMStaticContentSection.swift:128-131 | the section is empty, and the section is reloaded exactly when attached |
| Sections.Section.ReloadCell | Sources/JMStaticContentTableViewController/JMStaticContentSection.swift:137-142 | changes nothing; the row is reloaded, with the chosen animation, only when it exists and the section is attached; at a negative index the source reloads row -1 and the model makes no call |
| Sections.Section.UpdateCellIndexPaths | Sources/JMStaticContentTableViewController/JMStaticContentSection.swift:146-150 | afterwards every cell's path names this section and a row holding that cell; without repeated cells every path is exactly (position, `sectionIndex`) |
| Sections.Section.Apply | Sources/JMStaticContentTableViewController/JMStaticContentSection.swift:73-142 | one section call changes the section's cells and titles exactly as `Step` says and keeps the path invariant |
| Sections.Section.Run | Sources/JMStaticContentTableViewController/JMStaticContentTableViewController.swift:71 | running a block leaves the section's cells and titles exactly as `After` says and keeps the path invariant |
| Sections.ResolvedDistinctIsIndexed | Sources/JMStaticContentTableViewController/JMStaticContentSection.swift:146-150 | on cells without repeats, "every path points at a row holding its cell" and "every path is its own position" are equivalent (both directions) |
| Controllers.TableViewController.constructor | Sources/JMStaticContentTableViewController/JMStaticContentTableViewController.swift:57-60 | after loading, the controller holds no sections |
| Controllers.TableViewController.AddSection | Sources/JMStaticContentTableViewController/JMStaticContentTableViewController.swift:66-76 | a fresh attached section is appended; the block is handed, and the section ends with, index old count; its content is what the block makes; its own cells are resolved in that section; earlier sections keep their cells; all sections are renumbered by position |
| Controllers.TableViewController.InsertSection | Sources/JMStaticContentTableViewController/JMStaticContentTableViewController.swift:83-101 | requires `0 <= index <= count`; the sections become `Inserted(old, index, section)` whether animated or not; the block is handed `index`, yet the new section's cells resolve to section 0; all sections are renumbered; the last table call is a section insertion when animated and a full reload otherwise |
| Controllers.TableViewController.RemoveAllSections | Sources/JMStaticContentTableViewController/JMStaticContentTableViewController.swift:106-110 | the controller holds no sections and the table is reloaded |
| Controllers.TableViewController.RemoveSection | Sources/JMStaticContentTableViewController/JMStaticContentTableViewController.swift:116-129 | an index outside the table changes nothing and makes no call; otherwise the sections become `Removed(old, index)` and are renumbered, the removed one keeps its index, the deletion is wrapped in begin/end updates when animated and is a reload otherwise; no section's cells change and the row half of every cell path survives |
| Controllers.TableViewController.ReloadSection | Sources/JMStaticContentTableViewController/JMStaticContentTableViewController.swift:135-140 | changes nothing; the section is reloaded, with the chosen animation, exactly when it exists; at a negative index the source reloads section -1 and the model makes no call |
| Controllers.TableViewController.SectionAt | Sources/JMStaticContentTableViewController/JMStaticContentTableViewController.swift:145-148 | there is no result exactly when the index is not a position; otherwise the result is the section there |
| Controllers.TableViewController.InsertCell | Sources/JMStaticContentTableViewController/JMStaticContentTableViewController.swift:155-160 | a section outside the table changes nothing; otherwise the cells of that section become `Inserted(old, row, cell)`, its row count grows by one and the new row shows `cell`; the list of sections and every other section's cells are unchanged |
| Controllers.TableViewController.UpdateSectionIndexes | Sources/JMStaticContentTableViewController/JMStaticContentTableViewController.swift:164-168 | every section's index becomes its position |
| Controllers.TableViewController.HeightForRow | Sources/JMStaticContentTableViewController/JMStaticContentTableViewController.swift:295-306 | a fixed cell height is returned as it is; an automatic cell height defers to the table's row height |
| Controllers.SectionAtCorrectsLookup | Sources/JMStaticContentTableViewController/JMStaticContentTableViewController.swift:145-148 | `section(at:)` as written and `SectionAt` give the same answer on every index that is not negative; on a negative index the written one traps and `SectionAt` gives nothing |
| Controllers.RemoveSectionAtMinusOne | Sources/JMStaticContentTableViewController/JMStaticContentTableViewController.swift:117-119 | `removeSection(at: -1)` traps as written on every controller |
| Controllers.IndexedRowCarriesItsPath | Sources/JMStaticContentTableViewController/JMStaticContentTableViewController.swift:322-324 | when a section's cells are numbered by position, the cell the data source shows at a path carries that very path |
| Controllers.ResolvedRowShowsItsCell | Sources/JMStaticContentTableViewController/JMStaticContentSection.swift:147-148 | even with repeated cells, the row named by a displayed cell's path shows that same cell |
| Controllers.DefaultRowIsFixed | Sources/JMStaticContentTableViewController/JMStaticContentTableViewController.swift:327-337 | a row whose cell keeps the initializer's editing defaults offers no editing style and can be neither edited nor moved |
| Controllers.ConfiguredSection | Sources/JMStaticContentTableViewController/JMStaticContentTableViewController.swift:67-71 | the new section is attached, carries the index it was given, holds what the block makes, and its cells resolve in that index |
| Scenarios.CellIndexPathsInAddedSection | Tests/JMStaticContentTableViewControllerTests/JMStaticContentTableViewControllerTests.swift:146-154 | two text cells added by the block of the second section carry paths (0, 1) and (1, 1) |
| Scenarios.InsertedSectionCellKeepsSectionZero | Sources/JMStaticContentTableViewController/JMStaticContentTableViewController.swift:88-91 | a cell added by insertSection's block, with the section inserted at 1, still records section 0 while the section has index 1 |
| Scenarios.RemoveMiddleSection | Tests/JMStaticContentTableViewControllerTests/JMStaticContentTableViewControllerTests.swift:76-92 | of three titled sections, removing the middle one leaves titles "Section 1" and "Section 3" at indexes 0 and 1; the removed one keeps index 1 |
| Scenarios.InsertCellBetween | Tests/JMStaticContentTableViewControllerTests/JMStaticContentTableViewControllerTests.swift:258-268 | inserting a cell at row 1 between two added cells gives three rows with paths (0, 0), (1, 0) and (2, 0) in order |
| Scenarios.RowCountOfAddedSection | Tests/JMStaticContentTableViewControllerTests/JMStaticContentTableViewControllerTests.swift:191-198 | after adding one section whose block adds two cells, the data source reports one section with two rows |

The data-source lookups `NumberOfSections`, `NumberOfRowsInSection`, `TitleForHeaderInSection`,
`TitleForFooterInSection`, `CellAt`, `EditingStyleForRow`, `CanEditRow` and `CanMoveRow`
(Sources/JMStaticContentTableViewController/JMStaticContentTableViewController.swift:244-250,
277-283, 327-337) are plain reads of the controller's state. They are part of the model and carry
no contract of their own. The lemmas and methods above state what they return.

## Left out

- Table view calls (`insertRows`, `deleteRows`, `reloadRows`, `reloadSections`, `insertSections`, `deleteSections`, `reloadData`, `beginUpdates`/`endUpdates`) are foreign UIKit code. They appear only as the returned `events` log.
- The weak `tableView` reference of a section is modelled as the flag `attached`. The controller's own table view is always there.
- Closures cannot be run here. A selection or toggle handler is an opaque `Handler` token. A configure block is a `Configuration` value that describes what the builder's closure sets, or an opaque `Custom` token.
- Sections.Section.Run: the configuration block is modelled as a script of calls on the section it configures, namely title assignments and the section's cell operations. A block that calls back into the controller, or one that uses `addCell(configure:whenSelected:)` (which allocates its own cell), is not modelled.
- Controllers.TableViewController.AddSection: the table calls made by the block itself are returned but not specified.
- Controllers.TableViewController.InsertSection: only the final table call is specified; the calls the block makes come before it and are not specified.
- `cellForRowAt`, dequeuing and the reset of a reused cell are UIKit view construction.
- `didSelectRowAt` only invokes the cell's selection handler, which is an opaque token here.
- Section header and footer views, their heights, and the table header and footer text (`headerText`, `footerText`, `updateHeaderView`, `updateFooterView`, Auto Layout sizing) are UIKit view building.
- Controllers.TableViewController.HeightForRow: `CGFloat` is replaced by `Height = AutomaticDimension | Fixed(points)`. The sentinel comparison becomes a constructor test.
- The cell class (`tableViewCellSubclass`) is kept as a class name string.
- `viewDidLoad` is folded into the controller's constructor, which starts with no sections.
- `scrollViewDidEndDragging` only ends text editing.
- JMStaticContentList.swift, the Objective-C and SettingsExample headers, and Package.swift are not part of this model. They are SwiftUI builders, declarations and a build manifest.
- Sections.Section.InsertCell and Controllers.TableViewController.InsertSection: an insertion outside `0...count` traps in Swift, so both require the index to be in range. `Step` models the trap as `None`.
- Sections.Section.ReloadCell: at a negative index the source's guard lets the call through and it asks the table view to reload row -1. The model follows the corrected guard and makes no table call.
- Controllers.TableViewController.ReloadSection: at a negative index the source's guard lets the call through and it asks the table view to reload section -1. The model follows the corrected guard and makes no table call.
- Controllers.TableViewController.InsertCell: at a negative section the source's guard lets the call through and `sections[-1]` traps. The model follows the corrected guard and changes nothing.
- Sections.Section.AddCellAnimated: numbering by position is promised only when the appended cell was not already in the section. Appending a cell a second time moves its path to the new row, and the path invariant (`Resolved`) is what survives.

## Findings

| source | as written | input that shows it | evidently intended | confidence | as-written member | corrected member |
|---|---|---|---|---|---|---|
| Sources/JMStaticContentTableViewController/JMStaticContentTableViewController.swift:146 | `section(at:)` guards with `index < sections.count` only, then subscripts. | `section(at: -1)` on any controller: the guard passes and `sections[-1]` traps, whereas the documentation promises nil out of bounds | `0 <= index < count`: a negative index is out of bounds and gives nil like a too-large one. | not executed; Swift array subscripts trap on negative indices | TableView.LookupAsWritten, with Controllers.SectionAtCorrectsLookup exhibiting the trap at every negative index | Controllers.TableViewController.SectionAt |
| Sources/JMStaticContentTableViewController/JMStaticContentSection.swift:117 | `removeCell` guards with `index < cells.count` only, then calls `remove(at:)`. `removeSection` (JMStaticContentTableViewController.swift:117) does the same. | `removeCell(at: -1)` on any section, or `removeSection(at: -1)` on any controller: the guard passes and `remove(at: -1)` traps | `0 <= index < count`: a negative index is ignored like a too-large one. `reloadCell` (line 138) and `reloadSection` (JMStaticContentTableViewController.swift:136) share the guard; they do not trap but pass the negative index to the table view (see "## Left out"). | not executed; Swift's `remove(at:)` traps on negative indices | Sections.StepAsWritten, with Sections.RemoveCellAtMinusOne and Controllers.RemoveSectionAtMinusOne exhibiting the trap | Sections.Step |
