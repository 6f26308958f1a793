/** A cell configuration (JMStaticContentCell): the description of one row,
    which the table view turns into a UITableViewCell when it is displayed.
    Closures are not executable here: a selection or toggle handler is an opaque
    token, and a configure block is described by what it sets on the cell. */
module Cells {
  import opened TableView

  /** UITableViewCell.CellStyle. */
  datatype CellStyle = Default | Value1 | Value2 | Subtitle

  /** UITableViewCell.EditingStyle (`.none`, `.delete`, `.insert`). */
  datatype EditingStyle = EditingNone | EditingDelete | EditingInsert

  /** UITableViewCell.AccessoryType. */
  datatype AccessoryType =
    | NoAccessory
    | DisclosureIndicator
    | DetailDisclosureButton
    | Checkmark
    | DetailButton

  /** A row height: UITableView.automaticDimension or a fixed number of points. */
  datatype Height = AutomaticDimension | Fixed(points: real)

  /** A closure supplied by the application, known only by its identity. */
  datatype Handler = Handler(id: nat)

  /** A UIImage, known only by its identity. */
  datatype Image = Image(id: nat)

  /** What a configure block does to the displayed UITableViewCell. The three
      builders install blocks whose effect is fixed by their arguments; a block
      written by the application is opaque. */
  datatype Configuration =
    | Custom(block: Handler)
      /** Sets the text and detail labels, the image and the accessory type. */
    | TextConfiguration(text: string, detailText: Option<string>, image: Option<Image>, accessoryType: AccessoryType)
      /** Sets the text label, turns off selection and the accessory type, and
          installs a switch that starts at `isOn` and reports changes to `onToggle`. */
    | ToggleConfiguration(text: string, isOn: bool, onToggle: Handler)
      /** Sets the text label, the value in the detail label and the accessory type. */
    | ValueConfiguration(text: string, value: string, accessoryType: AccessoryType)

  const DefaultReuseIdentifier: string := "JMStaticContentCell"
  const DefaultCellClass: string := "UITableViewCell"

  /** The style a text cell gets: a subtitle layout exactly when there is detail text. */
  function TextStyle(detailText: Option<string>): (style: CellStyle)
    ensures style == Subtitle <==> detailText.Some?
    ensures style == Default <==> detailText.None?
  {
    if detailText != None then Subtitle else Default
  }

  /** The accessory a value cell shows: a disclosure indicator exactly when it
      can be selected. */
  function ValueAccessory(onSelect: Option<Handler>): (accessory: AccessoryType)
    ensures accessory == DisclosureIndicator <==> onSelect.Some?
    ensures accessory == NoAccessory <==> onSelect.None?
  {
    if onSelect != None then DisclosureIndicator else NoAccessory
  }

  class Cell {
    var reuseIdentifier: string
    /** Set only by the section that holds the cell. */
    var indexPath: Option<IndexPath>
    var cellHeight: Height
    var cellStyle: CellStyle
    /** The UITableViewCell subclass to instantiate, by name. */
    var cellClass: string
    var editingStyle: EditingStyle
    var isEditable: bool
    var isMoveable: bool
    var configureBlock: Option<Configuration>
    var whenSelectedBlock: Option<Handler>

    /** The editing behaviour every initializer sets: no editing style, neither
        editable nor moveable. */
    ghost predicate HasEditingDefaults()
      reads this
    {
      editingStyle == EditingNone && !isEditable && !isMoveable
    }

    constructor (reuseIdentifier: string := DefaultReuseIdentifier, cellStyle: CellStyle := Default,
                 cellClass: string := DefaultCellClass, height: Height := AutomaticDimension)
      ensures this.reuseIdentifier == reuseIdentifier && this.cellStyle == cellStyle
      ensures this.cellClass == cellClass && cellHeight == height
      ensures HasEditingDefaults()
      ensures indexPath == None && configureBlock == None && whenSelectedBlock == None
    {
      this.reuseIdentifier := reuseIdentifier;
      this.cellStyle := cellStyle;
      this.cellClass := cellClass;
      this.cellHeight := height;
      this.editingStyle := EditingNone;
      this.isEditable := false;
      this.isMoveable := false;
      this.indexPath := None;
      this.configureBlock := None;
      this.whenSelectedBlock := None;
    }

    /** A plain text row, with a subtitle layout when there is detail text. */
    static method Text(text: string, detailText: Option<string> := None, image: Option<Image> := None,
                       accessoryType: AccessoryType := DisclosureIndicator, onSelect: Option<Handler> := None)
      returns (cell: Cell)
      ensures fresh(cell)
      ensures cell.cellStyle == TextStyle(detailText)
      ensures cell.configureBlock == Some(TextConfiguration(text, detailText, image, accessoryType))
      ensures cell.whenSelectedBlock == onSelect
      ensures cell.reuseIdentifier == DefaultReuseIdentifier && cell.cellClass == DefaultCellClass
      ensures cell.cellHeight == AutomaticDimension && cell.HasEditingDefaults() && cell.indexPath == None
    {
      cell := new Cell(cellStyle := TextStyle(detailText));
      cell.configureBlock := Some(TextConfiguration(text, detailText, image, accessoryType));
      cell.whenSelectedBlock := onSelect;
    }

    /** A row with a switch; selecting the row itself does nothing. */
    static method Toggle(text: string, isOn: bool, onToggle: Handler) returns (cell: Cell)
      ensures fresh(cell)
      ensures cell.cellStyle == Default
      ensures cell.configureBlock == Some(ToggleConfiguration(text, isOn, onToggle))
      ensures cell.whenSelectedBlock == None
      ensures cell.reuseIdentifier == DefaultReuseIdentifier && cell.cellClass == DefaultCellClass
      ensures cell.cellHeight == AutomaticDimension && cell.HasEditingDefaults() && cell.indexPath == None
    {
      cell := new Cell();
      cell.configureBlock := Some(ToggleConfiguration(text, isOn, onToggle));
    }

    /** A row showing a value on the right, with a disclosure indicator when it
        can be selected. */
    static method Value(text: string, value: string, onSelect: Option<Handler> := None) returns (cell: Cell)
      ensures fresh(cell)
      ensures cell.cellStyle == Value1
      ensures cell.configureBlock == Some(ValueConfiguration(text, value, ValueAccessory(onSelect)))
      ensures cell.whenSelectedBlock == onSelect
      ensures cell.reuseIdentifier == DefaultReuseIdentifier && cell.cellClass == DefaultCellClass
      ensures cell.cellHeight == AutomaticDimension && cell.HasEditingDefaults() && cell.indexPath == None
    {
      cell := new Cell(cellStyle := Value1);
      cell.configureBlock := Some(ValueConfiguration(text, value, ValueAccessory(onSelect)));
      cell.whenSelectedBlock := onSelect;
    }
  }
}
