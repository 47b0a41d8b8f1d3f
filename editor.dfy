/**
 * The editor window's handlers over its text area and its grid view: the
 * formatting commands, colour and font changes, the table template, search
 * and replace, a new document, loading a spreadsheet into the grid, the
 * export tokenization and the character count the status-bar update computes.
 *
 * Dialog answers are parameters; an information message is modelled by the
 * `prompted` result of the handler that shows it.
 */
module Editor {

  import opened Wrappers
  import opened Formatting
  import opened TextWidget
  import opened TableView
  import opened Tokenizer
  import opened Replace

  /** The ASCII table the table command inserts: six lines of 25 characters, each followed by a line feed (156 characters). */
  const TableTemplate: string :=
    "+-------+-------+-------+\n"
    + "| Col 1 | Col 2 | Col 3 |\n"
    + "+-------+-------+-------+\n"
    + "| Val 1 | Val 2 | Val 3 |\n"
    + "| Val 4 | Val 5 | Val 6 |\n"
    + "+-------+-------+-------+\n"

  /** The tags after a toggle of `t`: nothing changes without a selection. */
  function ToggleOnSelection(tags: seq<set<Tag>>, sel: Option<Span>, t: Tag): (r: seq<set<Tag>>)
    requires sel.Some? ==> sel.value.first < sel.value.last <= |tags|
    ensures sel.None? ==> r == tags
    ensures sel.Some? ==> r == Toggled(tags, t, sel.value.first, sel.value.last)
  {
    match sel
    case None => tags
    case Some(span) => Toggled(tags, t, span.first, span.last)
  }

  /** The value the grid shows for a cell once missing values are filled. */
  function ShownValue(c: Cell): (v: string)
    ensures c.Missing? ==> v == " "
    ensures c.Value? ==> v == c.text
  {
    CellText(if c.Missing? then Value(" ") else c)
  }

  class Notepad {
    const area: TextArea
    /** The grid's column headings, its rows, and whether the grid is packed. */
    var columns: seq<string>
    var rows: seq<DisplayRow>
    var tableShown: bool

    ghost predicate Valid()
      reads this, area
    {
      area.Valid()
    }

    constructor ()
      ensures Valid() && fresh(area)
      ensures area.chars == [] && area.tags == [] && area.sel == None && area.cursor == 0
      ensures area.colour == None && area.font == None
      ensures columns == [] && rows == [] && !tableShown
    {
      area := new TextArea();
      columns, rows, tableShown := [], [], false;
    }

    /** The count the status-bar update computes: the widget's text less its final line feed. */
    function CharCount(): (n: int)
      reads this, area
      ensures n == |area.chars|
    {
      |area.Dump()| - 1
    }

    /**
     * Toggle `t` over the selection, deciding by its first character. Without
     * a selection the information prompt is shown and no tag changes.
     */
    method ToggleTag(t: Tag) returns (prompted: bool)
      requires Valid()
      modifies area`tags
      ensures Valid()
      ensures prompted <==> area.sel.None?
      ensures area.tags == ToggleOnSelection(old(area.tags), area.sel, t)
    {
      if area.sel.None? {
        return true;
      }
      var span := area.sel.value;
      if t in area.tags[span.first] {
        area.TagRemove(t, span.first, span.last);
      } else {
        area.TagAdd(t, span.first, span.last);
      }
      prompted := false;
    }

    method ToggleBold() returns (prompted: bool)
      requires Valid()
      modifies area`tags
      ensures Valid()
      ensures prompted <==> area.sel.None?
      ensures area.tags == ToggleOnSelection(old(area.tags), area.sel, Bold)
    {
      prompted := ToggleTag(Bold);
    }

    method ToggleItalic() returns (prompted: bool)
      requires Valid()
      modifies area`tags
      ensures Valid()
      ensures prompted <==> area.sel.None?
      ensures area.tags == ToggleOnSelection(old(area.tags), area.sel, Italic)
    {
      prompted := ToggleTag(Italic);
    }

    method ToggleUnderline() returns (prompted: bool)
      requires Valid()
      modifies area`tags
      ensures Valid()
      ensures prompted <==> area.sel.None?
      ensures area.tags == ToggleOnSelection(old(area.tags), area.sel, Underline)
    {
      prompted := ToggleTag(Underline);
    }

    /**
     * The colour command with the hexadecimal colour the picker returned, if
     * any. A cancelled or empty pick does nothing. Otherwise the selection is
     * coloured and the colour tag takes the new colour; without a selection
     * the prompt is shown and nothing changes.
     */
    method ChooseColor(pick: Option<string>) returns (prompted: bool)
      requires Valid()
      modifies area`tags, area`colour
      ensures Valid()
      ensures prompted <==> pick.Some? && pick.value != [] && area.sel.None?
      ensures if pick.Some? && pick.value != [] && area.sel.Some? then
                area.tags == WithTag(old(area.tags), Colored, area.sel.value.first, area.sel.value.last)
                && area.colour == pick
              else
                area.tags == old(area.tags) && area.colour == old(area.colour)
    {
      prompted := false;
      if pick.Some? && pick.value != [] {
        if area.sel.None? {
          prompted := true;
        } else {
          area.TagAdd(Colored, area.sel.value.first, area.sel.value.last);
          area.ConfigureColour(pick.value);
        }
      }
    }

    /**
     * The font command with the family (already checked against the installed
     * families) and the size the size dialog returned, if any. A cancelled or
     * zero size does nothing. Otherwise the selection gets the font tag and the
     * font tag takes the new font; without a selection the prompt is shown and
     * nothing changes.
     */
    method ChangeFont(family: string, size: Option<int>) returns (prompted: bool)
      requires Valid()
      modifies area`tags, area`font
      ensures Valid()
      ensures prompted <==> size.Some? && size.value != 0 && area.sel.None?
      ensures if size.Some? && size.value != 0 && area.sel.Some? then
                area.tags == WithTag(old(area.tags), FontChange, area.sel.value.first, area.sel.value.last)
                && area.font == Some(FontSpec(family, size.value))
              else
                area.tags == old(area.tags) && area.font == old(area.font)
    {
      prompted := false;
      if size.Some? && size.value != 0 {
        if area.sel.None? {
          prompted := true;
        } else {
          area.TagAdd(FontChange, area.sel.value.first, area.sel.value.last);
          area.ConfigureFont(FontSpec(family, size.value));
        }
      }
    }

    /**
     * Insert the table template at the cursor. The template takes the tags
     * both characters around the cursor carry, the selection moves or grows
     * as it does for any insertion, and the cursor ends after the template.
     */
    method InsertTable()
      requires Valid()
      modifies area`chars, area`tags, area`sel, area`cursor
      ensures Valid()
      ensures area.chars == old(area.chars[..area.cursor]) + TableTemplate + old(area.chars[area.cursor..])
      ensures area.tags == TagsAfterInsert(old(area.tags), old(area.cursor), |TableTemplate|)
      ensures area.sel == ShiftSpan(old(area.sel), old(area.cursor), |TableTemplate|)
      ensures area.cursor == old(area.cursor) + |TableTemplate|
      ensures CharCount() == old(CharCount()) + 156
    {
      area.Insert(area.cursor, TableTemplate);
    }

    /**
     * Search and replace over the document's text. An empty target shows the
     * prompt and changes nothing. Otherwise the widget is emptied and refilled
     * with the replaced text, which therefore carries no tag, has no selection
     * and has the cursor at its end.
     */
    method SearchReplace(target: string, replacement: string) returns (prompted: bool)
      requires Valid()
      modifies area`chars, area`tags, area`sel, area`cursor
      ensures Valid()
      ensures prompted <==> target == []
      ensures target == [] ==> unchanged(area)
      ensures target != [] ==>
                && area.chars == ReplaceAll(old(area.chars), target, replacement)
                && (forall i :: 0 <= i < |area.tags| ==> area.tags[i] == {})
                && area.sel == None && area.cursor == |area.chars|
    {
      if target == [] {
        return true;
      }
      var replaced := ReplaceAll(area.chars, target, replacement);
      area.DeleteAll();
      area.Insert(0, replaced);
      prompted := false;
    }

    /**
     * Search and replace as the handler is written: the replacement runs over
     * the widget's whole content, final line feed included, and that result is
     * inserted in front of the line feed the emptied widget keeps.
     */
    method SearchReplaceAsWritten(target: string, replacement: string) returns (prompted: bool)
      requires Valid()
      modifies area`chars, area`tags, area`sel, area`cursor
      ensures Valid()
      ensures prompted <==> target == []
      ensures target == [] ==> unchanged(area)
      ensures target != [] ==>
                && area.chars == ReplaceAll(old(area.chars) + "\n", target, replacement)
                && (forall i :: 0 <= i < |area.tags| ==> area.tags[i] == {})
                && area.sel == None && area.cursor == |area.chars|
    {
      if target == [] {
        return true;
      }
      var content := area.Dump();
      var replaced := ReplaceAll(content, target, replacement);
      area.DeleteAll();
      area.Insert(0, replaced);
      prompted := false;
    }

    /** A new document: the text is cleared and the grid is hidden. */
    method NewFile()
      requires Valid()
      modifies this`tableShown, area`chars, area`tags, area`sel, area`cursor
      ensures Valid()
      ensures area.chars == [] && area.tags == [] && area.sel == None && area.cursor == 0
      ensures CharCount() == 0 && !tableShown
    {
      area.DeleteAll();
      HideExcelView();
    }

    /**
     * Load a dataset into the grid: its columns become the headings, the old
     * rows go, and every dataset row, missing values filled with a space,
     * becomes one grid row in order, tagged by the parity of its position.
     */
    method ShowExcelData(df: Dataset)
      modifies this`columns, this`rows, this`tableShown
      ensures columns == df.columns && tableShown
      ensures |rows| == |df.rows|
      ensures forall i :: 0 <= i < |df.rows| ==> |rows[i].values| == |df.rows[i]|
      ensures forall i, j :: 0 <= i < |df.rows| && 0 <= j < |df.rows[i]| ==>
                rows[i].values[j] == ShownValue(df.rows[i][j])
      ensures forall i :: 0 <= i < |df.rows| ==> (rows[i].tag == EvenRow <==> i % 2 == 0)
      ensures Rectangular(df) ==> forall i :: 0 <= i < |rows| ==> |rows[i].values| == |columns|
    {
      var filled := FillMissing(df);
      columns := filled.columns;
      rows := BuildRows(filled);
      if Rectangular(df) {
        OneValuePerColumn(df, rows);
      }
      tableShown := true;
    }

    method HideExcelView()
      modifies this`tableShown
      ensures !tableShown
    {
      tableShown := false;
    }

    /**
     * The table the export writes: the whole widget content tokenized. Its
     * rows are non-empty, its cells are whitespace-free words, and together
     * they hold every non-whitespace character of the document, in order.
     */
    method ExportToExcel() returns (data: seq<seq<string>>)
      ensures data == Tokenize(area.Dump())
      ensures Clean(data)
      ensures Flatten(data) == NonSpace(area.chars)
      ensures forall table :: Clean(table) && area.chars == Render(table) ==> data == table
    {
      var content := area.Dump();
      data := Tokenize(content);
      TokenizeClean(content);
      TokenizeKeepsNonSpace(content);
      NonSpaceAppend(area.chars, "\n");
      assert NonSpace("\n") == [];
      forall table | Clean(table) && area.chars == Render(table)
        ensures data == table
      {
        ExportRoundTrip(table);
      }
    }
  }

  /**
   * The handler as written differs from the corrected one whenever the target
   * holds no line feed: the document gains a line feed at its end.
   */
  lemma AsWrittenGainsLineFeed(text: string, target: string, replacement: string)
    requires target != [] && '\n' !in target
    ensures ReplaceAll(text + "\n", target, replacement) == ReplaceAll(text, target, replacement) + "\n"
    ensures ReplaceAll(text + "\n", target, replacement) != ReplaceAll(text, target, replacement)
  {
    ReplaceBeforeBreak(text, target, replacement);
  }

  /** Even a target that does not occur changes the document as written: "abc" becomes "abc\n". */
  lemma AsWrittenAbsentTarget(text: string, target: string, replacement: string)
    requires target != [] && '\n' !in target && !Occurs(text, target)
    ensures ReplaceAll(text + "\n", target, replacement) == text + "\n"
    ensures ReplaceAll(text, target, replacement) == text
  {
    ReplaceBeforeBreak(text, target, replacement);
    ReplaceAbsent(text, target, replacement);
  }
}
