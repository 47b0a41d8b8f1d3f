# block-note editor core, in Dafny

This project models the logic of the block-note editor that can be stated precisely, and proves properties of it. block-note is a notepad window with character formatting, search and replace, a spreadsheet view and an export to a spreadsheet. The model covers:

- **Tokenizer** (`tokenizer.dfy`). This is the export's text-to-table step. It strips the whole text, splits it into lines, drops the blank lines and splits every other line on runs of whitespace. The three Python string operations `strip`, `splitlines` and `split` are written out as functions.
- **Replace** (`replace.dfy`). This is the literal replace-all of search and replace, as Python's `str.replace` does it with a non-empty target.
- **Formatting** (`formatting.dfy`). Every character carries a set of formatting tags. The module defines adding a tag over a range, removing it, and the toggle the bold, italic and underline commands perform.
- **TextWidget** (`text_widget.dfy`). This is the Tk text widget, reduced to what the handlers use:
  - a class holding the characters, their tags, the selection, the insertion cursor and the configuration of the colour and font tags;
  - the widget's final line feed, which reading the whole widget returns and deleting everything keeps;
  - `tag_add`, `tag_remove`, `insert` and `delete`.
- **TableView** (`table_view.dfy`). This is the spreadsheet grid. Missing values are filled with a space. The row-building loop turns each dataset row into one grid row, tagged "evenrow" or "oddrow" by the parity of its position.
- **Editor** (`editor.dfy`). This is the editor window (`class Notepad`) and its handlers:
  - the formatting toggles;
  - colour and font;
  - the ASCII table template;
  - search and replace;
  - new document;
  - loading a spreadsheet into the grid and hiding it;
  - the export tokenization;
  - the character count the status-bar update computes.

  Dialog answers are parameters of the handlers. An information message is modelled as the handler's `prompted` result.

Fixed choices of the model:

- Whitespace is the six characters space, tab, line feed, carriage return, vertical tab and form feed.
- The line feed is the only line break.
- Text inserted into the widget without a tag list takes the tags that both neighbouring characters carry. So text inserted at either end of the text, or into an empty widget, carries no tag.
- The selection extends under the same rule.
- The insertion cursor moves along when text is inserted at or before it.

Where the written behaviour and the evidently intended one differ, the code is followed:

- Loading a spreadsheet packs the grid below the text area and the status bar, and the text area stays visible. `tableShown` records only whether the grid is packed. It is not a choice of one view or the other.
- Search and replace adds a line feed at the end of the document whenever the target holds no line feed; see "Findings".

## Model

| member | source | states |
|---|---|---|
| Tokenizer.LeadingSpace | block-note.py:275 | the length of the leading whitespace: every character before it is whitespace, and the character at it, if any, is not |
| Tokenizer.TrailingStart | block-note.py:275 | where the trailing whitespace starts: every character from it on is whitespace, and the character before it, if any, is not |
| Tokenizer.Strip | block-note.py:275 | the stripped text neither starts nor ends with whitespace, and it is empty exactly when the whole text is whitespace |
| Tokenizer.StripPieces | block-note.py:275 | the text is the stripped text with only whitespace before and after it |
| Tokenizer.StripKeepsNonSpace | block-note.py:275 | stripping loses no non-whitespace character |
| Tokenizer.WordLen | block-note.py:277 | the leading word's length: all characters before it are non-whitespace and a whitespace character or the end follows |
| Tokenizer.Words | block-note.py:277 | splitting on whitespace yields only non-empty words without whitespace, and yields nothing exactly when the line is all whitespace; that the words are the maximal runs is carried by WordsAfterSpace, WordsAfterWord and WordsOfSpacedWord |
| Tokenizer.WordsKeepNonSpace | block-note.py:277 | the words of a line, concatenated, are exactly its non-whitespace characters in order |
| Tokenizer.WordsAfterWord | block-note.py:277 | a word followed by whitespace (or the end) is the first cell, and the rest splits on its own |
| Tokenizer.WordsAfterSpace | block-note.py:277 | whitespace before a text is skipped: it adds no cell and splits no cell |
| Tokenizer.WordsOfSpacedWord | block-note.py:277 | whitespace, then a word, then whitespace or the end, gives that word as the first cell and the rest on its own, so the cells are the maximal non-whitespace runs, left to right |
| Tokenizer.WordsOfJoinWords | block-note.py:277 | words joined by single spaces split back into the same words |
| Tokenizer.LineEnd | block-note.py:276 | the index of the first line feed, or the length when there is none |
| Tokenizer.SplitLines | block-note.py:276 | no line holds a line feed, and there are no lines exactly when the text is empty |
| Tokenizer.JoinSplitLines | block-note.py:276 | a text not ending in a line feed is its lines joined back with line feeds |
| Tokenizer.SplitLinesCons | block-note.py:276 | a line without line feeds followed by a line feed is the first line, and the rest splits on its own |
| Tokenizer.SplitJoinLines | block-note.py:276 | non-empty lines without line feeds, once joined, split back into the same lines |
| Tokenizer.StripTrailingBreak | block-note.py:275 | a text that neither starts nor ends with whitespace, followed by the widget's final line feed, strips back to itself |
| Tokenizer.TokenizeLines | block-note.py:277 | one row per non-blank line, its words, in line order; its properties are carried by TokenizeLinesClean, TokenizeOneLine, TokenizeLinesAppend and TokenizeLinesKeepNonSpace |
| Tokenizer.TokenizeLinesKeepNonSpace | block-note.py:277 | the rows built from lines hold exactly the non-whitespace characters of the lines, in order |
| Tokenizer.TokenizeLinesClean | block-note.py:277 | the rows built from lines are never empty and every cell is a non-empty run without whitespace |
| Tokenizer.TokenizeOneLine | block-note.py:277 | a blank or whitespace-only line gives no row; any other line gives exactly one row, its words |
| Tokenizer.TokenizeLinesAppend | block-note.py:277 | rows come one per non-blank line in line order: the rows of two blocks of lines are the rows of the first followed by those of the second |
| Tokenizer.Tokenize | block-note.py:275-277 | strip, split into lines, one row of words per non-blank line; its properties are carried by TokenizeClean, TokenizeKeepsNonSpace, ExportRoundTrip and TokenizeTwoWords |
| Tokenizer.TokenizeClean | block-note.py:275-277 | the exported rows are never empty and every cell is a non-empty run without whitespace |
| Tokenizer.TokenizeKeepsNonSpace | block-note.py:275-277 | the exported cells, row by row, hold exactly the text's non-whitespace characters, in order |
| Tokenizer.ExportRoundTrip | block-note.py:275-277 | a table of non-empty rows of whitespace-free cells, written with single spaces and line feeds plus the widget's final line feed, exports back to the same table |
| Tokenizer.TokenizeTwoWords | block-note.py:275-277 | two words separated by a space, such as "Hello World", export as one row of those two cells |
| Replace.ReplaceAll | block-note.py:252 | each occurrence found left to right is replaced and the scan continues after it; its properties are carried by ReplaceAllLength, ReplaceAbsent, ReplaceByItself, ReplaceNotExhaustive and ReplaceBeforeBreak |
| Replace.Count | block-note.py:252 | the number of non-overlapping occurrences found left to right, which together fit in the text; it is zero exactly when the target is absent (CountZeroIffAbsent) |
| Replace.ReplaceAllLength | block-note.py:252 | the replaced text's length is the original length plus k times the difference between replacement and target lengths, where k counts the non-overlapping occurrences found left to right |
| Replace.CountZeroIffAbsent | block-note.py:252 | no occurrence is replaced exactly when the target does not occur |
| Replace.ReplaceAbsent | block-note.py:252 | a target that does not occur leaves the text unchanged |
| Replace.ReplaceByItself | block-note.py:252 | replacing the target by itself leaves the text unchanged |
| Replace.ReplaceNotExhaustive | block-note.py:252 | the result can still hold the target: "aabb" with "ab" replaced by "" gives "ab" |
| Replace.ReplaceBeforeBreak | block-note.py:250-254 | with a target free of line feeds, replacing over a text plus a final line feed gives the replaced text plus that line feed |
| Formatting.WithTag | block-note.py:185 | after tag_add, a character carries the tag exactly when it is in the range or carried it before; other tags are untouched |
| Formatting.WithoutTag | block-note.py:183 | after tag_remove, a character carries the tag exactly when it is outside the range and carried it before; other tags are untouched |
| Formatting.Toggled | block-note.py:182-185 | if the first selected character carries the tag, no selected character carries it afterwards, otherwise all of them do; characters outside the selection and the other tags are unchanged |
| Formatting.ToggleTwiceIffUniform | block-note.py:182-185 | toggling twice restores the original tags if and only if the selection was uniform for that tag |
| Formatting.ToggleTwiceFromUntagged | block-note.py:182-185 | when the first selected character was untagged, two toggles leave the whole selection untagged |
| TextWidget.Inherited | block-note.py:244 | inserted text takes the tags both neighbours carry, and none at either end of the text |
| TextWidget.ShiftSpan | block-note.py:244 | the selection moves right by the inserted length when text goes in before it, grows when text goes in strictly inside it, and stays put otherwise |
| TextWidget.TagsAfterInsert | block-note.py:244 | the tags before and after the insertion point are kept and the inserted characters take the inherited tags |
| TextWidget.TextArea.constructor | block-note.py:33-34 | an empty widget with no tags, no selection and the cursor at the start |
| TextWidget.TextArea.Dump | block-note.py:111 | reading the whole widget gives its characters followed by one line feed |
| TextWidget.TextArea.TagAdd | block-note.py:185 | the loop adds the tag over the range, giving exactly WithTag of the old tags |
| TextWidget.TextArea.TagRemove | block-note.py:183 | the loop removes the tag over the range, giving exactly WithoutTag of the old tags |
| TextWidget.TextArea.Insert | block-note.py:244 | the text is spliced in at the position, the tags, the selection and the cursor move accordingly, and the widget stays consistent |
| TextWidget.TextArea.DeleteAll | block-note.py:119 | deleting everything leaves no character, no tag, no selection and the cursor at the start |
| TextWidget.TextArea.ConfigureColour | block-note.py:202 | the colour tag takes the given colour |
| TextWidget.TextArea.ConfigureFont | block-note.py:217 | the font tag takes the given font |
| TableView.FillMissing | block-note.py:145 | every missing cell becomes " ", every present cell keeps its value, nothing is missing afterwards, and the columns and shape are unchanged |
| TableView.TagFor | block-note.py:156 | a row gets "evenrow" if and only if its position is even, and "oddrow" if and only if it is odd |
| TableView.BuildRows | block-note.py:154-157 | one grid row per dataset row, in order, each holding the row's cell texts left to right, tagged "evenrow" if and only if its position is even and "oddrow" if and only if it is odd |
| TableView.OneValuePerColumn | block-note.py:149-157 | when every dataset row has one cell per column, every grid row has one value per column |
| Editor.ToggleOnSelection | block-note.py:177-185 | without a selection the tags stay as they are; with one they are toggled over it |
| Editor.ShownValue | block-note.py:145-155 | a missing cell is shown as " " and a present one as its value |
| Editor.Notepad.constructor | block-note.py:30-51 | an empty document with no tags or selection, the cursor at the start, the colour and font tags not configured, no grid headings or rows, and the grid not packed |
| Editor.Notepad.CharCount | block-note.py:111-112 | the count update_status_bar computes, the widget's text length less one, is the number of characters of the document |
| Editor.Notepad.ToggleTag | block-note.py:176-186 | without a selection the prompt is shown and no tag changes; otherwise the tags become the toggle over the selection |
| Editor.Notepad.ToggleBold | block-note.py:188-189 | the toggle of the bold tag |
| Editor.Notepad.ToggleItalic | block-note.py:191-192 | the toggle of the italic tag |
| Editor.Notepad.ToggleUnderline | block-note.py:194-195 | the toggle of the underline tag |
| Editor.Notepad.ChooseColor | block-note.py:197-204 | a cancelled or empty pick does nothing; otherwise the prompt is shown without a selection, and with one the selection gains the colour tag and the tag takes the picked colour |
| Editor.Notepad.ChangeFont | block-note.py:212-219 | a cancelled or zero size does nothing; otherwise the prompt is shown without a selection, and with one the selection gains the font tag and the tag takes the family and size |
| Editor.Notepad.InsertTable | block-note.py:234-244 | the 156-character template is spliced in at the cursor and takes the tags both characters around the cursor carry; the selection moves or grows as for any insertion; the cursor ends after the template, and the count update_status_bar would compute grows by 156 |
| Editor.Notepad.SearchReplace | block-note.py:247-257 | an empty target shows the prompt and changes nothing; otherwise the document becomes the replace-all of its text, without tags or selection, with the cursor at the end |
| Editor.Notepad.SearchReplaceAsWritten | block-note.py:247-257 | as written: the document becomes the replace-all of its text plus the widget's final line feed |
| Editor.AsWrittenGainsLineFeed | block-note.py:250-254 | with a target free of line feeds, the written handler's result is the corrected result plus a line feed, so the two always differ |
| Editor.AsWrittenAbsentTarget | block-note.py:250-254 | even a target that does not occur changes the document under the written handler, which appends a line feed, while the corrected one leaves it unchanged |
| Editor.Notepad.NewFile | block-note.py:116-120 | the document is emptied, the count update_status_bar would compute is zero, and the grid is hidden |
| Editor.Notepad.ShowExcelData | block-note.py:144-159 | the grid's headings are the dataset's columns; the old rows go; one grid row per dataset row in order, missing cells shown as " ", tagged by the parity of its position; for a dataset with one cell per column in every row, every grid row holds one value per column; the grid is shown |
| Editor.Notepad.HideExcelView | block-note.py:161-162 | the grid is hidden |
| Editor.Notepad.ExportToExcel | block-note.py:275-277 | the exported table is the tokenization of the whole widget content, so one row per non-blank line as Tokenize states; it has non-empty rows of whitespace-free cells holding exactly the document's non-whitespace characters in order, and a document that is a written-out table exports to that table |

## Left out

- File input and output is not modelled: opening and saving text files, reading a spreadsheet, and writing the exported table. The file's content, or the dataset, is a parameter.
- Image insertion is not modelled. It relies on an image library for decoding and resizing, and on the widget's embedded images.
- Font-family validation is not modelled, because it depends on the fonts installed on the system. `ChangeFont` takes the family after validation.
- Editor.Notepad.ChangeFont: the size dialog bounds the size to 8 through 72, and the model does not assume this. It treats any non-zero size as given.
- The line and column on the status bar are not modelled, because they come from the widget's own index arithmetic. Only the character count is.
- When the status bar is refreshed is not modelled. The bar is rewritten only on a key release or a change of the widget's modified flag (block-note.py:106-108), so after the first edit the menu commands (new document, table insertion, replace) leave the old count on display until a key is released. `CharCount` is the count the update would compute, not the one on display.
- Undo and redo are not modelled. The widget provides them itself.
- Dialogs are reduced to their answers:
  - the colour pick, the font size and the search and replacement texts are parameters;
  - the question asked by the new-document command about saving first is not modelled.
- Window, menu, style and grid widget construction are not modelled. Neither are the column widths, the background colours of the row tags, nor the fonts configured on the bold, italic and underline tags.
- Whitespace is a fixed set of six characters and the line feed is the only line break. Python's `splitlines` also breaks lines at carriage return, vertical tab, form feed, the ASCII separators 0x1C to 0x1E and several Unicode characters; the model keeps carriage return, vertical tab and form feed inside a line as whitespace. So "a b\rc d" exports as two rows in Python and as one row ["a", "b", "c", "d"] in the model. Python's `split` also treats 0x1C to 0x1F and Unicode spaces as whitespace, which the model keeps inside cells.
- The dataset is taken as already read. How the spreadsheet library pads rows of different lengths is not modelled.
- The widget's final line feed is assumed untagged. Inserting at the end of the text therefore gives the new characters no tag.
- The selection is assumed to end before the final line feed. Tk's Select All, and a triple click on the last line, also select that line feed. On an empty document Tk then finds a selection and shows no prompt for the toggles, the colour or the font, and tags the line feed; the model has no selection there and prompts.

## Findings

| source | as written | input that shows it | evidently intended | confidence | as-written member | corrected member |
|---|---|---|---|---|---|---|
| block-note.py:250-254 | the replacement runs over the widget's whole content, including the final line feed the widget always keeps. The result is inserted into the emptied widget, which still has its own final line feed, so the document gains a line feed on every replace whose target holds no line feed (a target that matches the final line feed, such as "\n" replaced by "", consumes that line feed, so no line feed is gained) | document "abc", target "x", any replacement: the document becomes "abc\n" | replace over the document's text only, so that a target that does not occur leaves the text unchanged | not executed | Editor.Notepad.SearchReplaceAsWritten (with Replace.ReplaceBeforeBreak, Editor.AsWrittenGainsLineFeed and Editor.AsWrittenAbsentTarget) | Editor.Notepad.SearchReplace (with Replace.ReplaceAbsent and Replace.ReplaceAllLength) |
