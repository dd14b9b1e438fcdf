# ICS 32 coursework, modelled in Dafny

This project models four pieces of an ICS 32 (Programming with Software Libraries in Python) repository:

- **The Dr. Mario field** (`a2-drmario/game.py`). `GameState` holds a rows-by-cols grid of one-character cells, at most one horizontal two-cell faller and a game-over flag. `create_faller` spawns a faller. `step` moves it one stage: fall, land or freeze. `render` draws the board as text.
- **The messenger's notebook store** (`a3-dmchat/notebook.py`). This covers diaries and their dict view, the contact list with its normalisation rule, per-contact message histories, deletion by Python index, and the `.json` check that `save` and `load` apply to file names.
- **The diary program's command reader** (`a1-diary/command_parser.py`). A token list is sorted into a command word, positional arguments, an options map and the order in which options appeared.
- **The diary program's print command** (`command_p` in `a1-diary/a1.py`). It prints profile fields and diaries for the options of a `P` command, under its error-flag protocol.

The Dafny modules follow the same split:

| module | file | models |
|---|---|---|
| `DrMario` | `drmario.dfy` | `a2-drmario/game.py` |
| `NotebookStore` | `notebook.dfy` | `a3-dmchat/notebook.py` |
| `CommandParser` | `command_parser.dfy` | `a1-diary/command_parser.py` |
| `DiaryPrint` | `print_command.dfy` | `command_p` in `a1-diary/a1.py` |
| `PyText` | `pytext.dfy` | the Python string and integer built-ins this code relies on |
| `Options` | `options.dfy` | Python's `None` versus a value |

The mutable objects are Dafny classes whose methods update fields in place:

- `GameState` keeps its field in an `array2<char>`, which `step` writes in place.
- `Notebook` keeps its lists and dictionary as `seq` and `map` fields.
- `Diary` keeps both its attributes and the two dict items the notebook file is written from.

Each method is specified against pure functions: `InsertContact`, `DeleteAt`, `OptionMap`, `PrintLines` and `RenderLines`. The listed properties are proved about those functions.

Python behaviour is modelled as follows:

- Python indexing, including negative indexes, is modelled by `PyIndex`.
- `int()` is modelled by `ParseInt`.
- `str()` is modelled by `NatToString`/`IntToString`.
- `strip()` and `lower()` are modelled by `Strip` and `Lower`.
- `'\n'.join` is modelled by `Join`.

Where Python raises an exception that the code catches, the model returns `None`. The clock (`time.time()`) is a parameter `now`. Whether the notebook file exists is the parameter `fileExists`.

`a1-diary/a1.py` imports a `notebook` module that is not part of this model. `command_p` is therefore modelled against the `a3-dmchat/notebook.py` store. That store has everything `command_p` reads: `username`, `password`, `bio`, `get_diaries()` and `Diary.entry`.

## Model

| member | source | states |
|---|---|---|
| `DrMario.SpawnColumn` | a2-drmario/game.py:60-62 | the spawn column is `cols // 2` for odd widths and one less for even widths, i.e. `(cols - 1) / 2`; both faller cells fit; the left margin exceeds the right one by `cols % 2` |
| `DrMario.GameState.constructor` | a2-drmario/game.py:4-15 | a field of the given size, all blank when no contents are given and otherwise exactly the contents; no faller, not game over; the invariant `Valid` holds |
| `DrMario.GameState.CreateFaller` | a2-drmario/game.py:52-75 | with a faller already in play nothing changes, not even the game-over flag; if either top-row cell at the spawn column is taken, the game is over and no faller appears; otherwise the faller is at row 1, spawn column, given colours, not landed; the field is never touched; `Valid` is preserved |
| `DrMario.GameState.CreateFallerChecked` | a2-drmario/game.py:52-75 | as intended: the same, except that the game is over when any of the four spawn-lane cells in rows 0 and 1 is taken; a new faller therefore covers only blank cells |
| `DrMario.GameState.Step` | a2-drmario/game.py:77-99 | no faller: nothing changes; open cells below: row + 1, field unchanged; blocked and not landed: only `landed` is set; blocked and landed: the two colours are written at the faller's cells, every other cell keeps its value and the faller is gone; `Valid` (`1 <= row < rows`, `col + 1 < cols`, landed only when blocked) is preserved; a faller on blank cells stays on blank cells, and then no taken cell is ever overwritten |
| `DrMario.GameState.FrozenGrid` | a2-drmario/game.py:91-92 | after a freeze the field, as a value, is `Freeze` of the old field |
| `DrMario.Freeze` | a2-drmario/game.py:91-92 | the frozen field equals the old one except at the faller's two cells, which hold its left and right colours |
| `DrMario.Blank` | a2-drmario/game.py:13 | `rows` rows of `cols` blank cells |
| `DrMario.DropToFloor` | a2-drmario/game.py:52-99 | on an empty 4-by-3 field a faller spawned at column 1 has landed on row 3 after three steps; a fourth step freezes it into the bottom row |
| `DrMario.SpawnOverVirus` | a2-drmario/game.py:64-99 | as written: with a virus at row 1 under the spawn column and a capsule half below it, spawn, land and freeze write the faller's left colour over the virus |
| `DrMario.SpawnOverVirusChecked` | a2-drmario/game.py:64-75 | as intended: on the same field the spawn ends the game, no faller appears and the virus stays |
| `DrMario.GameState.Render` | a2-drmario/game.py:17-50 | the produced lines are exactly `RenderLines` of the field, faller and flag |
| `DrMario.GameState.FallerCells` | a2-drmario/game.py:19-27 | the `faller_cells` table holds exactly the faller's two glyphs at its two positions |
| `DrMario.GameState.RenderRow` | a2-drmario/game.py:29-43 | one board line is the bar-enclosed drawing of that row's cells |
| `DrMario.DrawCell` | a2-drmario/game.py:32-41 | a cell under the faller draws the faller's glyph; any other cell draws `CellText` of its content |
| `DrMario.CellText` | a2-drmario/game.py:34-41 | every cell is drawn as three characters with the cell itself in the middle for blank, capsule and virus cells, and `?` otherwise |
| `DrMario.FallerGlyph` | a2-drmario/game.py:20-27 | the faller covers exactly its two cells; the left glyph is two characters ending in the left colour, the right one four characters starting `--` and the right colour |
| `DrMario.RowCellsLength` | a2-drmario/game.py:29-43 | a row's first n cells draw 3n characters, one fewer when the drawing stops between the faller's two halves |
| `DrMario.GlyphPlacement` | a2-drmario/game.py:29-43 | each cell's drawing sits in its board line at column 3c + 1, shifted one left for the faller's right half |
| `DrMario.RenderShape` | a2-drmario/game.py:29-45 | one line per field row, each starting and ending in `|` and 3 * cols + 2 long; then the footer, a space, 3 * cols dashes and a space; then only the status lines |
| `DrMario.RenderStatus` | a2-drmario/game.py:46-50 | `LEVEL CLEARED` appears exactly when no cell is a virus; `GAME OVER` appears exactly when the game is over, and then as the last line |
| `DrMario.RenderCell` | a2-drmario/game.py:31-41 | a cell not under the faller is drawn at columns 3c + 1 .. 3c + 3 of its line as `CellText` |
| `DrMario.RenderFaller` | a2-drmario/game.py:20-33 | the faller's row shows `[L--R]` while falling and `\|L--R\|` once landed, at columns 3 * col + 1 .. 3 * col + 6 |
| `NotebookStore.Diary.constructor` | a3-dmchat/notebook.py:45-51 | the entry is stored, a zero timestamp becomes the clock reading, and the dict view matches the attributes |
| `NotebookStore.Diary.SetEntry` | a3-dmchat/notebook.py:53-59 | as written: entry and dict item replaced, zero timestamp regenerated, dict item `timestamp` unchanged |
| `NotebookStore.Diary.SetEntrySynced` | a3-dmchat/notebook.py:53-59 | as intended: the same, and the dict view stays in sync (and becomes so when the timestamp is regenerated); a timestamp that is kept leaves the dict item `timestamp` as it was |
| `NotebookStore.Diary.SetTime` | a3-dmchat/notebook.py:64-66 | timestamp and its dict item both become the given time; the entry is unchanged; sync is preserved |
| `NotebookStore.StaleTimestampAfterSetEntry` | a3-dmchat/notebook.py:53-66 | `set_time(0)` followed by `set_entry` leaves the attribute at the clock reading and the dict item at 0 |
| `NotebookStore.SyncedAfterSetEntry` | a3-dmchat/notebook.py:53-66 | with the intended `set_entry` the same steps keep attribute and dict item equal |
| `NotebookStore.InsertContact` | a3-dmchat/notebook.py:129-131 | the old list is kept as a prefix with at most one name appended |
| `NotebookStore.InsertContactMembers` | a3-dmchat/notebook.py:129-131 | a name is in the result iff it was already there or it is the non-empty normalised input |
| `NotebookStore.InsertContactWellFormed` | a3-dmchat/notebook.py:129-131 | adding a contact never creates a duplicate, an empty name or a name with outer whitespace or capitals |
| `NotebookStore.InsertNormalized` | a3-dmchat/notebook.py:147-149 | the already normalised party of a message is itself stored by `add_contact` |
| `NotebookStore.OtherParty` | a3-dmchat/notebook.py:145-147 | the party is always a normalised name, the form `add_message` files it under and `add_contact` stores; it is the normalised recipient when the normalised sender equals the username, otherwise the normalised sender; absent or None entries read as "" |
| `NotebookStore.AppendMessage` | a3-dmchat/notebook.py:150 | the contact's history gains the message at its end, starting from empty; other histories are unchanged |
| `NotebookStore.DeleteAt` | a3-dmchat/notebook.py:115-119 | succeeds iff `-len <= i < len`; then exactly the element at the Python index is removed (order kept, multiset minus that element); otherwise the list is unchanged |
| `NotebookStore.Notebook.constructor` | a3-dmchat/notebook.py:83-95 | the credentials are stored and the diaries, contacts and messages start empty |
| `NotebookStore.Notebook.AddDiary` | a3-dmchat/notebook.py:97-105 | the diary is appended at the end |
| `NotebookStore.Notebook.DelDiary` | a3-dmchat/notebook.py:107-119 | result and new list are `DeleteAt` of the old list |
| `NotebookStore.Notebook.AddContact` | a3-dmchat/notebook.py:125-131 | the list becomes `InsertContact` of the old one; the invariant (distinct normalised names, histories only for contacts) is preserved |
| `NotebookStore.Notebook.GetContacts` | a3-dmchat/notebook.py:133-137 | the stored list; in a valid notebook it holds no name twice |
| `NotebookStore.Notebook.AddMessage` | a3-dmchat/notebook.py:139-150 | if the other party is "" nothing changes; otherwise the party becomes a contact and `get_messages(party)` gains the message at its end; the invariant is preserved |
| `NotebookStore.Notebook.GetMessages` | a3-dmchat/notebook.py:152-156 | the stored history, or empty for a name with none; a non-empty history belongs to a contact |
| `NotebookStore.ContactsScenario` | a3-dmchat/test_notebook.py:11-18 | adding `Alice`, `ALICE`, `bob` stores `["alice", "bob"]` |
| `NotebookStore.MessagesScenario` | a3-dmchat/notebook.py:139-156 | for any user and two distinct non-empty normalised names other than the user: a message received from the first is filed under it, a message sent to the second under that one, and the contacts are the two names in that order |
| `NotebookStore.MessagesExample` | a3-dmchat/test_notebook.py:24-34 | the test's exchange: `alice`'s message to `user` is filed under `alice`, `user`'s message to `bob` under `bob`, and the contacts are `["alice", "bob"]` |
| `NotebookStore.DiariesScenario` | a3-dmchat/test_notebook.py:36-47 | deleting index 0 of two diaries succeeds and leaves exactly the second diary; deleting index 5 fails and the list is still exactly that diary |
| `NotebookStore.PathName` | a3-dmchat/notebook.py:169 | the final path component holds no `/` and is never `.` |
| `NotebookStore.PathNameInDir` | a3-dmchat/notebook.py:169 | a plain file name after a directory and `/` is the path's final component |
| `NotebookStore.GuardsInDir` | a3-dmchat/notebook.py:169-200 | for a plain file name in any directory, `save` proceeds iff the name ends in `.json` after a non-empty stem, and `load` iff the file also exists |
| `NotebookStore.JsonSuffix` | a3-dmchat/notebook.py:171 | a file name's suffix is `.json` iff the name is a non-empty stem followed by `.json` |
| `NotebookStore.SaveGuard` | a3-dmchat/notebook.py:169-172 | `save` proceeds iff the final component ends in `.json` after a non-empty stem; otherwise it fails with the exact message |
| `NotebookStore.LoadGuard` | a3-dmchat/notebook.py:198-200 | `load` proceeds iff the file exists and the name passes the same test; otherwise it fails with the path in the message |
| `NotebookStore.SaveRejectsBadExtension` | a3-dmchat/test_notebook.py:72-76 | `save` of `bad.txt` in any directory fails with the extension message |
| `NotebookStore.LoadRejectsMissingFile` | a3-dmchat/test_notebook.py:78-82 | `load` of a `no.json` that does not exist fails with the path in the message |
| `NotebookStore.LoadRejectsBadExtension` | a3-dmchat/test_notebook.py:118-124 | `load` of an existing `notebook.txt` fails with the path in the message |
| `NotebookStore.SaveAcceptsJsonName` | a3-dmchat/test_notebook.py:126-128 | `save` of `fail.json` in any directory passes the extension check |
| `CommandParser.ParseCommand` | a1-diary/command_parser.py:31-58 | `None` iff the token list is empty; otherwise the command is the upper-cased first token and args, options and order are those of the remaining tokens |
| `CommandParser.ScanToken` | a1-diary/command_parser.py:42-51 | one pass of the token loop takes args, options, order and the pending option from their values for the tokens so far to their values for one more token |
| `CommandParser.OptionTokens` | a1-diary/command_parser.py:42-45 | a token is in the option order iff it is one of the tokens and starts with `-` |
| `CommandParser.ArgTokensMembers` | a1-diary/command_parser.py:46-51 | positional arguments are tokens that are not options |
| `CommandParser.OptionMap` | a1-diary/command_parser.py:41-49 | the map's keys are exactly the option names of the order |
| `CommandParser.LastIndexIsLast` | a1-diary/command_parser.py:44-49 | no occurrence of an option follows the one whose value the map keeps, so a repeated option keeps the value of its last occurrence |
| `CommandParser.OptionMapSnoc` | a1-diary/command_parser.py:41-51 | each further token changes the map as the loop does: an option resets its value to None, a non-option token right after an option becomes its value, any other token leaves the map alone |
| `CommandParser.TokensPartition` | a1-diary/command_parser.py:41-51 | every token is exactly one of option, option value or positional argument |
| `CommandParser.OptionTokensCount` | a1-diary/command_parser.py:42-45 | an option occurs in the order as many times as among the tokens, so a repeated option is listed twice |
| `CommandParser.OptionMapSize` | a1-diary/command_parser.py:44-45 | the map never has more keys than the order has entries |
| `DiaryPrint.CommandP` | a1-diary/a1.py:236-298 | "ERROR" without a notebook or path, or with no options; otherwise the lines of `PrintLines` joined by newlines, "ERROR" if there are none |
| `DiaryPrint.CollectLines` | a1-diary/a1.py:251-296 | the option loop ends with exactly the lines `PrintLines` gives: each served option's lines in order, stopping with "ERROR" at the first option that fails |
| `DiaryPrint.ServeOption` | a1-diary/a1.py:255-290 | one pass of the option loop produces exactly the lines `OptionLines` gives, or the failure |
| `DiaryPrint.AppendDiaryLines` | a1-diary/a1.py:268-270 | the `-diaries` loop appends the `"i: entry"` lines in diary order |
| `DiaryPrint.DiaryLinesAt` | a1-diary/a1.py:268-270 | the listing has one line per diary and line i is `str(i) + ": " + entry_i` |
| `DiaryPrint.Entries` | a1-diary/a1.py:269-278 | one entry per diary, in list order: entry i is the `entry` of diary i, as the `-diaries` and `-diary` branches read them |
| `DiaryPrint.UnknownOptionFails` | a1-diary/a1.py:257-260 | an option outside the six valid ones fails, and only valid options are served |
| `DiaryPrint.FailingOptionStops` | a1-diary/a1.py:257-296 | after a failing option no later option adds anything, and the output ends with "ERROR" |
| `DiaryPrint.ServedOptionsConcatenate` | a1-diary/a1.py:254-293 | options that succeed contribute their lines in order, one after another |
| `DiaryPrint.DiaryOptionByIndex` | a1-diary/a1.py:271-281 | `-diary` with the text of index i prints entry i, entry n + i for -n <= i < 0, and fails outside that range |
| `DiaryPrint.DiaryOptionNeedsInteger` | a1-diary/a1.py:271-281 | `-diary` without a value or with a value `int()` rejects fails |
| `PyText.Normalize` | a3-dmchat/notebook.py:129 | `strip().lower()` never lengthens a name and leaves no whitespace at either end and no ASCII capitals |
| `PyText.NormalizeIdempotent` | a3-dmchat/notebook.py:129 | normalising twice equals normalising once |
| `PyText.NormalizedFixpoint` | a3-dmchat/notebook.py:129 | a name in normal form is its own `strip().lower()` |
| `PyText.StripLeftSuffix` | a3-dmchat/notebook.py:129 | `lstrip` keeps a suffix of its input |
| `PyText.StripRightPrefix` | a3-dmchat/notebook.py:129 | `rstrip` keeps a prefix of its input |
| `PyText.ParseInt` | a1-diary/a1.py:276 | `int()` succeeds only on text that ends in a digit once the whitespace `int()` skips is cut off |
| `PyText.SeparatorBlocksInt` | a1-diary/a1.py:275-281 | text starting with one of U+001C .. U+001F is no integer, so `-diary` with such a value takes the error path |
| `PyText.ParseIntToString` | a1-diary/a1.py:276 | the model's `int()` reads back the model's `str()` of every integer, negative ones included; this is Python's `int(str(i)) == i` for integers within the interpreter's digit limit |
| `PyText.NatToString` | a1-diary/a1.py:270 | `str(n)` is a non-empty string of digits |
| `PyText.SplitJoin` | a1-diary/a1.py:298 | splitting the newline-joined output at newlines gives back its lines when none contains a newline |
| `PyText.SplitAppend` | a3-dmchat/notebook.py:169 | splitting `a + sep + b` at `sep` gives the pieces of `a` followed by the pieces of `b` |
| `PyText.PyIndex` | a1-diary/a1.py:277 | an index is valid iff `-n <= i < n`, and it denotes i or i + n |

## Left out

- Input and output: reading the board size, mode and contents from standard input and the command loop in `a2-drmario/a2.py`; `main` and the other commands of `a1-diary/a1.py`; JSON writing and reading in `save`/`load`; sockets, the GUI and the lab programs. None of these is part of this model.
- `shlex.split` is a foreign library; `ParseCommand` takes its token list as given, so the `ValueError` path for unbalanced quotes is not modelled.
- `rotate_faller`, `move_faller_left`, `move_faller_right` and `insert_virus` are called from `a2-drmario/a2.py` but are not defined in `a2-drmario/game.py`, so they are not modelled.
- Cells and faller colours are single characters. The `(colour, 'single')` tuples that `a2-drmario/a2.py` puts into the field are not modelled, and neither are multi-character colour words given to `create_faller`.
- `DrMario.GameState.constructor`: requires the given contents to be exactly rows by cols, as `a2-drmario/a2.py` builds them; it also requires rows >= 4 and cols >= 3, the checks in `a2-drmario/a2.py`. The field is copied into an array, so the caller's list is no longer shared with it.
- `DrMario.GameState.Render`: the inner loop over a row is the separate method `RenderRow` and the `faller_cells` table is built by `FallerCells`. The faller is a value, not a shared dict.
- `PyText.Lower`, `PyText.Upper`: ASCII letters only; Python's full Unicode case mapping is not modelled.
- `PyText.ParseInt`: ASCII digits only; `int()` also accepts other Unicode decimal digits. The whitespace it skips (`IsIntSpace`) is ASCII space, tab, newline, vertical tab, form feed and carriage return plus the non-ASCII characters `str.isspace()` accepts; U+001C .. U+001F are not skipped. The integer string conversion limit of CPython 3.11 and later is not modelled: there `int()` rejects decimal text with more than 4300 digit characters (leading zeros count), and `str()` refuses integers that long, while `ParseInt` and `IntToString` accept any length.
- `NotebookStore.Notebook.GetContacts` and `get_diaries` return the value of the list, not the shared list object, so a caller mutating the returned list is not modelled. `get_diaries` is read directly as the `diaries` field.
- `NotebookStore.PathName`: paths are parsed as POSIX paths, with `/` as the only separator. On Windows `pathlib` also splits at `\`, so a name such as `x\.json` passes the model's check while `save` there raises.
- `NotebookStore.Notebook.AddMessage`: the history stores a `Message` value. The source appends the caller's dict object itself, so later changes to that dict would show up in the history; that aliasing is not modelled.
- `NotebookStore.OtherParty`: only string or absent/None `sender` and `recipient` entries; other value types are not modelled. As the code does, the normalised sender is compared with the username as stored, not normalised.
- `NotebookStore.Diary.constructor`: a `None` entry (the Python default) is not modelled; entries are strings.
- `DiaryPrint.CommandP`: the path is present or absent (`Option`), since the caller passes either `None` or a `Path`, which is always truthy. The `else` branch after the last option test and the final `if error_flag: break` are unreachable in the source and have no counterpart.

## Findings

| source | as written | input that shows it | evidently intended | confidence | as-written member | corrected member |
|---|---|---|---|---|---|---|
| a3-dmchat/notebook.py:53-59 | `set_entry` regenerates a zero `_timestamp` but never updates the dict item `timestamp`; the docstrings at lines 40-44 and 71-75 also say the timestamp is refreshed whenever the entry is set, while the code (lines 57-59) does so only when it is zero, and the model follows the code | `Diary("first", 5.0)`, then `set_time(0)`, then `set_entry("second")` at clock 7.0: `d.timestamp` is 7.0 but `d["timestamp"]`, which `save` writes, is 0 | the dict item follows the regenerated timestamp, as the constructor's dict and `set_time` ensure | medium; not executed | `NotebookStore.StaleTimestampAfterSetEntry` (using `NotebookStore.Diary.SetEntry`) | `NotebookStore.Diary.SetEntrySynced` |
| a2-drmario/game.py:64-67 | `create_faller` tests only row 0 of the spawn lane before placing the faller in row 1 | a 4-by-3 field with rows `"   "`, `" r "`, `" R "`, `"   "`: `create_faller('B', 'Y')` spawns at (1, 1) over the virus; two `step` calls land and freeze it, and the virus becomes `B` | the game is over when either row 0 or row 1 of the spawn lane is taken, so that no faller is placed over a cell and no virus is overwritten | medium; not executed | `DrMario.SpawnOverVirus` (using `DrMario.GameState.CreateFaller`) | `DrMario.GameState.CreateFallerChecked` (with `DrMario.SpawnOverVirusChecked`) |
