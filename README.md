# Data Manager editor logic, modelled in Dafny

The Data Manager is a Unity editor window. It lists the ScriptableObject assets of one
"manageable" type in a tree. A row of toolbar buttons, one per type, chooses that type.
The window can duplicate, rename and delete the listed assets.

Almost all of the window is host plumbing: the asset database, Odin menu trees, dialogs
and keyboard events. This project models the deterministic decisions inside it, with every
host answer turned into an input.

- **`UniqueName`** (`unique_name.dfy`): the name a duplicate gets (`FindUniqueAssetName`).
  - It models the pattern `^(.*?)\s*\((\d+)\)$` the way .NET matches it, and `int.Parse`.
  - The counter uses C#'s unchecked 32-bit `+ 1`.
  - The do-while loop keeps its safety limit of 1000 and returns an unchecked fallback name.
  - "An asset exists at `<folder>/<name>.asset`" is membership of the name in a set `taken`.
  - The method `FindUniqueAssetName` is proved equal to the function `UniqueAssetName`.
  - Lemmas state the first-free-name property, the fallback, where counting starts, and the
    defects listed under Findings.
- **`WindowRules`** (`window_rules.dfy`): how `BuildMenuTree` sets the tree up (flattening,
  search toolbar, first-item selection, search focus), what `DeleteAssets` asks and deletes,
  and when `StartRename`/`PerformRename` rename.
- **`ButtonGrid`** (`button_grid.dfy`): the layout of the type buttons in `SelectButtonList`
  and its click rule.
  - The layout covers buttons per row, balanced row count, cell of each button, buttons in
    each row, button height and reserved height.
  - The click rule: the first pressed button selects its type and ends the loop.
- **`Text`** (`text.dfy`): the .NET `\s` class, which is also what
  `string.IsNullOrWhiteSpace` tests, plus decimal digits, `int.Parse` of a digit run, and
  `$"{n}"` of an int.
- **`Int32`** (`int32.dfy`) and **`Wrappers`** (`wrappers.dfy`): the C# `int` range with
  its wrapping increment, plus `Option`/`Result`. `Err(Overflow)` stands for the exception
  `int.Parse` throws.

## Model

| member | source | states |
|---|---|---|
| Int32.Increment | Editor/DataManager.cs:347 | `x + 1` on a C# int stays in range and is congruent to x + 1 modulo 2^32: int.MaxValue + 1 is int.MinValue |
| Text.NatToDecimal | Editor/DataManager.cs:355 | the decimal text of a natural number is a non-empty run of digits with no leading zero |
| Text.IntToDecimal | Editor/DataManager.cs:355 | `$"{counter}"` is non-empty, and it is all digits exactly when the counter is not negative |
| Text.DecimalValue | Editor/DataManager.cs:347 | the value `int.Parse` reads from a run of ASCII digits, before the 32-bit range check; see DecimalRoundTrip |
| Text.IsNullOrWhiteSpace | Editor/DataManager.cs:385 | `string.IsNullOrWhiteSpace`: no text, or only white space; see RenameRules |
| Text.DecimalRoundTrip | Editor/DataManager.cs:347-355 | int.Parse of the text `$"{n}"` writes gives back n |
| Text.IntToDecimalInjective | Editor/DataManager.cs:355 | different counters are written as different texts |
| Text.TrimEndWhiteSpace | Editor/DataManager.cs:343 | the lazy head followed by `\s*`: a prefix with no trailing white space, and only white space was removed |
| Text.TrailingDigitCount | Editor/DataManager.cs:343 | the run matched by `\d+` before `)` is the longest run of digits at the end |
| UniqueName.MatchNumberSuffix | Editor/DataManager.cs:343-346 | a successful match captures a non-empty digit run and a head without line feeds |
| UniqueName.MatchSound | Editor/DataManager.cs:343 | every reported match is `head + \s* + "(" + digits + ")"`, with an optional final line feed where `$` matches, and head as short as the lazy group allows |
| UniqueName.MatchComplete | Editor/DataManager.cs:343 | every name of that shape is matched, and the groups are exactly that head and those digits |
| UniqueName.SeedOf | Editor/DataManager.cs:339-348 | the start counter is a C# int, and it is below 1 only when `int.Parse(...) + 1` wrapped to int.MinValue |
| UniqueName.SeedOfSuffix | Editor/DataManager.cs:343-348 | a name ending in "(digits)" continues from the parsed value + 1 after the trimmed head; at int.MaxValue it wraps; above it int.Parse throws |
| UniqueName.SeedOfNoSuffix | Editor/DataManager.cs:339-340 | a name without the suffix keeps the whole name as prefix and starts at 1 |
| UniqueName.LeadingZerosExample | Editor/DataManager.cs:343-347 | "A (007)" continues as prefix "A" from 8 |
| UniqueName.Tried | Editor/DataManager.cs:352-363 | the do-while body always tries the start counter first |
| UniqueName.FirstFreeCounter | Editor/DataManager.cs:352-363 | the result is the first tried counter whose name is free, or the fallback when every tried name is taken |
| UniqueName.Candidate | Editor/DataManager.cs:355 | the tested name "<prefix> (counter)"; see CandidateInjective and ParsesBack |
| UniqueName.CandidateInjective | Editor/DataManager.cs:355 | different counters give different candidate names |
| UniqueName.TriedShape | Editor/DataManager.cs:352-363 | the loop tries the start, then the counters from the incremented one up to 999; the fallback is 1000, or the incremented counter when that is already at least 1000 |
| UniqueName.SearchCounter | Editor/DataManager.cs:350-366 | the counter the do-while returns with, or its fallback; see TriedSearch, SearchFirstFree, SearchWrapsAtMax and FallbackNotChecked |
| UniqueName.TriedSearch | Editor/DataManager.cs:352-366 | a free start is returned whatever its value; otherwise the first free counter from the next one, or the fallback |
| UniqueName.SearchFirstFree | Editor/DataManager.cs:352-366 | below int.MaxValue: the first counter from the start whose name is free, up to 1000 (or start + 1), with every earlier name taken |
| UniqueName.SearchWrapsAtMax | Editor/DataManager.cs:362-363 | from int.MaxValue, a taken name makes `counter++` wrap and the search goes on from int.MinValue up to 1000 |
| UniqueName.FallbackNotChecked | Editor/DataManager.cs:362-366 | when every name up to the limit is taken, the limit's name is returned although it is taken |
| UniqueName.ResultFormat | Editor/DataManager.cs:339-366 | with a start from 1 to int.MaxValue - 1 the result is "<prefix> (n)" for the first free n at or above the start |
| UniqueName.ParsesBack | Editor/DataManager.cs:343-355 | for a prefix p the pattern's head can be (no line feed, no trailing white space), a produced name "<p> (k)" is parsed back as head p and the digits of k |
| UniqueName.CandidateSeed | Editor/DataManager.cs:343-348 | for a prefix p with no line feed and no trailing white space, duplicating "<p> (k)" starts at k + 1, wraps at int.MaxValue, and throws above it |
| UniqueName.ContinuesNumbering | Editor/DataManager.cs:343-366 | for a prefix p with no line feed and no trailing white space, duplicating "<p> (k)" searches "<p> (k+1)", "<p> (k+2)", ... |
| UniqueName.CopyOfCopyTrimsPrefix | Editor/DataManager.cs:339-355 | a prefix with trailing white space is not kept: "A " is copied as "A  (1)", and copying that continues from prefix "A" and counter 2 |
| UniqueName.WrapsToNegative | Editor/DataManager.cs:347 | duplicating "<p> (2147483647)" gives "<p> (-2147483648)" when that name is free |
| UniqueName.OverflowThrows | Editor/DataManager.cs:347 | duplicating "<p> (k)" with k above int.MaxValue throws instead of naming a copy |
| UniqueName.SeedUnbounded | Editor/DataManager.cs:339-348 | corrected parse: the start is always at least 1 |
| UniqueName.SearchUnboundedFirstFree | Editor/DataManager.cs:352-366 | corrected search: for every start, the first free counter from it up to the limit |
| UniqueName.UnboundedContinuesNumbering | Editor/DataManager.cs:347 | corrected: duplicating "<p> (k)" gives "<p> (n)" with n > k for every k |
| UniqueName.UnboundedCounterPositive | Editor/DataManager.cs:347-355 | corrected: the counter in the returned name is never below 1 |
| UniqueName.UniqueAssetName | Editor/DataManager.cs:336-367 | the name the method returns, or the overflow it throws; see ResultFormat, ContinuesNumbering and FindUniqueAssetName |
| UniqueName.FindUniqueAssetName | Editor/DataManager.cs:336-367 | the do-while loop with its early return, 32-bit increment and fallback returns UniqueAssetName |
| WindowRules.Flatten | Editor/DataManager.cs:76-77 | the tree is flat when the found assets have fewer than two distinct parent folders; see FlattenIffOneFolder |
| WindowRules.BuildMenuTree | Editor/DataManager.cs:45-93 | toolbar iff more than one path; assets added iff a type is selected and some are found; warning iff none are found; first item selected only in a populated flat tree with items |
| WindowRules.FlattenIffOneFolder | Editor/DataManager.cs:76-77 | fewer than two distinct parent folders means every asset lies in the same folder, and conversely |
| WindowRules.OneFolderTree | Editor/DataManager.cs:76-93 | assets in one folder: flat tree, first item selected iff there is one, search focused iff there are several |
| WindowRules.SeveralFoldersTree | Editor/DataManager.cs:76-93 | assets in two folders: folder tree, nothing preselected, search focused, toolbar shown |
| WindowRules.AssetItems | Editor/DataManager.cs:429 | exactly the items whose value is an asset are kept |
| WindowRules.AssetItemsAppend | Editor/DataManager.cs:429 | the filter keeps the items' order |
| WindowRules.Names | Editor/DataManager.cs:432 | the names of the items, one per item, in order |
| WindowRules.Paths | Editor/DataManager.cs:448-454 | the asset paths of the items, one per item, in order |
| WindowRules.ConfirmMessage | Editor/DataManager.cs:432-435 | the confirmation text: the one name, or the count and the names; see ConfirmMessageLines |
| WindowRules.DeleteAssets | Editor/DataManager.cs:427-460 | the filter, the confirmation and the choice gate of a delete; see DeleteRules and ConfirmMessageLines |
| WindowRules.DeleteRules | Editor/DataManager.cs:429-454 | no dialog iff no item is an asset; deletion iff some item is an asset and the choice is 0; then exactly the asset items' paths are deleted |
| WindowRules.SplitJoin | Editor/DataManager.cs:432 | names without line feeds, joined with "\n", split back into the same names |
| WindowRules.ConfirmMessageLines | Editor/DataManager.cs:432-435 | for several assets the message is the count line, an empty line, then one line per asset name in order |
| WindowRules.Rename | Editor/DataManager.cs:369-420 | the guards of StartRename and PerformRename and their outcome; see RenameRules and RenameKeepsAssetCount |
| WindowRules.RenameRules | Editor/DataManager.cs:385-410 | a rename is attempted iff the popup returned a non-blank name different from the current one; it stops at the dialog iff the name is taken; a success uses a fresh, non-blank, different name |
| WindowRules.RenameKeepsAssetCount | Editor/DataManager.cs:396-419 | a rename never overwrites another asset: the folder keeps its number of assets |
| ButtonGrid.MaxButtonsPerRow | Editor/GUIUtils.cs:15-26 | at least one button per row; 8 when the width is not positive; otherwise as many 80-wide buttons as fit (at least one), and one more would not fit |
| ButtonGrid.CeilDiv | Editor/GUIUtils.cs:29-30 | the rounded-up quotient is zero exactly when the dividend is |
| ButtonGrid.CeilDivBounds | Editor/GUIUtils.cs:29-30 | the rounded-up quotient is the least q with q * b >= a |
| ButtonGrid.RowCount | Editor/GUIUtils.cs:29 | rowCount, the rounded-up number of rows of at most maxButtonsPerRow; see Balanced |
| ButtonGrid.ButtonsPerRow | Editor/GUIUtils.cs:30 | buttonsPerRow, the buttons shared evenly over those rows; see Balanced |
| ButtonGrid.Balanced | Editor/GUIUtils.cs:29-30 | for n >= 1: at least one row, 1 <= buttonsPerRow <= maxButtonsPerRow, room for all n, and no empty row |
| ButtonGrid.ButtonsInRow | Editor/GUIUtils.cs:52 | buttonsInThisRow, a full row or the rest of the buttons; see CellInGrid and EveryCellFilled |
| ButtonGrid.CellInGrid | Editor/GUIUtils.cs:50-52 | button i lies in a row below rowCount and a column below buttonsInThisRow; buttonsInThisRow is between 1 and buttonsPerRow, and full except in the last row |
| ButtonGrid.CellOfIndex | Editor/GUIUtils.cs:50-52 | the same for any grid with room for n buttons and no empty row |
| ButtonGrid.CellsDistinct | Editor/GUIUtils.cs:50-51 | different buttons get different cells |
| ButtonGrid.EveryCellFilled | Editor/GUIUtils.cs:50-52 | every cell of every row holds a button: the one numbered row * buttonsPerRow + col |
| ButtonGrid.ButtonHeight | Editor/GUIUtils.cs:32 | the button height lies between 30 and 50 |
| ButtonGrid.ButtonHeightShare | Editor/GUIUtils.cs:32 | 50 for up to 10 buttons in a full row, 30 from 17, in between exactly 500 shared among them |
| ButtonGrid.GridHeight | Editor/GUIUtils.cs:33 | totalHeight, the height reserved for rowCount rows; see RowInsideRect |
| ButtonGrid.RowInsideRect | Editor/GUIUtils.cs:33-60 | every row, drawn `row * buttonHeight` below the top, lies inside the reserved rect |
| ButtonGrid.SlotOf | Editor/GUIUtils.cs:50-63 | the row, column, row size and selected flag of one button; see SlotInGrid and SlotInsideReservedRect |
| ButtonGrid.SlotInGrid | Editor/GUIUtils.cs:50-63 | a button is drawn selected exactly when its type is the selected one, and its row and column are inside the grid |
| ButtonGrid.SlotInsideReservedRect | Editor/GUIUtils.cs:50-60 | the row rect of every button, `row * buttonHeight` below the top and buttonHeight high, lies inside the reserved totalHeight |
| ButtonGrid.PlaceButton | Editor/GUIUtils.cs:50-63 | the cell, row size and selected flag computed for one button |
| ButtonGrid.SelectButtonList | Editor/GUIUtils.cs:19-73 | the first pressed button selects its type and returns true, with no later button handled; with no press it returns false and keeps the selection (also for no types); every handled button gets its layout slot |

## Left out

- The asset database, dialogs, popups, `Selection` and pinging are inputs or are absent. These are the searches, existence checks, dialog choice, popup result and rename error.
- `DuplicateAsset`, `CreateNewAssetOfType`, `PingAsset` and the actual deletion and saving are not modelled. Only their decisions are.
- The Odin menu tree is not modelled: its construction, sorting, thumbnails, context menus, the folder-deselect hook and the multi-select property tree. The number of top-level items it ends up with is an input to `BuildMenuTree`.
- Keyboard-event dispatch is not modelled (Editor/DataManager.cs:215-259). It only forwards to the host operations.
- The ascending sort of the types by `Order` is not modelled (Editor/DataManager.cs:23-26). `SelectButtonList` takes the sorted types as its input.
- The call at Editor/DataManager.cs:37 passes two arguments to the three-parameter `SelectButtonList`. The model takes the width as an input.
- Button rects, icons and tooltips are not modelled (`Rect.Split`, icon lookup). `SelectButton` is replaced by the set of indices whose button reports a press.
- ButtonGrid.MaxButtonsPerRow: the width is a real number, so float rounding in `availableWidth / 80` is not modelled.
- ButtonGrid.CeilDiv: `(float)a / b` rounded up is exact integer ceiling division. Float rounding for very large counts is not modelled.
- ButtonGrid.SelectButtonList: with no types, the quotient `(float)0 / 0` is NaN and its conversion to `int` is unspecified. The model uses 1 for `buttonsPerRow` there, which no button ever reads.
- ButtonGrid.ButtonHeight: float division is modelled as real division.
- Text.TrailingDigitCount: `\d` is read as the ASCII digits. .NET also matches other Unicode decimal digits. `int.Parse` would then throw a FormatException, which the model does not produce.
- Text.IntToDecimal: the negative sign is '-', the invariant culture's. Other cultures are not modelled.
- `Path.Combine` and `GetDirectoryName` are not modelled. The folder of a duplicate or a rename is fixed, and "an asset exists there" is membership of the name in a set.
- `Rename` takes the popup's text as it stands when Editor/DataManager.cs:385 reads it. Whether the drop-down opened at line 380 has been edited by then is decided by the host editor, which is not part of this model.
- `StartRename` on a folder item returns at once (Editor/DataManager.cs:371). `Rename` models asset items only.
- An empty error text from `RenameAsset` counts as success, as `string.IsNullOrEmpty` does. The logged error line itself is not modelled.

## Findings

| source | as written | input that shows it | evidently intended | confidence | as-written member | corrected member |
|---|---|---|---|---|---|---|
| Editor/DataManager.cs:347 | `int.Parse(digits) + 1` is unchecked 32-bit arithmetic | duplicating "A (2147483647)" when "A (-2147483648)" is free returns "A (-2147483648)" | the next number, 2147483648, or at least a positive one | high (not executed) | UniqueName.WrapsToNegative | UniqueName.UnboundedContinuesNumbering |
| Editor/DataManager.cs:347 | `int.Parse` throws on digits above int.MaxValue | duplicating "A (99999999999)" throws an OverflowException and no name is produced | "A (100000000000)" | high (not executed) | UniqueName.OverflowThrows | UniqueName.UnboundedContinuesNumbering |
| Editor/DataManager.cs:362-363 | `counter++` wraps at int.MaxValue and the loop goes on from int.MinValue | duplicating "A (2147483646)" when "A (2147483647)" is taken returns "A (-2147483648)" if that is free | a positive counter above the taken one | high (not executed) | UniqueName.SearchWrapsAtMax | UniqueName.SearchUnboundedFirstFree |
