# Lazzy: package selection and install tally, modelled in Dafny

Lazzy is a command-line tool. It fetches a JSON catalog of Windows packages, lets the
user pick some of them from a text menu, then downloads each chosen installer into a
`downloads` folder, runs it with its silent-install flag and deletes it again. This
project models the parts of `Lazzy.py` that are not I/O and proves properties about them:

- **Catalog filter** (`show_menu`). `Catalog.Filtered` is the view it builds; `Catalog.ShowMenu` is its loop.
  An empty filter keeps every entry. Otherwise an entry is kept exactly when the
  ASCII-lowered filter is a substring of the ASCII-lowered name. Kept entries stay in catalog order.
- **Selection loop** (the `while True` loop of `main`). One iteration is `Menu.Step` and the
  whole loop is `Menu.RunMenu`. `Menu.SelectApps` is the loop written with `while`, `continue`
  and `return`, and it is proved to compute `RunMenu`.
  Console input is a finite sequence of lines that are already stripped.
- **Gates and install pass** (the rest of `main`). `Install.InstallPass` is the `for` loop with its
  success counter. Download results are an oracle sequence of booleans. Install results are an
  oracle sequence of `Install.Launch` values: `install_silent` returns True, returns False, or
  raises an `OSError` it does not catch, which stops the program.
  `Session.RunSession` chains these steps:
  - the empty-catalog gate;
  - the selection loop;
  - the empty-selection gate;
  - the confirmation gate;
  - creation of `downloads` (`Session.InstallStage`), which can raise;
  - the install pass.

The catalog is a `seq<Entry>` with distinct keys (`Catalog.IsCatalog`). This gives a Python
dict's insertion order.

Behaviour of the code worth knowing, which the model follows:
- The scratch folder has the fixed name `downloads`. It is created with `exist_ok=True`. At the
  end it is removed only if it is empty. The code never makes a uniquely named folder and never deletes recursively.
- The menu prints entries in catalog order, with the category in parentheses. It does not group them by category.
- A package whose `category` is JSON `null` is shown with the label "None", not the default label:
  `app.get` returns the default only when the field is absent (`Catalog.Category`).
- Only a non-zero exit status and the timeout are caught around the installer. Any other error from
  starting it ends the program at once: that installer is not removed, later keys are not processed
  and no summary is printed (`Install.LaunchRaised`, `Session.Aborted`).
- Running out of console input is an uncaught `EOFError` from `input()`. It ends the program,
  so neither the confirmation nor the install pass runs (`Menu.InputExhausted`, `Session.InputEnded`).

## Model

| member | source | states |
|---|---|---|
| `Text.Lower` | Lazzy.py:68 | lowering keeps the length, leaves no ASCII upper-case letter, and leaves a string without upper-case letters unchanged |
| `Text.ContainsIsSubstring` | Lazzy.py:68 | the executable test `Contains(sub, s)` holds exactly when `sub` occurs in `s` at some position (Python's `in` on strings) |
| `Catalog.Matches` | Lazzy.py:68 | a package is kept exactly when the filter is empty or the lowered filter occurs in the lowered name |
| `Catalog.Filtered` | Lazzy.py:66-70 | the mapping `show_menu` builds is no longer than the catalog, and every entry in it passes the filter test |
| `Catalog.FilteredMembers` | Lazzy.py:66-70 | an entry is in the filtered view exactly when it is in the catalog and the filter is empty or its lowered form occurs in the lowered name |
| `Catalog.FilteredKeepsAll` | Lazzy.py:68 | an empty filter keeps the whole catalog, in order |
| `Catalog.FilteredInOrder` | Lazzy.py:66-70 | the filtered view embeds into the catalog at strictly increasing positions, so it keeps catalog order |
| `Catalog.FilteredKeys` | Lazzy.py:66-80 | a filtered view of a catalog has distinct keys, all of them catalog keys |
| `Catalog.ShowMenu` | Lazzy.py:62-80 | the loop builds exactly the filtered view |
| `Catalog.Lookup` | Lazzy.py:156-160 | `apps[key]` is found exactly when the key is in the catalog, and the found entry belongs to the catalog |
| `Catalog.LookupFindsEntry` | Lazzy.py:160 | looking up a catalog key returns that key's own package |
| `Catalog.SelectedListing` | Lazzy.py:82-88 | `display_selected_apps` prints at most one line per selected key |
| `Catalog.SelectedListingShowsKnownKeys` | Lazzy.py:82-88 | the lines are exactly those of the selected keys that are in the catalog, in selection order: each shows its key's name and the category label of `CategoryLabel` (`app.get('category', 'Brak kategorii')`): the category, "Brak kategorii" when the field is absent, "None" when it is JSON null; an unknown key has no line |
| `Catalog.SelectedListingAllKnown` | Lazzy.py:84-88 | when every selected key is in the catalog, line `i` shows the name and category label of the `i`-th selected key's package |
| `Menu.Choice` | Lazzy.py:107 | the choice keeps the typed line's length and has no upper-case letter; a line without upper-case letters is taken as typed |
| `Menu.Step` | Lazzy.py:99-135 | an iteration that does not end the loop reads at least one line, or reads none and clears a non-empty filter (the loop's termination measure) |
| `Menu.RunMenu` | Lazzy.py:99-135 | the loop terminates on every finite input: its `decreases` clause, discharged by `Step`'s contract, is the claim; `ensures r.Done?` then holds by construction |
| `Menu.StepResetsFilter` | Lazzy.py:102-105 | a non-empty filter with no match is cleared; no input is read and the selection is unchanged |
| `Menu.ResetShowsCatalog` | Lazzy.py:100-105 | after the automatic reset the view is the whole catalog |
| `Menu.EmptyFilterNeverResets` | Lazzy.py:97-102 | with an empty filter the view is the whole catalog and the reset never fires |
| `Menu.StepQuit` | Lazzy.py:109-110 | 'q' ends the loop without changing the selection or the filter |
| `Menu.StepClear` | Lazzy.py:111-114 | 'c' empties the selection, whatever it held, and the loop goes on |
| `Menu.StepNewFilter` | Lazzy.py:115-117 | an empty choice makes the next line the new filter, verbatim; the selection is unchanged |
| `Menu.StepSelectAll` | Lazzy.py:119-122 | '0' sets the selection to exactly the keys of the current view, in catalog order and without duplicates, and ends the loop; a catalog key "0" makes no difference |
| `Menu.StepPick` | Lazzy.py:124-135 | a view key not yet selected is appended at the end; a selected key or a non-key leaves the selection unchanged; the loop goes on exactly when the next line lowers to 't' |
| `Menu.StepPickIsLowercase` | Lazzy.py:107-126 | a key with an upper-case letter is never added by typing it, because the choice is lowered first |
| `Menu.StepKeepsSelectionOk` | Lazzy.py:96-135 | every iteration keeps the selection duplicate-free and within the catalog's keys |
| `Menu.RunMenuKeepsSelectionOk` | Lazzy.py:96-135 | the whole loop keeps the selection duplicate-free and within the catalog's keys |
| `Menu.RunMenuSelectAll` | Lazzy.py:119-122 | when the loop ends by '0', the selection is exactly the keys of the view under the final filter |
| `Menu.RunMenuPicksAreLowercase` | Lazzy.py:107-126 | unless the loop ends by '0', no selected key contains an upper-case letter |
| `Menu.StepLeavesSuffix` | Lazzy.py:107-133 | an iteration reads lines only from the front of the input |
| `Menu.RunMenuLeavesSuffix` | Lazzy.py:99-135 | the input left when the loop ends is a suffix of the original input |
| `Menu.PickOneThenDecline` | Lazzy.py:124-135 | catalog {"1": Foo}, input "1", "n": the loop ends declined with selection ["1"] |
| `Menu.ZzzDoesNotMatchFoo` | Lazzy.py:68 | the filter "zzz" does not match the name "Foo" |
| `Menu.ZzzStepReadsFilter` | Lazzy.py:115-117 | on input "", "zzz", "0" the first iteration sets the filter to "zzz" |
| `Menu.ZzzStepResets` | Lazzy.py:102-105 | with filter "zzz" and catalog {"1": Foo} the next iteration clears the filter without reading input |
| `Menu.ZzzStepSelectsAll` | Lazzy.py:119-122 | with no filter, '0' selects ["1"] and ends the loop |
| `Menu.FilterWithoutMatchIsDropped` | Lazzy.py:102-122 | filter "zzz" matches nothing, is dropped, and a following '0' selects the whole catalog |
| `Menu.UppercaseKeyIsNotPicked` | Lazzy.py:107-131 | typing the key "Vlc" selects nothing |
| `Menu.ZeroKeyStillSelectsAll` | Lazzy.py:119-122 | with keys "0" and "1", the choice '0' selects both |
| `Menu.SelectApps` | Lazzy.py:96-135 | the loop computes `RunMenu` from an empty selection and filter, and its final selection is duplicate-free and within the catalog |
| `Install.CountInstalled` | Lazzy.py:152-169 | the success tally never exceeds the number of items |
| `Install.CountInstalledAppend` | Lazzy.py:168-169 | the tally goes up by one exactly for an item that was installed |
| `Install.CountInstalledExtremes` | Lazzy.py:152-180 | the tally equals the total exactly when every item installed, and is zero exactly when none did |
| `Install.InstallPass` | Lazzy.py:152-178 | keys are processed in order up to and including the first whose installer raised, or all of them; each outcome is `Outcome` (the branch of lines 156-178) of whether the key is known, downloaded and what its installer did: a missing key only warns; installed exactly when known, downloaded and the installer succeeded; removal attempted exactly when known, downloaded and the installer returned; tally = installed count |
| `Session.SelectionFitsCatalog` | Lazzy.py:96-153 | a selection that keeps the loop invariant has at most as many keys as the catalog |
| `Session.PassCompletes` | Lazzy.py:155-180 | the pass reaches every key exactly when no downloaded installer raised |
| `Session.KnownKeysPass` | Lazzy.py:155-176 | with every selected key in the catalog, each outcome is `Outcome` of a known key: never missing, and installation and removal follow the download and install results |
| `Session.InstallStage` | Lazzy.py:148-180 | `downloads` exists exactly when `os.makedirs` returned; a failing `os.makedirs` stops the program; otherwise the trail holds, in order, the `Outcome` of each key processed, no installer raised before the last of them, the summary is reached exactly when no downloaded installer raised (then every key is processed and the tally is the installed count), and otherwise the pass stopped at the first installer that raised |
| `Session.FirstRaiseStopsThePass` | Lazzy.py:166-176 | when the first of three downloaded installers raises, the report is that single outcome, and a report that went on to the later keys is rejected |
| `Session.RunSession` | Lazzy.py:90-180 | no catalog or an empty one stops at once; an empty selection, a confirmation other than 't' or exhausted input runs no install and never creates `downloads`; a confirmed selection of at most catalog size goes to the install stage, whose report holds; `downloads` exists exactly when the pass started |

## Left out

- `fetch_apps` (HTTP GET plus JSON parsing) is a foreign library call. Its result is the parameter `fetched` of `Session.RunSession`, with `None` for any failure.
- `download_file` is streamed network I/O with file writes and a floating-point progress percentage. It is the oracle `downloadOk`.
- `install_silent` runs a subprocess with a 300-second timeout and prints its stderr. It is the oracle `launches`: True, False (non-zero exit or timeout), or an uncaught `OSError`.
- `os.makedirs("downloads", exist_ok=True)` is the oracle `folderOk` (whether it returns) and the flag `downloadsCreated`. `os.remove` is only the fact that removal was attempted (`Install.InstallerRemoved`). Its `OSError` is caught and does not change the tally.
- The final `os.listdir`/`os.rmdir` of `downloads` is left out. Whether the folder is empty depends on what it held before and on whether removals succeeded, and neither is modelled.
- `print` output is left out: menu lines, progress and messages.
- `str.strip()` is left out: input lines are taken as already stripped.
- A `category` that is neither a string nor JSON `null` (a number, a list) is printed through `str()`. Only string, `null` and absent categories are modelled (`Catalog.Category`).
- The category label `show_menu` prints for each entry is part of its `print` output and is left out with it; the same label is modelled in the listing of `display_selected_apps`.
- `str.lower()` is modelled on ASCII letters only. Unicode case mapping is not.
- A catalog entry without `name`, `url`, `installer_name` or `silent_flag` raises `KeyError` in the source. Every modelled `App` has all of these fields.
- `show_menu(apps, None)` behaves like an empty filter. The only caller always passes a string, so the filter is a `string`.
- `Session.RunSession` requires the oracle sequences to be at least as long as the catalog. The selection holds distinct catalog keys, so this gives an outcome for every attempted item.
