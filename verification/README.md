# twaddle terminal UI, modelled in Dafny

twaddle is a terminal dashboard for following Twitter accounts. Its UI code
draws everything with cursor-addressed escape sequences:
- a bordered column of followed handles ("Fucking Twats!") on the left;
- a bordered panel of posts ("Tweets") on the right;
- a key footer ("Key") along the bottom;
- a centred "Follow" modal on top, when one is open.

Single keys drive it:
- `j`/`k` move the selection in the focused list;
- `h`/`l` move the focus between the lists (`h` onto accounts with nothing selected ends the program, see below);
- `f` opens the modal, and carriage return there follows the typed handle;
- `r` reloads, `q` quits and `d` crashes.

Following or reloading starts an animated one-character "spinner" on a handle
while its posts are fetched in the background. The fetch's completion caches
the posts and stops the spinner.

This project models that UI logic as immutable datatypes and pure functions:

| file | module | models |
|---|---|---|
| `wrappers.dfy` | `Wrappers` | `Option` and `Result` |
| `geometry.dfy` | `Geometry` | screen points, `max`/`min` and `math.ceil(n / 2)` |
| `terminal.dfy` | `Terminal` | the escape-sequence constants; `getpos` as a command `Put(x, y, msg)`; a frame (the back-buffer) as a sequence of commands; its serialisation to the escape string and a parser for it; `Paint`, the map from each cell where a command starts writing to the text of the last command starting there |
| `border.dfy` | `Border` | `render_border`: corners, edge loops and the padded, centred title |
| `contents.dfy` | `Contents` | `Content`: the constructor's checks, truncation, alignment, focus colours and the spinner |
| `panels.dfy` | `Panels` | `ListContainer`: `j`/`k` navigation with wrap-around, the focus flag, the focus callback and row-by-row rendering |
| `modals.dfy` | `Modals` | `InputModal`: its key handling and its centred rendering for a given terminal size |
| `controller.dfy` | `Controller` | `Container`: key dispatch with fall-through, `focus_left`/`focus_right`, the modal, `follow`, reloading, and fetch completion |
| `layout.dfy` | `Layout` | `Container.render`: the accounts column width, the footer slots, the box corners and the drawing order |
| `scenarios.dfy` | `Scenarios` | whole key sequences on a freshly launched dashboard |

Each event returns its result instead of mutating anything:
- a key gives the new dashboard, the handles whose fetch it starts, and whether the accounts focus callback ran;
- or it gives a crash.

`LoadComplete` applies a finished fetch. Rendering returns the frame together
with the contents whose spinners it advanced.

Four behaviours of the code a reader might not expect, which the model follows:
- **Spinner reset.** A spinner resets to 0 only when it *equals* the visible length (ui.py:558-559). One that has run past the visible length, because the box shrank, never wraps again. `Contents.SpinnerPastWidthNeverReturns` states this.
- **Selection after follow.** Following a handle replaces the accounts items without clearing `select` (ui.py:317-322, 356-361). The old selection then names no item, so `j`/`k` on it raise inside `.index`, and the key table ignores both keys. This is the `Detached` selection, and `Controller.DetachedIgnoresNavigation` states it.
- **`h` ends the program.** On accounts that hold items but have no selection, `focus_left` clears the posts selection (ui.py:292-294) and then moves down in the accounts (ui.py:296-297). The move runs the accounts callback, which sets a flag on `tweets.select` (ui.py:277), now `None`. The `AttributeError` is raised inside the key dispatch's own `except` branch (ui.py:334-354), so it escapes and the loop stops. `Controller.FocusLeftSpec` and `Scenarios.LeftAfterLaunchCrashes` state this.
- **No fetch deduplication.** Nothing stops a fetch from starting again while one is in flight: `refresh_tweets` dispatches every time (ui.py:363-370).

## Model

| member | source | states |
|---|---|---|
| Terminal.GetPosRoundTrip | ui.py:70-71 | the string `getpos(x, y, msg)` emits parses back to exactly x, y and msg, negative coordinates included; row comes before column |
| Terminal.IntRoundTrip | ui.py:70-71 | the decimal text of a coordinate, with a minus sign when negative, reads back as the same integer |
| Terminal.SerializeAppend | ui.py:74-125 | serialising a back-buffer built by successive `bb +=` is the concatenation of the parts' serialisations |
| Terminal.EscapeSequencesHaveNoLineBreak | ui.py:17-37 | no listed escape sequence contains a newline or a carriage return |
| Border.RenderBorder | ui.py:74-125 | the border emits 4 corner commands, 2 per inner column and 2 per inner row |
| Border.EdgesPaint | ui.py:97-109 | the column loop puts a banner character or `borders[1]` on the top row and `borders[6]` on the bottom row, for every column from its start to `max_x - 1`, and writes no other cell |
| Border.SidesPaint | ui.py:118-123 | the row loop puts `borders[3]` at both sides of every row from its start to `max_y - 1`, and writes no other cell |
| Border.BorderOutline | ui.py:84-123 | for min < max on both axes, the border writes exactly the outline cells, and the four corners show `borders[0]`, `borders[2]`, `borders[4]` and `borders[5]` |
| Border.BorderEdges | ui.py:97-123 | for min < max, every inner column shows its top glyph above and `borders[6]` below, and every inner row shows `borders[3]` at both sides |
| Border.BannerCentred | ui.py:97-109 | when the padded title fits between the corners, it appears whole and in order from its start column; every other top cell is `borders[1]`; the plain cells right of the title outnumber those left of it by 0, 1 or 2 |
| Border.BorderTitleExample | ui.py:97-109 | a box from (1,1) to (10,5) titled "X" shows `borders[1]` in column 3 and " X " in columns 4 to 6 |
| Contents.New | ui.py:522-537 | construction succeeds exactly when the text contains none of "\n", "\r" or the listed escape sequences; then the text and alignment are kept, the focus is off and the spinner is -1 |
| Contents.NewRejectsLineBreaks | ui.py:523-527 | a text holding a newline or a carriage return is refused, and an accepted text holds neither |
| Contents.NewAcceptsPlainText | ui.py:523-527 | a text with no line break and no escape character is always accepted |
| Contents.NewAcceptsLoneEscape | ui.py:27-37 | only the listed sequences are refused: a lone escape character is accepted |
| Contents.TruncationKeepsPrefix | ui.py:541-543 | the text drawn is the prefix of length max(0, min(len, max_x - min_x)) |
| Contents.HighlightShape | ui.py:557-565 | the character loop wraps exactly character k in inverse…normal when k is an index of the text, and changes nothing otherwise |
| Contents.Render | ui.py:539-581 | a render changes only the spinner; a left-aligned content gives colour, cursor command and normal colour, and any other alignment gives one cursor command |
| Contents.RenderPlacement | ui.py:569-581 | the text goes on row min_y: LEFT at min_x, after `NORMAL_COLORS` when unfocused and `INVERSE_COLORS` when focused, with `NORMAL_COLORS` after it; RIGHT at max_x - len; CENTER at min_x + ceil((max_x - min_x)/2) - ceil(len/2) + 2 |
| Contents.RenderSpinner | ui.py:549-567 | spinner -1 stays -1 and the text is plain; otherwise it resets to 0 when it equals the visible length, the character at that index (if any) is wrapped with the focus-dependent colours, and the spinner then grows by one |
| Contents.RenderTimesSpinner | ui.py:539-567 | n renders into the same box change nothing but the spinner, which follows n spinner steps |
| Contents.SpinnerCountsUp | ui.py:557-567 | a spinner started at 0 counts 0, 1, …, len over the first len renders |
| Contents.SpinnerCycles | ui.py:557-567 | started at 0 over a non-empty text, the highlighted position runs 0 … len-1 and then repeats with period len, with the spinner always between 0 and len |
| Contents.SpinnerPeriodic | ui.py:557-567 | after the first render, the spinner value repeats with period len and stays in 1 … len |
| Contents.SpinnerPastWidthNeverReturns | ui.py:557-567 | a spinner already past the visible length never wraps again, and no later render highlights anything |
| Contents.RenderNoLineBreak | ui.py:522-581 | a render of a constructible content writes no newline or carriage return, so it cannot break the screen's rows |
| Panels.FocusDown | ui.py:194-212 | on an empty list nothing changes and no callback fires; a stale selection raises; otherwise the result is well formed and the list keeps its length |
| Panels.FocusUp | ui.py:214-228 | the same as `FocusDown`, for `focus_up` |
| Panels.FocusDownMoves | ui.py:194-212 | with no selection the first item is selected; from item i, item (i+1) mod n is; the callback fires exactly when one is registered; only the old and new items' focus flags change |
| Panels.FocusUpMoves | ui.py:214-228 | with no selection the last item is selected; from item i, item (i-1) mod n is, through Python's index -1; otherwise as `FocusDownMoves` |
| Panels.Input | ui.py:186-192 | `j` is `focus_down`, `k` is `focus_up`, and every other key raises |
| Panels.NavigationKeepsOneFocus | ui.py:194-228 | when the flags agree with the selection, each move leaves exactly one focused item, the selected one |
| Panels.UpUndoesDown | ui.py:194-228 | with a selection, `k` after `j` restores the panel exactly |
| Panels.DownUndoesUp | ui.py:194-228 | with a selection, `j` after `k` restores the panel exactly |
| Panels.DownTimesAt | ui.py:194-212 | k presses of `j` from item i select the item k positions further round, with the focus flag following and nothing else changing |
| Panels.DownCycles | ui.py:194-212 | n presses of `j` on an n-item list with a selection return to the same panel |
| Panels.RetreatLap | ui.py:214-228 | within one lap, k steps up from position i land on i - k, or on i - k + n once they pass the first item |
| Panels.UpTimesAt | ui.py:214-228 | k presses of `k` from item i select the item k positions further back round, through Python's index -1, with the focus flag following and nothing else changing |
| Panels.UpCycles | ui.py:214-228 | n presses of `k` on an n-item list with a selection return to the same panel |
| Panels.RenderStacks | ui.py:230-247 | rendering draws one cursor command per item that fits, item j on row min_y + j as that item's own render, and stops at max_y |
| Panels.RenderAdvancesShown | ui.py:230-247 | the drawn items come back with their spinners advanced; the items below max_y come back unchanged |
| Panels.RenderKeepsFlags | ui.py:230-247 | rendering keeps every selection, text, alignment and focus flag |
| Modals.Input | ui.py:168-173 | carriage return confirms with the buffer; an alphanumeric key is appended; every other key changes nothing, and no key raises |
| Modals.FeedAppendsAlnums | ui.py:168-173 | a key sequence appends exactly its alphanumeric keys, in order |
| Modals.InputKeepsAlnum | ui.py:168-173 | the buffer, and so any confirmed handle, holds only alphanumerics |
| Modals.RenderLayout | ui.py:143-166 | the modal blanks its rows from the top edge down to the row above the bottom edge, then writes the buffer two cells in from the corner, then draws the titled border |
| Modals.RenderShowsBuffer | ui.py:143-166 | for a box of at least 4 by 4, the last command starting at the buffer's cell is the buffer (the border starts nothing there), and the corners carry the corner glyphs |
| Modals.BorderSparesBuffer | ui.py:156-164 | on the buffer's row the border writes only the edge cells, so it leaves every cell of the buffer alone exactly when the buffer has at most 2 * (width / 2) - 2 characters (20 for the 23-wide follow modal); a longer buffer loses the character under the right edge |
| Controller.Fresh | ui.py:356-361 | rebuilding the accounts gives one fresh left-aligned item per stored handle, in order; it fails exactly when a handle is not valid content |
| Controller.Reload | ui.py:271-287 | `r` crashes exactly when a stored handle is not valid content; otherwise the accounts show the store with every spinner at 0, nothing is selected, the posts are empty, the accounts have the focus and every handle's fetch starts |
| Controller.Follow | ui.py:317-322 | following stores the handle once, closes the modal and focuses the accounts, changes nothing else, and never crashes |
| Controller.FollowRebuilds | ui.py:317-322 | with valid handles, the accounts show the new store, nothing there is focused or selected, and only the new handle's fetch starts (every handle's when the typed handle is empty) |
| Controller.ConfirmFollows | ui.py:317-322 | carriage return on the modal follows the typed handle, with the effects of `FollowRebuilds` |
| Controller.RefreshStarts | ui.py:363-370 | refreshing a shown, non-empty handle starts that handle's spinner and fetch only; any other handle starts every spinner and fetch; texts and focus flags stay |
| Controller.FollowKeepsValid | ui.py:317-322 | following keeps the dashboard's invariants, including unique stored handles |
| Controller.ReloadKeepsValid | ui.py:271-287 | a reload that does not crash keeps the dashboard's invariants |
| Controller.ModalSwallowsKeys | ui.py:331-354 | while the modal has the focus, every key but carriage return only edits its buffer |
| Controller.QuitIgnoredOnModal | ui.py:331-354 | `q` does not stop the loop while the modal is open |
| Controller.PanelKeysFallThrough | ui.py:331-354 | a focused panel hands every key but `j`/`k` to the key table |
| Controller.UnknownKeysIgnored | ui.py:353 | a key that is neither a panel key nor in the table changes nothing |
| Controller.QuitStops | ui.py:351 | `q` clears the render-loop flag and nothing else |
| Controller.DeleteCrashes | ui.py:348-350 | `d` always raises |
| Controller.DetachedIgnoresNavigation | ui.py:331-354 | `j`/`k` on a stale selection change nothing |
| Controller.ClearSelection | ui.py:292-294 | dropping the posts selection clears the selected item's focus flag and touches no other item |
| Controller.FocusLeftSpec | ui.py:289-297 | `h` ends the program exactly when the accounts hold items, none selected, and have the callback; otherwise it focuses the accounts, clears the posts' selection and flags, and selects the first account when none was selected |
| Controller.FocusRightSpec | ui.py:299-307 | `l` focuses the posts, clears their selection, then selects their first item; the accounts stay untouched |
| Controller.LaunchValid | ui.py:251-269 | a launch over distinct handles that does not crash starts valid, with the loop on and nothing cached |
| Controller.InputKeepsValid | ui.py:331-354 | every key keeps selections naming items, the focus flag on the selected item only, the modal buffer alphanumeric and the handles unique |
| Controller.LoadComplete | ui.py:435-440 | a finished fetch caches the posts reversed under that handle, sets the handle's spinner to -1, and changes nothing else |
| Controller.LoadCompleteCaches | ui.py:435-440 | the cached list is the fetched one last-first, the handle's spinner is -1 and the state stays valid |
| Controller.FollowThenLoad | ui.py:435-440 | following a handle starts its spinner at 0 and its fetch; completing that fetch stops the spinner and caches the reversed posts |
| Layout.AccountsWidth | ui.py:473-476 | the column is at least 19 wide and at least len(h) + 3 for every handle h |
| Layout.AccountsWidthAttained | ui.py:473-476 | the width is 19 or some handle's length plus 3, so it is the maximum of those values |
| Layout.FooterSlotFloor | ui.py:464-466 | the n slots cover the footer's width except for fewer than n columns |
| Layout.SlotStartIs | ui.py:468-471 | the k-th footer slot starts k slot widths right of the first |
| Layout.FooterSlots | ui.py:464-471 | footer entry k is drawn as its own render in the k-th slot |
| Layout.FooterAdvances | ui.py:464-471 | every footer entry comes back with its spinner advanced by its render |
| Layout.AccountsColumn | ui.py:473-482 | every handle fits inside the accounts box; item j sits at column min_x + 2 on row min_y + 1 + j; the posts box starts one column after the accounts box |
| Layout.ModalOnTop | ui.py:494-495 | an open modal is drawn last, so whatever is drawn beneath, the last command starting at its buffer cell is the buffer and its corners carry the corner glyphs |
| Layout.ComposeKeepsState | ui.py:448-495 | rendering changes only spinners: selections, flags, focus, loop flag, handles and cache stay |
| Scenarios.BrowseAccounts | ui.py:194-212 | with two stored handles, `j` three times selects the first, the second and the first again, firing the callback each time |
| Scenarios.LeftAfterLaunchCrashes | ui.py:289-297 | with one stored handle, `h` right after launch ends the program |
| Scenarios.FollowByKeys | ui.py:331-354 | `f`, then `boqb`, then carriage return stores "boqb" and starts only its fetch; the `q` is typed into the buffer rather than quitting |

## Left out

- Terminal I/O is not modelled: `getch`, `set_terminal`, `restore_terminal` and printing the back-buffer. Keys arrive as characters, and a frame is a value.
- `os.get_terminal_size` is not called: the terminal size is a parameter of `Modals.Render` and `Layout.Screen`.
- Concurrency is not modelled. This covers the threaded render loop and its 0.1 s sleep (ui.py:497-518), and the process pool in `load_tweets` (ui.py:442-446). An operation returns the handles whose fetch it starts, and `Controller.LoadComplete` is the completion, applied whenever the caller chooses.
- The database is not modelled: `Twat.get_or_create`, `Twat.select`, `Twat.get(...).delete()`. The accounts table is the `store` sequence of usernames, kept unique and in insertion order, which is assumed to be the order `Twat.select()` returns.
- `remove_twat` is not modelled, because the `d` key never reaches it: building its argument indexes a list with a `Content` (ui.py:348-350). `d` is therefore `Crash(IndexedByContent)`.
- Under `j`/`k` the accounts focus callback (ui.py:275-280) is an abstract `cascade` flag in the outcome. It runs `render_tweets` and then dereferences `tweets.select`. When that is `None`, the `AttributeError` is swallowed by the `except` at ui.py:334, and no table entry exists for `j`/`k`. Otherwise it runs `tweets.focus_down`. Its effect on the posts panel is not modelled. Under `h` the callback always finds `None` and ends the program, which is modelled.
- `render_tweets` is not modelled. It depends on `arrow` date formatting and on the layout of the scraper's records. Its field-name list (ui.py:373-412) is never used.
- The `ValueError` that `Container.render` raises when only one of `_min` and `_max` is given is not modelled. `Layout.Compose` always takes both.
- `Content`'s `TypeError` check is not modelled, because a Dafny `string` is always a string.
- The unused `truncate` field is not modelled.
- `ListContainer.window_items` is always `contents` after a render (ui.py:233), and the model uses the items directly. Before the first render it is `[]`, so the source would raise on `focus_down`; that case is not modelled.
- `MAX_TWAT_HANDLE_LEN` (ui.py:39) is not modelled, because nothing reads it.
- `orm.py`, `twat.py` and `twatapp.py` are not part of this model. They hold migrations, scraping and process start-up.
- Controller.Reload: a handle that is not valid content is a `Crash`. The source raises `ValueError` out of the key dispatch, and the loop's exception handler ends the program.
- Controller.Follow: when a stored handle is not valid content, the rebuild's `ValueError` is swallowed by the key dispatch, and the model keeps the old accounts items. The source has by then already stored the handle and closed the modal, as the model does.
- Modals.RenderShowsBuffer: `Paint` records each message whole at its first cell, so the lemma does not say on its own that every buffer character stays visible; `Modals.BorderSparesBuffer` states exactly when the border overwrites one.
- Layout.ModalOnTop: the same starting-cell view; a lower layer's long message that starts left of the modal and runs under it is not tracked cell by cell.
