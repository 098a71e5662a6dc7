# Address book table: search, rows and dialog state

A Dafny model of the logic inside the address-book table component of the
Safe web client. The component shows the address book as a table and filters
it by a search box. Each row has Edit, Delete and (for a user allowed to send)
Send buttons. A small piece of state decides which dialogs are open: Export,
Import, the add/edit entry dialog, the remove dialog, and the send dialog.

The model keeps only the data and the decisions. The widgets, icons and
analytics wrappers are left out, and the hooks' results become inputs:
- `useAddressBook`: the entries as a sequence of `(address, name)` pairs.
- `useIsGranted`: a boolean.
- `useCurrentChain`: an optional chain name.

Modules, one per concern of the component:

- `Text` (`text.dfy`): ASCII lowercasing and JavaScript's `includes`, the latter proved equal to "is a substring".
- `Entries` (`entries.dfy`): `Entry`, `Option`, and unique addresses.
- `SearchFilter` (`filter.dfy`): `filteredEntries`.
  - An empty query returns the entries unchanged.
  - Otherwise the query is lowercased once.
  - An entry is kept iff the query occurs in its lowercased address or its lowercased name.
  - The result is the ordered subsequence of the input at exactly the matching positions.
- `RowProjection` (`rows.dfy`): one row per filtered entry. The actions cell is empty, pinned and holds the buttons.
- `ModalState` (`modals.dfy`): four independent open flags, `defaultValues`, `selectedAddress` and the search text. Also the transitions, an event type, and an invariant over every event sequence.
- `AddressBookView` (`view.dfy`): the placeholder or the table, the rendered dialogs with their props, and what each row button does.

The dialog flags are modelled as the code has them: four independent
booleans. One might expect at most one dialog to be open at a time, but the
code does not enforce it: opening a second dialog leaves the first one's flag
set, and `handleClose` clears all four (`ModalState.OpeningDoesNotCloseOthers`).
The remove dialog is handed only an address, `defaultValues?.address || ''`,
not the whole entry.

## Model

| member | source | states |
|---|---|---|
| Text.Includes | src/components/address-book/AddressBookTable/index.tsx:79 | `includes` answers true exactly when the needle occurs at some position of the string |
| Text.Lower | src/components/address-book/AddressBookTable/index.tsx:77-79 | lowercasing keeps the length, maps each character to its own lowercase form at the same position, and leaves no capital letter |
| Text.LowerIdempotent | src/components/address-book/AddressBookTable/index.tsx:77-79 | lowercasing an already lowercased string changes nothing |
| Text.LowerEmptyIff | src/components/address-book/AddressBookTable/index.tsx:73-77 | a query lowercases to the empty string only if it is empty, so lowercasing cannot turn a search into "show all" |
| SearchFilter.KeepMatching | src/components/address-book/AddressBookTable/index.tsx:78-80 | the `filter` call keeps exactly the entries whose lowercased address or name includes the lowercased query, and never grows the list |
| SearchFilter.EmptyQueryMatchesAll | src/components/address-book/AddressBookTable/index.tsx:73-75 | every entry matches the empty query, so the early return agrees with filtering |
| SearchFilter.FilterEntries | src/components/address-book/AddressBookTable/index.tsx:72-81 | the empty query returns the entries unchanged; for every query an entry is shown iff it is in the book and the query occurs, case-insensitively, in its address or name |
| SearchFilter.KeepMatchingPositions | src/components/address-book/AddressBookTable/index.tsx:78-80 | `filter` returns the entries at strictly increasing positions of its input, and a position is among them iff its entry passes the callback |
| SearchFilter.FilterPositions | src/components/address-book/AddressBookTable/index.tsx:72-81 | the search result is the subsequence of the book at exactly the matching positions, in the book's order |
| SearchFilter.SelectionKeepsUnique | src/components/address-book/AddressBookTable/index.tsx:71 | an ordered selection from entries with distinct addresses has distinct addresses |
| SearchFilter.FilterKeepsUniqueAddresses | src/components/address-book/AddressBookTable/index.tsx:71-81 | when the book's addresses are distinct (they are the keys of one map), the shown entries' addresses are distinct |
| SearchFilter.KeepMatchingIdempotent | src/components/address-book/AddressBookTable/index.tsx:78-80 | filtering a filtered list with the same lowercase query changes nothing |
| SearchFilter.FilterIdempotent | src/components/address-book/AddressBookTable/index.tsx:72-81 | searching the search result again with the same query changes nothing |
| SearchFilter.FilterIgnoresQueryCase | src/components/address-book/AddressBookTable/index.tsx:77 | two queries that lowercase alike show the same entries in the same order |
| SearchFilter.SearchByName | src/components/address-book/AddressBookTable/index.tsx:72-81 | in the book Alice at 0xAAA and Bob at 0xBBB, "ali" shows Alice only |
| SearchFilter.SearchByAddressOtherCase | src/components/address-book/AddressBookTable/index.tsx:72-81 | in the same book, "0xbbb" shows Bob only, although the stored address is in capitals |
| SearchFilter.SearchBySpace | src/components/address-book/AddressBookTable/index.tsx:73-80 | a lone space is not trimmed: it shows neither entry, while the empty query shows both in order |
| RowProjection.ActionsFor | src/components/address-book/AddressBookTable/index.tsx:97-125 | Edit and Delete are always offered; Send is offered iff the user may send |
| RowProjection.ProjectRows | src/components/address-book/AddressBookTable/index.tsx:83-129 | one row per entry in the same order; row i reads back as entry i; every row's cells render their raw values, the actions cell is `''` and sticky, and its buttons follow the permission |
| RowProjection.EntriesOfProjectRows | src/components/address-book/AddressBookTable/index.tsx:83-91 | reading the entries back from the rows gives exactly the entries the rows were built from |
| RowProjection.ProjectRowsOfEntriesOf | src/components/address-book/AddressBookTable/index.tsx:83-129 | a well-formed row is determined by its entry and the permission: rebuilding rows from their entries gives the same rows |
| ModalState.OpenModal | src/components/address-book/AddressBookTable/index.tsx:56-58 | opening dialog t raises flag t and leaves the other three flags, the values, the send target and the search text unchanged |
| ModalState.OpenModalWithValues | src/components/address-book/AddressBookTable/index.tsx:60-63 | as opening, and additionally the values become the given (address, name) |
| ModalState.Close | src/components/address-book/AddressBookTable/index.tsx:65-68 | closing lowers all four flags and forgets the values; the send target and search text are kept |
| ModalState.OpenSend | src/components/address-book/AddressBookTable/index.tsx:119 | the Send button sets the send target and nothing else |
| ModalState.CloseSend | src/components/address-book/AddressBookTable/index.tsx:165 | closing the send dialog clears the send target and nothing else |
| ModalState.SetSearchQuery | src/components/address-book/AddressBookTable/index.tsx:52 | the search box sets the search text and nothing else |
| ModalState.DisableAddressInput | src/components/address-book/AddressBookTable/index.tsx:158 | the address field is locked iff values are present with a non-empty name |
| ModalState.RemoveAddress | src/components/address-book/AddressBookTable/index.tsx:162 | the remove dialog gets the values' address when values are present, else `''` |
| ModalState.Step | src/components/address-book/AddressBookTable/index.tsx:99-165 | each event runs its handler: a header open raises its flag only, Edit and Delete raise the entry or remove flag and set the values to the row's entry, Send sets only the send target, a dialog close lowers all flags and clears the values, the send close clears only the send target, and only a search changes the search text |
| ModalState.CloseIdempotent | src/components/address-book/AddressBookTable/index.tsx:65-68 | closing twice is closing once |
| ModalState.OpeningDoesNotCloseOthers | src/components/address-book/AddressBookTable/index.tsx:57 | the flags are not exclusive: after opening t and then u, both flags are raised |
| ModalState.EditCloseThenAdd | src/components/address-book/AddressBookTable/index.tsx:60-68 | after Edit then close, "Add entry" opens the entry dialog with no values and the address field unlocked |
| ModalState.StepKeepsNoStaleValues | src/components/address-book/AddressBookTable/index.tsx:56-68 | every event keeps values only while the entry or remove flag is raised |
| ModalState.RunKeepsNoStaleValues | src/components/address-book/AddressBookTable/index.tsx:56-68 | any sequence of events keeps values only while the entry or remove flag is raised |
| ModalState.ReachableHasNoStaleValues | src/components/address-book/AddressBookTable/index.tsx:51-68 | from the first render, no sequence of events leaves values held with both the entry and remove dialogs closed |
| ModalState.RunKeepsQueryWithoutSearch | src/components/address-book/AddressBookTable/index.tsx:52-68 | no sequence of dialog events changes the search text |
| AddressBookView.PlaceholderText | src/components/address-book/AddressBookTable/index.tsx:145 | the text starts with "No entries found", is exactly that with no chain, and continues with " on " and the chain's name when there is one |
| AddressBookView.PlaceholderNamesChain | src/components/address-book/AddressBookTable/index.tsx:145 | the chain (or its absence) is recovered exactly from the placeholder text |
| AddressBookView.PlaceholderScenario | src/components/address-book/AddressBookTable/index.tsx:145 | on "Testnet" the text is "No entries found on Testnet"; with no chain it is "No entries found" |
| AddressBookView.RenderBody | src/components/address-book/AddressBookTable/index.tsx:139-148 | the placeholder is shown iff no entry of the book matches the query, and then its text is exactly the placeholder text for the chain; otherwise the table's rows read back as the filtered entries and are all well formed |
| AddressBookView.EmptyBookShowsPlaceholder | src/components/address-book/AddressBookTable/index.tsx:140-146 | an empty address book shows the placeholder whatever the search |
| AddressBookView.FlagDialogs | src/components/address-book/AddressBookTable/index.tsx:150-162 | each of the four flag-driven dialogs is on screen iff its flag is raised, with the values, lock and remove address derived from the state, in markup order |
| AddressBookView.SendDialogs | src/components/address-book/AddressBookTable/index.tsx:165 | the send dialog is on screen iff the send target is a non-empty address, and it is sent to that address |
| AddressBookView.RenderDialogs | src/components/address-book/AddressBookTable/index.tsx:150-165 | each flag-driven dialog is shown iff its flag is raised, with the values, lock and remove address derived from the state; the send dialog is shown iff the send target is a non-empty address; the dialogs appear in markup order, each at most once |
| AddressBookView.CloseLeavesOnlySend | src/components/address-book/AddressBookTable/index.tsx:150-165 | after closing, the only dialog left on screen is the send dialog, exactly as before |
| AddressBookView.CloseSendLeavesOthers | src/components/address-book/AddressBookTable/index.tsx:165 | closing the send dialog removes it and leaves every other dialog on screen |
| AddressBookView.Render | src/components/address-book/AddressBookTable/index.tsx:131-167 | the screen keeps the search text; it shows the placeholder with its exact text iff no entry matches, otherwise well-formed rows that read back as the filtered entries; its dialogs are those of the state, in markup order |
| AddressBookView.Click | src/components/address-book/AddressBookTable/index.tsx:99-119 | from any state, Edit raises the entry flag and Delete the remove flag with the values set to the row's own entry; Send sets the send target to the row's address and leaves the flags alone |
| AddressBookView.DialogEventsKeepBody | src/components/address-book/AddressBookTable/index.tsx:139-147 | every event except a search leaves the table or placeholder as it was |
| AddressBookView.TableRow | src/components/address-book/AddressBookTable/index.tsx:83-94 | table row i stands for filtered entry i and is well formed |
| AddressBookView.RowEditOpensEntry | src/components/address-book/AddressBookTable/index.tsx:97-103 | row i's Edit opens the entry dialog filled with filtered entry i, with the address field locked iff that entry has a name |
| AddressBookView.RowDeleteOpensRemove | src/components/address-book/AddressBookTable/index.tsx:105-111 | row i's Delete opens the remove dialog for filtered entry i's address |
| AddressBookView.RowSendOpensSend | src/components/address-book/AddressBookTable/index.tsx:113-125 | row i offers Send iff the user may send, and Send opens the send dialog for filtered entry i's address iff that address is non-empty |

## Left out

- Text.Lower: lowercases ASCII capitals only. JavaScript's `toLowerCase` also folds non-ASCII letters; full Unicode case mapping is not modelled.
- Rendering is not modelled: JSX, MUI widgets, icons, tooltips, CSS classes, `headCells`, and the display options of the address widget. The address cell's content is kept only as the address it is given.
- The analytics `Track` wrappers and `ADDRESS_BOOK_EVENTS` are not modelled. They are telemetry with side effects.
- The hooks `useAddressBook`, `useIsGranted` and `useCurrentChain` are not modelled; their results are inputs. The book is taken as the sequence `Object.entries` yields, and unique addresses are assumed only where a property needs them.
- `EntryDialog`, `ExportDialog`, `ImportDialog`, `RemoveDialog`, `NewTxModal` and `AddressBookHeader` are not part of this model. Only the props this component passes them are modelled, plus their close callbacks as events. Which modal types the header opens is not visible, so the header may open any of the four.
- `useMemo` is not modelled. It only avoids recomputation; the filter is a pure function of the entries and the query.
- React batches the two state updates of `handleOpenModalWithValues` and `handleClose`; each handler is modelled as one transition.
