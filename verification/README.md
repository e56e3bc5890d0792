# ThePairs: the card-selection state machine

ThePairs is an iOS memory game. Sixteen cards lie face down on a 4×4 grid, each card showing one
image drawn at random from a list fetched from an image service, and the player wins by
selecting two different cards that carry the same image. The game logic lives in two classes:

- `ViewModel` holds the fetched image list and two weak card references. `selectedCard` is the
  one face-up, unmatched card. `winnerCard` is the card that completed the pair.
- `CardCellView` is a grid cell. Its `isSelected` property has a `willSet` observer. Selecting a
  card shows its image and calls `checkIfPlayerWon`. Deselecting it shows the card back, but only
  while nobody has won.

`checkIfPlayerWon` in turn assigns `isSelected` on cards, so the two call each other.

This project models that logic in Dafny, in three layers:

- `Selection` (Selection.dfy) is the state machine on values. `Machine<K>` maps every card to its
  fixed data (`cardIndex`, `imageId`, image) and to what selection changes (`isSelected`, the
  face shown). It also holds `selected` and `winner`.
  - `Check` is `checkIfPlayerWon`.
  - `WillSet` is the observer.
  - `Tap` is a whole assignment to `isSelected`: the observer followed by the store of the new
    value, because Swift runs `willSet` before the store.
  - The three are mutually recursive. They terminate on the measure (no winner yet, call kind):
    the match branch assigns the winner before it re-selects both cards, so the nested calls find
    `flipCard()` false and do nothing.
  - The lemmas state each outcome, what a win freezes, and that at most one card is face up
    until a win when indices are unique.
- `ThePairs` (ThePairs.dfy) holds the classes `CardCellView` and `ViewModel`. Their methods
  update fields in place and call each other just as the Swift code does.
  - `ViewModel.Abstract()` reads the heap as a `Machine`, over the ghost set `cards` of cells
    that were set up for the view model.
  - `CheckIfPlayerWon` is proved to end in `Check` of the state it started from.
    `CardCellView.SetIsSelected` is proved to end in `Tap`.
  - So every lemma of `Selection` applies to the objects.
  - The same file holds `resetGame`, `hasDataToReload`, `getImageURL`, `flipCard`, the image-id
    draw of `loadCardImageFromWebAt`, and the completion logic of `getImagesFromAPI`.
- Two supporting modules:
  - `Paths` (Paths.dfy) models `components(separatedBy: "/")` and its `.last`, with both
    round trips proved.
  - `Grid` (Grid.dfy) models where `cardIndex` comes from (see Findings).

Images are opaque tokens (`Image`). Randomness is a parameter or a nondeterministic choice, with
its range stated as a precondition:
- `shuffle()` is any permutation `shuffled` of the received list.
- `Int.random(in: 0..<count)` is any integer in that range.

## Model

| member | source | states |
|---|---|---|
| Selection.Check | ThePairs/ViewModel.swift:85-110 | `checkIfPlayerWon` keeps the game well formed and never changes a card's fixed data; after a win it returns the state unchanged; a winner it creates is the card passed in |
| Selection.WillSet | ThePairs/CardCellView.swift:24-44 | the observer keeps the game well formed; once someone has won it changes neither the winner, the selection nor any other card; only a selection (never a deselection) can create a winner, and that winner is this card |
| Selection.Tap | ThePairs/CardCellView.swift:23-45 | an assignment to `isSelected` leaves the stored flag equal to the new value, and otherwise keeps what `WillSet` promises |
| Selection.CheckAfterWinIsNoOp | ThePairs/ViewModel.swift:75-88 | with a winner, `flipCard()` is false and `checkIfPlayerWon` changes nothing: no selection, winner or `isSelected` |
| ThePairs.ViewModel.FlipCard | ThePairs/ViewModel.swift:75-77 | `flipCard()` is true exactly while there is no winner; what that means for the game is stated by `Selection.CheckAfterWinIsNoOp` (after a win `checkIfPlayerWon` is a no-op) and `Selection.DeselectFlipsBackUnlessWon` (the back is shown on deselection exactly while it is true) |
| Selection.CheckFirstPick | ThePairs/ViewModel.swift:106-107 | with no selection and no winner, the card becomes `selectedCard`, the winner stays nil and nothing else changes |
| Selection.CheckReclick | ThePairs/ViewModel.swift:90-92 | a card with the selection's `cardIndex` is deselected and shows its back, `selectedCard` becomes nil, the winner stays nil, and no other card changes |
| Selection.CheckMatch | ThePairs/ViewModel.swift:93-97 | a different card with the selection's `imageId` becomes the winner; both cards end selected and showing their images; `selectedCard` is kept; every other card is untouched |
| Selection.CheckMismatch | ThePairs/ViewModel.swift:102-104 | otherwise the previous card is deselected and shows its back, the new card becomes `selectedCard`, the winner stays nil, and no other card changes |
| Selection.DeselectFlipsBackUnlessWon | ThePairs/CardCellView.swift:36-42 | deselecting shows the back exactly when there is no winner; after a win the face shown is unchanged, so matched cards stay face up; selection and winner are unchanged |
| Selection.SelectAfterWin | ThePairs/CardCellView.swift:30-35 | selecting after a win shows the card's image and `checkIfPlayerWon` then changes nothing else |
| Selection.SelectFirst | ThePairs/CardCellView.swift:30-35 | selecting with no selection shows the card's image and makes it `selectedCard`; no other card changes |
| Selection.SelectAgain | ThePairs/CardCellView.swift:30-35 | selecting a card with the selection's `cardIndex` ends with the selection cleared and the card showing its back while its stored `isSelected` is true (the nested `false` is stored first, then the outer `true`) |
| Selection.SelectPartner | ThePairs/CardCellView.swift:30-35 | selecting the selection's partner wins with this card as winner and both cards selected and face up; no other card changes |
| Selection.SelectOther | ThePairs/CardCellView.swift:30-35 | selecting a non-matching card turns the old one face down and deselected and makes the new one the face-up selection; no other card changes |
| Selection.TapAll | ThePairs/CardCellView.swift:23-45 | any sequence of assignments to `isSelected` keeps the game well formed and the cards' fixed data |
| Selection.WinIsFinal | ThePairs/ViewModel.swift:75-77 | once there is a winner, no sequence of selections or deselections changes the winner or `selectedCard` |
| Selection.ReclickSymmetry | ThePairs/ViewModel.swift:90-92 | selecting the same card twice from an empty selection leaves nothing selected and the card's back showing; no other card changes |
| Selection.PairWins | ThePairs/ViewModel.swift:93-97 | two cards with different indices and the same image, selected in turn from an empty selection, win the game with both cards face up |
| Selection.MismatchReplaces | ThePairs/ViewModel.swift:102-104 | after two non-matching picks the second card is the selection and the first is face down; any card then selected that pairs with the second one wins |
| Selection.TapKeepsTidy | ThePairs/ViewModel.swift:88-108 | when no two cards share a `cardIndex`, every assignment to `isSelected` keeps at most one card face up (the selected one) until somebody wins |
| Grid.CellIndexAsWritten | ThePairs/ViewController.swift:123 | the index as written (`2*section+row`) only takes the values 0 through 9 on the 4×4 grid |
| Grid.CellIndex | ThePairs/ViewController.swift:123 | the grid's own stride gives every cell an index in 0 through 15 |
| Grid.CellIndexIsInjective | ThePairs/ViewController.swift:123 | with the grid's own stride, different cells get different indices |
| Grid.GridBoardHasUniqueIndices | ThePairs/ViewController.swift:123-125 | a board numbered with the grid's stride has unique card indices, which is what `Selection.TapKeepsTidy` needs |
| Grid.AsWrittenIndicesLoseThePair | ThePairs/ViewController.swift:123 | with the index as written, cells (0, 2) and (1, 0) share index 2; with the same image, assigning `isSelected = true` to one and then the other, with nothing in between, does not win, clears the selection and leaves a card face up that is not selected |
| Grid.AsWrittenIndicesLoseThePairAfterDeselection | ThePairs/ViewController.swift:123 | the same two cells when the first is deselected before the second is selected: the pair is lost as well, both cards end face down and nothing is selected |
| Paths.Components | ThePairs/ViewModel.swift:64 | `components(separatedBy: "/")` is never empty; no part holds a `/`; a string without `/` is its only part; a string with one has more than one part |
| Paths.JoinComponents | ThePairs/ViewModel.swift:64 | joining the components with `/` gives the string back |
| Paths.ComponentsJoin | ThePairs/ViewModel.swift:64 | splitting parts that were joined with `/` gives the parts back |
| Paths.TextAfterLastSlashIsUnique | ThePairs/ViewModel.swift:64 | at most one string is the text after the last `/` of a given string |
| Paths.LastComponentIsTextAfterLastSlash | ThePairs/ViewModel.swift:64 | the last component is the text after the last `/`, or the whole string when it has none |
| Paths.LastComponent | ThePairs/ViewModel.swift:64 | `.last` of the components is the text after the last `/` |
| ThePairs.CardCellView.constructor | ThePairs/ViewController.swift:124-125 | a newly created cell carries the index it was given, no image, no view model, and is face down and not selected |
| ThePairs.CardCellView.ShowFace | ThePairs/CardCellView.swift:32 | the image view shows the given face; the game changes in that card's face only |
| ThePairs.CardCellView.StoreIsSelected | ThePairs/CardCellView.swift:23 | the stored `isSelected` takes the new value; the game changes in that card's flag only |
| ThePairs.CardCellView.WillSetIsSelected | ThePairs/CardCellView.swift:24-44 | without a view model the face is unchanged and, by its frame, nothing else changes; with one the game ends in `Selection.WillSet` of where it started |
| ThePairs.CardCellView.SetIsSelected | ThePairs/CardCellView.swift:23-45 | `isSelected` holds the new value; without a view model nothing else changes; with one the game ends in `Selection.Tap` of where it started |
| ThePairs.ViewModel.constructor | ThePairs/ViewModel.swift:20-22 | a new view model has no image list, no selection, no winner and no cards |
| ThePairs.ViewModel.ResetGame | ThePairs/ViewModel.swift:27-30 | `selectedCard` and `winnerCard` become nil and nothing else changes |
| ThePairs.ViewModel.ReceiveImages | ThePairs/ViewModel.swift:37-47 | the list is kept, in the shuffled order, and `loadImages` is requested exactly when there is no error and the list is not empty; otherwise `showErrorMessage` is requested and the old list stays |
| ThePairs.ViewModel.HasDataToReload | ThePairs/ViewModel.swift:54-56 | true exactly when an image list is loaded and it is not empty |
| ThePairs.ViewModel.GetImageURL | ThePairs/ViewModel.swift:62-68 | `""` when the record has no `file` entry; otherwise `API_URL` followed by the text after the last `/` of the `file` value |
| ThePairs.ViewModel.SetSelectedCard | ThePairs/ViewModel.swift:92-107 | `selectedCard` becomes the given card and nothing else changes |
| ThePairs.ViewModel.SetWinnerCard | ThePairs/ViewModel.swift:95 | `winnerCard` becomes the given card and nothing else changes |
| ThePairs.ViewModel.CheckIfPlayerWon | ThePairs/ViewModel.swift:85-110 | the game ends in `Selection.Check` of where it started; once there is a winner nothing changes |
| ThePairs.ViewModel.LoadCardImageFromWebAt | ThePairs/ViewModel.swift:119-124 | the card's stored image becomes the loading placeholder (its face is not changed) and the card now belongs to this view model; its image id lies in `[0, images.count)`; this needs a loaded, non-empty list |

The `reads`/`modifies` frames carry the "nothing else changes" half of these contracts. For
example, `SetIsSelected` on a cell without a view model may change only that cell's `face` and
`isSelected`, and its `face` is proved unchanged.

Three consequences of the code worth knowing:
- A win does not clear `selectedCard`. It still points to the first card of the pair.
- Re-clicking the selected card leaves its stored `isSelected` true while it shows its back.
- Card indices are not unique (see Findings).

## Left out

- The image service request (`ImageApiManager`, Alamofire, JSON decoding of `ImageResponseModel`) is network I/O through a library outside this model. `ThePairs.ViewModel.ReceiveImages` takes its outcome, an optional error and an optional list, as parameters.
- `shuffle()` is a permutation given as a parameter. Its randomness and uniformity are not modelled.
- `Int.random` is a nondeterministic choice in its range. Its distribution is not modelled.
- Whether the random draw gives a solvable board is not modelled. Independent draws need not produce a pair.
- The background image download of `loadCardImageFromWebAt` (ThePairs/ViewModel.swift:125-140) is not modelled: a global queue, `Data(contentsOf:)`, `UIImage(data:)` and the hop back to the main queue. It is concurrency and I/O, and the code has no staleness check on its result.
- UIKit effects with no logic: haptic feedback (ThePairs/ViewModel.swift:86-87), the delayed win message (ThePairs/ViewModel.swift:99-101) and the flip animations (ThePairs/CardCellView.swift:33, 40).
- The view delegate calls are left out. `ReceiveImages` returns which one is made.
- Weak references are modelled as plain optional references. Deallocation of a dequeued cell, which would turn them into nil, is not modelled.
- The ghost set `cards` records which cells were set up for a view model. A cell that a later `loadCardImageFromWebAt` of another view model takes over is not removed from the first one's set.
- `ViewController` (layout, alerts, data source) is not part of this model. Only its cell index formula is, in `Grid`.
- `cardIndex` and `imageId` are `Int?` in Swift and force-unwrapped in `checkIfPlayerWon`. The model gives every cell an integer, so the crash on a nil value is not modelled.
- Preconditions stand for the source's runtime traps:
  - `ThePairs.ViewModel.GetImageURL` requires a loaded list and an index in range, which the Swift code force-unwraps and subscripts.
  - `ThePairs.ViewModel.LoadCardImageFromWebAt` requires a non-empty list, which `imagesModel!` and `Int.random(in: 0..<count)` need.
- How the collection view turns taps into `isSelected` assignments is not modelled, including its own deselection of the previously selected cell. `Selection.PairWins`, `Selection.MismatchReplaces`, `Selection.ReclickSymmetry`, `Grid.AsWrittenIndicesLoseThePair` and `Grid.AsWrittenIndicesLoseThePairAfterDeselection` describe only the assignments they list.
- Cell reuse by `dequeueReusableCell` (ThePairs/ViewController.swift:124) is not modelled. A reused cell keeps its old image, view model and face; the model only creates new cells.

## Findings

| source | as written | input that shows it | evidently intended | confidence | as-written member | corrected member |
|---|---|---|---|---|---|---|
| ThePairs/ViewController.swift:123 | `cardIndex = 2*section + row` on a 4×4 grid: only 0 through 9 occur, and different cells share an index | cells (0, 2) and (1, 0) both get index 2; if both draw the same image, selecting one then the other is taken for a re-click: no win and the selection is cleared; when only these two assignments happen the first card also stays face up, and when the first is deselected in between both end face down | `4*section + row`, one index per cell, so re-click detection by `cardIndex` (ThePairs/ViewModel.swift:90) recognises only the same cell | high, not executed | Grid.AsWrittenIndicesLoseThePair | Grid.GridBoardHasUniqueIndices |
