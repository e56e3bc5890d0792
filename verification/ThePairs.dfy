/**
 * The view model of the pairs game and its card cells, as objects whose fields change in place.
 *
 * A card cell's `isSelected` observer and the view model's `checkIfPlayerWon` call each other.
 * Each method is proved against the value-level state machine of module `Selection`: the view
 * model's `Abstract()` state after the call is `Selection.Check` or `Selection.Tap` of the state
 * before it, and the lemmas of `Selection` say what those do.
 */
module ThePairs {
  import opened Wrappers
  import opened Selection
  import Paths

  /** The image service's base URL; image URLs are built on it. */
  const ApiUrl: string := "http://homework.shoany.com/images/"

  /** One entry of the service's image list: field names such as "file" mapped to strings. */
  type ImageRecord = map<string, string>

  /** The failures the image service client reports. */
  datatype ApiError = InvalidData | ParsingError | ConnectionError

  /** What the view model asks its view delegate to do once the image list request completes. */
  datatype DelegateCall = ShowErrorMessage | LoadImages

  /** The reference to a card that a weak optional field holds. */
  function Ref(c: CardCellView?): Option<CardCellView> {
    if c == null then None else Some(c)
  }

  /** The fixed data of each of the cells `cs`. */
  ghost function Infos(cs: set<CardCellView>): map<CardCellView, CardInfo>
    reads cs
  {
    map c | c in cs :: c.Info()
  }

  /** The selection state of each of the cells `cs`. */
  ghost function Views(cs: set<CardCellView>): map<CardCellView, CardView>
    reads cs
  {
    map c | c in cs :: c.View()
  }

  /** One cell of the 4×4 grid. */
  class CardCellView {
    var cardIndex: int
    var imageId: int
    var image: Option<Image>
    var face: Face
    var isSelected: bool
    var viewModel: ViewModel?

    /** A newly created cell that the view controller numbered `index`. */
    constructor (index: int)
      ensures cardIndex == index && image.None? && face == BackSide && !isSelected && viewModel == null
    {
      cardIndex := index;
      imageId := 0;
      image := None;
      face := BackSide;
      isSelected := false;
      viewModel := null;
    }

    ghost function Info(): CardInfo
      reads this
    {
      CardInfo(cardIndex, imageId, image)
    }

    ghost function View(): CardView
      reads this
    {
      CardView(isSelected, face)
    }

    /** The view model this cell reports to, if any. */
    ghost function Owner(): set<ViewModel>
      reads this
    {
      if viewModel == null then {} else {viewModel}
    }

    /** The cells of that view model's game. */
    ghost function Deck(): set<CardCellView>
      reads this, viewModel
    {
      if viewModel == null then {} else viewModel.cards
    }

    /** The image view of a cell of a game now shows `f`. */
    method ShowFace(f: Face)
      requires viewModel != null && viewModel.Valid() && this in viewModel.cards
      modifies this`face
      ensures face == f
      ensures viewModel.Valid() && viewModel.Abstract() == old(viewModel.Abstract()).Show(this, f)
    {
      face := f;
      assert Views(viewModel.cards) == old(Views(viewModel.cards))[this := View()];
    }

    /** The stored value of `isSelected` is now `b`. */
    method StoreIsSelected(b: bool)
      requires viewModel != null ==> viewModel.Valid() && this in viewModel.cards
      modifies this`isSelected
      ensures isSelected == b
      ensures viewModel != null ==> viewModel.Valid() && viewModel.Abstract() == old(viewModel.Abstract()).Flag(this, b)
    {
      isSelected := b;
      if viewModel != null {
        assert Views(viewModel.cards) == old(Views(viewModel.cards))[this := View()];
      }
    }

    /** The `willSet` observer of `isSelected`. Without a view model it does nothing. With one,
        selecting shows the card's image and asks the view model whether the player won, and
        deselecting shows the back unless the game is won. */
    method WillSetIsSelected(newValue: bool)
      requires viewModel != null ==> viewModel.Valid() && this in viewModel.cards
      modifies this`face, Owner()`selected, Owner()`winner, Deck()`isSelected, Deck()`face
      decreases if viewModel != null && viewModel.winner == null then 1 else 0, if newValue then 3 else 0
      ensures viewModel == null ==> face == old(face)
      ensures viewModel != null ==> viewModel.Valid() && viewModel.Abstract() == WillSet(old(viewModel.Abstract()), this, newValue)
    {
      if viewModel != null {
        ghost var before := viewModel.Abstract();
        if newValue {
          ShowFace(FrontSide(image));
          viewModel.CheckIfPlayerWon(this);
          assert WillSet(before, this, true) == Check(before.Show(this, FrontSide(image)), this);
        } else if viewModel.FlipCard() {
          ShowFace(BackSide);
        }
      }
    }

    /** `isSelected = newValue`: the observer runs, then the new value is stored. */
    method SetIsSelected(newValue: bool)
      requires viewModel != null ==> viewModel.Valid() && this in viewModel.cards
      modifies this`isSelected, this`face, Owner()`selected, Owner()`winner, Deck()`isSelected, Deck()`face
      decreases if viewModel != null && viewModel.winner == null then 1 else 0, if newValue then 4 else 1
      ensures isSelected == newValue
      ensures viewModel == null ==> face == old(face)
      ensures viewModel != null ==> viewModel.Valid() && viewModel.Abstract() == Tap(old(viewModel.Abstract()), this, newValue)
    {
      WillSetIsSelected(newValue);
      StoreIsSelected(newValue);
    }
  }

  /** The game's view model: the image list, the one face-up unmatched card and the winner. */
  class ViewModel {
    var images: Option<seq<ImageRecord>>
    var selected: CardCellView?
    var winner: CardCellView?
    /** The cells that were set up for this view model, whose state the game reads and changes. */
    ghost var cards: set<CardCellView>

    ghost predicate Valid()
      reads this, cards
    {
      && (forall c :: c in cards ==> c.viewModel == this)
      && (selected != null ==> selected in cards)
      && (winner != null ==> winner in cards)
    }

    /** The game as a value of the state machine. */
    ghost function Abstract(): Machine<CardCellView>
      reads this, cards
    {
      Machine(Infos(cards), Views(cards), Ref(selected), Ref(winner))
    }

    constructor ()
      ensures Valid() && images.None? && selected == null && winner == null && cards == {}
    {
      images := None;
      selected := null;
      winner := null;
      cards := {};
    }

    /** `resetGame`: forget the selection and the winner; nothing else changes. */
    method ResetGame()
      requires Valid()
      modifies this`selected, this`winner
      ensures Valid() && selected == null && winner == null
      ensures Abstract() == old(Abstract()).(selected := None, winner := None)
    {
      selected := null;
      winner := null;
    }

    /** The completion of the image list request: keep the list, in a new order, only when the
        request reported no error and the list is not empty. `shuffled` is the order `shuffle()`
        happens to produce. */
    method ReceiveImages(error: Option<ApiError>, model: Option<seq<ImageRecord>>, shuffled: seq<ImageRecord>)
      returns (call: DelegateCall)
      requires model.Some? ==> multiset(shuffled) == multiset(model.value)
      modifies this`images
      ensures error.None? && model.Some? && model.value != [] ==>
        call == LoadImages && images == Some(shuffled) && HasDataToReload()
      ensures error.Some? || model.None? || model.value == [] ==>
        call == ShowErrorMessage && images == old(images)
    {
      if error.Some? {
        call := ShowErrorMessage;
      } else if model.Some? && |model.value| > 0 {
        images := Some(shuffled);
        call := LoadImages;
      } else {
        call := ShowErrorMessage;
      }
    }

    /** `hasDataToReload`: an image list is loaded and it has at least one image. */
    function HasDataToReload(): (r: bool)
      reads this
      ensures r <==> images.Some? && images.value != []
    {
      (if images.None? then 0 else |images.value|) > 0
    }

    /** `getImageURL`: the base URL followed by the text after the last "/" of the image's "file"
        entry, or the empty string when the entry has no "file". */
    function GetImageURL(index: int): (url: string)
      reads this
      requires images.Some? && 0 <= index < |images.value|
      ensures "file" !in images.value[index] ==> url == ""
      ensures "file" in images.value[index] ==>
        && |ApiUrl| <= |url| && url[..|ApiUrl|] == ApiUrl
        && Paths.IsTextAfterLastSlash(images.value[index]["file"], url[|ApiUrl|..])
    {
      var record := images.value[index];
      if "file" in record then ApiUrl + Paths.LastComponent(record["file"]) else ""
    }

    /** `flipCard`: nobody has won yet. */
    function FlipCard(): bool
      reads this
    {
      winner == null
    }

    /** `selectedCard = c`. */
    method SetSelectedCard(c: CardCellView?)
      requires Valid() && (c != null ==> c in cards)
      modifies this`selected
      ensures selected == c
      ensures Valid() && Abstract() == old(Abstract()).(selected := Ref(c))
    {
      selected := c;
    }

    /** `winnerCard = c`. */
    method SetWinnerCard(c: CardCellView)
      requires Valid() && c in cards
      modifies this`winner
      ensures winner == c
      ensures Valid() && Abstract() == old(Abstract()).(winner := Some(c))
    {
      winner := c;
    }

    /** `checkIfPlayerWon(card:)`, called by the observer of a cell of this game. */
    method CheckIfPlayerWon(card: CardCellView)
      requires Valid() && card in cards
      modifies this`selected, this`winner, cards`isSelected, cards`face
      decreases if winner == null then 1 else 0, 2
      ensures Valid() && Abstract() == Check(old(Abstract()), card)
      ensures old(winner) != null ==> selected == old(selected) && winner == old(winner) && Abstract() == old(Abstract())
    {
      if FlipCard() {
        if selected != null {
          var current := selected;
          if current.cardIndex == card.cardIndex {
            card.SetIsSelected(false);
            SetSelectedCard(null);
          } else if current.imageId == card.imageId {
            SetWinnerCard(card);
            winner.SetIsSelected(true);
            current.SetIsSelected(true);
          } else {
            current.SetIsSelected(false);
            SetSelectedCard(card);
          }
        } else {
          SetSelectedCard(card);
        }
      }
    }

    /** The first steps of `loadCardImageFromWebAt`: make the placeholder the card's stored image
        (what a later selection shows; the face is not changed), draw the card's image at random
        from the list, and make this view model the card's view model. */
    method LoadCardImageFromWebAt(card: CardCellView)
      requires Valid() && HasDataToReload()
      modifies card`image, card`imageId, card`viewModel, this`cards
      ensures Valid() && cards == old(cards) + {card}
      ensures card.viewModel == this && card.image == Some(LoadingPlaceholder)
      ensures 0 <= card.imageId < |images.value|
    {
      card.image := Some(LoadingPlaceholder);
      var imageId :| 0 <= imageId < |images.value|;
      card.imageId := imageId;
      card.viewModel := this;
      cards := cards + {card};
    }
  }
}
