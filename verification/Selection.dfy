/**
 * The card-selection state machine of the pairs game, on values.
 *
 * A `Machine<K>` is the state that the view model and its card cells share: for every card
 * (identified by a key `K`, an object reference in the class model) its fixed data and what it
 * shows, plus the view model's `selectedCard` and `winnerCard`. `Check` is `checkIfPlayerWon`;
 * `Tap` is an assignment to a card's `isSelected`, that is its `willSet` observer followed by the
 * store of the new value. The two call each other; they terminate because the match branch sets
 * the winner before it re-selects the two cards, which turns the nested `Check`s into no-ops.
 */
module Selection {
  import opened Wrappers

  /** An image a card can hold: the bundled "loading" placeholder or a downloaded picture. */
  datatype Image = LoadingPlaceholder | Downloaded(token: nat)

  /** What a card's image view shows: the card back, or the card's own image (possibly none). */
  datatype Face = BackSide | FrontSide(picture: Option<Image>)

  /** The data of a card that selection never changes. */
  datatype CardInfo = CardInfo(cardIndex: int, imageId: int, image: Option<Image>)

  /** The data of a card that selection changes. */
  datatype CardView = CardView(isSelected: bool, face: Face)

  datatype Machine<K> = Machine(
    info: map<K, CardInfo>,
    shown: map<K, CardView>,
    selected: Option<K>,
    winner: Option<K>)
  {
    /** Every card has both kinds of data, and the selection and the winner are cards of the game. */
    ghost predicate Valid() {
      && info.Keys == shown.Keys
      && (selected.Some? ==> selected.value in shown)
      && (winner.Some? ==> winner.value in shown)
    }

    /** `flipCard()`: cards may still be turned back while nobody has won. */
    predicate FlipCard() {
      winner.None?
    }

    /** The image view of card `k` now shows `f`. */
    function Show(k: K, f: Face): Machine<K>
      requires k in shown
    {
      this.(shown := shown[k := shown[k].(face := f)])
    }

    /** The stored `isSelected` of card `k` is now `b`. */
    function Flag(k: K, b: bool): Machine<K>
      requires k in shown
    {
      this.(shown := shown[k := shown[k].(isSelected := b)])
    }
  }

  /** Every card other than `k` looks the same in `m` and `r`. */
  ghost predicate OthersUnchanged<K>(m: Machine<K>, r: Machine<K>, k: K)
  {
    forall j :: j in m.shown && j != k ==> j in r.shown && r.shown[j] == m.shown[j]
  }

  /** `checkIfPlayerWon(card: k)`. */
  function Check<K>(m: Machine<K>, k: K): (r: Machine<K>)
    requires m.Valid() && k in m.shown
    ensures r.Valid() && r.info == m.info
    ensures m.winner.Some? ==> r == m
    ensures m.winner.None? && r.winner.Some? ==> r.winner == Some(k)
    decreases if m.winner.None? then 1 else 0, 2
  {
    if !m.FlipCard() then m
    else match m.selected
      case None => m.(selected := Some(k))
      case Some(current) =>
        if m.info[current].cardIndex == m.info[k].cardIndex then
          // the same card again: turn it back, nothing is selected any more
          Tap(m, k, false).(selected := None)
        else if m.info[current].imageId == m.info[k].imageId then
          // a pair: record the winner first, then leave both cards face up
          var won := m.(winner := Some(k));
          Tap(Tap(won, k, true), current, true)
        else
          // no pair: turn the previous card back, the new one is the selection
          Tap(m, current, false).(selected := Some(k))
  }

  /** The `willSet` observer of `k.isSelected` for the new value `newValue`: selecting shows the
      card's image and calls `checkIfPlayerWon`; deselecting shows the back unless the game is won. */
  function WillSet<K>(m: Machine<K>, k: K, newValue: bool): (r: Machine<K>)
    requires m.Valid() && k in m.shown
    ensures r.Valid() && r.info == m.info
    ensures m.winner.Some? ==> r.winner == m.winner && r.selected == m.selected && OthersUnchanged(m, r, k)
    ensures m.winner.None? && r.winner.Some? ==> newValue && r.winner == Some(k)
    decreases if m.winner.None? then 1 else 0, if newValue then 3 else 0
  {
    if newValue then Check(m.Show(k, FrontSide(m.info[k].image)), k)
    else if m.FlipCard() then m.Show(k, BackSide)
    else m
  }

  /** `k.isSelected = newValue`: the `willSet` observer, then the store. */
  function Tap<K>(m: Machine<K>, k: K, newValue: bool): (r: Machine<K>)
    requires m.Valid() && k in m.shown
    ensures r.Valid() && r.info == m.info
    ensures r.shown[k].isSelected == newValue
    ensures m.winner.Some? ==> r.winner == m.winner && r.selected == m.selected && OthersUnchanged(m, r, k)
    ensures m.winner.None? && r.winner.Some? ==> newValue && r.winner == Some(k)
    decreases if m.winner.None? then 1 else 0, if newValue then 4 else 1
  {
    WillSet(m, k, newValue).Flag(k, newValue)
  }

  // ---------------------------------------------------------------------------------------------
  // The four outcomes of `checkIfPlayerWon`, and what it does once the game is won.

  /** After a win `checkIfPlayerWon` changes nothing at all. */
  lemma CheckAfterWinIsNoOp<K>(m: Machine<K>, k: K)
    requires m.Valid() && k in m.shown && m.winner.Some?
    ensures !m.FlipCard() && Check(m, k) == m
  {
  }

  /** First pick: with no selection and no winner, the card becomes the selection and nothing
      else changes. */
  lemma CheckFirstPick<K>(m: Machine<K>, k: K)
    requires m.Valid() && k in m.shown && m.winner.None? && m.selected.None?
    ensures Check(m, k) == m.(selected := Some(k))
  {
  }

  /** Re-click: a card with the selection's `cardIndex` is turned back and nothing stays selected. */
  lemma CheckReclick<K>(m: Machine<K>, k: K)
    requires m.Valid() && k in m.shown && m.winner.None? && m.selected.Some?
    requires m.info[m.selected.value].cardIndex == m.info[k].cardIndex
    ensures var r := Check(m, k);
      && r.selected.None? && r.winner.None?
      && r.shown[k] == CardView(false, BackSide)
      && OthersUnchanged(m, r, k)
  {
    var r := Check(m, k);
    assert r == Tap(m, k, false).(selected := None);
    DeselectFlipsBackUnlessWon(m, k);
  }

  /** Match: a different card with the selection's image wins; both cards end up selected and face
      up, the selection is kept, and every other card is untouched. */
  lemma CheckMatch<K>(m: Machine<K>, k: K)
    requires m.Valid() && k in m.shown && m.winner.None? && m.selected.Some?
    requires m.info[m.selected.value].cardIndex != m.info[k].cardIndex
    requires m.info[m.selected.value].imageId == m.info[k].imageId
    ensures var r, current := Check(m, k), m.selected.value;
      && current != k
      && r.winner == Some(k) && r.selected == Some(current)
      && r.shown[k] == CardView(true, FrontSide(m.info[k].image))
      && r.shown[current] == CardView(true, FrontSide(m.info[current].image))
      && forall j :: j in m.shown && j != k && j != current ==> r.shown[j] == m.shown[j]
  {
    var current := m.selected.value;
    var won := m.(winner := Some(k));
    var first := Tap(won, k, true);
    assert WillSet(won, k, true) == won.Show(k, FrontSide(m.info[k].image));
    var second := Tap(first, current, true);
    assert WillSet(first, current, true) == first.Show(current, FrontSide(m.info[current].image));
    assert Check(m, k) == second;
  }

  /** Mismatch: the previous card is turned back and deselected, the new card becomes the
      selection, and no card other than the previous one changes. */
  lemma CheckMismatch<K>(m: Machine<K>, k: K)
    requires m.Valid() && k in m.shown && m.winner.None? && m.selected.Some?
    requires m.info[m.selected.value].cardIndex != m.info[k].cardIndex
    requires m.info[m.selected.value].imageId != m.info[k].imageId
    ensures var r, current := Check(m, k), m.selected.value;
      && current != k
      && r.selected == Some(k) && r.winner.None?
      && r.shown[current] == CardView(false, BackSide)
      && OthersUnchanged(m, r, current)
  {
    var current := m.selected.value;
    assert Check(m, k) == Tap(m, current, false).(selected := Some(k));
  }

  // ---------------------------------------------------------------------------------------------
  // The `isSelected` observer.

  /** Deselecting turns the card's back up exactly when nobody has won; after a win the card keeps
      showing what it showed, so the matched cards stay face up. The selection never changes. */
  lemma DeselectFlipsBackUnlessWon<K>(m: Machine<K>, k: K)
    requires m.Valid() && k in m.shown
    ensures var r := Tap(m, k, false);
      && r.selected == m.selected && r.winner == m.winner
      && r.shown[k] == CardView(false, if m.FlipCard() then BackSide else m.shown[k].face)
      && OthersUnchanged(m, r, k)
  {
  }

  /** Selecting a card after a win shows its image; `checkIfPlayerWon` is called and does nothing. */
  lemma SelectAfterWin<K>(m: Machine<K>, k: K)
    requires m.Valid() && k in m.shown && m.winner.Some?
    ensures var r := Tap(m, k, true);
      && r.selected == m.selected && r.winner == m.winner
      && r.shown[k] == CardView(true, FrontSide(m.info[k].image))
      && OthersUnchanged(m, r, k)
  {
    var shownUp := m.Show(k, FrontSide(m.info[k].image));
    CheckAfterWinIsNoOp(shownUp, k);
  }

  /** Selecting the first card: it shows its image and becomes the selection. */
  lemma SelectFirst<K>(m: Machine<K>, k: K)
    requires m.Valid() && k in m.shown && m.winner.None? && m.selected.None?
    ensures var r := Tap(m, k, true);
      && r.selected == Some(k) && r.winner.None?
      && r.shown[k] == CardView(true, FrontSide(m.info[k].image))
      && OthersUnchanged(m, r, k)
  {
    var shownUp := m.Show(k, FrontSide(m.info[k].image));
    CheckFirstPick(shownUp, k);
  }

  /** Selecting a card with the selection's `cardIndex`: the observer first shows its image, the
      nested deselection turns it back, and the outer store leaves `isSelected` true. */
  lemma SelectAgain<K>(m: Machine<K>, k: K)
    requires m.Valid() && k in m.shown && m.winner.None? && m.selected.Some?
    requires m.info[m.selected.value].cardIndex == m.info[k].cardIndex
    ensures var r := Tap(m, k, true);
      && r.selected.None? && r.winner.None?
      && r.shown[k] == CardView(true, BackSide)
      && OthersUnchanged(m, r, k)
  {
    var shownUp := m.Show(k, FrontSide(m.info[k].image));
    CheckReclick(shownUp, k);
  }

  /** Selecting the partner of the selected card wins; both cards are selected and face up. */
  lemma SelectPartner<K>(m: Machine<K>, k: K)
    requires m.Valid() && k in m.shown && m.winner.None? && m.selected.Some?
    requires m.info[m.selected.value].cardIndex != m.info[k].cardIndex
    requires m.info[m.selected.value].imageId == m.info[k].imageId
    ensures var r, current := Tap(m, k, true), m.selected.value;
      && r.winner == Some(k) && r.selected == Some(current)
      && r.shown[k] == CardView(true, FrontSide(m.info[k].image))
      && r.shown[current] == CardView(true, FrontSide(m.info[current].image))
      && forall j :: j in m.shown && j != k && j != current ==> r.shown[j] == m.shown[j]
  {
    var shownUp := m.Show(k, FrontSide(m.info[k].image));
    CheckMatch(shownUp, k);
  }

  /** Selecting a card that does not pair with the selection: the old card goes face down and
      deselected, the new card is face up and is the selection. */
  lemma SelectOther<K>(m: Machine<K>, k: K)
    requires m.Valid() && k in m.shown && m.winner.None? && m.selected.Some?
    requires m.info[m.selected.value].cardIndex != m.info[k].cardIndex
    requires m.info[m.selected.value].imageId != m.info[k].imageId
    ensures var r, current := Tap(m, k, true), m.selected.value;
      && r.selected == Some(k) && r.winner.None?
      && r.shown[current] == CardView(false, BackSide)
      && r.shown[k] == CardView(true, FrontSide(m.info[k].image))
      && forall j :: j in m.shown && j != k && j != current ==> r.shown[j] == m.shown[j]
  {
    var shownUp := m.Show(k, FrontSide(m.info[k].image));
    CheckMismatch(shownUp, k);
  }

  // ---------------------------------------------------------------------------------------------
  // Sequences of selections.

  /** Assign `isSelected` for each pair in `taps`, in order. */
  function TapAll<K>(m: Machine<K>, taps: seq<(K, bool)>): (r: Machine<K>)
    requires m.Valid() && forall i :: 0 <= i < |taps| ==> taps[i].0 in m.shown
    ensures r.Valid() && r.info == m.info
    decreases |taps|
  {
    if taps == [] then m else TapAll(Tap(m, taps[0].0, taps[0].1), taps[1..])
  }

  /** A win is final: whatever cards are selected or deselected afterwards, the winner and the
      selection stay as they are. */
  lemma {:induction false} WinIsFinal<K>(m: Machine<K>, taps: seq<(K, bool)>)
    requires m.Valid() && forall i :: 0 <= i < |taps| ==> taps[i].0 in m.shown
    requires m.winner.Some?
    ensures TapAll(m, taps).winner == m.winner && TapAll(m, taps).selected == m.selected
    decreases |taps|
  {
    if taps != [] {
      var next := Tap(m, taps[0].0, taps[0].1);
      assert forall i :: 0 <= i < |taps[1..]| ==> taps[1..][i].0 in next.shown;
      WinIsFinal(next, taps[1..]);
    }
  }

  /** Selecting the same card twice from an empty selection: the second tap undoes the first
      selection and the card shows its back again (its stored `isSelected` stays true). */
  lemma ReclickSymmetry<K>(m: Machine<K>, k: K)
    requires m.Valid() && k in m.shown && m.winner.None? && m.selected.None?
    ensures var r := Tap(Tap(m, k, true), k, true);
      && r.selected.None? && r.winner.None?
      && r.shown[k] == CardView(true, BackSide)
      && OthersUnchanged(m, r, k)
  {
    SelectFirst(m, k);
    SelectAgain(Tap(m, k, true), k);
  }

  /** Two cards with different indices and the same image, selected one after the other from an
      empty selection, win the game with both cards face up. */
  lemma PairWins<K>(m: Machine<K>, a: K, b: K)
    requires m.Valid() && a in m.shown && b in m.shown && m.winner.None? && m.selected.None?
    requires m.info[a].cardIndex != m.info[b].cardIndex && m.info[a].imageId == m.info[b].imageId
    ensures var r := Tap(Tap(m, a, true), b, true);
      && r.winner == Some(b) && r.selected == Some(a)
      && r.shown[a] == CardView(true, FrontSide(m.info[a].image))
      && r.shown[b] == CardView(true, FrontSide(m.info[b].image))
  {
    SelectFirst(m, a);
    SelectPartner(Tap(m, a, true), b);
  }

  /** Two cards with different images: the second replaces the first as the selection, the first
      goes face down, and a third card is then compared with the second one: it wins when it
      pairs with the second card. */
  lemma MismatchReplaces<K>(m: Machine<K>, a: K, b: K)
    requires m.Valid() && a in m.shown && b in m.shown && m.winner.None? && m.selected.None?
    requires m.info[a].cardIndex != m.info[b].cardIndex && m.info[a].imageId != m.info[b].imageId
    ensures var r := Tap(Tap(m, a, true), b, true);
      && r.selected == Some(b) && r.winner.None?
      && r.shown[a] == CardView(false, BackSide)
      && r.shown[b] == CardView(true, FrontSide(m.info[b].image))
      && forall c :: c in m.shown && m.info[c].cardIndex != m.info[b].cardIndex && m.info[c].imageId == m.info[b].imageId
           ==> Tap(r, c, true).winner == Some(c)
  {
    SelectFirst(m, a);
    var first := Tap(m, a, true);
    SelectOther(first, b);
    var r := Tap(first, b, true);
    forall c | c in m.shown && m.info[c].cardIndex != m.info[b].cardIndex && m.info[c].imageId == m.info[b].imageId
      ensures Tap(r, c, true).winner == Some(c)
    {
      SelectPartner(r, c);
    }
  }

  // ---------------------------------------------------------------------------------------------
  // At most one card face up before a win.

  /** Until somebody wins, the only card that may show its image is the selected one. */
  ghost predicate Tidy<K>(m: Machine<K>)
  {
    m.winner.None? ==> forall j :: j in m.shown && m.shown[j].face.FrontSide? ==> m.selected == Some(j)
  }

  /** No two cards share a `cardIndex`. */
  ghost predicate UniqueIndices<K>(m: Machine<K>)
  {
    forall i, j :: i in m.info && j in m.info && m.info[i].cardIndex == m.info[j].cardIndex ==> i == j
  }

  /** With unique indices every assignment to `isSelected` keeps at most one card face up
      until the game is won. */
  lemma TapKeepsTidy<K>(m: Machine<K>, k: K, newValue: bool)
    requires m.Valid() && k in m.shown && Tidy(m) && UniqueIndices(m)
    ensures Tidy(Tap(m, k, newValue))
  {
    var r := Tap(m, k, newValue);
    if m.winner.Some? {
    } else if !newValue {
      DeselectFlipsBackUnlessWon(m, k);
    } else if m.selected.None? {
      SelectFirst(m, k);
    } else if m.info[m.selected.value].cardIndex == m.info[k].cardIndex {
      SelectAgain(m, k);
    } else if m.info[m.selected.value].imageId == m.info[k].imageId {
      SelectPartner(m, k);
    } else {
      SelectOther(m, k);
    }
  }
}
