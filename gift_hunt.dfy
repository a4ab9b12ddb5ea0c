/**
 * The gift hunt (src/components/games/GiftHunt.jsx): twenty gifts; clicking one opens a
 * modal with a 3-2-1 countdown (skipped for a gift already opened), then the reveal view.
 * The set of opened gift names belongs to the game menu and is shared by reference.
 */
module GiftHunt {
  import opened Optional

  /** A gift, known by the name shown on reveal (its picture is not modelled). */
  datatype Gift = Gift(name: string)

  const Gifts: seq<Gift> := [
    Gift("Hiba"), Gift("Vishnu"), Gift("Abhiram"), Gift("Zonin"), Gift("Seba"),
    Gift("Esha"), Gift("Abin"), Gift("Navas"), Gift("Midhilaj"), Gift("Akhil"),
    Gift("Bhavana"), Gift("Minu \U{2764}\U{FE0F} Prashanth"), Gift("Abhinand"), Gift("Ijas"), Gift("Namitha"),
    Gift("Abhinav"), Gift("Razik"), Gift("Deep"), Gift("Tony"), Gift("Santa Clause")
  ]

  ghost function GiftNames(): set<string>
  {
    set g | g in Gifts :: g.name
  }

  /** No two gifts share a name, so a name in the opened set stands for exactly one gift. */
  lemma GiftNamesUnique()
    ensures forall i, j :: 0 <= i < j < |Gifts| ==> Gifts[i].name != Gifts[j].name
  {
  }

  /** The updater the countdown interval applies: at 1 or below it stops at 0. */
  function TimerStep(prev: int): (next: int)
    ensures next >= 0
    ensures prev > 0 ==> next < prev
  {
    if prev <= 1 then 0 else prev - 1
  }

  /** The timer after `k` firings of the interval. */
  function TimerAfter(start: int, k: nat): int
  {
    if k == 0 then start else TimerStep(TimerAfter(start, k - 1))
  }

  /** From a start of `n`, the timer counts down one per firing and sits at 0 from the `n`-th on. */
  lemma {:induction false} TimerCountsDown(n: nat, k: nat)
    requires n >= 1
    ensures TimerAfter(n, k) == if k < n then n - k else 0
  {
    if k > 0 {
      TimerCountsDown(n, k - 1);
    }
  }

  /** The set of opened gift names, owned by the game menu and passed down to the game. */
  class GiftStore {
    var names: set<string>

    constructor ()
      ensures names == {}
    {
      names := {};
    }
  }

  /** What the modal shows. */
  datatype ModalView =
    | Closed
    | CountingDown(remaining: int)
    | Revealing(gift: Gift, revealDisabled: bool, revealLabel: string)

  class GiftHunt {
    const store: GiftStore
    var showModal: bool
    var selectedGift: Option<Gift>
    var timer: int
    var isRevealed: bool
    /** Whether the countdown interval is installed. */
    var ticking: bool

    ghost predicate Valid()
      reads this, store
    {
      && timer >= 0
      && (showModal <==> selectedGift.Some?)
      && (selectedGift.Some? ==> selectedGift.value in Gifts)
      && (ticking ==> showModal && timer >= 1)
      && store.names <= GiftNames()
    }

    /** Mounting: no modal, and the timer starts at 5 (every click sets it before it is shown). */
    constructor (store: GiftStore)
      requires store.names <= GiftNames()
      ensures Valid() && this.store == store
      ensures !showModal && selectedGift == None && timer == 5 && !isRevealed && !ticking
    {
      this.store := store;
      showModal, selectedGift, timer, isRevealed, ticking := false, None, 5, false, false;
    }

    /**
     * `handleGiftClick`: ignored while the modal is open; otherwise the modal opens on the gift,
     * counting down from 3 for an unopened gift, straight to the revealed view for an opened one.
     */
    method HandleGiftClick(gift: Gift)
      requires Valid() && gift in Gifts
      modifies this`showModal, this`selectedGift, this`timer, this`isRevealed, this`ticking
      ensures Valid()
      ensures old(showModal) ==>
        (showModal == old(showModal) && selectedGift == old(selectedGift) && timer == old(timer)
         && isRevealed == old(isRevealed) && ticking == old(ticking))
      ensures !old(showModal) ==>
        (showModal && selectedGift == Some(gift)
         && isRevealed == (gift.name in store.names)
         && timer == (if gift.name in store.names then 0 else 3)
         && ticking == (gift.name !in store.names))
      ensures !old(showModal) ==>
        Modal() == if gift.name in store.names then Revealing(gift, true, gift.name) else CountingDown(3)
    {
      var revealed := gift.name in store.names;
      if showModal {
        return;
      }
      selectedGift := Some(gift);
      showModal := true;
      isRevealed := revealed;
      if !revealed {
        timer := 3;
        ticking := true;
      } else {
        timer := 0;
      }
    }

    /** One firing of the countdown interval (nothing fires when none is installed). */
    method TimerTick()
      requires Valid()
      modifies this`timer, this`ticking
      ensures Valid()
      ensures old(ticking) ==> timer == TimerStep(old(timer)) && ticking == (old(timer) > 1)
      ensures !old(ticking) ==> timer == old(timer) && !ticking
      ensures old(ticking) && old(timer) > 1 ==> Modal() == CountingDown(old(timer) - 1)
      ensures old(ticking) && old(timer) <= 1 ==> Modal().Revealing? && Modal().gift == selectedGift.value
    {
      if ticking {
        if timer <= 1 {
          ticking := false;
        }
        timer := TimerStep(timer);
      }
    }

    /**
     * `handleReveal`: marks the gift revealed and opened. Its button is drawn only in the reveal
     * view, once the timer is at zero, and is disabled after the first reveal.
     */
    method HandleReveal()
      requires Valid() && selectedGift.Some? && timer == 0 && !isRevealed
      modifies this`isRevealed, store`names
      ensures Valid() && isRevealed
      ensures store.names == old(store.names) + {old(selectedGift).value.name}
    {
      isRevealed := true;
      store.names := store.names + {selectedGift.value.name};
    }

    /**
     * `handleCloseModal`: closes the modal, stops the countdown, resets the timer to 3, and marks
     * the gift opened even if it was never revealed. Its button, like Reveal's, is drawn only in
     * the reveal view, once the timer is at zero.
     */
    method HandleCloseModal()
      requires Valid() && selectedGift.Some? && timer == 0
      modifies this`showModal, this`selectedGift, this`isRevealed, this`timer, this`ticking, store`names
      ensures Valid()
      ensures !showModal && selectedGift == None && timer == 3 && !ticking && isRevealed
      ensures store.names == old(store.names) + {old(selectedGift).value.name}
    {
      var gift := selectedGift.value;
      showModal := false;
      selectedGift := None;
      isRevealed := true;
      store.names := store.names + {gift.name};
      timer := 3;
      ticking := false;
    }

    /** The modal: the countdown while the timer is positive, then the reveal view. */
    function Modal(): (view: ModalView)
      reads this
      ensures view.Closed? <==> !(showModal && selectedGift.Some?)
      ensures view.CountingDown? <==> showModal && selectedGift.Some? && timer > 0
      ensures view.CountingDown? ==> view.remaining == timer
      ensures view.Revealing? ==>
        view.gift == selectedGift.value && view.revealDisabled == isRevealed
        && view.revealLabel == (if isRevealed then selectedGift.value.name else "Reveal")
    {
      if !(showModal && selectedGift.Some?) then Closed
      else if timer > 0 then CountingDown(timer)
      else Revealing(selectedGift.value, isRevealed, if isRevealed then selectedGift.value.name else "Reveal")
    }
  }

  /** Clicking a new gift and letting the countdown run: three firings reach the reveal view. */
  method CountdownThenReveal(gift: Gift) returns (afterTwo: ModalView, afterThree: ModalView)
    requires gift in Gifts
    ensures afterTwo == CountingDown(1)
    ensures afterThree == Revealing(gift, false, "Reveal")
  {
    var store := new GiftStore();
    var game := new GiftHunt(store);
    game.HandleGiftClick(gift);
    game.TimerTick();
    game.TimerTick();
    afterTwo := game.Modal();
    game.TimerTick();
    afterThree := game.Modal();
  }
}
