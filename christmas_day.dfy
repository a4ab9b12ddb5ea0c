/**
 * The Christmas-day view (src/components/ChristmasDay.jsx): a menu over a small game table,
 * a toggle choosing the active game, and the opened-gift set handed down to the games.
 */
module ChristmasDay {
  import opened Optional
  import GiftHunt

  /** The component a menu entry renders. */
  datatype Component = GiftHuntGame | SpinWheelGame | SnowClickGame

  datatype Game = Game(id: string, name: string, component: Component)

  /** The menu (the quiz entry is commented out in the table). */
  const Games: seq<Game> := [
    Game("gifts", "\U{1F381} Gift Hunt", GiftHuntGame),
    Game("wheel", "\U{1F3A1} Spin the Wheel", SpinWheelGame),
    Game("snow", "\U{2744}\U{FE0F} Snow Click", SnowClickGame)
  ]

  /** `games.find(g => g.id === id)`: the first entry with that id. */
  function Find(games: seq<Game>, id: string): (r: Option<Game>)
    ensures r.None? <==> forall g :: g in games ==> g.id != id
    ensures r.Some? ==> r.value in games && r.value.id == id
    ensures games != [] && games[0].id == id ==> r == Some(games[0])
  {
    if games == [] then None
    else if games[0].id == id then Some(games[0])
    else Find(games[1..], id)
  }

  /** `find` returns the first entry with the id, whatever comes after it. */
  lemma {:induction false} FindFirst(games: seq<Game>, id: string, i: nat)
    requires i < |games| && games[i].id == id
    requires forall j :: 0 <= j < i ==> games[j].id != id
    ensures Find(games, id) == Some(games[i])
  {
    if i > 0 {
      FindFirst(games[1..], id, i - 1);
    }
  }

  /** The component rendered for the active game: none when no game is active. */
  function ComponentFor(activeGame: Option<string>): (c: Option<Component>)
    ensures activeGame.None? ==> c.None?
    ensures activeGame.Some? ==> (c.Some? <==> exists g :: g in Games && g.id == activeGame.value)
    ensures c.Some? ==> exists g :: g in Games && g.id == activeGame.value && g.component == c.value
  {
    if activeGame.None? then None
    else
      var g := Find(Games, activeGame.value);
      if g.Some? then Some(g.value.component) else None
  }

  /** The ids are distinct, every one leads to its own component, and the quiz is not on the menu. */
  lemma GameTable()
    ensures forall i, j :: 0 <= i < j < |Games| ==> Games[i].id != Games[j].id
    ensures ComponentFor(Some("gifts")) == Some(GiftHuntGame)
    ensures ComponentFor(Some("wheel")) == Some(SpinWheelGame)
    ensures ComponentFor(Some("snow")) == Some(SnowClickGame)
    ensures ComponentFor(Some("quiz")) == None
  {
    assert Games[0].id == "gifts" && Games[1].id == "wheel" && Games[2].id == "snow";
    assert Find(Games, "wheel") == Find(Games[1..], "wheel");
    assert Find(Games, "snow") == Find(Games[2..], "snow") by {
      assert Games[1..][1..] == Games[2..];
    }
  }

  /** The menu button's update: the active game closes, any other game opens. */
  function Toggled(activeGame: Option<string>, id: string): (r: Option<string>)
    ensures r.None? <==> activeGame == Some(id)
    ensures r.Some? ==> r == Some(id)
  {
    if activeGame == Some(id) then None else Some(id)
  }

  /** A click on a menu button closes that game if it is the one shown, and otherwise shows it. */
  lemma MenuClick(active: Option<string>, g: Game)
    requires g in Games
    ensures ComponentFor(Toggled(active, g.id)) == if active == Some(g.id) then None else Some(g.component)
  {
    GameTable();
    assert g == Games[0] || g == Games[1] || g == Games[2];
  }

  /** Clicking the same menu entry twice from no game returns to no game. */
  lemma ToggleTwice(id: string)
    ensures Toggled(Toggled(None, id), id) == None
  {
  }

  class ChristmasDay {
    var activeGame: Option<string>
    const openedGifts: GiftHunt.GiftStore

    ghost predicate Valid()
      reads this, openedGifts
    {
      openedGifts.names <= GiftHunt.GiftNames()
    }

    /** Mounting: no game open and nothing opened yet. */
    constructor ()
      ensures Valid() && activeGame == None && fresh(openedGifts) && openedGifts.names == {}
    {
      activeGame := None;
      openedGifts := new GiftHunt.GiftStore();
    }

    /** A menu button: toggles that game; the opened gifts are untouched. */
    method SelectGame(id: string)
      requires Valid()
      modifies this`activeGame
      ensures Valid() && activeGame == Toggled(old(activeGame), id)
      ensures openedGifts.names == old(openedGifts.names)
    {
      activeGame := if activeGame == Some(id) then None else Some(id);
    }

    /**
     * Rendering the gift hunt mounts a fresh game whose state starts over, but which is handed
     * this view's opened-gift set, so what was opened survives switching games.
     */
    method MountGiftHunt() returns (game: GiftHunt.GiftHunt)
      requires Valid() && ComponentFor(activeGame) == Some(GiftHuntGame)
      ensures fresh(game) && game.Valid() && game.store == openedGifts
      ensures !game.showModal && game.selectedGift == None && !game.isRevealed && !game.ticking
      ensures openedGifts.names == old(openedGifts.names)
    {
      game := new GiftHunt.GiftHunt(openedGifts);
    }
  }

  /**
   * Clicking a gift, waiting out the three-second countdown and pressing Close leaves the gift
   * in the opened set, whether or not it was opened before.
   */
  method OpenGift(game: GiftHunt.GiftHunt, gift: GiftHunt.Gift)
    requires game.Valid() && !game.showModal && gift in GiftHunt.Gifts
    modifies game, game.store
    ensures game.Valid() && !game.showModal
    ensures game.store.names == old(game.store.names) + {gift.name}
  {
    game.HandleGiftClick(gift);
    game.TimerTick();
    game.TimerTick();
    game.TimerTick();
    game.HandleCloseModal();
  }

  /** Opening a gift, switching to another game and back: the gift is still opened. */
  method OpenedGiftsSurviveSwitching(gift: GiftHunt.Gift) returns (stillOpened: bool)
    requires gift in GiftHunt.Gifts
    ensures stillOpened
  {
    var day := new ChristmasDay();
    GameTable();
    day.SelectGame("gifts");
    var game := day.MountGiftHunt();
    OpenGift(game, gift);
    day.SelectGame("snow");
    day.SelectGame("gifts");
    var again := day.MountGiftHunt();
    stillOpened := gift.name in again.store.names;
  }
}
