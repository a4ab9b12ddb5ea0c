/**
 * The snow-click game (src/components/games/SnowClick.jsx): a 30-second round during which
 * a snowflake is appended every 800 ms; clicking one removes it and scores ten points.
 */
module SnowClick {

  /** A falling snowflake: its identifier and horizontal position in percent. */
  datatype Flake = Flake(id: int, left: real)

  const PointsPerFlake: nat := 10

  /** `flakes.filter(flake => flake.id !== id)`. */
  function WithoutId(flakes: seq<Flake>, id: int): (rest: seq<Flake>)
    ensures |rest| <= |flakes|
    ensures forall i :: 0 <= i < |rest| ==> rest[i].id != id
  {
    if flakes == [] then []
    else if flakes[0].id == id then WithoutId(flakes[1..], id)
    else [flakes[0]] + WithoutId(flakes[1..], id)
  }

  /** Exactly the flakes with another id remain. */
  lemma {:induction false} WithoutIdMembers(flakes: seq<Flake>, id: int, f: Flake)
    ensures f in WithoutId(flakes, id) <==> f in flakes && f.id != id
  {
    if flakes != [] {
      WithoutIdMembers(flakes[1..], id, f);
      assert f in flakes <==> f == flakes[0] || f in flakes[1..];
    }
  }

  /** One step of the filter: the head is kept iff its id differs. */
  lemma WithoutIdCons(x: Flake, s: seq<Flake>, id: int)
    ensures WithoutId([x] + s, id) == (if x.id == id then [] else [x]) + WithoutId(s, id)
  {
    assert ([x] + s)[1..] == s;
  }

  /** Filtering distributes over concatenation, so the remaining flakes keep their order. */
  lemma {:induction false} WithoutIdAppend(a: seq<Flake>, b: seq<Flake>, id: int)
    ensures WithoutId(a + b, id) == WithoutId(a, id) + WithoutId(b, id)
  {
    if a == [] {
      assert a + b == b;
    } else {
      var head := if a[0].id == id then [] else [a[0]];
      calc {
        WithoutId(a + b, id);
        == { assert a + b == [a[0]] + (a[1..] + b); WithoutIdCons(a[0], a[1..] + b, id); }
        head + WithoutId(a[1..] + b, id);
        == { WithoutIdAppend(a[1..], b, id); }
        head + (WithoutId(a[1..], id) + WithoutId(b, id));
        ==
        (head + WithoutId(a[1..], id)) + WithoutId(b, id);
        == { assert a == [a[0]] + a[1..]; WithoutIdCons(a[0], a[1..], id); }
        WithoutId(a, id) + WithoutId(b, id);
      }
    }
  }

  /** Removal counts: a flake with the clicked id disappears entirely, every other keeps its multiplicity. */
  lemma {:induction false} WithoutIdCounts(flakes: seq<Flake>, id: int, f: Flake)
    ensures multiset(WithoutId(flakes, id))[f] == if f.id == id then 0 else multiset(flakes)[f]
  {
    if flakes != [] {
      WithoutIdCounts(flakes[1..], id, f);
      assert flakes == [flakes[0]] + flakes[1..];
    }
  }

  /** Removing an id twice is removing it once; removing an absent id changes nothing. */
  lemma {:induction false} WithoutIdIdempotent(flakes: seq<Flake>, id: int)
    ensures WithoutId(WithoutId(flakes, id), id) == WithoutId(flakes, id)
    ensures (forall f :: f in flakes ==> f.id != id) ==> WithoutId(flakes, id) == flakes
  {
    if flakes != [] {
      WithoutIdIdempotent(flakes[1..], id);
    }
  }

  class SnowClick {
    var score: int
    var snowflakes: seq<Flake>
    var gameActive: bool

    ghost predicate Valid()
      reads this
    {
      score >= 0 && score % PointsPerFlake == 0
    }

    constructor ()
      ensures Valid() && score == 0 && snowflakes == [] && !gameActive
    {
      score, snowflakes, gameActive := 0, [], false;
    }

    /** The final-score panel: shown iff the round is over and something was scored. */
    predicate FinalScoreShown()
      reads this
    {
      !gameActive && score > 0
    }

    /**
     * `handleSnowflakeClick`: ten points and the flakes with that id gone, the others in order.
     * The handler does not look at `gameActive`: flakes left on screen still score after the round.
     */
    method HandleSnowflakeClick(id: int)
      requires Valid()
      modifies this`score, this`snowflakes
      ensures Valid()
      ensures score == old(score) + PointsPerFlake
      ensures snowflakes == WithoutId(old(snowflakes), id)
    {
      score := score + PointsPerFlake;
      snowflakes := WithoutId(snowflakes, id);
    }

    /** `startGame`: a fresh round. */
    method StartGame()
      modifies this
      ensures Valid() && gameActive && score == 0 && snowflakes == []
      ensures !FinalScoreShown()
    {
      gameActive := true;
      score := 0;
      snowflakes := [];
    }

    /** The 30-second timeout of `startGame`: the round ends, score and flakes stay. */
    method GameTimeout()
      requires Valid()
      modifies this`gameActive
      ensures Valid() && !gameActive
      ensures FinalScoreShown() == (score > 0)
    {
      gameActive := false;
    }

    /** One firing of the 800 ms spawn interval, which is installed only while the round runs. */
    method Spawn(flake: Flake)
      requires Valid()
      modifies this`snowflakes
      ensures Valid()
      ensures snowflakes == if gameActive then old(snowflakes) + [flake] else old(snowflakes)
    {
      if gameActive {
        snowflakes := snowflakes + [flake];
      }
    }
  }
}
