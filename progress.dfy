/** Global progress (docs/js/state/progress.js). */
module Progress {
  import opened Caught
  import opened Catalog

  datatype GlobalProgress = GlobalProgress(caught: nat, total: int, percent: int)

  /** How many roster entries have their dex flagged caught for the game. */
  function CountCaught(pokemon: seq<Species>, gameId: GameId, s: Storage): (n: nat)
    ensures n <= |pokemon|
    ensures n == 0 <==> forall i :: 0 <= i < |pokemon| ==> !Lookup(s, gameId, pokemon[i].dex)
  {
    if pokemon == [] then 0
    else
      var init := pokemon[..|pokemon| - 1];
      var p := pokemon[|pokemon| - 1];
      assert forall i :: 0 <= i < |init| ==> pokemon[i] == init[i];
      CountCaught(init, gameId, s) + (if Lookup(s, gameId, p.dex) then 1 else 0)
  }

  /** `Math.floor(a / b)` on integers, for either sign of `b`. */
  function FloorDiv(a: int, b: int): (q: int)
    requires b != 0
    ensures b > 0 ==> q * b <= a < q * b + b
    ensures b < 0 ==> q * b >= a > q * b + b
  {
    if b > 0 then a / b else (-a) / (-b)
  }

  /** `total ? Math.floor((caught / total) * 100) : 0`, over exact integers. */
  function Percent(caught: nat, total: int): (r: int)
    ensures total == 0 ==> r == 0
    ensures total > 0 ==> r * total <= caught * 100 < (r + 1) * total
  {
    if total == 0 then 0 else FloorDiv(caught * 100, total)
  }

  /** `getGlobalProgress(game, pokemon)`: one pass over the roster, counting caught entries. */
  method GetGlobalProgress(game: Game, pokemon: seq<Species>, s: Storage) returns (r: GlobalProgress)
    ensures r.caught == CountCaught(pokemon, game.id, s)
    ensures r.total == game.total
    ensures r.percent == Percent(r.caught, r.total)
  {
    var total := game.total;
    var caught: nat := 0;
    for i := 0 to |pokemon|
      invariant caught == CountCaught(pokemon[..i], game.id, s)
    {
      assert pokemon[..i + 1][..i] == pokemon[..i];
      if Lookup(s, game.id, pokemon[i].dex) {
        caught := caught + 1;
      }
    }
    assert pokemon[..|pokemon|] == pokemon;
    r := GlobalProgress(caught, total, if total != 0 then FloorDiv(caught * 100, total) else 0);
  }

  /** The scenario of a 124-species target with 10 caught: 8 percent. */
  lemma PercentOfRedTarget()
    ensures Percent(10, 124) == 8
  {
  }

  /** Nothing clamps the count to the target: 3 caught of a target of 2 is 150 percent. */
  lemma PercentNotClamped()
    ensures Percent(3, 2) == 150
  {
  }

  /** For a non-negative target, more caught never means a smaller percent. */
  lemma PercentMonotone(c1: nat, c2: nat, total: int)
    requires c1 <= c2 && total >= 0
    ensures Percent(c1, total) <= Percent(c2, total)
  {
    if total > 0 {
      var r1, r2 := Percent(c1, total), Percent(c2, total);
      assert r1 * total < (r2 + 1) * total;
      MulCancel(r1, r2 + 1, total);
    }
  }

  lemma MulCancel(a: int, b: int, t: int)
    requires t > 0 && a * t < b * t
    ensures a < b
  {
    assert (b - a) * t == b * t - a * t;
    assert (b - a) * t > 0;
  }

  /** Marking a dex caught never lowers the count, and raises it when a roster entry had it uncaught. */
  lemma {:induction false} CountCaughtMarkCaught(pokemon: seq<Species>, gameId: GameId, s: Storage, dex: int)
    ensures CountCaught(pokemon, gameId, Store(s, gameId, dex, true)) >= CountCaught(pokemon, gameId, s)
    ensures !Lookup(s, gameId, dex) && (exists i :: 0 <= i < |pokemon| && pokemon[i].dex == dex) ==>
      CountCaught(pokemon, gameId, Store(s, gameId, dex, true)) > CountCaught(pokemon, gameId, s)
  {
    if pokemon != [] {
      var init := pokemon[..|pokemon| - 1];
      CountCaughtMarkCaught(init, gameId, s, dex);
      if !Lookup(s, gameId, dex) && (exists i :: 0 <= i < |pokemon| && pokemon[i].dex == dex) {
        var i :| 0 <= i < |pokemon| && pokemon[i].dex == dex;
        if i < |init| {
          assert init[i].dex == dex;
        }
      }
    }
  }

  /** Writes for another game leave this game's count alone. */
  lemma {:induction false} CountCaughtOtherGame(pokemon: seq<Species>, gameId: GameId, s: Storage, other: GameId, dex: int, value: bool)
    requires other != gameId
    ensures CountCaught(pokemon, gameId, Store(s, other, dex, value)) == CountCaught(pokemon, gameId, s)
  {
    if pokemon != [] {
      CountCaughtOtherGame(pokemon[..|pokemon| - 1], gameId, s, other, dex, value);
    }
  }

  /** Marking one more species caught never lowers the count or, for a non-negative target, the percent. */
  lemma ProgressMonotone(game: Game, pokemon: seq<Species>, s: Storage, dex: int)
    requires game.total >= 0
    ensures var before := CountCaught(pokemon, game.id, s);
            var after := CountCaught(pokemon, game.id, Store(s, game.id, dex, true));
            before <= after && Percent(before, game.total) <= Percent(after, game.total)
  {
    CountCaughtMarkCaught(pokemon, game.id, s, dex);
    PercentMonotone(CountCaught(pokemon, game.id, s), CountCaught(pokemon, game.id, Store(s, game.id, dex, true)), game.total);
  }
}
