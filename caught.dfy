/**
 * The caught-flag store (docs/js/state/caught.js). Each game keeps one
 * object of flags, indexed by dex number, under its own localStorage key.
 * Storage is modelled as the map from localStorage keys to the decoded
 * objects; JSON encoding and decoding are abstracted away.
 */
module Caught {
  import opened Wrappers

  /** localStorage as this store sees it: key -> decoded flag object. */
  type Storage = map<string, map<int, bool>>

  /** The localStorage key of one game's flags. */
  function KeyForGame(gameId: string): string {
    "oak:" + gameId + ":caught"
  }

  /** Different games never share a key. */
  lemma KeyForGameInjective(g1: string, g2: string)
    ensures KeyForGame(g1) == KeyForGame(g2) ==> g1 == g2
  {
    var k1, k2 := KeyForGame(g1), KeyForGame(g2);
    assert k1[4..|k1| - 7] == g1;
    assert k2[4..|k2| - 7] == g2;
  }

  lemma KeysOfGamesDistinct()
    ensures forall g1, g2 :: g1 != g2 ==> KeyForGame(g1) != KeyForGame(g2)
  {
    forall g1, g2 | g1 != g2 ensures KeyForGame(g1) != KeyForGame(g2) {
      KeyForGameInjective(g1, g2);
    }
  }

  /** `getCaught(gameId)`: the stored object, or `{}` when the key is missing. */
  function FlagsOf(s: Storage, gameId: string): map<int, bool> {
    var key := KeyForGame(gameId);
    if key in s then s[key] else map[]
  }

  /** `isCaught(gameId, dex)`: `!!caught[dex]`, so a missing entry reads as false. */
  predicate Lookup(s: Storage, gameId: string, dex: int) {
    var flags := FlagsOf(s, gameId);
    dex in flags && flags[dex]
  }

  /**
   * The storage after `setCaught(gameId, dex, value)`: the one flag reads back
   * as written and every other flag, of this game or any other, is unchanged.
   */
  function Store(s: Storage, gameId: string, dex: int, value: bool): (r: Storage)
    ensures Lookup(r, gameId, dex) == value
    ensures forall d :: d != dex ==> Lookup(r, gameId, d) == Lookup(s, gameId, d)
    ensures forall g, d :: g != gameId ==> Lookup(r, g, d) == Lookup(s, g, d)
    ensures forall k :: k != KeyForGame(gameId) ==> (k in r <==> k in s)
  {
    KeysOfGamesDistinct();
    s[KeyForGame(gameId) := FlagsOf(s, gameId)[dex := value]]
  }

  /** Writing the same flag twice leaves the same storage as writing it once. */
  lemma StoreIdempotent(s: Storage, gameId: string, dex: int, value: bool)
    ensures Store(Store(s, gameId, dex, value), gameId, dex, value) == Store(s, gameId, dex, value)
  {
    var once := Store(s, gameId, dex, value);
    var key := KeyForGame(gameId);
    assert FlagsOf(once, gameId) == FlagsOf(s, gameId)[dex := value];
    assert FlagsOf(once, gameId)[dex := value] == FlagsOf(once, gameId);
  }

  /** One `setCaught` call: game, dex and the value written. */
  datatype Write = Write(gameId: string, dex: int, value: bool)

  /** The storage after a series of `setCaught` calls, in order. */
  function Replay(s: Storage, writes: seq<Write>): Storage {
    if writes == [] then s
    else
      var w := writes[|writes| - 1];
      Store(Replay(s, writes[..|writes| - 1]), w.gameId, w.dex, w.value)
  }

  /** A (game, dex) pair that no write touched reads as it did before the writes. */
  lemma {:induction false} ReplayUntouched(s: Storage, writes: seq<Write>, gameId: string, dex: int)
    requires forall i :: 0 <= i < |writes| ==> writes[i].gameId != gameId || writes[i].dex != dex
    ensures Lookup(Replay(s, writes), gameId, dex) == Lookup(s, gameId, dex)
  {
    if writes != [] {
      ReplayUntouched(s, writes[..|writes| - 1], gameId, dex);
    }
  }

  /** Starting from empty storage, a pair that was never written reads as not caught. */
  lemma NeverWrittenIsNotCaught(writes: seq<Write>, gameId: string, dex: int)
    requires forall i :: 0 <= i < |writes| ==> writes[i].gameId != gameId || writes[i].dex != dex
    ensures !Lookup(Replay(map[], writes), gameId, dex)
  {
    ReplayUntouched(map[], writes, gameId, dex);
  }

  /** The store itself: the page's localStorage, of which only the flag keys are modelled. */
  class CaughtStore {
    var storage: Storage

    /** The store over what the browser had persisted. */
    constructor (persisted: Storage)
      ensures storage == persisted
    {
      storage := persisted;
    }

    /** `getCaught`: the game's flag object. */
    method GetCaught(gameId: string) returns (flags: map<int, bool>)
      ensures KeyForGame(gameId) in storage ==> flags == storage[KeyForGame(gameId)]
      ensures KeyForGame(gameId) !in storage ==> flags == map[]
    {
      var key := KeyForGame(gameId);
      flags := if key in storage then storage[key] else map[];
    }

    /** `isCaught`: reads the flag and changes nothing. */
    method IsCaught(gameId: string, dex: int) returns (caught: bool)
      ensures caught <==> Lookup(storage, gameId, dex)
    {
      var flags := GetCaught(gameId);
      caught := dex in flags && flags[dex];
    }

    /**
     * `setCaught(gameId, dex, value = true)`: `value` is None when the caller
     * leaves the argument out, and the flag is then set to true.
     */
    method SetCaught(gameId: string, dex: int, value: Option<bool>)
      modifies this
      ensures storage == Store(old(storage), gameId, dex, value.GetOr(true))
      ensures Lookup(storage, gameId, dex) == (value.None? || value.value)
    {
      var flags := GetCaught(gameId);
      flags := flags[dex := value.GetOr(true)];
      storage := storage[KeyForGame(gameId) := flags];
    }

    /**
     * `toggleCaught(gameId, dex)`, which the row's ball button calls and whose
     * result it uses as the new state: writes the negation of the current flag
     * and returns it.
     */
    method ToggleCaught(gameId: string, dex: int) returns (newState: bool)
      modifies this
      ensures newState == !Lookup(old(storage), gameId, dex)
      ensures storage == Store(old(storage), gameId, dex, newState)
    {
      var current := IsCaught(gameId, dex);
      newState := !current;
      SetCaught(gameId, dex, Some(newState));
    }
  }
}
