/**
 * The statistics block that follows play extraction (generate_pdf.py:675-701):
 * the current-period filter, last-played dates per game, play counts per game
 * and per player, the two-step win tally, and the per-player victory ranking.
 * Each pandas expression becomes a function over the rows of `playsArrays`;
 * the period start (1 January of the current year) is a parameter.
 */
module Aggregation {
  import opened Wrappers
  import Lex
  import opened Tables
  import opened Plays

  /** `(Id_Game, Name)`: the index of every per-game table. */
  datatype GameKey = GameKey(id: int, name: string)

  /** `(Id_Game, Name, Player_Name)`. */
  datatype PlayerKey = PlayerKey(game: GameKey, player: string)

  /** `(Id_Game, Name, Id_Play, Quantity)`: one logged session of a game. */
  datatype SessionKey = SessionKey(game: GameKey, playId: int, quantity: int)

  /** `(Id_Game, Name, Player_Name, Quantity)`: the first index of the win tally. */
  datatype WinKey = WinKey(player: PlayerKey, quantity: int)

  // Column projections used as group keys and values.

  function GameOf(r: Row): GameKey { GameKey(r.game, r.name) }
  function DateOf(r: Row): string { r.date }
  function PlayerOf(r: Row): PlayerKey { PlayerKey(GameOf(r), r.player) }
  function QuantityOf(r: Row): int { r.quantity }
  function SessionOf(r: Row): SessionKey { SessionKey(GameOf(r), r.playId, r.quantity) }
  function SessionGame(s: SessionKey): GameKey { s.game }
  function SessionQuantity(s: SessionKey): int { s.quantity }
  function WinKeyOf(r: Row): WinKey { WinKey(PlayerOf(r), r.quantity) }
  function VictoryOf(r: Row): int { r.victory }
  function PlayerNameOf(r: Row): string { r.player }

  /** A row's weight in the win tally: its session's quantity times its 0/1 win flag. */
  function Score(r: Row): int { r.quantity * r.victory }

  // Projections of the intermediate win table (first step of the tally).

  function WinPlayer(e: Entry<WinKey, int>): PlayerKey { e.key.player }
  function WinGame(e: Entry<WinKey, int>): GameKey { e.key.player.game }
  /** The `NB_VictoryInt` column: `Quantity * Victory` on the summed table. */
  function NbVictory(e: Entry<WinKey, int>): int { e.key.quantity * e.value }
  function PlayerOfWin(k: WinKey): PlayerKey { k.player }
  function GameOfWin(k: WinKey): GameKey { k.player.game }
  function QuantityOfWin(k: WinKey): int { k.quantity }
  function GameOfPlayer(k: PlayerKey): GameKey { k.game }
  function One(k: PlayerKey): int { 1 }
  function EntryGame(e: Entry<PlayerKey, int>): GameKey { e.key.game }
  function EntryValue(e: Entry<PlayerKey, int>): int { e.value }

  // ---------------------------------------------------------------
  // Period filter and last-played tables (lines 675-680)
  // ---------------------------------------------------------------

  /** `playsDF.loc[playsDF['Date'] >= start]`, keeping row order. */
  function InPeriod(rows: seq<Row>, start: string): (r: seq<Row>)
    ensures forall x :: x in r <==> x in rows && Lex.LessEq(start, x.date)
    ensures forall y :: multiset(r)[y] == if Lex.LessEq(start, y.date) then multiset(rows)[y] else 0
    ensures |r| <= |rows|
  {
    if rows == [] then []
    else
      var prefix, x := rows[..|rows| - 1], rows[|rows| - 1];
      assert rows == prefix + [x];
      assert forall y :: y in rows <==> y in prefix || y == x;
      assert multiset(rows) == multiset(prefix) + multiset{x};
      InPeriod(prefix, start) + (if Lex.LessEq(start, x.date) then [x] else [])
  }

  /** The latest date per game over the given rows (`aggfunc='max'` on `Date`). */
  function LastPlays(rows: seq<Row>): (t: seq<Entry<GameKey, string>>)
    ensures DistinctKeys(t)
    ensures forall g :: Find(t, g) == MaxWhere(rows, GameOf, DateOf, g)
  {
    GroupMaxSpec(rows, GameOf, DateOf);
    GroupMax(rows, GameOf, DateOf)
  }

  /** `lastPlays2023DF`: last date per game among the rows of the current period. */
  function LastPlaysCurrent(rows: seq<Row>, start: string): seq<Entry<GameKey, string>> {
    LastPlays(InPeriod(rows, start))
  }

  /** The entries of a last-played table whose date is before `start`. */
  function Earlier(t: seq<Entry<GameKey, string>>, start: string): (r: seq<Entry<GameKey, string>>)
    ensures forall e :: e in r <==> e in t && Lex.Less(e.value, start)
  {
    if t == [] then []
    else
      assert forall e :: e in t <==> e == t[0] || e in t[1..] by {
        assert t == [t[0]] + t[1..];
      }
      (if Lex.Less(t[0].value, start) then [t[0]] else []) + Earlier(t[1..], start)
  }

  /** `lastPlaysBefore2023DF`: games whose overall last date is before the period start. */
  function LastPlaysBefore(rows: seq<Row>, start: string): seq<Entry<GameKey, string>> {
    Earlier(LastPlays(rows), start)
  }

  lemma {:induction false} EarlierDistinct(t: seq<Entry<GameKey, string>>, start: string)
    requires DistinctKeys(t)
    ensures DistinctKeys(Earlier(t, start))
  {
    if t != [] {
      var rest := Earlier(t[1..], start);
      EarlierDistinct(t[1..], start);
      if Lex.Less(t[0].value, start) {
        forall j | 0 <= j < |rest| ensures t[0].key != rest[j].key {
          assert rest[j] in t[1..];
          var i :| 0 <= i < |t[1..]| && t[1..][i] == rest[j];
          assert t[i + 1] == rest[j];
        }
      }
    }
  }

  /** Filtering a table with one entry per game keeps or drops each game's entry whole. */
  lemma FindEarlier(t: seq<Entry<GameKey, string>>, start: string, g: GameKey)
    requires DistinctKeys(t)
    ensures Find(Earlier(t, start), g) ==
              (if Find(t, g).Some? && Lex.Less(Find(t, g).value, start) then Find(t, g) else None)
  {
    var r := Earlier(t, start);
    EarlierDistinct(t, start);
    if Find(t, g).Some? && Lex.Less(Find(t, g).value, start) {
      FindDistinct(r, Entry(g, Find(t, g).value));
    } else if Find(r, g).Some? {
      FindDistinct(t, Entry(g, Find(r, g).value));
    }
  }

  /**
   * A game is in the current-period table exactly when it has a row dated on or
   * after `start`, and its value there is the latest such date.
   */
  lemma CurrentPeriodTable(rows: seq<Row>, start: string, g: GameKey)
    ensures Find(LastPlaysCurrent(rows, start), g).Some? <==>
              exists r :: r in rows && GameOf(r) == g && Lex.LessEq(start, r.date)
    ensures Find(LastPlaysCurrent(rows, start), g).Some? ==>
              var m := Find(LastPlaysCurrent(rows, start), g).value;
              (exists r :: r in rows && GameOf(r) == g && Lex.LessEq(start, r.date) && r.date == m) &&
              (forall r :: r in rows && GameOf(r) == g && Lex.LessEq(start, r.date) ==> Lex.LessEq(r.date, m))
  {
    MaxWhereSpec(InPeriod(rows, start), GameOf, DateOf, g);
  }

  /**
   * A game is in the "before" table exactly when it has rows and every one of
   * them is dated before `start`; its value there is its overall latest date.
   */
  lemma BeforePeriodTable(rows: seq<Row>, start: string, g: GameKey)
    ensures Find(LastPlaysBefore(rows, start), g).Some? <==>
              (exists r :: r in rows && GameOf(r) == g) && forall r :: r in rows && GameOf(r) == g ==> Lex.Less(r.date, start)
    ensures Find(LastPlaysBefore(rows, start), g).Some? ==>
              Find(LastPlaysBefore(rows, start), g) == MaxWhere(rows, GameOf, DateOf, g)
  {
    FindEarlier(LastPlays(rows), start, g);
    MaxWhereSpec(rows, GameOf, DateOf, g);
    var m := MaxWhere(rows, GameOf, DateOf, g);
    if m.Some? && Lex.Less(m.value, start) {
      forall r | r in rows && GameOf(r) == g ensures Lex.Less(r.date, start) {
        if r.date != m.value {
          Lex.LessTransitive(r.date, m.value, start);
        }
      }
    }
  }

  /** Every game with rows is in exactly one of the two last-played tables. */
  lemma PeriodPartition(rows: seq<Row>, start: string, g: GameKey)
    ensures (exists r :: r in rows && GameOf(r) == g) <==>
              Find(LastPlaysCurrent(rows, start), g).Some? || Find(LastPlaysBefore(rows, start), g).Some?
    ensures !(Find(LastPlaysCurrent(rows, start), g).Some? && Find(LastPlaysBefore(rows, start), g).Some?)
  {
    CurrentPeriodTable(rows, start, g);
    BeforePeriodTable(rows, start, g);
    MaxWhereSpec(rows, GameOf, DateOf, g);
    var m := MaxWhere(rows, GameOf, DateOf, g);
    if m.Some? {
      var r :| r in rows && GameOf(r) == g && r.date == m.value;
      Lex.NotLessIsGreaterEq(r.date, start);
      if exists x :: x in rows && GameOf(x) == g && Lex.LessEq(start, x.date) {
        var x :| x in rows && GameOf(x) == g && Lex.LessEq(start, x.date);
        Lex.NotLessIsGreaterEq(x.date, start);
      }
    }
  }

  // ---------------------------------------------------------------
  // Play counts (lines 682-689)
  // ---------------------------------------------------------------

  /** The game has at least one row. */
  predicate Played(rows: seq<Row>, g: GameKey) {
    exists r :: r in rows && GameOf(r) == g
  }

  lemma SessionsCoverGames(rows: seq<Row>, g: GameKey)
    ensures (exists s :: s in Groups(rows, SessionOf) && SessionGame(s) == g) <==> Played(rows, g)
  {
    GroupsSpec(rows, SessionOf);
    if Played(rows, g) {
      var r :| r in rows && GameOf(r) == g;
      assert SessionOf(r) in Groups(rows, SessionOf);
    }
  }

  /**
   * `groupedPlaysPerGameDF`: first the distinct `(game, play id, quantity)`
   * sessions, then their quantities summed per game.
   */
  function PlaysPerGame(rows: seq<Row>): (t: seq<Entry<GameKey, int>>)
    ensures DistinctKeys(t)
    ensures forall g :: Find(t, g) ==
              (if Played(rows, g) then Some(SumWhere(Groups(rows, SessionOf), SessionGame, SessionQuantity, g)) else None)
  {
    GroupSumSpec(Groups(rows, SessionOf), SessionGame, SessionQuantity);
    assert forall g :: Played(rows, g) <==> exists s :: s in Groups(rows, SessionOf) && SessionGame(s) == g by {
      forall g ensures Played(rows, g) <==> exists s :: s in Groups(rows, SessionOf) && SessionGame(s) == g {
        SessionsCoverGames(rows, g);
      }
    }
    GroupSum(Groups(rows, SessionOf), SessionGame, SessionQuantity)
  }

  /** Another participant's row of an already counted session leaves the per-game totals unchanged. */
  lemma {:induction false} RepeatedSessionAddsNothing(rows: seq<Row>, r: Row)
    requires exists x :: x in rows && SessionOf(x) == SessionOf(r)
    ensures PlaysPerGame(rows + [r]) == PlaysPerGame(rows)
  {
    GroupsSpec(rows, SessionOf);
    assert (rows + [r])[..|rows|] == rows;
  }

  /**
   * A row of a new session folds its quantity into its game's entry of the
   * per-game table (by `UpsertPlus`: that entry grows by the quantity, from 0
   * when the game is new, and every other game's entry is unchanged).
   */
  lemma NewSessionUpserts(rows: seq<Row>, r: Row)
    requires forall x :: x in rows ==> SessionOf(x) != SessionOf(r)
    ensures PlaysPerGame(rows + [r]) == Upsert(PlaysPerGame(rows), GameOf(r), r.quantity, Plus)
  {
    var g, s := Groups(rows, SessionOf), SessionOf(r);
    NewSessionGroups(rows, r);
    GroupSumAppendOne(g, s, SessionGame, SessionQuantity);
  }

  /** A row of a new session adds that session at the end of the distinct sessions. */
  lemma NewSessionGroups(rows: seq<Row>, r: Row)
    requires forall x :: x in rows ==> SessionOf(x) != SessionOf(r)
    ensures Groups(rows + [r], SessionOf) == Groups(rows, SessionOf) + [SessionOf(r)]
  {
    GroupsSpec(rows, SessionOf);
    assert (rows + [r])[..|rows|] == rows;
  }

  /** `groupedPlaysPerGame2023DF`: the same count over the rows of the current period. */
  function PlaysPerGameCurrent(rows: seq<Row>, start: string): seq<Entry<GameKey, int>> {
    PlaysPerGame(InPeriod(rows, start))
  }

  /** `groupedPlaysPerGamePerPlayerDF`: quantities summed over every row of a (game, player) pair. */
  function PlaysPerPlayer(rows: seq<Row>): (t: seq<Entry<PlayerKey, int>>)
    ensures DistinctKeys(t)
    ensures forall k :: Find(t, k) ==
              (if exists r :: r in rows && PlayerOf(r) == k then Some(SumWhere(rows, PlayerOf, QuantityOf, k)) else None)
  {
    GroupSumSpec(rows, PlayerOf, QuantityOf);
    GroupSum(rows, PlayerOf, QuantityOf)
  }

  /** `groupedPlaysPerGamePerPlayer2023DF`. */
  function PlaysPerPlayerCurrent(rows: seq<Row>, start: string): seq<Entry<PlayerKey, int>> {
    PlaysPerPlayer(InPeriod(rows, start))
  }

  // ---------------------------------------------------------------
  // Win tally (lines 691-697)
  // ---------------------------------------------------------------

  /** First step: `Victory` summed per (game, player, quantity). */
  function WinsPerQuantity(rows: seq<Row>): seq<Entry<WinKey, int>> {
    GroupSum(rows, WinKeyOf, VictoryOf)
  }

  /** The intermediate table has an entry for a player exactly when that player has rows. */
  lemma WinsPerQuantityPlayers(rows: seq<Row>, k: PlayerKey)
    ensures (exists e :: e in WinsPerQuantity(rows) && WinPlayer(e) == k) <==> exists r :: r in rows && PlayerOf(r) == k
  {
    var t := WinsPerQuantity(rows);
    GroupSumSpec(rows, WinKeyOf, VictoryOf);
    if exists r :: r in rows && PlayerOf(r) == k {
      var r :| r in rows && PlayerOf(r) == k;
      assert Find(t, WinKeyOf(r)).Some?;
      assert Entry(WinKeyOf(r), Find(t, WinKeyOf(r)).value) in t;
    }
    if exists e :: e in t && WinPlayer(e) == k {
      var e :| e in t && WinPlayer(e) == k;
      assert e.key in Keys(t);
      assert Find(t, e.key).Some?;
    }
  }

  /**
   * The two-step tally for a (game, player) pair is the sum over that pair's
   * rows of `Quantity * Victory`.
   */
  lemma TwoStepTally(rows: seq<Row>, k: PlayerKey)
    ensures Find(GroupSum(WinsPerQuantity(rows), WinPlayer, NbVictory), k) ==
              (if exists r :: r in rows && PlayerOf(r) == k then Some(SumWhere(rows, PlayerOf, Score, k)) else None)
  {
    var t := WinsPerQuantity(rows);
    GroupSumSpec(t, WinPlayer, NbVictory);
    WinsPerQuantityPlayers(rows, k);
    SumWhereIsWeighted(t, WinPlayer, NbVictory, PlayerOfWin, QuantityOfWin, k);
    GroupSumWeighted(rows, WinKeyOf, VictoryOf, PlayerOfWin, QuantityOfWin, k);
    RowsWeightedIsSumWhere(rows, WinKeyOf, VictoryOf, PlayerOfWin, QuantityOfWin, PlayerOf, Score, k);
  }

  /** `groupedVictoryPlaysDF`: the second step, `NB_VictoryInt` summed per (game, player). */
  function VictoryPlays(rows: seq<Row>): (t: seq<Entry<PlayerKey, int>>)
    ensures DistinctKeys(t)
    ensures forall k :: Find(t, k) ==
              (if exists r :: r in rows && PlayerOf(r) == k then Some(SumWhere(rows, PlayerOf, Score, k)) else None)
  {
    GroupSumSpec(WinsPerQuantity(rows), WinPlayer, NbVictory);
    assert forall k :: Find(GroupSum(WinsPerQuantity(rows), WinPlayer, NbVictory), k) ==
                       (if exists r :: r in rows && PlayerOf(r) == k then Some(SumWhere(rows, PlayerOf, Score, k)) else None) by {
      forall k ensures Find(GroupSum(WinsPerQuantity(rows), WinPlayer, NbVictory), k) ==
                       (if exists r :: r in rows && PlayerOf(r) == k then Some(SumWhere(rows, PlayerOf, Score, k)) else None) {
        TwoStepTally(rows, k);
      }
    }
    GroupSum(WinsPerQuantity(rows), WinPlayer, NbVictory)
  }

  /** `groupedVictoryPlays2023DF`. */
  function VictoryPlaysCurrent(rows: seq<Row>, start: string): seq<Entry<PlayerKey, int>> {
    VictoryPlays(InPeriod(rows, start))
  }

  /** A player of a game is in the current-period tally exactly when they have a row in the period. */
  lemma CurrentTallyPlayers(rows: seq<Row>, start: string, k: PlayerKey)
    ensures Find(VictoryPlaysCurrent(rows, start), k).Some? <==>
              exists r :: r in rows && PlayerOf(r) == k && Lex.LessEq(start, r.date)
  {
  }

  /**
   * Summed over the players of one game, the tally equals the sum over that
   * game's rows of `Quantity * Victory`: each session contributes its quantity
   * once per winning participant.
   */
  lemma GameTally(rows: seq<Row>, g: GameKey)
    ensures SumWhere(VictoryPlays(rows), EntryGame, EntryValue, g) == SumWhere(rows, GameOf, Score, g)
  {
    var t1 := WinsPerQuantity(rows);
    var t2 := VictoryPlays(rows);
    SumWhereIsWeighted(t2, EntryGame, EntryValue, GameOfPlayer, One, g);
    GroupSumWeighted(t1, WinPlayer, NbVictory, GameOfPlayer, One, g);
    RowsWeightedIsSumWhere(t1, WinPlayer, NbVictory, GameOfPlayer, One, WinGame, NbVictory, g);
    SumWhereIsWeighted(t1, WinGame, NbVictory, GameOfWin, QuantityOfWin, g);
    GroupSumWeighted(rows, WinKeyOf, VictoryOf, GameOfWin, QuantityOfWin, g);
    RowsWeightedIsSumWhere(rows, WinKeyOf, VictoryOf, GameOfWin, QuantityOfWin, GameOf, Score, g);
  }

  // ---------------------------------------------------------------
  // Player ranking (lines 700-701)
  // ---------------------------------------------------------------

  lemma RankedSums(rows: seq<Row>)
    ensures forall e :: e in GroupSum(rows, PlayerNameOf, VictoryOf) ==> e.value == SumWhere(rows, PlayerNameOf, VictoryOf, e.key)
  {
    var u := GroupSum(rows, PlayerNameOf, VictoryOf);
    GroupSumSpec(rows, PlayerNameOf, VictoryOf);
    forall e | e in u ensures e.value == SumWhere(rows, PlayerNameOf, VictoryOf, e.key) {
      FindDistinct(u, e);
    }
  }

  /** A name is ranked exactly when it has a row. */
  lemma RankedNames(rows: seq<Row>, n: string)
    ensures n in Keys(SortDesc(GroupSum(rows, PlayerNameOf, VictoryOf))) <==> exists r :: r in rows && r.player == n
  {
    var u := GroupSum(rows, PlayerNameOf, VictoryOf);
    SortDescKeys(u);
    assert n in Keys(u) <==> exists r :: r in rows && PlayerNameOf(r) == n by {
      GroupSumSpec(rows, PlayerNameOf, VictoryOf);
      assert Find(u, n).Some? <==> n in Keys(u);
    }
    if exists r :: r in rows && r.player == n {
      var r :| r in rows && r.player == n;
      assert PlayerNameOf(r) == n;
    }
    if exists r :: r in rows && PlayerNameOf(r) == n {
      var r :| r in rows && PlayerNameOf(r) == n;
      assert r.player == n;
    }
  }

  /**
   * `groupedPlayerDF`: raw `Victory` summed per player name over all games,
   * sorted by that sum, largest first.
   */
  function Ranking(rows: seq<Row>): (t: seq<Entry<string, int>>)
    ensures DistinctKeys(t)
    ensures NonIncreasing(t)
    ensures forall e :: e in t ==> e.value == SumWhere(rows, PlayerNameOf, VictoryOf, e.key)
    ensures forall n :: n in Keys(t) <==> exists r :: r in rows && r.player == n
  {
    var u := GroupSum(rows, PlayerNameOf, VictoryOf);
    SortDescEntries(u);
    assert DistinctKeys(SortDesc(u)) by {
      GroupSumSpec(rows, PlayerNameOf, VictoryOf);
      SortDescDistinct(u);
    }
    RankedSums(rows);
    assert forall n :: n in Keys(SortDesc(u)) <==> exists r :: r in rows && r.player == n by {
      forall n ensures n in Keys(SortDesc(u)) <==> exists r :: r in rows && r.player == n {
        RankedNames(rows, n);
      }
    }
    SortDesc(u)
  }
}
