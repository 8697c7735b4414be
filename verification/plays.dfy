/**
 * Play extraction: `download_and_store_plays_object_info`
 * (generate_pdf.py:397-421) turns the `<play>` elements the upstream returns for
 * one game into rows `[game, name, play id, date, quantity, player, win]`
 * appended to the global `playsArrays`, and returns the game's last play date.
 * The XML is taken as already decoded; the numeric columns are the integers
 * the later `astype(int)` (generate_pdf.py:660-665) produces.
 */
module Plays {
  import opened Wrappers
  import Lex

  /** A `<player>` element: its `name` and `win` ("0"/"1") attributes. */
  datatype Player = Player(name: string, win: int)

  /**
   * A `<play>` element: `id`, `date`, `quantity`, the `name` of its `<item>`
   * child, and the players of its `<players>` child (`None` when that child is absent).
   */
  datatype Play = Play(id: int, date: string, quantity: int, itemName: string, players: Option<seq<Player>>)

  /** One row of `playsArrays`, columns Id_Game, Name, Id_Play, Date, Quantity, Player_Name, Victory. */
  datatype Row = Row(game: int, name: string, playId: int, date: string, quantity: int, player: string, victory: int)

  function PlayersOf(p: Play): seq<Player> {
    if p.players.Some? then p.players.value else []
  }

  /** A play adds rows (and counts for the last date) only if it lists at least one player. */
  predicate Emits(p: Play) {
    |PlayersOf(p)| > 0
  }

  /** The row for one player of one play of `game`. */
  function RowOf(game: int, p: Play, pl: Player): (r: Row)
    ensures r.game == game && r.playId == p.id && r.date == p.date && r.quantity == p.quantity
    ensures r.name == p.itemName && r.player == pl.name && r.victory == pl.win
  {
    Row(game, p.itemName, p.id, p.date, p.quantity, pl.name, pl.win)
  }

  /** The rows for the given players of one play, in order. */
  function RowsOf(game: int, p: Play, players: seq<Player>): (rs: seq<Row>)
    ensures |rs| == |players|
    ensures forall k :: 0 <= k < |players| ==> rs[k] == RowOf(game, p, players[k])
  {
    if players == [] then []
    else RowsOf(game, p, players[..|players| - 1]) + [RowOf(game, p, players[|players| - 1])]
  }

  /** All rows a game's plays produce, in document order. */
  function PlayRows(game: int, plays: seq<Play>): seq<Row> {
    if plays == [] then []
    else
      var p := plays[|plays| - 1];
      PlayRows(game, plays[..|plays| - 1]) + RowsOf(game, p, PlayersOf(p))
  }

  /** The running maximum of the dates of the plays that produce rows, starting from "". */
  function LastPlayed(plays: seq<Play>): string {
    if plays == [] then ""
    else
      var m, p := LastPlayed(plays[..|plays| - 1]), plays[|plays| - 1];
      if Emits(p) && Lex.Less(m, p.date) then p.date else m
  }

  /** Extracting a concatenation is concatenating the extractions: rows keep document order. */
  lemma {:induction false} PlayRowsAppend(game: int, a: seq<Play>, b: seq<Play>)
    ensures PlayRows(game, a + b) == PlayRows(game, a) + PlayRows(game, b)
    decreases |b|
  {
    if b != [] {
      var b', p := b[..|b| - 1], b[|b| - 1];
      assert (a + b)[..|a + b| - 1] == a + b' && (a + b)[|a + b| - 1] == p;
      PlayRowsAppend(game, a, b');
      assert PlayRows(game, a + b) == PlayRows(game, a + b') + RowsOf(game, p, PlayersOf(p));
      assert PlayRows(game, b) == PlayRows(game, b') + RowsOf(game, p, PlayersOf(p));
    } else {
      assert a + b == a;
    }
  }

  /** Every row comes from one player of one play of the list that has a `<players>` child. */
  lemma {:induction false} PlayRowsFromPlays(game: int, plays: seq<Play>)
    ensures forall r :: r in PlayRows(game, plays) ==>
      exists p, pl :: p in plays && p.players.Some? && pl in p.players.value && r == RowOf(game, p, pl)
  {
    if plays != [] {
      var prefix, p := plays[..|plays| - 1], plays[|plays| - 1];
      PlayRowsFromPlays(game, prefix);
      forall r | r in PlayRows(game, plays)
        ensures exists p, pl :: p in plays && p.players.Some? && pl in p.players.value && r == RowOf(game, p, pl)
      {
        if r in PlayRows(game, prefix) {
          var p', pl :| p' in prefix && p'.players.Some? && pl in p'.players.value && r == RowOf(game, p', pl);
          assert p' in plays;
        } else {
          var rs := RowsOf(game, p, PlayersOf(p));
          assert r in rs;
          var k :| 0 <= k < |rs| && rs[k] == r;
          assert PlayersOf(p)[k] in p.players.value;
        }
      }
    }
  }

  /** Every player of every play that has a `<players>` child gets its row. */
  lemma {:induction false} PlayRowsCoverPlayers(game: int, plays: seq<Play>)
    ensures forall p, pl :: p in plays && p.players.Some? && pl in p.players.value ==>
      RowOf(game, p, pl) in PlayRows(game, plays)
  {
    if plays != [] {
      var prefix, last := plays[..|plays| - 1], plays[|plays| - 1];
      PlayRowsCoverPlayers(game, prefix);
      forall p, pl | p in plays && p.players.Some? && pl in p.players.value
        ensures RowOf(game, p, pl) in PlayRows(game, plays)
      {
        if p !in prefix {
          assert p == last;
          var k :| 0 <= k < |p.players.value| && p.players.value[k] == pl;
          assert RowsOf(game, p, PlayersOf(p))[k] == RowOf(game, p, pl);
        }
      }
    }
  }

  /** The last date is the greatest date of the rows produced, and "" when there are none. */
  lemma {:induction false} LastPlayedIsMaxOfRows(game: int, plays: seq<Play>)
    ensures forall r :: r in PlayRows(game, plays) ==> Lex.LessEq(r.date, LastPlayed(plays))
    ensures PlayRows(game, plays) == [] ==> LastPlayed(plays) == ""
    ensures PlayRows(game, plays) != [] ==> exists r :: r in PlayRows(game, plays) && r.date == LastPlayed(plays)
  {
    if plays != [] {
      var prefix, p := plays[..|plays| - 1], plays[|plays| - 1];
      LastPlayedIsMaxOfRows(game, prefix);
      var m0, m := LastPlayed(prefix), LastPlayed(plays);
      var before, added := PlayRows(game, prefix), RowsOf(game, p, PlayersOf(p));
      assert PlayRows(game, plays) == before + added;
      if Emits(p) {
        Lex.NotLessIsGreaterEq(m0, p.date);
        assert Lex.LessEq(m0, m) && Lex.LessEq(p.date, m);
        forall r: Row | r in before + added ensures Lex.LessEq(r.date, m) {
          if r in before {
            Lex.LessEqTransitive(r.date, m0, m);
          } else {
            var k :| 0 <= k < |added| && added[k] == r;
          }
        }
        assert added[0].date == p.date;
        if m == p.date {
          assert added[0] in PlayRows(game, plays);
        } else {
          assert m == m0;
          Lex.EmptyIsLeast(p.date);
        }
      } else {
        assert added == [];
      }
    }
  }

  /** One more play appends its rows. */
  lemma RowsStep(game: int, plays: seq<Play>, k: nat)
    requires k < |plays|
    ensures PlayRows(game, plays[..k + 1]) == PlayRows(game, plays[..k]) + RowsOf(game, plays[k], PlayersOf(plays[k]))
  {
    var p := plays[..k + 1];
    assert p[..|p| - 1] == plays[..k] && p[|p| - 1] == plays[k];
  }

  /** One more play may raise the last date. */
  lemma LastStep(plays: seq<Play>, k: nat)
    requires k < |plays|
    ensures LastPlayed(plays[..k + 1]) ==
      if Emits(plays[k]) && Lex.Less(LastPlayed(plays[..k]), plays[k].date) then plays[k].date
      else LastPlayed(plays[..k])
  {
    var p := plays[..k + 1];
    assert p[..|p| - 1] == plays[..k] && p[|p| - 1] == plays[k];
  }

  lemma ConcatAssoc<T>(a: seq<T>, b: seq<T>, c: seq<T>)
    ensures (a + b) + c == a + (b + c)
  {
  }

  /** One more play: its rows are appended to the accumulator and it may raise the last date. */
  lemma ExtendByOne(game: int, plays: seq<Play>, k: nat, start: seq<Row>, before: seq<Row>, after: seq<Row>, last: string, last': string)
    requires k < |plays|
    requires before == start + PlayRows(game, plays[..k]) && last == LastPlayed(plays[..k])
    requires after == before + RowsOf(game, plays[k], PlayersOf(plays[k]))
    requires last' == if Emits(plays[k]) && Lex.Less(last, plays[k].date) then plays[k].date else last
    ensures after == start + PlayRows(game, plays[..k + 1]) && last' == LastPlayed(plays[..k + 1])
  {
    RowsStep(game, plays, k);
    LastStep(plays, k);
    ConcatAssoc(start, PlayRows(game, plays[..k]), RowsOf(game, plays[k], PlayersOf(plays[k])));
  }

  /** The accumulator `playsArrays`. */
  class PlayLog {
    var rows: seq<Row>

    constructor ()
      ensures rows == []
    {
      rows := [];
    }

    /** The inner loop: one row per player, and the play's date may raise `last`. */
    method StorePlayers(game: int, item: Play, players: seq<Player>, last: string) returns (last': string)
      modifies this
      ensures rows == old(rows) + RowsOf(game, item, players)
      ensures last' == if |players| > 0 && Lex.Less(last, item.date) then item.date else last
    {
      last' := last;
      for j := 0 to |players|
        invariant rows == old(rows) + RowsOf(game, item, players[..j])
        invariant last' == if j > 0 && Lex.Less(last, item.date) then item.date else last
      {
        assert players[..j + 1][..j] == players[..j];
        rows := rows + [RowOf(game, item, players[j])];
        if Lex.Less(last', item.date) {
          last' := item.date;
        }
        Lex.LessIrreflexive(item.date);
      }
      assert players[..|players|] == players;
    }

    /** The body of the outer loop for one `<play>`: its players' rows, if it has a `<players>` child. */
    method StorePlay(game: int, item: Play, last: string) returns (last': string)
      modifies this
      ensures rows == old(rows) + RowsOf(game, item, PlayersOf(item))
      ensures last' == if Emits(item) && Lex.Less(last, item.date) then item.date else last
    {
      last' := last;
      if item.players.Some? {
        last' := StorePlayers(game, item, item.players.value, last);
      }
    }

    /** `download_and_store_plays_object_info` for the already-fetched plays of `game`. */
    method DownloadAndStorePlays(game: int, plays: seq<Play>) returns (lastPlayed: string)
      modifies this
      ensures rows == old(rows) + PlayRows(game, plays)
      ensures lastPlayed == LastPlayed(plays)
    {
      ghost var start := rows;
      lastPlayed := "";
      for k := 0 to |plays|
        invariant rows == start + PlayRows(game, plays[..k])
        invariant lastPlayed == LastPlayed(plays[..k])
      {
        ghost var before, last := rows, lastPlayed;
        lastPlayed := StorePlay(game, plays[k], lastPlayed);
        ExtendByOne(game, plays, k, start, before, rows, last, lastPlayed);
      }
      assert plays[..|plays|] == plays;
    }
  }
}
