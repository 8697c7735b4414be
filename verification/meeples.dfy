/**
 * Meeple colours: every player name shown in the plays report gets a colour.
 * A name seen for the first time takes the head of the list of colours still
 * available, which is removed from that list; once the list is exhausted new
 * names get white. The dictionary and the list are shared by the ranking loop
 * (generate_pdf.py:710-728) and the per-game result loops
 * (generate_pdf.py:790-801 and 883-894).
 */
module Meeples {
  import opened Tables

  const Palette: seq<string> := ["blue", "yellow", "green", "pink", "red", "orange", "black", "violet"]
  const Overflow: string := "white"

  /** `meeplesAssociated` and `meeplesAvailable`. */
  datatype Assignment = Assignment(associated: map<string, string>, available: seq<string>)

  /** The loop body for one player name. */
  function Assign(a: Assignment, name: string): (r: Assignment)
    ensures r.associated.Keys == a.associated.Keys + {name}
    ensures forall n :: n in a.associated ==> r.associated[n] == a.associated[n]
    ensures |r.available| == if name !in a.associated && |a.available| > 0 then |a.available| - 1 else |a.available|
    ensures name in a.associated ==> r == a
    ensures name !in a.associated && |a.available| > 0 ==>
      r.associated[name] == a.available[0] && a.available == [r.associated[name]] + r.available
    ensures name !in a.associated && |a.available| == 0 ==> r.associated[name] == Overflow && r.available == []
  {
    if name in a.associated then a
    else if |a.available| > 0 then Assignment(a.associated[name := a.available[0]], a.available[1..])
    else Assignment(a.associated[name := Overflow], a.available)
  }

  /** The loop over a sequence of player names. */
  function AssignAll(a: Assignment, names: seq<string>): Assignment {
    if names == [] then a
    else Assign(AssignAll(a, names[..|names| - 1]), names[|names| - 1])
  }

  /** The position of the first occurrence of `x` in `s`. */
  function FirstIndex(s: seq<string>, x: string): (k: nat)
    requires x in s
    ensures k < |s| && s[k] == x && x !in s[..k]
  {
    if s[0] == x then 0
    else
      var k' := FirstIndex(s[1..], x);
      assert s[..k' + 1] == [s[0]] + s[1..][..k'];
      k' + 1
  }

  /** The first occurrence is the only position holding `x` with no `x` before it. */
  lemma FirstIndexUnique(s: seq<string>, x: string, k: nat)
    requires k < |s| && s[k] == x && x !in s[..k]
    ensures FirstIndex(s, x) == k
  {
  }

  /** Appending a name moves no first occurrence, and a name new to the prefix first occurs at the end. */
  lemma FirstIndexSnoc(prefix: seq<string>, n: string, x: string)
    requires x in prefix || x == n
    ensures x in prefix ==> FirstIndex(prefix + [n], x) == FirstIndex(prefix, x)
    ensures x !in prefix ==> FirstIndex(prefix + [n], x) == |prefix|
  {
    var names := prefix + [n];
    if x in prefix {
      var k := FirstIndex(prefix, x);
      assert names[..k] == prefix[..k];
      FirstIndexUnique(names, x, k);
    } else {
      assert names[..|prefix|] == prefix;
      FirstIndexUnique(names, x, |prefix|);
    }
  }

  /** `nn` lists names of `names` in the order of their first occurrence there. */
  predicate FirstAppearanceOrder(names: seq<string>, nn: seq<string>) {
    && (forall x :: x in nn ==> x in names)
    && (forall i, j :: 0 <= i < j < |nn| ==> FirstIndex(names, nn[i]) < FirstIndex(names, nn[j]))
  }

  /** The names of `names` not in `known`, each once, in first-appearance order. */
  function NewNames(known: set<string>, names: seq<string>): (nn: seq<string>)
    ensures forall n :: n in nn <==> n in names && n !in known
    ensures forall i, j :: 0 <= i < j < |nn| ==> nn[i] != nn[j]
    ensures FirstAppearanceOrder(names, nn)
  {
    if names == [] then []
    else
      var prefix, n := names[..|names| - 1], names[|names| - 1];
      assert names == prefix + [n];
      assert forall x :: x in names <==> x in prefix || x == n;
      var nn0 := NewNames(known, prefix);
      NewNamesOrderStep(known, prefix, n, nn0);
      if n in known || n in nn0 then nn0 else nn0 + [n]
  }

  /** One more name keeps the first-appearance order of the new names. */
  lemma NewNamesOrderStep(known: set<string>, prefix: seq<string>, n: string, nn0: seq<string>)
    requires forall x :: x in nn0 <==> x in prefix && x !in known
    requires FirstAppearanceOrder(prefix, nn0)
    ensures FirstAppearanceOrder(prefix + [n], if n in known || n in nn0 then nn0 else nn0 + [n])
  {
    var names, nn := prefix + [n], if n in known || n in nn0 then nn0 else nn0 + [n];
    forall x | x in nn ensures x in names && (x in prefix ==> FirstIndex(names, x) == FirstIndex(prefix, x)) {
      FirstIndexSnoc(prefix, n, x);
    }
    forall i, j | 0 <= i < j < |nn| ensures FirstIndex(names, nn[i]) < FirstIndex(names, nn[j]) {
      if j < |nn0| {
        assert nn[i] == nn0[i] && nn[j] == nn0[j];
      } else {
        assert nn[j] == n && n !in prefix;
        FirstIndexSnoc(prefix, n, n);
      }
    }
  }

  function Min(a: int, b: int): int {
    if a < b then a else b
  }

  /** A run of names adds exactly those names and leaves existing entries unchanged. */
  lemma {:induction false} AssignAllKeys(a: Assignment, names: seq<string>)
    ensures AssignAll(a, names).associated.Keys == a.associated.Keys + set n | n in names
    ensures forall n :: n in a.associated ==> n in AssignAll(a, names).associated && AssignAll(a, names).associated[n] == a.associated[n]
  {
    if names != [] {
      var prefix := names[..|names| - 1];
      AssignAllKeys(a, prefix);
      assert names == prefix + [names[|names| - 1]];
    }
  }

  /** The available list loses one head per new name, until it runs out. */
  lemma {:induction false} AssignAllAvailable(a: Assignment, names: seq<string>)
    ensures AssignAll(a, names).available == a.available[Min(|NewNames(a.associated.Keys, names)|, |a.available|)..]
  {
    if names != [] {
      var prefix, n := names[..|names| - 1], names[|names| - 1];
      AssignAllAvailable(a, prefix);
      var nn0, c := NewNames(a.associated.Keys, prefix), AssignAll(a, prefix);
      assert n in c.associated <==> n in a.associated || n in nn0 by {
        AssignAllKeys(a, prefix);
      }
      if n !in c.associated {
        DropOneMore(a.available, |nn0|);
      }
    }
  }

  /** Dropping one more head from a suffix of `s`, or nothing once it is empty. */
  lemma DropOneMore(s: seq<string>, m: nat)
    ensures var d := s[Min(m, |s|)..];
      (if |d| > 0 then d[1..] else d) == s[Min(m + 1, |s|)..]
  {
  }

  /** The `j`-th new name got the `j`-th available colour, or white past the end of the list. */
  lemma {:induction false} AssignAllColours(a: Assignment, names: seq<string>)
    ensures var r, nn := AssignAll(a, names), NewNames(a.associated.Keys, names);
      forall j :: 0 <= j < |nn| ==>
        nn[j] in r.associated && r.associated[nn[j]] == if j < |a.available| then a.available[j] else Overflow
  {
    if names != [] {
      var prefix, n := names[..|names| - 1], names[|names| - 1];
      var nn0, c := NewNames(a.associated.Keys, prefix), AssignAll(a, prefix);
      AssignAllColours(a, prefix);
      assert n in c.associated <==> n in a.associated || n in nn0 by {
        AssignAllKeys(a, prefix);
      }
      if n !in c.associated {
        assert NewNames(a.associated.Keys, names) == nn0 + [n];
        assert c.available == a.available[Min(|nn0|, |a.available|)..] by {
          AssignAllAvailable(a, prefix);
        }
      }
    }
  }

  /**
   * From the initial state: the first eight distinct names receive the palette
   * in order, so pairwise different colours, and every later new name gets white.
   */
  lemma FromStart(names: seq<string>)
    ensures var r, nn := AssignAll(Assignment(map[], Palette), names), NewNames({}, names);
      && r.associated.Keys == (set n | n in names)
      && (forall j :: 0 <= j < |nn| ==>
            nn[j] in r.associated && r.associated[nn[j]] == if j < |Palette| then Palette[j] else Overflow)
      && r.available == Palette[Min(|nn|, |Palette|)..]
  {
    var a := Assignment(map[], Palette);
    assert a.associated.Keys == {};
    AssignAllKeys(a, names);
    AssignAllAvailable(a, names);
    AssignAllColours(a, names);
  }

  /** The palette's colours are pairwise different, so the first eight new names get different colours. */
  lemma PaletteDistinct()
    ensures forall i, j :: 0 <= i < j < |Palette| ==> Palette[i] != Palette[j]
  {
  }

  /** The first eight new names from the initial state receive pairwise different colours. */
  lemma FirstColoursDistinct(names: seq<string>, i: nat, j: nat)
    requires i < j < |NewNames({}, names)| && j < |Palette|
    ensures var r, nn := AssignAll(Assignment(map[], Palette), names), NewNames({}, names);
      nn[i] in r.associated && nn[j] in r.associated && r.associated[nn[i]] != r.associated[nn[j]]
  {
    FromStart(names);
    PaletteDistinct();
  }

  /** One more name of a run is one more loop body. */
  lemma AssignAllStep(a: Assignment, names: seq<string>, i: nat)
    requires i < |names|
    ensures AssignAll(a, names[..i + 1]) == Assign(AssignAll(a, names[..i]), names[i])
  {
    assert names[..i + 1][..i] == names[..i];
  }

  /** The keys of a table, in table order. */
  function Names(t: seq<Entry<string, int>>): (ns: seq<string>)
    ensures |ns| == |t|
    ensures forall i :: 0 <= i < |t| ==> ns[i] == t[i].key
  {
    if t == [] then [] else Names(t[..|t| - 1]) + [t[|t| - 1].key]
  }

  /** `meeplesAssociated` and `meeplesAvailable`, shared by the report loops. */
  class MeepleColors {
    var associated: map<string, string>
    var available: seq<string>

    constructor ()
      ensures associated == map[] && available == Palette
    {
      associated := map[];
      available := Palette;
    }

    function State(): Assignment
      reads this
    {
      Assignment(associated, available)
    }

    /** One name of a per-game result loop: its colour, assigned first if the name is new. */
    method ColorFor(playerName: string) returns (meepleColor: string)
      modifies this
      ensures State() == Assign(old(State()), playerName)
      ensures meepleColor == associated[playerName]
      ensures playerName in old(associated) ==> meepleColor == old(associated)[playerName]
    {
      if playerName in associated {
        meepleColor := associated[playerName];
      } else {
        if |available| > 0 {
          meepleColor := available[0];
          available := available[1..];
        } else {
          meepleColor := Overflow;
        }
        associated := associated[playerName := meepleColor];
      }
    }

    /** The loop over the ranking table, in its order. */
    method AssignRanking(ranking: seq<Entry<string, int>>)
      modifies this
      ensures State() == AssignAll(old(State()), Names(ranking))
    {
      ghost var s0, ns := State(), Names(ranking);
      for i := 0 to |ranking|
        invariant State() == AssignAll(s0, ns[..i])
      {
        AssignAllStep(s0, ns, i);
        var _ := ColorFor(ranking[i].key);
      }
      assert ns[..|ranking|] == ns;
    }
  }
}
