/**
 * Index bucketing and the small helpers that read a game's description:
 * `get_value_in_list` (generate_pdf.py:168-172), `get_links`
 * (generate_pdf.py:184-191), the mechanics list chosen for a game's entry
 * (generate_pdf.py:99-100, 209-213, 242-249), the duration text
 * (generate_pdf.py:251) and `gather_index_info` (generate_pdf.py:441-451).
 */
module GameIndex {
  import opened Wrappers

  /** A `<link>` element of a game's description: its `type` and `value` attributes. */
  datatype Link = Link(kind: string, value: string)

  /** A game as the index pages list it. */
  datatype GameRef = GameRef(id: string, name: string)

  const CategoryKind: string := "boardgamecategory"
  const MechanicKind: string := "boardgamemechanic"

  // ---------------------------------------------------------------
  // get_links / get_value_in_list
  // ---------------------------------------------------------------

  /** `get_links`: the links of one type, in document order. */
  function GetLinks(links: seq<Link>, name: string): (r: seq<Link>)
    ensures forall l :: l in r <==> l in links && l.kind == name
    ensures |r| <= |links|
  {
    if links == [] then []
    else
      var prefix, l := links[..|links| - 1], links[|links| - 1];
      assert forall x :: x in links <==> x in prefix || x == l by {
        assert links == prefix + [l];
      }
      GetLinks(prefix, name) + (if l.kind == name then [l] else [])
  }

  /** Selecting from a concatenation is concatenating the selections: document order is kept. */
  lemma {:induction false} GetLinksAppend(a: seq<Link>, b: seq<Link>, name: string)
    ensures GetLinks(a + b, name) == GetLinks(a, name) + GetLinks(b, name)
    decreases |b|
  {
    if b == [] {
      assert a + b == a;
    } else {
      var b', l := b[..|b| - 1], b[|b| - 1];
      assert (a + b)[..|a + b| - 1] == a + b' && (a + b)[|a + b| - 1] == l;
      GetLinksAppend(a, b', name);
    }
  }

  /** A list whose links all have the type is its own selection. */
  lemma {:induction false} GetLinksOfOneKind(links: seq<Link>, name: string)
    requires forall l :: l in links ==> l.kind == name
    ensures GetLinks(links, name) == links
  {
    if links != [] {
      var prefix, last := links[..|links| - 1], links[|links| - 1];
      assert links == prefix + [last];
      forall l | l in prefix ensures l.kind == name {
        assert l in links;
      }
      GetLinksOfOneKind(prefix, name);
      assert last in links;
    }
  }

  /** Selecting twice is selecting once. */
  lemma GetLinksIdempotent(links: seq<Link>, name: string)
    ensures GetLinks(GetLinks(links, name), name) == GetLinks(links, name)
  {
    GetLinksOfOneKind(GetLinks(links, name), name);
  }

  /** `get_value_in_list`: the `value` of the `i`-th link, `None` past the end. */
  function ValueAt(links: seq<Link>, i: nat): Option<string> {
    if |links| <= i then None else Some(links[i].value)
  }

  /**
   * A game's `i`-th tag of a type: absent exactly when the game has at most `i`
   * links of that type, and otherwise the value of one of its links of that type.
   */
  lemma TagOfType(links: seq<Link>, name: string, i: nat)
    ensures ValueAt(GetLinks(links, name), i).None? <==> |GetLinks(links, name)| <= i
    ensures ValueAt(GetLinks(links, name), i).Some? ==> Link(name, ValueAt(GetLinks(links, name), i).value) in links
  {
    var r := GetLinks(links, name);
    if i < |r| {
      assert r[i] in r;
    }
  }

  // ---------------------------------------------------------------
  // Mechanics shown on a game's entry
  // ---------------------------------------------------------------

  /** `get_mechanics_list_max_length`. */
  function MechanicsListMaxLength(cardMode: bool): nat {
    if cardMode then 65 else 75
  }

  /** `x or ""`. */
  function OrEmpty(o: Option<string>): string {
    if o.Some? then o.value else ""
  }

  /** `mechanic1` .. `mechanic4` of `game_information`. */
  function Mechanics(links: seq<Link>): (ms: seq<Option<string>>)
    ensures |ms| == 4
  {
    var m := GetLinks(links, MechanicKind);
    [ValueAt(m, 0), ValueAt(m, 1), ValueAt(m, 2), ValueAt(m, 3)]
  }

  /** The number of characters of the present items, all concatenated. */
  function TotalLength(items: seq<Option<string>>): nat {
    if items == [] then 0 else TotalLength(items[..|items| - 1]) + |OrEmpty(items[|items| - 1])|
  }

  /** `three_mechanics_length` and `four_mechanics_length`. */
  function ThreeLength(ms: seq<Option<string>>): nat
    requires |ms| == 4
  {
    |OrEmpty(ms[0]) + OrEmpty(ms[1]) + OrEmpty(ms[2])|
  }

  function FourLength(ms: seq<Option<string>>): nat
    requires |ms| == 4
  {
    |OrEmpty(ms[0]) + OrEmpty(ms[1]) + OrEmpty(ms[2]) + OrEmpty(ms[3])|
  }

  lemma PrefixLengths(ms: seq<Option<string>>)
    requires |ms| == 4
    ensures TotalLength(ms[..2]) == |OrEmpty(ms[0])| + |OrEmpty(ms[1])|
    ensures TotalLength(ms[..3]) == ThreeLength(ms)
    ensures TotalLength(ms) == FourLength(ms)
  {
    assert ms[..1][..0] == [] && ms[..1][0] == ms[0];
    assert TotalLength(ms[..1]) == |OrEmpty(ms[0])|;
    assert ms[..2][..1] == ms[..1] && ms[..2][1] == ms[1];
    assert TotalLength(ms[..2]) == TotalLength(ms[..1]) + |OrEmpty(ms[1])|;
    assert ms[..3][..2] == ms[..2] && ms[..3][2] == ms[2];
    assert TotalLength(ms[..3]) == TotalLength(ms[..2]) + |OrEmpty(ms[2])|;
    assert ms[..3] == ms[..|ms| - 1];
  }

  /** The mechanics kept: four if their names fit, else three if they fit, else two. */
  function ChooseMechanics(maxLength: int, ms: seq<Option<string>>): seq<Option<string>>
    requires |ms| == 4
  {
    if maxLength >= FourLength(ms) then ms
    else if maxLength >= ThreeLength(ms) then ms[..3]
    else ms[..2]
  }

  /**
   * The choice keeps a prefix of two to four mechanics; when it keeps three or
   * four their names fit in `maxLength` characters, and the next longer prefix
   * would not have fit.
   */
  lemma ChoiceIsLongestFit(maxLength: int, ms: seq<Option<string>>)
    requires |ms| == 4
    ensures var r := ChooseMechanics(maxLength, ms);
      && 2 <= |r| <= 4 && r == ms[..|r|]
      && (|r| >= 3 ==> TotalLength(r) <= maxLength)
      && (|r| < 4 ==> TotalLength(ms[..|r| + 1]) > maxLength)
  {
    PrefixLengths(ms);
    assert ms[..4] == ms;
  }

  /** `item for item in mechanics if item`: present, non-empty names. */
  function NonEmpty(items: seq<Option<string>>): (parts: seq<string>)
    ensures |parts| <= |items|
    ensures forall p :: p in parts ==> p != ""
  {
    if items == [] then []
    else
      var x := items[|items| - 1];
      NonEmpty(items[..|items| - 1]) + (if x.Some? && x.value != "" then [x.value] else [])
  }

  function SumLengths(parts: seq<string>): nat {
    if parts == [] then 0 else SumLengths(parts[..|parts| - 1]) + |parts[|parts| - 1]|
  }

  /** `",".join(parts)`. */
  function Join(parts: seq<string>): string {
    if parts == [] then ""
    else if |parts| == 1 then parts[0]
    else Join(parts[..|parts| - 1]) + "," + parts[|parts| - 1]
  }

  /** The joined text holds every character of the parts plus one separator between neighbours. */
  lemma {:induction false} JoinLength(parts: seq<string>)
    ensures |Join(parts)| == if parts == [] then 0 else SumLengths(parts) + |parts| - 1
  {
    if |parts| > 1 {
      var prefix := parts[..|parts| - 1];
      JoinLength(prefix);
      assert prefix[..|prefix| - 1] == parts[..|parts| - 2];
    } else if |parts| == 1 {
      assert parts[..0] == [];
    }
  }

  /**
   * The fields of a text between its commas, an independent reading of the
   * joined text: a comma closes the current field and opens an empty one.
   */
  function Split(s: string): (fields: seq<string>)
    ensures |fields| >= 1
  {
    if s == [] then [""]
    else
      var init, c := Split(s[..|s| - 1]), s[|s| - 1];
      if c == ',' then init + [""]
      else init[..|init| - 1] + [init[|init| - 1] + [c]]
  }

  /** A character other than a comma extends the last field. */
  lemma SplitSnoc(s: string, c: char)
    requires c != ','
    ensures var f := Split(s);
      Split(s + [c]) == f[..|f| - 1] + [f[|f| - 1] + [c]]
  {
    assert (s + [c])[..|s|] == s;
  }

  /** A comma opens an empty field. */
  lemma SplitComma(s: string)
    ensures Split(s + ",") == Split(s) + [""]
  {
    assert (s + ",")[..|s|] == s;
  }

  /** Extending the last field twice is extending it once by both pieces. */
  lemma ExtendLast(f: seq<string>, u: string, c: char)
    requires |f| >= 1
    ensures var g := f[..|f| - 1] + [f[|f| - 1] + u];
      g[..|g| - 1] + [g[|g| - 1] + [c]] == f[..|f| - 1] + [f[|f| - 1] + (u + [c])]
  {
    var g := f[..|f| - 1] + [f[|f| - 1] + u];
    assert g[..|g| - 1] == f[..|f| - 1];
    assert g[|g| - 1] + [c] == f[|f| - 1] + (u + [c]);
  }

  /** Text without a comma extends the last field. */
  lemma {:induction false} SplitAppendPlain(a: string, b: string)
    requires ',' !in b
    ensures var f := Split(a);
      Split(a + b) == f[..|f| - 1] + [f[|f| - 1] + b]
    decreases |b|
  {
    var f := Split(a);
    if b == [] {
      assert a + b == a && f[|f| - 1] + b == f[|f| - 1];
      assert f[..|f| - 1] + [f[|f| - 1]] == f;
    } else {
      var b', c := b[..|b| - 1], b[|b| - 1];
      assert b == b' + [c];
      assert c != ',' by { assert c in b; }
      assert ',' !in b' by { assert forall x :: x in b' ==> x in b; }
      SplitAppendPlain(a, b');
      SplitSnoc(a + b', c);
      assert a + b == (a + b') + [c];
      ExtendLast(f, b', c);
    }
  }

  /** One more comma-free part after a comma becomes one more field. */
  lemma SplitJoinStep(j: string, prefix: seq<string>, last: string)
    requires Split(j) == prefix && ',' !in last
    ensures Split((j + ",") + last) == prefix + [last]
  {
    SplitComma(j);
    SplitAppendPlain(j + ",", last);
    var f := prefix + [""];
    assert f[..|f| - 1] == prefix;
    assert f[|f| - 1] + last == last;
  }

  /** Reading the joined text back gives the parts, when no part holds a comma. */
  lemma {:induction false} SplitJoin(parts: seq<string>)
    requires |parts| >= 1
    requires forall i :: 0 <= i < |parts| ==> ',' !in parts[i]
    ensures Split(Join(parts)) == parts
  {
    if |parts| == 1 {
      SplitAppendPlain("", parts[0]);
      assert "" + parts[0] == parts[0];
      assert [parts[0]] == parts;
    } else {
      var prefix, last := parts[..|parts| - 1], parts[|parts| - 1];
      SplitJoin(prefix);
      SplitJoinStep(Join(prefix), prefix, last);
      assert prefix + [last] == parts;
    }
  }

  /** Dropping absent and empty names loses no characters. */
  lemma {:induction false} NonEmptyLength(items: seq<Option<string>>)
    ensures SumLengths(NonEmpty(items)) == TotalLength(items)
  {
    if items != [] {
      var prefix, x := items[..|items| - 1], items[|items| - 1];
      NonEmptyLength(prefix);
      var p := NonEmpty(prefix);
      if x.Some? && x.value != "" {
        assert (p + [x.value])[..|p|] == p;
      } else {
        assert p + [] == p;
      }
    }
  }

  /** The `{{Mec}}` text of an entry. */
  function MechanicsText(cardMode: bool, links: seq<Link>): string {
    Join(NonEmpty(ChooseMechanics(MechanicsListMaxLength(cardMode), Mechanics(links))))
  }

  /**
   * When three or four mechanics are kept, the text is at most the mode's
   * limit plus the three separators.
   */
  lemma MechanicsTextBound(cardMode: bool, links: seq<Link>)
    ensures var r := ChooseMechanics(MechanicsListMaxLength(cardMode), Mechanics(links));
      |r| >= 3 ==> |MechanicsText(cardMode, links)| <= MechanicsListMaxLength(cardMode) + 3
  {
    var r := ChooseMechanics(MechanicsListMaxLength(cardMode), Mechanics(links));
    ChoiceIsLongestFit(MechanicsListMaxLength(cardMode), Mechanics(links));
    NonEmptyLength(r);
    JoinLength(NonEmpty(r));
  }

  /**
   * When at least one kept name is present and none holds a comma, the text's
   * comma-separated fields are exactly the kept names, in order.
   */
  lemma MechanicsTextFields(cardMode: bool, links: seq<Link>)
    requires var parts := NonEmpty(ChooseMechanics(MechanicsListMaxLength(cardMode), Mechanics(links)));
      |parts| >= 1 && forall i :: 0 <= i < |parts| ==> ',' !in parts[i]
    ensures Split(MechanicsText(cardMode, links)) ==
      NonEmpty(ChooseMechanics(MechanicsListMaxLength(cardMode), Mechanics(links)))
  {
    SplitJoin(NonEmpty(ChooseMechanics(MechanicsListMaxLength(cardMode), Mechanics(links))));
  }

  // ---------------------------------------------------------------
  // Duration text
  // ---------------------------------------------------------------

  /** `int(s)` on a string of ASCII digits; `None` where Python raises. */
  function ParseNat(s: string): Option<nat> {
    if s == [] || exists i :: 0 <= i < |s| && !('0' <= s[i] <= '9') then None
    else Some(DigitsValue(s))
  }

  function DigitsValue(s: string): nat
    requires forall i :: 0 <= i < |s| ==> '0' <= s[i] <= '9'
  {
    if s == [] then 0 else 10 * DigitsValue(s[..|s| - 1]) + (s[|s| - 1] - '0') as nat
  }

  /** The `{{d}}` text: `min - max` when the minimum is below the maximum, else the minimum alone. */
  function Duration(minTime: string, maxTime: string): Result<string> {
    var lo, hi := ParseNat(minTime), ParseNat(maxTime);
    if lo.None? || hi.None? then Err("invalid literal for int()")
    else if lo.value < hi.value then Ok(minTime + " - " + maxTime)
    else Ok(minTime)
  }

  /**
   * The text fails exactly when a bound is not a number; otherwise it starts
   * with the minimum, and shows a range exactly when the minimum is smaller.
   */
  lemma DurationSpec(minTime: string, maxTime: string)
    ensures Duration(minTime, maxTime).Ok? <==> ParseNat(minTime).Some? && ParseNat(maxTime).Some?
    ensures Duration(minTime, maxTime).Ok? ==>
      var d := Duration(minTime, maxTime).value;
      && minTime <= d
      && (d != minTime <==> ParseNat(minTime).value < ParseNat(maxTime).value)
  {
    if Duration(minTime, maxTime).Ok? && ParseNat(minTime).value < ParseNat(maxTime).value {
      assert |Duration(minTime, maxTime).value| > |minTime|;
    }
  }

  // ---------------------------------------------------------------
  // gather_index_info
  // ---------------------------------------------------------------

  /** `range(lo, hi)`: `lo` up to but excluding `hi`. */
  function Range(lo: int, hi: int): (r: seq<int>)
    ensures |r| == if hi <= lo then 0 else hi - lo
    ensures forall i :: 0 <= i < |r| ==> r[i] == lo + i
    decreases hi - lo
  {
    if hi <= lo then [] else Range(lo, hi - 1) + [hi - 1]
  }

  /** The `value` attributes of some links, in order. */
  function Values(links: seq<Link>): (vs: seq<string>)
    ensures |vs| == |links|
    ensures forall i :: 0 <= i < |links| ==> vs[i] == links[i].value
  {
    if links == [] then [] else Values(links[..|links| - 1]) + [links[|links| - 1].value]
  }

  /** Append `g` to the bucket of each key in turn, creating missing buckets. */
  function AppendUnder<K>(m: map<K, seq<GameRef>>, keys: seq<K>, g: GameRef): map<K, seq<GameRef>> {
    if keys == [] then m
    else
      var m', k := AppendUnder(m, keys[..|keys| - 1], g), keys[|keys| - 1];
      m'[k := (if k in m' then m'[k] else []) + [g]]
  }

  /** The number of occurrences of `k` in `keys`. */
  function Count<K(==)>(keys: seq<K>, k: K): (n: nat)
    ensures n > 0 <==> k in keys
  {
    if keys == [] then 0
    else
      assert keys == keys[..|keys| - 1] + [keys[|keys| - 1]];
      Count(keys[..|keys| - 1], k) + (if keys[|keys| - 1] == k then 1 else 0)
  }

  function Copies(g: GameRef, n: nat): (r: seq<GameRef>)
    ensures |r| == n
    ensures forall i :: 0 <= i < n ==> r[i] == g
  {
    if n == 0 then [] else Copies(g, n - 1) + [g]
  }

  /**
   * After appending under a run of keys, the buckets are the old ones plus one
   * for each new key, and each bucket got `g` once per occurrence of its key.
   */
  lemma {:induction false} AppendUnderSpec<K>(m: map<K, seq<GameRef>>, keys: seq<K>, g: GameRef, k: K)
    ensures k in AppendUnder(m, keys, g) <==> k in m || k in keys
    ensures k in AppendUnder(m, keys, g) ==>
      AppendUnder(m, keys, g)[k] == (if k in m then m[k] else []) + Copies(g, Count(keys, k))
  {
    if keys != [] {
      var prefix, last := keys[..|keys| - 1], keys[|keys| - 1];
      AppendUnderSpec(m, prefix, g, k);
      assert keys == prefix + [last];
      if last == k {
        assert Copies(g, Count(keys, k)) == Copies(g, Count(prefix, k)) + [g];
      }
    }
  }

  /** Each player count of `range(lo, hi)` occurs once, and no other count occurs. */
  lemma {:induction false} RangeCount(lo: int, hi: int, c: int)
    ensures Count(Range(lo, hi), c) == if lo <= c < hi then 1 else 0
    decreases hi - lo
  {
    if lo < hi {
      RangeCount(lo, hi - 1, c);
      var r := Range(lo, hi);
      assert r[..|r| - 1] == Range(lo, hi - 1) && r[|r| - 1] == hi - 1;
    }
  }

  /** One more key: its bucket, created if missing, gains `g` at the end. */
  lemma AppendUnderSnoc<K>(m: map<K, seq<GameRef>>, keys: seq<K>, k: K, g: GameRef)
    ensures AppendUnder(m, keys + [k], g) ==
      var m' := AppendUnder(m, keys, g);
      m'[k := (if k in m' then m'[k] else []) + [g]]
  {
    assert (keys + [k])[..|keys|] == keys;
  }

  /** The next count of the range: its bucket, created if missing, gains `g` at the end. */
  lemma RangeStep(m: map<int, seq<GameRef>>, lo: int, c: int, g: GameRef, cur: map<int, seq<GameRef>>, next: map<int, seq<GameRef>>)
    requires lo <= c && cur == AppendUnder(m, Range(lo, c), g)
    requires next == cur[c := (if c in cur then cur[c] else []) + [g]]
    ensures next == AppendUnder(m, Range(lo, c + 1), g)
  {
    assert Range(lo, c + 1) == Range(lo, c) + [c];
    AppendUnderSnoc(m, Range(lo, c), c, g);
  }

  /** Where the loop over `range(lo, hi)` stops, it has covered all of it. */
  lemma RangeExit(lo: int, hi: int, c: int)
    requires lo <= c && (c <= hi || c == lo) && hi <= c
    ensures Range(lo, hi) == Range(lo, c)
  {
  }

  /** `config.dict_player_count` and `config.dict_category`. */
  class IndexBuckets {
    var playerCount: map<int, seq<GameRef>>
    var category: map<string, seq<GameRef>>

    constructor ()
      ensures playerCount == map[] && category == map[]
    {
      playerCount := map[];
      category := map[];
    }

    /** `gather_index_info` for one game with its parsed player counts and its links. */
    method GatherIndexInfo(game: GameRef, minPlayers: int, maxPlayers: int, links: seq<Link>)
      modifies this
      ensures playerCount == AppendUnder(old(playerCount), Range(minPlayers, maxPlayers), game)
      ensures category == AppendUnder(old(category), Values(GetLinks(links, CategoryKind)), game)
    {
      AddToPlayerCounts(game, minPlayers, maxPlayers);
      AddToCategories(game, GetLinks(links, CategoryKind));
    }

    /** The first loop: the game goes into the bucket of each count of `range(minPlayers, maxPlayers)`. */
    method AddToPlayerCounts(game: GameRef, minPlayers: int, maxPlayers: int)
      modifies this
      ensures playerCount == AppendUnder(old(playerCount), Range(minPlayers, maxPlayers), game)
      ensures category == old(category)
    {
      ghost var m0 := playerCount;
      var count := minPlayers;
      while count < maxPlayers
        invariant minPlayers <= count && (count <= maxPlayers || count == minPlayers)
        invariant playerCount == AppendUnder(m0, Range(minPlayers, count), game)
        modifies this`playerCount
        decreases maxPlayers - count
      {
        ghost var cur := playerCount;
        var bucket := if count in playerCount then playerCount[count] else [];
        playerCount := playerCount[count := bucket + [game]];
        RangeStep(m0, minPlayers, count, game, cur, playerCount);
        count := count + 1;
      }
      RangeExit(minPlayers, maxPlayers, count);
    }

    /** The second loop: the game goes into the bucket of each of its categories. */
    method AddToCategories(game: GameRef, categories: seq<Link>)
      modifies this
      ensures category == AppendUnder(old(category), Values(categories), game)
      ensures playerCount == old(playerCount)
    {
      for i := 0 to |categories|
        invariant category == AppendUnder(old(category), Values(categories)[..i], game)
        invariant playerCount == old(playerCount)
      {
        assert Values(categories)[..i + 1][..i] == Values(categories)[..i];
        var c := categories[i].value;
        if c !in category {
          category := category[c := []];
        }
        category := category[c := category[c] + [game]];
      }
      assert Values(categories)[..|categories|] == Values(categories);
    }
  }

  /**
   * After indexing a game, exactly the counts from its minimum up to but
   * excluding its maximum hold it once more at the end of their bucket, and
   * every other bucket is unchanged.
   */
  lemma PlayerCountBuckets(m: map<int, seq<GameRef>>, game: GameRef, minPlayers: int, maxPlayers: int, c: int)
    ensures var r := AppendUnder(m, Range(minPlayers, maxPlayers), game);
      && (minPlayers <= c < maxPlayers ==> c in r && r[c] == (if c in m then m[c] else []) + [game])
      && (!(minPlayers <= c < maxPlayers) ==> (c in r <==> c in m) && (c in m ==> r[c] == m[c]))
  {
    var keys := Range(minPlayers, maxPlayers);
    AppendUnderSpec(m, keys, game, c);
    RangeCount(minPlayers, maxPlayers, c);
    if minPlayers <= c < maxPlayers {
      assert Copies(game, 1) == [game];
    } else {
      assert c !in keys && Copies(game, 0) == [];
    }
  }
}
