/**
 * The batch resolver: `find_and_download_new_collection_object_info`
 * (generate_pdf.py:423-438) walks the collection, collects the ids whose game
 * file is not on disk and sends them in `thing` requests of up to 101 ids;
 * `download_and_split_collection_object_info` (generate_pdf.py:386-395) stores
 * every item of an answer under its own id, as a file or, with `--no_cache`, in
 * `config.dict_game_info`.
 *
 * The disk is the map `files` (id to the stored item); the upstream is a
 * function `catalog` giving, for each requested id, the item it answers with.
 */
module BatchResolver {

  /** An `objectid` / `id` attribute. */
  type Id = string

  /** One `<item>` of a `thing` answer: its own `id` attribute and the rest of the element. */
  datatype Thing = Thing(id: Id, body: string)

  /** A request is sent as soon as the pending set holds MORE than this many ids. */
  const BatchTrigger: nat := 100

  function Elems(ids: seq<Id>): set<Id> {
    set i | i in ids
  }

  predicate Distinct(ids: seq<Id>) {
    forall i, j :: 0 <= i < j < |ids| ==> ids[i] != ids[j]
  }

  /** All ids of a sequence of requests. */
  function Union(bs: seq<set<Id>>): set<Id> {
    if bs == [] then {} else Union(bs[..|bs| - 1]) + bs[|bs| - 1]
  }

  lemma UnionAppend(bs: seq<set<Id>>, b: set<Id>)
    ensures Union(bs + [b]) == Union(bs) + b
  {
    assert (bs + [b])[..|bs|] == bs;
  }

  /** The ids of `ids` that have no file in `onDisk`, in order, repeats kept. */
  function Uncached(ids: seq<Id>, onDisk: set<Id>): (u: seq<Id>)
    ensures |u| <= |ids|
  {
    if ids == [] then []
    else if ids[|ids| - 1] in onDisk then Uncached(ids[..|ids| - 1], onDisk)
    else Uncached(ids[..|ids| - 1], onDisk) + [ids[|ids| - 1]]
  }

  /** The state of the walk: which ids have a file, the pending `newids`, the requests sent. */
  datatype Progress = Progress(onDisk: set<Id>, pending: set<Id>, batches: seq<set<Id>>)

  /** One collection item: add its id unless its file exists, then flush if more than 100 are pending. */
  function Visit(p: Progress, id: Id, noCache: bool): Progress {
    var pending := if id in p.onDisk then p.pending else p.pending + {id};
    if |pending| > BatchTrigger then
      Progress(if noCache then p.onDisk else p.onDisk + pending, {}, p.batches + [pending])
    else
      Progress(p.onDisk, pending, p.batches)
  }

  function Scan(onDisk: set<Id>, ids: seq<Id>, noCache: bool): Progress {
    if ids == [] then Progress(onDisk, {}, [])
    else Visit(Scan(onDisk, ids[..|ids| - 1], noCache), ids[|ids| - 1], noCache)
  }

  /** The id sets of the `thing` requests, in order, including the final remainder. */
  function Batches(ids: seq<Id>, onDisk: set<Id>, noCache: bool): seq<set<Id>> {
    var p := Scan(onDisk, ids, noCache);
    if p.pending == {} then p.batches else p.batches + [p.pending]
  }

  /** The ids of `ids` without a file in `d0`. */
  function Wanted(ids: seq<Id>, d0: set<Id>): set<Id> {
    set i | i in ids && i !in d0
  }

  /** During the walk at most 100 ids are pending, and every request sent holds 101. */
  lemma {:induction false} ScanSizes(d0: set<Id>, ids: seq<Id>, noCache: bool)
    ensures var p := Scan(d0, ids, noCache);
      && |p.pending| <= BatchTrigger
      && (forall j :: 0 <= j < |p.batches| ==> |p.batches[j]| == BatchTrigger + 1)
  {
    if ids != [] {
      ScanSizes(d0, ids[..|ids| - 1], noCache);
    }
  }

  /** The ids pending or already requested are exactly the walked ids that had no file at the start. */
  lemma {:induction false} ScanQueued(d0: set<Id>, ids: seq<Id>, noCache: bool)
    ensures var p := Scan(d0, ids, noCache);
      p.pending + Union(p.batches) == Wanted(ids, d0)
  {
    if ids != [] {
      var prefix, x := ids[..|ids| - 1], ids[|ids| - 1];
      assert Wanted(ids, d0) == Wanted(prefix, d0) + (if x in d0 then {} else {x}) by {
        assert ids == prefix + [x];
      }
      ScanQueued(d0, prefix, noCache);
      ScanOnDisk(d0, prefix, noCache);
      VisitQueued(Scan(d0, prefix, noCache), x, noCache, d0, Wanted(prefix, d0));
    }
  }

  /** One step of the walk adds the id to what is pending or requested, unless it had a file at the start. */
  lemma VisitQueued(q: Progress, x: Id, noCache: bool, d0: set<Id>, w: set<Id>)
    requires q.pending + Union(q.batches) == w
    requires d0 <= q.onDisk <= d0 + Union(q.batches)
    ensures var p := Visit(q, x, noCache);
      p.pending + Union(p.batches) == w + (if x in d0 then {} else {x})
  {
    var pending := if x in q.onDisk then q.pending else q.pending + {x};
    if |pending| > BatchTrigger {
      UnionAppend(q.batches, pending);
    }
  }

  /** The ids with a file: the initial ones, plus (when caching) every id requested so far. */
  lemma {:induction false} ScanOnDisk(d0: set<Id>, ids: seq<Id>, noCache: bool)
    ensures var p := Scan(d0, ids, noCache);
      p.onDisk == (if noCache then d0 else d0 + Union(p.batches))
  {
    if ids != [] {
      var prefix, x := ids[..|ids| - 1], ids[|ids| - 1];
      ScanOnDisk(d0, prefix, noCache);
      var q := Scan(d0, prefix, noCache);
      var pending := if x in q.onDisk then q.pending else q.pending + {x};
      if |pending| > BatchTrigger {
        UnionAppend(q.batches, pending);
      }
    }
  }

  /** With no repeated id, the walk counts: 101 per request sent plus what is pending. */
  lemma {:induction false} ScanCount(d0: set<Id>, ids: seq<Id>, noCache: bool)
    requires Distinct(ids)
    ensures var p := Scan(d0, ids, noCache);
      (BatchTrigger + 1) * |p.batches| + |p.pending| == |Uncached(ids, d0)|
  {
    if ids != [] {
      var prefix, x := ids[..|ids| - 1], ids[|ids| - 1];
      assert ids == prefix + [x];
      ScanCount(d0, prefix, noCache);
      ScanQueued(d0, prefix, noCache);
      ScanOnDisk(d0, prefix, noCache);
      var q := Scan(d0, prefix, noCache);
      assert x !in Elems(prefix);
      assert x !in q.pending + Union(q.batches);
      assert x in q.onDisk <==> x in d0;
      if x !in d0 {
        assert |q.pending + {x}| == |q.pending| + 1;
      }
    }
  }

  /** With no repeated id, no id is in two requests, nor in a request and the pending set. */
  lemma {:induction false} ScanDisjoint(d0: set<Id>, ids: seq<Id>, noCache: bool)
    requires Distinct(ids)
    ensures var p := Scan(d0, ids, noCache);
      && (forall j, k :: 0 <= j < k < |p.batches| ==> p.batches[j] !! p.batches[k])
      && (forall j :: 0 <= j < |p.batches| ==> p.batches[j] !! p.pending)
  {
    if ids != [] {
      var prefix, x := ids[..|ids| - 1], ids[|ids| - 1];
      assert ids == prefix + [x];
      ScanDisjoint(d0, prefix, noCache);
      ScanQueued(d0, prefix, noCache);
      var q := Scan(d0, prefix, noCache);
      var p := Scan(d0, ids, noCache);
      assert x !in Elems(prefix);
      var pending := if x in q.onDisk then q.pending else q.pending + {x};
      assert x !in Union(q.batches);
      forall j | 0 <= j < |q.batches| ensures q.batches[j] !! pending {
        UnionContains(q.batches, j);
      }
      if |pending| > BatchTrigger {
        assert p.batches == q.batches + [pending] && p.pending == {};
        forall j, k | 0 <= j < k < |p.batches| ensures p.batches[j] !! p.batches[k] {
          if k < |q.batches| {
            assert p.batches[j] == q.batches[j] && p.batches[k] == q.batches[k];
          }
        }
      } else {
        assert p.batches == q.batches && p.pending == pending;
      }
    }
  }

  lemma {:induction false} UnionContains(bs: seq<set<Id>>, j: nat)
    requires j < |bs|
    ensures bs[j] <= Union(bs)
  {
    if j < |bs| - 1 {
      UnionContains(bs[..|bs| - 1], j);
    }
  }

  /**
   * Exactly the uncached ids are requested: every id of the collection without a
   * file is in some request, and no id with a file is ever requested.
   */
  lemma BatchesRequestExactlyUncached(ids: seq<Id>, d0: set<Id>, noCache: bool)
    ensures Union(Batches(ids, d0, noCache)) == set i | i in ids && i !in d0
  {
    ScanQueued(d0, ids, noCache);
    var p := Scan(d0, ids, noCache);
    if p.pending != {} {
      UnionAppend(p.batches, p.pending);
    }
  }

  /**
   * Every request but the last holds exactly 101 ids; every request, the last
   * included, is non-empty; a remainder request holds at most 100.
   */
  lemma BatchSizes(ids: seq<Id>, d0: set<Id>, noCache: bool)
    ensures var bs := Batches(ids, d0, noCache);
      && (forall j :: 0 <= j < |bs| - 1 ==> |bs[j]| == BatchTrigger + 1)
      && (forall j :: 0 <= j < |bs| ==> 0 < |bs[j]| <= BatchTrigger + 1)
      && (Scan(d0, ids, noCache).pending != {} ==> |bs[|bs| - 1]| <= BatchTrigger)
  {
    ScanSizes(d0, ids, noCache);
  }

  /**
   * With no repeated id, n uncached ids take ceil(n / 101) requests, and no id is
   * requested twice.
   */
  lemma BatchCount(ids: seq<Id>, d0: set<Id>, noCache: bool)
    requires Distinct(ids)
    ensures var bs := Batches(ids, d0, noCache);
      && |bs| == (|Uncached(ids, d0)| + BatchTrigger) / (BatchTrigger + 1)
      && (forall j, k :: 0 <= j < k < |bs| ==> bs[j] !! bs[k])
  {
    ScanSizes(d0, ids, noCache);
    ScanCount(d0, ids, noCache);
    ScanDisjoint(d0, ids, noCache);
  }

  /** The entries a `thing` answer for `ids` produces, each under the id it was requested by. */
  function Fetched(ids: set<Id>, catalog: Id -> Thing): map<Id, Thing> {
    map i | i in ids :: catalog(i)
  }

  lemma FetchedUnion(m: map<Id, Thing>, a: set<Id>, b: set<Id>, catalog: Id -> Thing)
    ensures m + Fetched(a, catalog) + Fetched(b, catalog) == m + Fetched(a + b, catalog)
  {
  }

  /** The items of the answer to a request, in the order the ids were joined. */
  function Answer(order: seq<Id>, catalog: Id -> Thing): (items: seq<Thing>)
    ensures |items| == |order|
  {
    if order == [] then [] else Answer(order[..|order| - 1], catalog) + [catalog(order[|order| - 1])]
  }

  function IdsOf(items: seq<Thing>): set<Id> {
    set t | t in items :: t.id
  }

  /** The split step: every item stored under its own `id` attribute, a later one replacing an earlier one. */
  function Stored(m: map<Id, Thing>, items: seq<Thing>): map<Id, Thing> {
    if items == [] then m
    else Stored(m, items[..|items| - 1])[items[|items| - 1].id := items[|items| - 1]]
  }

  /** Each item lands under its own id; no other key is touched. */
  lemma {:induction false} StoredUnderOwnId(m: map<Id, Thing>, items: seq<Thing>)
    ensures Stored(m, items).Keys == m.Keys + IdsOf(items)
    ensures forall k :: k in IdsOf(items) ==> Stored(m, items)[k] in items && Stored(m, items)[k].id == k
    ensures forall k :: k in m && k !in IdsOf(items) ==> Stored(m, items)[k] == m[k]
  {
    if items != [] {
      var prefix, t := items[..|items| - 1], items[|items| - 1];
      assert items == prefix + [t];
      StoredUnderOwnId(m, prefix);
      assert IdsOf(items) == IdsOf(prefix) + {t.id};
    }
  }

  /** Storing the answer to a request adds exactly the requested ids, each with its item. */
  lemma {:induction false} StoredAnswer(m: map<Id, Thing>, order: seq<Id>, catalog: Id -> Thing)
    requires forall i :: catalog(i).id == i
    ensures Stored(m, Answer(order, catalog)) == m + Fetched(Elems(order), catalog)
  {
    if order != [] {
      var prefix, x := order[..|order| - 1], order[|order| - 1];
      assert order == prefix + [x];
      StoredAnswer(m, prefix, catalog);
      var items := Answer(order, catalog);
      assert items[..|items| - 1] == Answer(prefix, catalog);
      assert items[|items| - 1] == catalog(x);
      assert Stored(m, items) == Stored(m, Answer(prefix, catalog))[x := catalog(x)];
      assert Elems(order) == Elems(prefix) + {x};
      FetchedInsert(m, Elems(prefix), x, catalog);
    }
  }

  lemma FetchedInsert(m: map<Id, Thing>, ids: set<Id>, x: Id, catalog: Id -> Thing)
    ensures (m + Fetched(ids, catalog))[x := catalog(x)] == m + Fetched(ids + {x}, catalog)
  {
  }

  /** `','.join(newids)`: the ids of a set in some order, each once. */
  method JoinOrder(ids: set<Id>) returns (order: seq<Id>)
    ensures Elems(order) == ids && Distinct(order) && |order| == |ids|
  {
    order := [];
    var rest := ids;
    while rest != {}
      invariant rest !! Elems(order) && rest + Elems(order) == ids && Distinct(order)
      invariant |order| + |rest| == |ids|
      decreases rest
    {
      var x :| x in rest;
      order := order + [x];
      rest := rest - {x};
    }
  }

  /** Where the split step writes: the game files, or `config.dict_game_info` under `--no_cache`. */
  datatype Stores = Stores(noCache: bool, files: map<Id, Thing>, gameInfo: map<Id, Thing>)

  /** The stores once the items for `ids` have been written to the one in use. */
  function Filled(s: Stores, ids: set<Id>, catalog: Id -> Thing): Stores {
    if s.noCache then s.(gameInfo := s.gameInfo + Fetched(ids, catalog))
    else s.(files := s.files + Fetched(ids, catalog))
  }

  lemma FilledFiles(s: Stores, ids: set<Id>, catalog: Id -> Thing)
    ensures Filled(s, ids, catalog).files.Keys == if s.noCache then s.files.Keys else s.files.Keys + ids
  {
  }

  lemma Flushed(s0: Stores, s1: Stores, s2: Stores, done: seq<set<Id>>, ids: set<Id>, catalog: Id -> Thing)
    requires s1 == Filled(s0, Union(done), catalog) && s2 == Filled(s1, ids, catalog)
    ensures s2 == Filled(s0, Union(done + [ids]), catalog)
  {
    UnionAppend(done, ids);
    FetchedUnion(s0.files, Union(done), ids, catalog);
    FetchedUnion(s0.gameInfo, Union(done), ids, catalog);
  }

  /** The game-file cache, `config.dict_game_info`, and the `thing` requests sent so far. */
  /** The walk after one more item, and the files present before it, as the walk's state says. */
  lemma WalkStep(d0: set<Id>, collection: seq<Id>, i: nat, c0: Stores, catalog: Id -> Thing)
    requires i < |collection| && c0.files.Keys == d0
    ensures var q := Scan(d0, collection[..i], c0.noCache);
      && Scan(d0, collection[..i + 1], c0.noCache) == Visit(q, collection[i], c0.noCache)
      && Filled(c0, Union(q.batches), catalog).files.Keys == q.onDisk
  {
    assert collection[..i + 1] == collection[..i] + [collection[i]];
    ScanOnDisk(d0, collection[..i], c0.noCache);
    FilledFiles(c0, Union(Scan(d0, collection[..i], c0.noCache).batches), catalog);
  }

  class GameCache {
    const noCache: bool
    var files: map<Id, Thing>
    var gameInfo: map<Id, Thing>
    var requests: seq<set<Id>>

    constructor (noCache: bool, files: map<Id, Thing>)
      ensures this.noCache == noCache && this.files == files
      ensures gameInfo == map[] && requests == []
    {
      this.noCache := noCache;
      this.files := files;
      gameInfo := map[];
      requests := [];
    }

    function Current(): Stores
      reads this
    {
      Stores.Stores(noCache, files, gameInfo)
    }

    /** `download_and_split_collection_object_info`. */
    method DownloadAndSplit(newids: set<Id>, catalog: Id -> Thing)
      requires forall i :: catalog(i).id == i
      modifies this
      ensures requests == old(requests) + [newids]
      ensures Current() == Filled(old(Current()), newids, catalog)
    {
      var order := JoinOrder(newids);
      requests := requests + [newids];
      var answer := Answer(order, catalog);
      for k := 0 to |answer|
        invariant requests == old(requests) + [newids]
        invariant !noCache ==> files == Stored(old(files), answer[..k]) && gameInfo == old(gameInfo)
        invariant noCache ==> gameInfo == Stored(old(gameInfo), answer[..k]) && files == old(files)
      {
        var item := answer[k];
        assert answer[..k + 1] == answer[..k] + [item];
        if !noCache {
          files := files[item.id := item];
        } else {
          gameInfo := gameInfo[item.id := item];
        }
      }
      assert answer[..|answer|] == answer;
      StoredAnswer(old(files), order, catalog);
      StoredAnswer(old(gameInfo), order, catalog);
    }

    /**
     * One collection item of the walk: queue its id unless its file exists, and
     * send the queued ids once there are more than 100 of them.
     */
    method VisitItem(id: Id, newids: set<Id>, catalog: Id -> Thing,
                     ghost q: Progress, ghost c0: Stores, ghost r0: seq<set<Id>>) returns (pending: set<Id>)
      requires forall i :: catalog(i).id == i
      requires newids == q.pending && files.Keys == q.onDisk && c0.noCache == noCache
      requires requests == r0 + q.batches && Current() == Filled(c0, Union(q.batches), catalog)
      modifies this
      ensures var p := Visit(q, id, noCache);
        && pending == p.pending
        && requests == r0 + p.batches
        && Current() == Filled(c0, Union(p.batches), catalog)
    {
      ghost var p := Visit(q, id, noCache);
      pending := newids;
      if id !in files {
        pending := pending + {id};
      }
      if |pending| > BatchTrigger {
        assert p.batches == q.batches + [pending] && p.pending == {};
        ghost var before := Current();
        DownloadAndSplit(pending, catalog);
        Flushed(c0, before, Current(), q.batches, pending, catalog);
        pending := {};
      }
    }

    /** The loop of `find_and_download_new_collection_object_info`: every full batch is sent on the way. */
    method Walk(collection: seq<Id>, catalog: Id -> Thing) returns (newids: set<Id>)
      requires forall i :: catalog(i).id == i
      modifies this
      ensures var p := Scan(old(files).Keys, collection, noCache);
        && newids == p.pending
        && requests == old(requests) + p.batches
        && Current() == Filled(old(Current()), Union(p.batches), catalog)
    {
      ghost var d0, c0, r0 := files.Keys, Current(), requests;
      newids := {};
      for i := 0 to |collection|
        invariant var p := Scan(d0, collection[..i], noCache);
          && newids == p.pending
          && requests == r0 + p.batches
          && Current() == Filled(c0, Union(p.batches), catalog)
      {
        ghost var q := Scan(d0, collection[..i], noCache);
        var id := collection[i];
        WalkStep(d0, collection, i, c0, catalog);
        newids := VisitItem(id, newids, catalog, q, c0, r0);
      }
      assert collection[..|collection|] == collection;
    }

    /** `find_and_download_new_collection_object_info`, over the collection's ids in document order. */
    method FindAndDownloadNew(collection: seq<Id>, catalog: Id -> Thing)
      requires forall i :: catalog(i).id == i
      modifies this
      ensures requests == old(requests) + Batches(collection, old(files).Keys, noCache)
      ensures Current() == Filled(old(Current()), Union(Batches(collection, old(files).Keys, noCache)), catalog)
    {
      ghost var p := Scan(files.Keys, collection, noCache);
      ghost var c0 := Current();
      var newids := Walk(collection, catalog);
      if newids != {} {
        ghost var before := Current();
        DownloadAndSplit(newids, catalog);
        Flushed(c0, before, Current(), p.batches, newids, catalog);
      }
    }
  }
}
