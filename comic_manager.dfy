/**
 * `ComicManager`: which walks a sync runs, the serial batch accumulator that
 * every fetched comic goes through, and the sync run as a whole. Completion
 * callbacks run one after another here: the older walk to its end, then the
 * probe for the current comic, then the newer walk.
 */
module ComicManager {
  import opened Wrappers
  import opened Comics
  import opened ComicFetcher
  import opened ManagedComics
  import opened ComicStore

  const BatchSize: nat := 200
  const BatchingThreshold: nat := 50

  // ----- Walk planning -----

  /** A range walk handed to `fetchComicsWithNumbers(first, through: last)`. */
  datatype Walk = Walk(first: nat, last: nat)

  /** The numbers a walk requests, in order. */
  function Requests(w: Walk): seq<nat> {
    WalkOrder(w.first, w.last)
  }

  /** Every number strictly below the oldest stored one, when there is one above 1. */
  function OlderWalk(oldest: Option<nat>): (walk: Option<Walk>)
    ensures walk.Some? <==> oldest.Some? && oldest.value > 1
    ensures walk.Some? ==> walk.value.last == 1 && walk.value.first + 1 == oldest.value
  {
    if oldest.Some? && oldest.value > 1 then Some(Walk(oldest.value - 1, 1)) else None
  }

  /**
   * After the probe for the current comic: the numbers above the newest stored
   * one up to the current comic, or everything from the current comic down to 1
   * on an empty store; nothing when the probe failed or the store is up to date.
   */
  function NewerWalk(newest: Option<nat>, current: Option<Comic>): (walk: Option<Walk>)
    ensures current.None? ==> walk.None?
    ensures walk.Some? ==> walk.value.last == if newest.Some? then current.value.number else 1
  {
    match current
    case None => None
    case Some(c) =>
      match newest
      case Some(n) => if n < c.number then Some(Walk(n + 1, c.number)) else None
      case None => Some(Walk(c.number, 1))
  }

  /** The older walk starts exactly when the store has a minimum above 1, and requests the numbers below it. */
  lemma OlderWalkRule(oldest: Option<nat>)
    ensures OlderWalk(oldest).Some? <==> oldest.Some? && oldest.value > 1
    ensures OlderWalk(oldest).Some? ==>
      OlderWalk(oldest).value.last == 1 &&
      forall n: nat :: n in Requests(OlderWalk(oldest).value) <==> 1 <= n < oldest.value
  {
    if oldest.Some? && oldest.value > 1 {
      WalkOrderVisits(oldest.value - 1, 1);
    }
  }

  /**
   * No walk without a current comic; with one, the walk ends at the current
   * number and covers what lies above the newest stored comic, or everything
   * from the current number down to 1 on an empty store.
   */
  lemma NewerWalkRule(newest: Option<nat>, current: Option<Comic>)
    ensures current.None? ==> NewerWalk(newest, current).None?
    ensures current.Some? && newest.Some? ==>
      (NewerWalk(newest, current).Some? <==> newest.value < current.value.number)
    ensures current.Some? && newest.None? ==> NewerWalk(newest, current).Some?
    ensures NewerWalk(newest, current).Some? ==>
      var w := NewerWalk(newest, current).value;
      && w.last == (if newest.Some? then current.value.number else 1)
      && forall n: nat :: n in Requests(w) <==>
           if newest.Some? then newest.value < n <= current.value.number
           else 1 <= n <= current.value.number || current.value.number <= n <= 1
  {
    match current
    case None =>
    case Some(c) =>
      match newest
      case Some(n) =>
        if n < c.number {
          WalkOrderVisits(n + 1, c.number);
        }
      case None =>
        WalkOrderVisits(c.number, 1);
  }

  /** A finite non-empty set of numbers has a smallest and a largest element. */
  lemma {:induction false} Extremes(s: set<int>) returns (lo: int, hi: int)
    requires s != {}
    ensures lo in s && hi in s
    ensures forall k :: k in s ==> lo <= k <= hi
    decreases s
  {
    assert exists x :: x in s by {
      if forall x :: x !in s {
        assert false;
      }
    }
    var x :| x in s;
    if s == {x} {
      lo, hi := x, x;
    } else {
      var restLo, restHi := Extremes(s - {x});
      lo := if restLo < x then restLo else x;
      hi := if x < restHi then restHi else x;
      assert forall k :: k in s ==> k == x || k in s - {x};
    }
  }

  /** The first number of the records sorted by number, descending, with a fetch limit of one. */
  function NewestNumber(numbers: set<int>): (r: Option<nat>)
    requires forall k :: k in numbers ==> k >= 0
    ensures r.None? <==> numbers == {}
    ensures r.Some? ==> r.value in numbers && forall k :: k in numbers ==> k <= r.value
  {
    if numbers == {} then None
    else
      assert exists m :: m in numbers && forall k :: k in numbers ==> k <= m by {
        var lo, hi := Extremes(numbers);
      }
      var m :| m in numbers && forall k :: k in numbers ==> k <= m;
      Some(m)
  }

  /** The first number of the records sorted by number, ascending, with a fetch limit of one. */
  function OldestNumber(numbers: set<int>): (r: Option<nat>)
    requires forall k :: k in numbers ==> k >= 0
    ensures r.None? <==> numbers == {}
    ensures r.Some? ==> r.value in numbers && forall k :: k in numbers ==> r.value <= k
  {
    if numbers == {} then None
    else
      assert exists m :: m in numbers && forall k :: k in numbers ==> m <= k by {
        var lo, hi := Extremes(numbers);
      }
      var m :| m in numbers && forall k :: k in numbers ==> m <= k;
      Some(m)
  }

  /**
   * The walks leave out only what lies between the oldest and the newest stored
   * comic: every number from 1 to the current one is stored, requested by one
   * of the two walks, or inside the stored range.
   */
  lemma PlanLeavesOnlyInnerGaps(numbers: set<int>, current: Comic, n: nat)
    requires forall k :: k in numbers ==> k >= 0
    requires 1 <= n <= current.number
    ensures
      var older := OlderWalk(OldestNumber(numbers));
      var newer := NewerWalk(NewestNumber(numbers), Some(current));
      || (older.Some? && n in Requests(older.value))
      || (newer.Some? && n in Requests(newer.value))
      || (numbers != {} && OldestNumber(numbers).value <= n <= NewestNumber(numbers).value)
  {
    OlderWalkRule(OldestNumber(numbers));
    NewerWalkRule(NewestNumber(numbers), Some(current));
  }

  // ----- The batch accumulator -----

  /** What the serial queue holds: the unsaved comics and the process-wide counter. */
  datatype Accumulator = Accumulator(pending: seq<Comic>, total: nat)

  /** What one offer appends to the pending list. */
  function Appended(comic: Option<Comic>): seq<Comic> {
    if comic.Some? then [comic.value] else []
  }

  /** The flush is held back while past the threshold, under the cap, and not forced. */
  predicate Withheld(total: nat, pendingCount: nat, forceSave: bool) {
    total > BatchingThreshold && pendingCount < BatchSize && !forceSave
  }

  datatype Offered = Offered(next: Accumulator, batchToSave: Option<seq<Comic>>)

  /** The comics an offer hands over for saving. */
  function Flushed(o: Offered): seq<Comic> {
    if o.batchToSave.Some? then o.batchToSave.value else []
  }

  /** One `addComicToBatch` step on the queue: append, count, then flush or hold. */
  function Offer(acc: Accumulator, comic: Option<Comic>, forceSave: bool): (r: Offered)
    ensures |r.next.pending| < BatchSize
    ensures r.next.total <= BatchingThreshold ==> r.next.pending == []
    ensures r.next.total == acc.total + |Appended(comic)|
    ensures Flushed(r) + r.next.pending == acc.pending + Appended(comic)
    ensures r.batchToSave.None? <==> Withheld(r.next.total, |acc.pending + Appended(comic)|, forceSave)
    ensures r.batchToSave.Some? ==> r.next.pending == []
  {
    var pending := acc.pending + Appended(comic);
    var total := acc.total + |Appended(comic)|;
    if Withheld(total, |pending|, forceSave) then Offered(Accumulator(pending, total), None)
    else Offered(Accumulator([], total), Some(pending))
  }

  /** The queue's statics: `currentBatch` and `totalCreatedOrUpdatedThisRun`. */
  class BatchQueue {
    var pending: seq<Comic>
    var total: nat

    constructor ()
      ensures pending == [] && total == 0
    {
      pending, total := [], 0;
    }

    function State(): Accumulator
      reads this
    {
      Accumulator(pending, total)
    }

    /** The block `addComicToBatch` puts on the serial queue. */
    method AddComic(comic: Option<Comic>, forceSave: bool) returns (batchToSave: Option<seq<Comic>>)
      modifies this
      ensures Offered(State(), batchToSave) == Offer(old(State()), comic, forceSave)
    {
      if comic.Some? {
        pending := pending + [comic.value];
        total := total + 1;
      }
      assert pending == old(pending) + Appended(comic) && total == old(total) + |Appended(comic)|;
      if Withheld(total, |pending|, forceSave) {
        return None;
      }
      batchToSave := Some(pending);
      pending := [];
    }
  }

  /** The comics of a run of completions, nil results dropped. */
  function Present(comics: seq<Option<Comic>>): seq<Comic>
    decreases |comics|
  {
    if comics == [] then [] else Present(comics[..|comics| - 1]) + Appended(comics[|comics| - 1])
  }

  /** All batches, in the order they were handed over. */
  function Concat(batches: seq<seq<Comic>>): seq<Comic>
    decreases |batches|
  {
    if batches == [] then [] else Concat(batches[..|batches| - 1]) + batches[|batches| - 1]
  }

  datatype Offers = Offers(acc: Accumulator, batches: seq<seq<Comic>>)

  /** A run of offers, in whatever order the two walks' completions reach the queue. */
  function OfferAll(acc: Accumulator, comics: seq<Option<Comic>>, forces: seq<bool>): Offers
    requires |comics| == |forces|
    decreases |comics|
  {
    if comics == [] then Offers(acc, [])
    else
      var before := OfferAll(acc, comics[..|comics| - 1], forces[..|forces| - 1]);
      var o := Offer(before.acc, comics[|comics| - 1], forces[|forces| - 1]);
      Offers(o.next, before.batches + (if o.batchToSave.Some? then [o.batchToSave.value] else []))
  }

  /**
   * Whatever the order of offers, no comic is lost or duplicated: the batches
   * handed over, followed by what is still pending, are the earlier pending
   * comics followed by every offered comic, in order.
   */
  lemma {:induction false} OfferAllConserves(acc: Accumulator, comics: seq<Option<Comic>>, forces: seq<bool>)
    requires |comics| == |forces|
    ensures Concat(OfferAll(acc, comics, forces).batches) + OfferAll(acc, comics, forces).acc.pending
         == acc.pending + Present(comics)
    decreases |comics|
  {
    if comics != [] {
      var init, finit := comics[..|comics| - 1], forces[..|forces| - 1];
      var last := comics[|comics| - 1];
      var before := OfferAll(acc, init, finit);
      var o := Offer(before.acc, last, forces[|forces| - 1]);
      OfferAllConserves(acc, init, finit);
      OfferConserves(before, last, forces[|forces| - 1]);
      assert Present(comics) == Present(init) + Appended(last);
    }
  }

  /** One offer hands over or keeps the pending comics and the offered one, in order. */
  lemma OfferConserves(before: Offers, comic: Option<Comic>, forceSave: bool)
    ensures var o := Offer(before.acc, comic, forceSave);
      Concat(before.batches + (if o.batchToSave.Some? then [o.batchToSave.value] else [])) + o.next.pending
      == Concat(before.batches) + before.acc.pending + Appended(comic)
  {
    var o := Offer(before.acc, comic, forceSave);
    var handed, added := Concat(before.batches), before.acc.pending + Appended(comic);
    if o.batchToSave.Some? {
      var batches := before.batches + [o.batchToSave.value];
      assert batches[..|batches| - 1] == before.batches;
      assert Concat(batches) == handed + added;
      assert o.next.pending == [];
    } else {
      assert o.next.pending == added;
      assert before.batches + [] == before.batches;
    }
    assert handed + added == handed + before.acc.pending + Appended(comic);
  }

  /** The counter counts every comic offered, and is never reset. */
  lemma {:induction false} OfferAllCounts(acc: Accumulator, comics: seq<Option<Comic>>, forces: seq<bool>)
    requires |comics| == |forces|
    ensures OfferAll(acc, comics, forces).acc.total == acc.total + |Present(comics)|
    decreases |comics|
  {
    if comics != [] {
      var init, finit := comics[..|comics| - 1], forces[..|forces| - 1];
      OfferAllCounts(acc, init, finit);
    }
  }


  // ----- The force flag -----

  /** The flag as the completions compute it: the decoded comic's number against the walk's end. */
  function ForceSaveAsWritten(comic: Option<Comic>, terminal: nat): (force: bool)
    ensures comic.None? ==> !force
  {
    comic.Some? && comic.value.number == terminal
  }

  /** The corrected flag: the completion for the walk's last request forces, whatever it returned. */
  function ForceSave(requested: nat, terminal: nat): bool {
    requested == terminal
  }

  /** The two flags agree whenever the comic returned is the one requested. */
  lemma ForceSaveRulesAgree(requested: nat, comic: Option<Comic>, terminal: nat)
    requires comic.Some? ==> comic.value.number == requested
    ensures ForceSaveAsWritten(comic, terminal) ==> ForceSave(requested, terminal)
    ensures comic.Some? ==> ForceSaveAsWritten(comic, terminal) == ForceSave(requested, terminal)
    ensures comic.None? ==> !ForceSaveAsWritten(comic, terminal)
  {
  }

  /** Which flag a run's completions compute: the one written in the source, or the corrected one. */
  datatype ForceRule = AsWritten | Corrected

  /** The flag a walk's completion passes to `addComicToBatch` under a rule. */
  function Forced(rule: ForceRule, requested: nat, comic: Option<Comic>, terminal: nat): bool {
    match rule
    case AsWritten => ForceSaveAsWritten(comic, terminal)
    case Corrected => ForceSave(requested, terminal)
  }

  // ----- The sync run -----

  /** The queue, the saved store, and whether a trap has ended the process. */
  datatype Sync = Sync(acc: Accumulator, store: map<int, Record>, trapped: bool)

  /** One completion reaching `addComicToBatch`, and the save of the batch it flushes. */
  function Deliver(s: Sync, comic: Option<Comic>, forceSave: bool, env: Foundation,
                   saveSucceeds: seq<Comic> -> bool): (r: Sync)
    ensures s.trapped ==> r == s
    ensures s.store.Keys <= r.store.Keys
    ensures !s.trapped ==> r.acc == Offer(s.acc, comic, forceSave).next
    ensures Offer(s.acc, comic, forceSave).batchToSave.None? ==> r.store == s.store && r.trapped == s.trapped
  {
    if s.trapped then s
    else
      var o := Offer(s.acc, comic, forceSave);
      if o.batchToSave.None? then Sync(o.next, s.store, false)
      else
        var batch := o.batchToSave.value;
        match Persist(s.store, batch, env, saveSucceeds(batch))
        case None => Sync(o.next, s.store, true)
        case Some(store) => Sync(o.next, store, false)
  }

  /** The completions of a walk delivered in order, each with the flag the rule computes. */
  function DeliverWalk(s: Sync, rule: ForceRule, requested: seq<nat>, comics: seq<Option<Comic>>, terminal: nat,
                       env: Foundation, saveSucceeds: seq<Comic> -> bool): (r: Sync)
    requires |requested| == |comics|
    ensures s.trapped ==> r == s
    ensures s.store.Keys <= r.store.Keys
    decreases |requested|
  {
    if requested == [] then s
    else
      var n := |requested| - 1;
      Deliver(DeliverWalk(s, rule, requested[..n], comics[..n], terminal, env, saveSucceeds),
              comics[n], Forced(rule, requested[n], comics[n], terminal), env, saveSucceeds)
  }

  /** What the server answers to each request. */
  function Fetched(requested: seq<nat>, server: Server): (comics: seq<Option<Comic>>)
    ensures |comics| == |requested|
  {
    seq(|requested|, i requires 0 <= i < |requested| => FetchComic(Some(requested[i]), server))
  }

  /** A planned walk, run against the server; no walk leaves the state alone. */
  function SyncWalk(s: Sync, rule: ForceRule, walk: Option<Walk>, server: Server, env: Foundation,
                    saveSucceeds: seq<Comic> -> bool): (r: Sync)
    ensures s.trapped ==> r == s
    ensures s.store.Keys <= r.store.Keys
  {
    if walk.None? then s
    else DeliverWalk(s, rule, Requests(walk.value), Fetched(Requests(walk.value), server),
                     walk.value.last, env, saveSucceeds)
  }

  /** `loadComicsIntoContext`: extremes read first, the older walk, the probe, the newer walk. */
  function SyncRun(s: Sync, rule: ForceRule, server: Server, env: Foundation,
                   saveSucceeds: seq<Comic> -> bool): (r: Sync)
    requires Keyed(s.store)
    ensures s.trapped ==> r == s
    ensures s.store.Keys <= r.store.Keys
  {
    var newest := NewestNumber(s.store.Keys);
    var oldest := OldestNumber(s.store.Keys);
    var afterOlder := SyncWalk(s, rule, OlderWalk(oldest), server, env, saveSucceeds);
    SyncWalk(afterOlder, rule, NewerWalk(newest, FetchComic(None, server)), server, env, saveSucceeds)
  }

  /**
   * A walk `2 -> 1` late in a run (51 comics counted) whose request for 1
   * fails: with the flag as written, comic 2 is left pending after the walk
   * and nothing is saved. `WalkEndFlushes` shows the corrected flag hands it over.
   */
  lemma NilAtWalkEndStrandsPending(c: Comic, store: map<int, Record>, env: Foundation,
                                   saveSucceeds: seq<Comic> -> bool)
    requires c.number == 2
    ensures Requests(Walk(2, 1)) == [2, 1]
    ensures
      var s := Sync(Accumulator([], BatchingThreshold + 1), store, false);
      var asWritten := DeliverWalk(s, AsWritten, [2, 1], [Some(c), None], 1, env, saveSucceeds);
      && !asWritten.trapped && asWritten.acc.pending == [c] && asWritten.store == store
  {
    WalkTwoToOne();
    var s := Sync(Accumulator([], BatchingThreshold + 1), store, false);
    DeliverWalkPair(s, AsWritten, [2, 1], [Some(c), None], 1, env, saveSucceeds);
    var first := Deliver(s, Some(c), false, env, saveSucceeds);
    assert Offer(s.acc, Some(c), false) == Offered(Accumulator([c], BatchingThreshold + 2), None);
    assert first == Sync(Accumulator([c], BatchingThreshold + 2), store, false);
    assert Offer(first.acc, None, false) == Offered(first.acc, None);
  }

  /** A walk of two requests is two deliveries. */
  lemma DeliverWalkPair(s: Sync, rule: ForceRule, requested: seq<nat>, comics: seq<Option<Comic>>, terminal: nat,
                        env: Foundation, saveSucceeds: seq<Comic> -> bool)
    requires |requested| == |comics| == 2
    ensures DeliverWalk(s, rule, requested, comics, terminal, env, saveSucceeds)
         == Deliver(Deliver(s, comics[0], Forced(rule, requested[0], comics[0], terminal), env, saveSucceeds),
                    comics[1], Forced(rule, requested[1], comics[1], terminal), env, saveSucceeds)
  {
    assert requested[..0] == [] && comics[..0] == [];
    assert requested[..2] == requested && comics[..2] == comics;
    DeliverWalkStep(s, rule, requested, comics, terminal, env, saveSucceeds, 0);
    DeliverWalkStep(s, rule, requested, comics, terminal, env, saveSucceeds, 1);
  }

  /** The walk from 2 to 1 requests 2, then 1. */
  lemma WalkTwoToOne()
    ensures Requests(Walk(2, 1)) == [2, 1]
  {
    assert WalkOrder(2, 1) == [2] + WalkOrder(1, 1);
  }

  /**
   * A walk that ends without a trap has handed over everything when its last
   * completion is forced: always under the corrected flag, and under the flag
   * as written only when the last request was answered.
   */
  lemma WalkEndFlushes(s: Sync, rule: ForceRule, requested: seq<nat>, comics: seq<Option<Comic>>, terminal: nat,
                       env: Foundation, saveSucceeds: seq<Comic> -> bool)
    requires |requested| == |comics| && requested != [] && requested[|requested| - 1] == terminal
    requires rule.Corrected? || (comics[|comics| - 1].Some? && comics[|comics| - 1].value.number == terminal)
    ensures !DeliverWalk(s, rule, requested, comics, terminal, env, saveSucceeds).trapped ==>
            DeliverWalk(s, rule, requested, comics, terminal, env, saveSucceeds).acc.pending == []
  {
    var n := |requested| - 1;
    var before := DeliverWalk(s, rule, requested[..n], comics[..n], terminal, env, saveSucceeds);
    assert Forced(rule, requested[n], comics[n], terminal);
    if !before.trapped {
      var o := Offer(before.acc, comics[n], true);
      assert o.batchToSave.Some? && o.next.pending == [];
    }
  }

  /**
   * The flag as written computes the corrected one whenever every comic
   * returned is the one requested and every request for the walk's last
   * number is answered.
   */
  lemma {:induction false} AsWrittenWalkAgrees(s: Sync, requested: seq<nat>, comics: seq<Option<Comic>>,
                                               terminal: nat, env: Foundation, saveSucceeds: seq<Comic> -> bool)
    requires |requested| == |comics|
    requires forall i :: 0 <= i < |comics| && comics[i].Some? ==> comics[i].value.number == requested[i]
    requires forall i :: 0 <= i < |requested| && requested[i] == terminal ==> comics[i].Some?
    ensures DeliverWalk(s, AsWritten, requested, comics, terminal, env, saveSucceeds)
         == DeliverWalk(s, Corrected, requested, comics, terminal, env, saveSucceeds)
    decreases |requested|
  {
    if requested != [] {
      var n := |requested| - 1;
      assert forall i :: 0 <= i < n ==> requested[..n][i] == requested[i] && comics[..n][i] == comics[i];
      AsWrittenWalkAgrees(s, requested[..n], comics[..n], terminal, env, saveSucceeds);
      ForceSaveRulesAgree(requested[n], comics[n], terminal);
    }
  }

  /** The conditions under which a run commits everything: saves succeed and every pending comic is storable. */
  predicate Committable(s: Sync, env: Foundation) {
    !s.trapped && StoreInvariant(s.store, env.normalize) && AllStorable(s.acc.pending)
  }

  lemma AllStorableAppend(a: seq<Comic>, b: seq<Comic>)
    ensures AllStorable(a + b) <==> AllStorable(a) && AllStorable(b)
  {
    if AllStorable(a) && AllStorable(b) {
      forall i | 0 <= i < |a + b| ensures Storable((a + b)[i]) {
        if i >= |a| {
          assert (a + b)[i] == b[i - |a|];
        }
      }
    }
    if AllStorable(a + b) {
      assert forall i :: 0 <= i < |a| ==> (a + b)[i] == a[i];
      assert forall i :: 0 <= i < |b| ==> (a + b)[|a| + i] == b[i];
    }
  }

  lemma NumbersAppend(a: seq<Comic>, b: seq<Comic>)
    ensures Numbers(a + b) == Numbers(a) + Numbers(b)
  {
    forall k | k in Numbers(a + b) ensures k in Numbers(a) + Numbers(b) {
      var i :| 0 <= i < |a + b| && (a + b)[i].number == k;
      if i >= |a| {
        assert (a + b)[i] == b[i - |a|];
      }
    }
    forall k | k in Numbers(a) ensures k in Numbers(a + b) {
      var i :| 0 <= i < |a| && a[i].number == k;
      assert (a + b)[i] == a[i];
    }
    forall k | k in Numbers(b) ensures k in Numbers(a + b) {
      var i :| 0 <= i < |b| && b[i].number == k;
      assert (a + b)[|a| + i] == b[i];
    }
  }

  /**
   * One delivery with storable comics and a successful save keeps the store
   * invariant and loses nothing: stored numbers plus pending numbers grow by
   * the offered comic's number.
   */
  lemma DeliverCommits(s: Sync, comic: Option<Comic>, forceSave: bool, env: Foundation,
                       saveSucceeds: seq<Comic> -> bool)
    requires Committable(s, env)
    requires comic.Some? ==> Storable(comic.value)
    requires forall batch :: saveSucceeds(batch)
    ensures var r := Deliver(s, comic, forceSave, env, saveSucceeds);
      && Committable(r, env)
      && r.store.Keys + Numbers(r.acc.pending) == s.store.Keys + Numbers(s.acc.pending) + Numbers(Appended(comic))
  {
    var o := Offer(s.acc, comic, forceSave);
    var batch := s.acc.pending + Appended(comic);
    AllStorableAppend(s.acc.pending, Appended(comic));
    NumbersAppend(s.acc.pending, Appended(comic));
    if o.batchToSave.Some? {
      assert o.batchToSave.value == batch && o.next.pending == [];
      assert saveSucceeds(batch);
      PersistEffect(s.store, batch, env, true);
      var after := Persist(s.store, batch, env, true).value;
      assert Deliver(s, comic, forceSave, env, saveSucceeds) == Sync(o.next, after, false);
      assert StoreInvariant(after, env.normalize) && AllStorable(o.next.pending);
      assert Numbers(o.next.pending) == {};
      assert after.Keys == s.store.Keys + Numbers(batch);
    } else {
      assert o.next.pending == batch;
      assert Deliver(s, comic, forceSave, env, saveSucceeds) == Sync(o.next, s.store, false);
      assert AllStorable(o.next.pending);
    }
  }

  /** A whole walk's deliveries under the same conditions. */
  lemma {:induction false} DeliverWalkCommits(s: Sync, rule: ForceRule, requested: seq<nat>, comics: seq<Option<Comic>>,
                                              terminal: nat, env: Foundation, saveSucceeds: seq<Comic> -> bool)
    requires |requested| == |comics|
    requires Committable(s, env)
    requires forall i :: 0 <= i < |comics| && comics[i].Some? ==> Storable(comics[i].value)
    requires forall batch :: saveSucceeds(batch)
    ensures var r := DeliverWalk(s, rule, requested, comics, terminal, env, saveSucceeds);
      && Committable(r, env)
      && r.store.Keys + Numbers(r.acc.pending) == s.store.Keys + Numbers(s.acc.pending) + Numbers(Present(comics))
    decreases |requested|
  {
    if requested != [] {
      var n := |requested| - 1;
      DeliverWalkCommits(s, rule, requested[..n], comics[..n], terminal, env, saveSucceeds);
      var before := DeliverWalk(s, rule, requested[..n], comics[..n], terminal, env, saveSucceeds);
      DeliverCommits(before, comics[n], Forced(rule, requested[n], comics[n], terminal), env, saveSucceeds);
      NumbersAppend(Present(comics[..n]), Appended(comics[n]));
    }
  }

  /** The server answers each request with that comic or with nothing. */
  ghost predicate Faithful(server: Server) {
    forall n: nat :: FetchComic(Some(n), server).Some? ==> FetchComic(Some(n), server).value.number == n
  }

  /** Every comic the server answers with can be stored. */
  ghost predicate StorableCatalogue(server: Server) {
    forall n: nat :: FetchComic(Some(n), server).Some? ==> Storable(FetchComic(Some(n), server).value)
  }

  /** The server answers the numbers a planned walk can end at: 1, and the current comic's number. */
  ghost predicate WalkEndsAnswered(server: Server) {
    && FetchComic(Some(1), server).Some?
    && (FetchComic(None, server).Some? ==> FetchComic(Some(FetchComic(None, server).value.number), server).Some?)
  }

  /** The comics kept are exactly those delivered. */
  lemma {:induction false} PresentMembers(comics: seq<Option<Comic>>)
    ensures forall c :: c in Present(comics) <==> Some(c) in comics
    decreases |comics|
  {
    if comics != [] {
      var k := |comics| - 1;
      PresentMembers(comics[..k]);
      assert comics == comics[..k] + [comics[k]];
    }
  }

  /** The numbers of the comics a faithful server returns for some requests. */
  lemma NumbersOfFetched(requested: seq<nat>, server: Server)
    requires Faithful(server)
    ensures forall k :: k in Numbers(Present(Fetched(requested, server))) <==>
      k >= 0 && k as nat in requested && FetchComic(Some(k as nat), server).Some?
  {
    var comics := Fetched(requested, server);
    var present := Present(comics);
    PresentMembers(comics);
    forall k | k in Numbers(present)
      ensures k >= 0 && k as nat in requested && FetchComic(Some(k as nat), server).Some?
    {
      var i :| 0 <= i < |present| && present[i].number == k;
      assert Some(present[i]) in comics;
      var j :| 0 <= j < |comics| && comics[j] == Some(present[i]);
      assert FetchComic(Some(requested[j]), server) == Some(present[i]);
    }
    forall k | k >= 0 && k as nat in requested && FetchComic(Some(k as nat), server).Some?
      ensures k in Numbers(present)
    {
      var j :| 0 <= j < |requested| && requested[j] == k as nat;
      var c := FetchComic(Some(k as nat), server).value;
      assert comics[j] == Some(c);
      assert c in present;
      var i :| 0 <= i < |present| && present[i] == c;
    }
  }

  // ----- What the records hold -----

  /** The numbers of a list of comics are pairwise distinct. */
  predicate DistinctNumbers(batch: seq<Comic>) {
    forall i, j :: 0 <= i < j < |batch| ==> batch[i].number != batch[j].number
  }

  /** A walk's pending list: distinct numbers, each already requested, each comic the server's answer. */
  ghost predicate PendingFrom(pending: seq<Comic>, delivered: seq<nat>, server: Server) {
    && DistinctNumbers(pending)
    && forall i :: 0 <= i < |pending| ==>
         pending[i].number in delivered && FetchComic(Some(pending[i].number), server) == Some(pending[i])
  }

  /** Every delivered number the server answered is pending, or its record carries the answer. */
  ghost predicate Kept(r: Sync, delivered: seq<nat>, server: Server, env: Foundation) {
    forall k :: k in delivered && FetchComic(Some(k), server).Some? ==>
      || FetchComic(Some(k), server).value in r.acc.pending
      || (k as int in r.store && Carries(r.store[k], FetchComic(Some(k), server).value, env))
  }

  /** Appending the answer for a new number keeps a walk's pending list well formed. */
  lemma PendingAppend(pending: seq<Comic>, delivered: seq<nat>, k: nat, server: Server)
    requires Faithful(server)
    requires PendingFrom(pending, delivered, server) && k !in delivered
    ensures PendingFrom(pending + Appended(FetchComic(Some(k), server)), delivered + [k], server)
  {
    var batch := pending + Appended(FetchComic(Some(k), server));
    forall i | 0 <= i < |batch|
      ensures batch[i].number in delivered + [k] && FetchComic(Some(batch[i].number), server) == Some(batch[i])
    {
      if i >= |pending| {
        assert batch[i] == FetchComic(Some(k), server).value;
      } else {
        assert batch[i] == pending[i];
      }
    }
  }

  /**
   * Saving a walk's batch: every delivered number the server answered that
   * was pending now has a record carrying the answer, records already
   * carrying one keep it, and numbers not delivered keep their attributes.
   */
  lemma FlushCarries(store: map<int, Record>, batch: seq<Comic>, delivered: seq<nat>, server: Server, env: Foundation)
    requires StoreInvariant(store, env.normalize) && AllStorable(batch)
    requires Faithful(server) && PendingFrom(batch, delivered, server)
    requires forall k :: k in delivered && FetchComic(Some(k), server).Some? ==>
      || FetchComic(Some(k), server).value in batch
      || (k as int in store && Carries(store[k], FetchComic(Some(k), server).value, env))
    ensures Persist(store, batch, env, true).Some?
    ensures var after := Persist(store, batch, env, true).value;
      && (forall k :: k in delivered && FetchComic(Some(k), server).Some? ==>
            k as int in after && Carries(after[k], FetchComic(Some(k), server).value, env))
      && (forall j: nat :: j in store && j !in delivered ==> Sources(after[j]) == Sources(store[j]))
  {
    PersistEffect(store, batch, env, true);
    var after := Persist(store, batch, env, true).value;
    forall k | k in delivered && FetchComic(Some(k), server).Some?
      ensures k as int in after && Carries(after[k], FetchComic(Some(k), server).value, env)
    {
      var c := FetchComic(Some(k), server).value;
      if c in batch {
        var j :| 0 <= j < |batch| && batch[j] == c;
        PersistLastWins(store, batch, env, j);
      } else {
        assert forall i :: 0 <= i < |batch| ==> batch[i].number != k;
        CarriesSources(store[k], after[k], c, env);
      }
    }
    forall j: nat | j in store && j !in delivered ensures Sources(after[j]) == Sources(store[j]) {
      assert j as int !in Numbers(batch);
    }
  }

  /**
   * Before the delivery of a new number's answer is flushed or held, every
   * answered number, the new one included, is in the grown pending list or
   * carried by the store.
   */
  lemma KeptAcrossAppend(s: Sync, delivered: seq<nat>, k: nat, server: Server, env: Foundation)
    requires Kept(s, delivered, server, env)
    ensures var batch := s.acc.pending + Appended(FetchComic(Some(k), server));
      forall j :: j in delivered + [k] && FetchComic(Some(j), server).Some? ==>
        || FetchComic(Some(j), server).value in batch
        || (j as int in s.store && Carries(s.store[j], FetchComic(Some(j), server).value, env))
  {
    var x := FetchComic(Some(k), server);
    var batch := s.acc.pending + Appended(x);
    assert forall c :: c in s.acc.pending ==> c in batch;
    if x.Some? {
      assert batch[|batch| - 1] == x.value;
    }
  }

  /** One delivery of the server's answer for a new number keeps every answered number kept. */
  lemma DeliverCarries(s: Sync, delivered: seq<nat>, k: nat, forceSave: bool, server: Server, env: Foundation,
                       saveSucceeds: seq<Comic> -> bool)
    requires Committable(s, env) && Faithful(server) && StorableCatalogue(server)
    requires forall batch :: saveSucceeds(batch)
    requires PendingFrom(s.acc.pending, delivered, server) && k !in delivered
    requires Kept(s, delivered, server, env)
    ensures var r := Deliver(s, FetchComic(Some(k), server), forceSave, env, saveSucceeds);
      && Committable(r, env)
      && PendingFrom(r.acc.pending, delivered + [k], server)
      && Kept(r, delivered + [k], server, env)
      && forall j: nat :: j in s.store && j !in delivered + [k] ==> Sources(r.store[j]) == Sources(s.store[j])
  {
    var x := FetchComic(Some(k), server);
    var batch := s.acc.pending + Appended(x);
    var r := Deliver(s, x, forceSave, env, saveSucceeds);
    DeliverCommits(s, x, forceSave, env, saveSucceeds);
    PendingAppend(s.acc.pending, delivered, k, server);
    KeptAcrossAppend(s, delivered, k, server, env);
    var o := Offer(s.acc, x, forceSave);
    if o.batchToSave.None? {
      assert r.acc.pending == batch && r.store == s.store;
    } else {
      assert o.batchToSave.value == batch && r.acc.pending == [];
      AllStorableAppend(s.acc.pending, Appended(x));
      FlushCarries(s.store, batch, delivered + [k], server, env);
      assert r.store == Persist(s.store, batch, env, true).value;
    }
  }

  /** Fetching a prefix of the requests is a prefix of the fetches. */
  lemma FetchedPrefix(requested: seq<nat>, server: Server, n: nat)
    requires n <= |requested|
    ensures Fetched(requested, server)[..n] == Fetched(requested[..n], server)
  {
  }

  /** A walk against the server is its requests but the last, then the server's answer to the last. */
  lemma DeliverFetchedStep(s: Sync, rule: ForceRule, requested: seq<nat>, terminal: nat, server: Server,
                           env: Foundation, saveSucceeds: seq<Comic> -> bool)
    requires requested != []
    ensures var n := |requested| - 1;
      var answer := FetchComic(Some(requested[n]), server);
      DeliverWalk(s, rule, requested, Fetched(requested, server), terminal, env, saveSucceeds)
      == Deliver(DeliverWalk(s, rule, requested[..n], Fetched(requested[..n], server), terminal, env, saveSucceeds),
                 answer, Forced(rule, requested[n], answer, terminal), env, saveSucceeds)
  {
    FetchedPrefix(requested, server, |requested| - 1);
  }

  /**
   * A whole walk of distinct numbers against a faithful server, with storable
   * comics and successful saves, keeps every number it requested: the
   * server's answer is pending or carried by its record.
   */
  lemma {:induction false} DeliverWalkCarries(s: Sync, rule: ForceRule, requested: seq<nat>, terminal: nat,
                                              server: Server, env: Foundation, saveSucceeds: seq<Comic> -> bool)
    requires Committable(s, env) && s.acc.pending == []
    requires Faithful(server) && StorableCatalogue(server)
    requires forall batch :: saveSucceeds(batch)
    requires forall i, j :: 0 <= i < j < |requested| ==> requested[i] != requested[j]
    ensures var r := DeliverWalk(s, rule, requested, Fetched(requested, server), terminal, env, saveSucceeds);
      && Committable(r, env)
      && PendingFrom(r.acc.pending, requested, server)
      && Kept(r, requested, server, env)
    decreases |requested|
  {
    if requested == [] {
      assert Kept(s, requested, server, env);
    } else {
      var n := |requested| - 1;
      var init, k := requested[..n], requested[n];
      assert init + [k] == requested;
      assert forall i :: 0 <= i < n ==> init[i] == requested[i] && init[i] != k;
      DeliverWalkCarries(s, rule, init, terminal, server, env, saveSucceeds);
      var before := DeliverWalk(s, rule, init, Fetched(init, server), terminal, env, saveSucceeds);
      var answer := FetchComic(Some(k), server);
      DeliverFetchedStep(s, rule, requested, terminal, server, env, saveSucceeds);
      DeliverCarries(before, init, k, Forced(rule, k, answer, terminal), server, env, saveSucceeds);
    }
  }

  /**
   * Under the same conditions, the records of numbers a walk does not request
   * keep their attributes.
   */
  lemma {:induction false} DeliverWalkKeepsOthers(s: Sync, rule: ForceRule, requested: seq<nat>, terminal: nat,
                                                  server: Server, env: Foundation, saveSucceeds: seq<Comic> -> bool)
    requires Committable(s, env) && s.acc.pending == []
    requires Faithful(server) && StorableCatalogue(server)
    requires forall batch :: saveSucceeds(batch)
    requires forall i, j :: 0 <= i < j < |requested| ==> requested[i] != requested[j]
    ensures var r := DeliverWalk(s, rule, requested, Fetched(requested, server), terminal, env, saveSucceeds);
      forall j: nat :: j in s.store && j !in requested ==> Sources(r.store[j]) == Sources(s.store[j])
    decreases |requested|
  {
    if requested != [] {
      var n := |requested| - 1;
      var init, k := requested[..n], requested[n];
      assert init + [k] == requested;
      assert forall i :: 0 <= i < n ==> init[i] == requested[i] && init[i] != k;
      DeliverWalkKeepsOthers(s, rule, init, terminal, server, env, saveSucceeds);
      DeliverWalkCarries(s, rule, init, terminal, server, env, saveSucceeds);
      var before := DeliverWalk(s, rule, init, Fetched(init, server), terminal, env, saveSucceeds);
      var answer := FetchComic(Some(k), server);
      var force := Forced(rule, k, answer, terminal);
      var r := Deliver(before, answer, force, env, saveSucceeds);
      DeliverFetchedStep(s, rule, requested, terminal, server, env, saveSucceeds);
      DeliverCarries(before, init, k, force, server, env, saveSucceeds);
      forall j: nat | j in s.store && j !in requested ensures Sources(r.store[j]) == Sources(s.store[j]) {
        assert j !in init && j in before.store;
      }
    }
  }

  /**
   * A walk against a faithful server, with storable comics and successful
   * saves, under the corrected flag or with its last request answered, ends
   * with nothing pending and a record for exactly the numbers stored before
   * and the requested numbers the server answered. Each such record carries
   * the server's comic; records of numbers not requested keep their attributes.
   */
  lemma WalkCommitsFetched(s: Sync, rule: ForceRule, walk: Walk, server: Server, env: Foundation,
                           saveSucceeds: seq<Comic> -> bool)
    requires Committable(s, env) && s.acc.pending == []
    requires Faithful(server) && StorableCatalogue(server)
    requires forall batch :: saveSucceeds(batch)
    requires rule.Corrected? || FetchComic(Some(walk.last), server).Some?
    ensures var r := SyncWalk(s, rule, Some(walk), server, env, saveSucceeds);
      && Committable(r, env) && r.acc.pending == []
      && (forall k :: k in r.store <==>
           k in s.store || (k >= 0 && k as nat in Requests(walk) && FetchComic(Some(k as nat), server).Some?))
      && (forall k: nat :: k in Requests(walk) && FetchComic(Some(k), server).Some? ==>
           k in r.store && Carries(r.store[k], FetchComic(Some(k), server).value, env))
      && (forall k: nat :: k in s.store && k !in Requests(walk) ==> Sources(r.store[k]) == Sources(s.store[k]))
  {
    var requested := Requests(walk);
    var r := DeliverWalk(s, rule, requested, Fetched(requested, server), walk.last, env, saveSucceeds);
    assert SyncWalk(s, rule, Some(walk), server, env, saveSucceeds) == r;
    WalkOrderVisits(walk.first, walk.last);
    WalkKeys(s, rule, walk, server, env, saveSucceeds);
    DeliverWalkCarries(s, rule, requested, walk.last, server, env, saveSucceeds);
    KeptWhenFlushed(r, requested, server, env);
    DeliverWalkKeepsOthers(s, rule, requested, walk.last, server, env, saveSucceeds);
  }

  /** The key and pending clauses of `WalkCommitsFetched`. */
  lemma WalkKeys(s: Sync, rule: ForceRule, walk: Walk, server: Server, env: Foundation,
                 saveSucceeds: seq<Comic> -> bool)
    requires Committable(s, env) && s.acc.pending == []
    requires Faithful(server) && StorableCatalogue(server)
    requires forall batch :: saveSucceeds(batch)
    requires rule.Corrected? || FetchComic(Some(walk.last), server).Some?
    ensures var r := DeliverWalk(s, rule, Requests(walk), Fetched(Requests(walk), server), walk.last, env, saveSucceeds);
      && Committable(r, env) && r.acc.pending == []
      && (forall k :: k in r.store <==>
           k in s.store || (k >= 0 && k as nat in Requests(walk) && FetchComic(Some(k as nat), server).Some?))
  {
    var requested := Requests(walk);
    assert requested != [] && requested[|requested| - 1] == walk.last by {
      WalkOrderVisits(walk.first, walk.last);
    }
    WalkFlushes(s, rule, requested, walk.last, server, env, saveSucceeds);
    var r := DeliverWalk(s, rule, requested, Fetched(requested, server), walk.last, env, saveSucceeds);
    var added := Numbers(Present(Fetched(requested, server)));
    assert r.store.Keys == s.store.Keys + added;
    NumbersOfFetched(requested, server);
    forall k ensures k in r.store <==>
      k in s.store || (k >= 0 && k as nat in requested && FetchComic(Some(k as nat), server).Some?)
    {
      assert k in r.store <==> k in s.store || k in added;
    }
  }

  /** A walk ending at its terminal number ends with nothing pending, and its numbers stored. */
  lemma WalkFlushes(s: Sync, rule: ForceRule, requested: seq<nat>, terminal: nat, server: Server, env: Foundation,
                    saveSucceeds: seq<Comic> -> bool)
    requires Committable(s, env) && s.acc.pending == []
    requires StorableCatalogue(server)
    requires forall batch :: saveSucceeds(batch)
    requires requested != [] && requested[|requested| - 1] == terminal
    requires rule.Corrected? || (FetchComic(Some(terminal), server).Some? && FetchComic(Some(terminal), server).value.number == terminal)
    ensures var r := DeliverWalk(s, rule, requested, Fetched(requested, server), terminal, env, saveSucceeds);
      && Committable(r, env) && r.acc.pending == []
      && r.store.Keys == s.store.Keys + Numbers(Present(Fetched(requested, server)))
  {
    var comics := Fetched(requested, server);
    var r := DeliverWalk(s, rule, requested, comics, terminal, env, saveSucceeds);
    DeliverWalkCommits(s, rule, requested, comics, terminal, env, saveSucceeds);
    assert comics[|comics| - 1] == FetchComic(Some(terminal), server);
    WalkEndFlushes(s, rule, requested, comics, terminal, env, saveSucceeds);
    assert Numbers(r.acc.pending) == {};
  }

  /** With nothing pending, every answered number a run kept has a record carrying its answer. */
  lemma KeptWhenFlushed(r: Sync, requested: seq<nat>, server: Server, env: Foundation)
    requires Kept(r, requested, server, env) && r.acc.pending == []
    ensures forall k: nat :: k in requested && FetchComic(Some(k), server).Some? ==>
      k in r.store && Carries(r.store[k], FetchComic(Some(k), server).value, env)
  {
  }

  /** `WalkCommitsFetched` for a walk that may not be planned. */
  lemma PlannedWalkCommits(s: Sync, rule: ForceRule, walk: Option<Walk>, server: Server, env: Foundation,
                           saveSucceeds: seq<Comic> -> bool)
    requires Committable(s, env) && s.acc.pending == []
    requires Faithful(server) && StorableCatalogue(server)
    requires forall batch :: saveSucceeds(batch)
    requires walk.Some? ==> rule.Corrected? || FetchComic(Some(walk.value.last), server).Some?
    ensures var r := SyncWalk(s, rule, walk, server, env, saveSucceeds);
      && Committable(r, env) && r.acc.pending == []
      && (forall k :: k in r.store <==>
           k in s.store || (walk.Some? && k >= 0 && k as nat in Requests(walk.value) && FetchComic(Some(k as nat), server).Some?))
      && (forall k: nat :: walk.Some? && k in Requests(walk.value) && FetchComic(Some(k), server).Some? ==>
           k in r.store && Carries(r.store[k], FetchComic(Some(k), server).value, env))
      && (forall k: nat :: k in s.store && (walk.None? || k !in Requests(walk.value)) ==>
           Sources(r.store[k]) == Sources(s.store[k]))
  {
    if walk.Some? {
      WalkCommitsFetched(s, rule, walk.value, server, env, saveSucceeds);
    }
  }

  /**
   * A sync against a faithful server whose comics are all storable, with every
   * save succeeding, under the corrected flag or with the walks' end numbers
   * answered: it keeps every record, with its attributes; adds only numbers
   * the server answered, each record carrying the server's comic; leaves
   * nothing pending; and stores every comic from 1 to the current one except
   * those lying between the oldest and the newest comic stored before the run.
   */
  lemma SyncRunFillsCatalogue(s: Sync, rule: ForceRule, server: Server, env: Foundation,
                              saveSucceeds: seq<Comic> -> bool)
    requires Committable(s, env) && s.acc.pending == []
    requires Faithful(server) && StorableCatalogue(server)
    requires forall batch :: saveSucceeds(batch)
    requires rule.Corrected? || WalkEndsAnswered(server)
    ensures var r := SyncRun(s, rule, server, env, saveSucceeds);
      && Committable(r, env) && r.acc.pending == []
      && (forall k :: k in s.store ==> k in r.store && Sources(r.store[k]) == Sources(s.store[k]))
      && (forall k :: k in r.store && k !in s.store ==>
            && k >= 0 && FetchComic(Some(k as nat), server).Some?
            && Carries(r.store[k], FetchComic(Some(k as nat), server).value, env))
      && (FetchComic(None, server).Some? ==>
            forall n: nat :: 1 <= n <= FetchComic(None, server).value.number && FetchComic(Some(n), server).Some? ==>
              || n in r.store
              || (s.store != map[] && OldestNumber(s.store.Keys).value < n < NewestNumber(s.store.Keys).value))
  {
    var newest := NewestNumber(s.store.Keys);
    var oldest := OldestNumber(s.store.Keys);
    var older := OlderWalk(oldest);
    var current := FetchComic(None, server);
    var newer := NewerWalk(newest, current);
    var afterOlder := SyncWalk(s, rule, older, server, env, saveSucceeds);
    var r := SyncWalk(afterOlder, rule, newer, server, env, saveSucceeds);
    assert r == SyncRun(s, rule, server, env, saveSucceeds);
    OlderWalkRule(oldest);
    NewerWalkRule(newest, current);
    PlannedWalkCommits(s, rule, older, server, env, saveSucceeds);
    PlannedWalkCommits(afterOlder, rule, newer, server, env, saveSucceeds);
    SyncRunRecords(s, older, newer, afterOlder, r, server, env);
    SyncRunCovers(s, older, newer, afterOlder, r, server);
  }

  /**
   * The coverage clause of `SyncRunFillsCatalogue`: every answered number up
   * to the current one was stored, requested by a walk, or lies inside the
   * stored range.
   */
  lemma SyncRunCovers(s: Sync, older: Option<Walk>, newer: Option<Walk>, afterOlder: Sync, r: Sync, server: Server)
    requires Keyed(s.store)
    requires older == OlderWalk(OldestNumber(s.store.Keys))
    requires newer == NewerWalk(NewestNumber(s.store.Keys), FetchComic(None, server))
    requires forall k :: k in afterOlder.store <==>
      k in s.store || (older.Some? && k >= 0 && k as nat in Requests(older.value) && FetchComic(Some(k as nat), server).Some?)
    requires forall k :: k in r.store <==>
      k in afterOlder.store || (newer.Some? && k >= 0 && k as nat in Requests(newer.value) && FetchComic(Some(k as nat), server).Some?)
    ensures FetchComic(None, server).Some? ==>
      forall n: nat :: 1 <= n <= FetchComic(None, server).value.number && FetchComic(Some(n), server).Some? ==>
        || n in r.store
        || (s.store != map[] && OldestNumber(s.store.Keys).value < n < NewestNumber(s.store.Keys).value)
  {
    var newest := NewestNumber(s.store.Keys);
    var oldest := OldestNumber(s.store.Keys);
    var current := FetchComic(None, server);
    if current.Some? {
      forall n: nat | 1 <= n <= current.value.number && FetchComic(Some(n), server).Some?
        ensures n in r.store || (s.store != map[] && oldest.value < n < newest.value)
      {
        PlanLeavesOnlyInnerGaps(s.store.Keys, current.value, n);
        var k := n as int;
        if older.Some? && n in Requests(older.value) {
          assert k in afterOlder.store;
        } else if newer.Some? && n in Requests(newer.value) {
          assert k in r.store;
        } else if k == oldest.value || k == newest.value {
          assert k in s.store;
        }
      }
    }
  }

  /**
   * The record clauses of `SyncRunFillsCatalogue`, from what each walk keeps:
   * the older walk requests only numbers below the oldest stored one and the
   * newer walk only numbers above the newest, so neither touches the other's
   * records or the records stored before the run.
   */
  lemma SyncRunRecords(s: Sync, older: Option<Walk>, newer: Option<Walk>, afterOlder: Sync, r: Sync,
                       server: Server, env: Foundation)
    requires Keyed(s.store)
    requires older == OlderWalk(OldestNumber(s.store.Keys))
    requires newer == NewerWalk(NewestNumber(s.store.Keys), FetchComic(None, server))
    requires forall k :: k in afterOlder.store <==>
      k in s.store || (older.Some? && k >= 0 && k as nat in Requests(older.value) && FetchComic(Some(k as nat), server).Some?)
    requires forall k: nat :: older.Some? && k in Requests(older.value) && FetchComic(Some(k), server).Some? ==>
      k in afterOlder.store && Carries(afterOlder.store[k], FetchComic(Some(k), server).value, env)
    requires forall k: nat :: k in s.store && (older.None? || k !in Requests(older.value)) ==>
      Sources(afterOlder.store[k]) == Sources(s.store[k])
    requires forall k :: k in r.store <==>
      k in afterOlder.store || (newer.Some? && k >= 0 && k as nat in Requests(newer.value) && FetchComic(Some(k as nat), server).Some?)
    requires forall k: nat :: newer.Some? && k in Requests(newer.value) && FetchComic(Some(k), server).Some? ==>
      k in r.store && Carries(r.store[k], FetchComic(Some(k), server).value, env)
    requires forall k: nat :: k in afterOlder.store && (newer.None? || k !in Requests(newer.value)) ==>
      Sources(r.store[k]) == Sources(afterOlder.store[k])
    ensures forall k :: k in s.store ==> k in r.store && Sources(r.store[k]) == Sources(s.store[k])
    ensures forall k :: k in r.store && k !in s.store ==>
      && k >= 0 && FetchComic(Some(k as nat), server).Some?
      && Carries(r.store[k], FetchComic(Some(k as nat), server).value, env)
  {
    var newest := NewestNumber(s.store.Keys);
    var oldest := OldestNumber(s.store.Keys);
    OlderWalkRule(oldest);
    NewerWalkRule(newest, FetchComic(None, server));
    forall k | k in s.store ensures k in r.store && Sources(r.store[k]) == Sources(s.store[k]) {
      var n := k as nat;
      assert older.Some? ==> n !in Requests(older.value);
      assert newer.Some? ==> n !in Requests(newer.value);
    }
    forall k | k in r.store && k !in s.store
      ensures && k >= 0 && FetchComic(Some(k as nat), server).Some?
              && Carries(r.store[k], FetchComic(Some(k as nat), server).value, env)
    {
      if k in afterOlder.store {
        var n := k as nat;
        var c := FetchComic(Some(n), server).value;
        assert newer.Some? ==> n !in Requests(newer.value);
        CarriesSources(afterOlder.store[k], r.store[k], c, env);
      }
    }
  }

  /**
   * Once trapped, a sync does nothing more; and the flag as written runs the
   * same sync as the corrected one when the server is faithful and answers
   * the numbers the walks end at.
   */
  lemma AsWrittenRunAgrees(s: Sync, server: Server, env: Foundation, saveSucceeds: seq<Comic> -> bool)
    requires Keyed(s.store)
    requires Faithful(server) && WalkEndsAnswered(server)
    ensures SyncRun(s, AsWritten, server, env, saveSucceeds) == SyncRun(s, Corrected, server, env, saveSucceeds)
  {
    var older := OlderWalk(OldestNumber(s.store.Keys));
    var newer := NewerWalk(NewestNumber(s.store.Keys), FetchComic(None, server));
    PlannedWalkAgrees(s, older, server, env, saveSucceeds);
    var afterOlder := SyncWalk(s, Corrected, older, server, env, saveSucceeds);
    PlannedWalkAgrees(afterOlder, newer, server, env, saveSucceeds);
  }

  /** `AsWrittenWalkAgrees` for a planned walk whose last number the server answers. */
  lemma PlannedWalkAgrees(s: Sync, walk: Option<Walk>, server: Server, env: Foundation,
                          saveSucceeds: seq<Comic> -> bool)
    requires Faithful(server)
    requires walk.Some? ==> FetchComic(Some(walk.value.last), server).Some?
    ensures SyncWalk(s, AsWritten, walk, server, env, saveSucceeds) == SyncWalk(s, Corrected, walk, server, env, saveSucceeds)
  {
    if walk.Some? {
      var requested := Requests(walk.value);
      var comics := Fetched(requested, server);
      WalkOrderVisits(walk.value.first, walk.value.last);
      forall i | 0 <= i < |requested| && requested[i] == walk.value.last ensures comics[i].Some? {
        assert comics[i] == FetchComic(Some(walk.value.last), server);
      }
      AsWrittenWalkAgrees(s, requested, comics, walk.value.last, env, saveSucceeds);
    }
  }

  /**
   * One walk as `loadComicsIntoContext` runs it: the fetcher's completions,
   * in order, each handed to `addComicToBatch` with the flag the rule
   * computes, whose flushed batches the context upserts and saves. A trap
   * ends the process.
   */
  method RunWalk(walk: Walk, rule: ForceRule, server: Server, queue: BatchQueue, context: Context, env: Foundation,
                 saveSucceeds: seq<Comic> -> bool) returns (trapped: bool)
    requires context.Valid(env.normalize)
    modifies queue, context
    ensures Sync(queue.State(), context.persisted, trapped)
         == SyncWalk(Sync(old(queue.State()), old(context.persisted), false), rule, Some(walk), server, env, saveSucceeds)
    ensures !trapped ==> context.Valid(env.normalize)
  {
    var requested, completions := FetchComicsWithNumbers(walk.first, walk.last, server);
    assert completions == Fetched(requested, server);
    trapped := DeliverCompletions(rule, requested, completions, walk.last, queue, context, env, saveSucceeds);
  }

  /** The completions of one walk, handed to `addComicToBatch` in order, each with the rule's flag. */
  method DeliverCompletions(rule: ForceRule, requested: seq<nat>, completions: seq<Option<Comic>>, terminal: nat,
                            queue: BatchQueue, context: Context, env: Foundation,
                            saveSucceeds: seq<Comic> -> bool) returns (trapped: bool)
    requires |requested| == |completions|
    requires context.Valid(env.normalize)
    modifies queue, context
    ensures Sync(queue.State(), context.persisted, trapped)
         == DeliverWalk(Sync(old(queue.State()), old(context.persisted), false), rule, requested, completions,
                        terminal, env, saveSucceeds)
    ensures !trapped ==> context.Valid(env.normalize)
  {
    ghost var start := Sync(queue.State(), context.persisted, false);
    trapped := false;
    for i := 0 to |requested|
      invariant Sync(queue.State(), context.persisted, trapped)
             == DeliverWalk(start, rule, requested[..i], completions[..i], terminal, env, saveSucceeds)
      invariant !trapped ==> context.Valid(env.normalize)
    {
      DeliverWalkStep(start, rule, requested, completions, terminal, env, saveSucceeds, i);
      if !trapped {
        trapped := AddComicToBatch(completions[i], Forced(rule, requested[i], completions[i], terminal),
                                   queue, context, env, saveSucceeds);
      }
    }
    assert requested[..|requested|] == requested && completions[..|completions|] == completions;
  }

  /**
   * `addComicToBatch`: the queue's step, then, when it flushes, the upsert
   * and save of the batch in the context.
   */
  method AddComicToBatch(comic: Option<Comic>, forceSave: bool, queue: BatchQueue, context: Context,
                         env: Foundation, saveSucceeds: seq<Comic> -> bool) returns (trapped: bool)
    requires context.Valid(env.normalize)
    modifies queue, context
    ensures Sync(queue.State(), context.persisted, trapped)
         == Deliver(Sync(old(queue.State()), old(context.persisted), false), comic, forceSave, env, saveSucceeds)
    ensures !trapped ==> context.Valid(env.normalize)
  {
    var batch := queue.AddComic(comic, forceSave);
    trapped := false;
    if batch.Some? {
      var outcome := context.UpsertBatch(batch.value, env, saveSucceeds(batch.value));
      trapped := outcome == Trapped;
    }
  }

  /** Delivering one more completion of a walk. */
  lemma DeliverWalkStep(s: Sync, rule: ForceRule, requested: seq<nat>, comics: seq<Option<Comic>>, terminal: nat,
                        env: Foundation, saveSucceeds: seq<Comic> -> bool, i: nat)
    requires |requested| == |comics| && i < |requested|
    ensures DeliverWalk(s, rule, requested[..i + 1], comics[..i + 1], terminal, env, saveSucceeds)
         == Deliver(DeliverWalk(s, rule, requested[..i], comics[..i], terminal, env, saveSucceeds),
                    comics[i], Forced(rule, requested[i], comics[i], terminal), env, saveSucceeds)
  {
    assert requested[..i + 1][..i] == requested[..i] && comics[..i + 1][..i] == comics[..i];
  }

  /**
   * `loadComicsIntoContext`: read the newest and the oldest stored numbers,
   * run the older walk, probe the current comic, then run the newer walk.
   * The source's own flag is `AsWritten`.
   */
  method LoadComicsIntoContext(context: Context, queue: BatchQueue, rule: ForceRule, server: Server, env: Foundation,
                               saveSucceeds: seq<Comic> -> bool) returns (trapped: bool)
    requires context.Valid(env.normalize)
    modifies context, queue
    ensures Sync(queue.State(), context.persisted, trapped)
         == SyncRun(Sync(old(queue.State()), old(context.persisted), false), rule, server, env, saveSucceeds)
    ensures !trapped ==> context.Valid(env.normalize)
  {
    ghost var start := Sync(queue.State(), context.persisted, false);
    var newest := NewestNumber(context.records.Keys);
    var oldest := OldestNumber(context.records.Keys);
    var older := OlderWalk(oldest);
    trapped := false;
    if older.Some? {
      trapped := RunWalk(older.value, rule, server, queue, context, env, saveSucceeds);
    }
    ghost var afterOlder := Sync(queue.State(), context.persisted, trapped);
    assert afterOlder == SyncWalk(start, rule, older, server, env, saveSucceeds);
    var current := FetchComic(None, server);
    var newer := NewerWalk(newest, current);
    if trapped {
      assert SyncWalk(afterOlder, rule, newer, server, env, saveSucceeds) == afterOlder;
      return;
    }
    if newer.Some? {
      trapped := RunWalk(newer.value, rule, server, queue, context, env, saveSucceeds);
    }
  }
}
