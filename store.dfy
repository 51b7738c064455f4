/**
 * The Core Data side of `ComicManager`: turning a fetched `Comic` into stored
 * attributes (`updateWithComic`, `createWithComic`), upserting a batch by comic
 * number, and `saveOrRollback`. The store is a map from comic number to record.
 */
module ComicStore {
  import opened Wrappers
  import opened Decimal
  import opened Comics
  import opened ManagedComics

  /** `Date.distantPast` (midnight, January 1st of year 1) in seconds from the reference date. */
  const DistantPast: int := -63_114_076_800

  /**
   * The Foundation calls the mapping makes, as functions: `Calendar.current.date(from:)`
   * on the year, month and day components, `URL(string:)`, and `String.normalized`.
   */
  datatype Foundation = Foundation(
    calendarDate: (Option<int>, Option<int>, Option<int>) -> Option<int>,
    parseUrl: string -> Option<Url>,
    normalize: string -> string)

  /** A comic the store can take: its number fits `Int32` and its year reads as an `Int32`. */
  predicate Storable(c: Comic) {
    c.number <= Int32Max && ParseInteger(c.year, Int32Min, Int32Max).Some?
  }

  /**
   * `updateWithComic`: every attribute except `number` and the twins is taken
   * from the comic. None when `Int32(comic.year)!` traps.
   */
  function UpdatedWith(r: Record, c: Comic, env: Foundation): (u: Option<Record>)
    ensures u.Some? <==> ParseInteger(c.year, Int32Min, Int32Max).Some?
    ensures u.Some? ==> u.value.number == r.number
    ensures u.Some? ==>
      && u.value.safeTitleNormalized == r.safeTitleNormalized
      && u.value.alternateTextNormalized == r.alternateTextNormalized
      && u.value.linkNormalized == r.linkNormalized
      && u.value.transcriptNormalized == r.transcriptNormalized
  {
    var year :- ParseInteger(c.year, Int32Min, Int32Max);
    var components := (ParseInteger(c.year, Int64Min, Int64Max),
                       ParseInteger(c.month, Int64Min, Int64Max),
                       ParseInteger(c.day, Int64Min, Int64Max));
    Some(r.(
      alternateText := if |c.alternateText| > 0 then Some(c.alternateText) else None,
      date := env.calendarDate(components.0, components.1, components.2).GetOr(DistantPast),
      image := c.image,
      link := env.parseUrl(c.link),
      news := Some(c.news),
      safeTitle := c.safeTitle,
      title := c.title,
      transcript := Some(c.transcript),
      year := year))
  }

  /** A freshly inserted object: only its number is set before `updateWithComic`. */
  function NewRecord(number: int): Record {
    Record(number, [], [], [], 0, 0, [], None, None, None, None, None, None, None)
  }

  /** `createWithComic`: None when `Int32(comic.number)` or `Int32(comic.year)!` traps. */
  function Created(c: Comic, env: Foundation): (r: Option<Record>)
    ensures r.Some? <==> Storable(c)
    ensures r.Some? ==> r.value.number == c.number
  {
    if c.number > Int32Max then None else UpdatedWith(NewRecord(c.number), c, env)
  }

  /** The mapping rules: which comics trap, and what the stored attributes become. */
  lemma UpdatedWithRules(r: Record, c: Comic, env: Foundation)
    ensures UpdatedWith(r, c, env).Some? <==> ParseInteger(c.year, Int32Min, Int32Max).Some?
    ensures Created(c, env).Some? <==> Storable(c)
    ensures UpdatedWith(r, c, env).Some? ==>
      var u := UpdatedWith(r, c, env).value;
      && u.number == r.number
      && (u.alternateText.None? <==> c.alternateText == [])
      && (var date := env.calendarDate(ParseInteger(c.year, Int64Min, Int64Max),
                                       ParseInteger(c.month, Int64Min, Int64Max),
                                       ParseInteger(c.day, Int64Min, Int64Max));
          u.date == date.GetOr(DistantPast))
      && Some(u.year) == ParseInteger(c.year, Int32Min, Int32Max)
      && Sources(u) == Sources(UpdatedWith(NewRecord(r.number), c, env).value)
    ensures Created(c, env).Some? ==> Created(c, env).value.number == c.number
  {
  }

  /** Updating twice with different comics leaves what the later comic says. */
  lemma LaterUpdateWins(r: Record, earlier: Comic, later: Comic, env: Foundation)
    requires UpdatedWith(r, earlier, env).Some?
    ensures UpdatedWith(UpdatedWith(r, earlier, env).value, later, env) == UpdatedWith(r, later, env)
  {
  }

  /** A record "carries" a comic when updating it with that comic changes nothing. */
  predicate Carries(r: Record, c: Comic, env: Foundation) {
    UpdatedWith(r, c, env) == Some(r)
  }

  /** Carrying a comic depends only on the attributes `willSave` leaves alone. */
  lemma CarriesSources(r: Record, r': Record, c: Comic, env: Foundation)
    requires Carries(r, c, env) && Sources(r') == Sources(r)
    ensures Carries(r', c, env)
  {
    assert r'.(safeTitleNormalized := r.safeTitleNormalized,
               alternateTextNormalized := r.alternateTextNormalized,
               linkNormalized := r.linkNormalized,
               transcriptNormalized := r.transcriptNormalized) == r;
  }

  /** After an update, the record carries the comic it was updated with. */
  lemma UpdatedCarries(r: Record, c: Comic, env: Foundation)
    requires UpdatedWith(r, c, env).Some?
    ensures Carries(UpdatedWith(r, c, env).value, c, env)
  {
    LaterUpdateWins(r, c, c, env);
  }

  /** The numbers of a batch's comics. */
  function Numbers(batch: seq<Comic>): set<int> {
    set i | 0 <= i < |batch| :: batch[i].number as int
  }

  /** One step of the upsert loop: fetch by number, then update the match or create a record. */
  function Upsert(store: map<int, Record>, c: Comic, env: Foundation): (r: Option<map<int, Record>>)
    ensures r.Some? ==> r.value.Keys == store.Keys + {c.number as int}
    ensures r.Some? ==> Carries(r.value[c.number], c, env)
    ensures r.Some? ==> forall k :: k in store && k != c.number ==> r.value[k] == store[k]
  {
    var record :- if c.number in store then UpdatedWith(store[c.number], c, env) else Created(c, env);
    UpdatedCarries(if c.number in store then store[c.number] else NewRecord(c.number), c, env);
    Some(store[c.number := record])
  }

  /** The upsert loop over a whole batch, in order; None when a comic traps. */
  function ApplyBatch(store: map<int, Record>, batch: seq<Comic>, env: Foundation): (r: Option<map<int, Record>>)
    ensures r.Some? ==> r.value.Keys == store.Keys + Numbers(batch)
    decreases |batch|
  {
    if batch == [] then Some(store)
    else
      var before :- ApplyBatch(store, batch[..|batch| - 1], env);
      NumbersSnoc(batch);
      Upsert(before, batch[|batch| - 1], env)
  }

  /** Every record is filed under its own number, which fits `Int32`. */
  predicate Keyed(store: map<int, Record>) {
    forall k :: k in store ==> 0 <= k <= Int32Max && store[k].number == k
  }

  /** What the store relies on between saves: records filed by number, twins current. */
  predicate StoreInvariant(store: map<int, Record>, normalize: string -> string) {
    Keyed(store) && forall k :: k in store ==> TwinsCurrent(store[k], normalize)
  }

  lemma NumbersSnoc(batch: seq<Comic>)
    requires batch != []
    ensures Numbers(batch) == Numbers(batch[..|batch| - 1]) + {batch[|batch| - 1].number as int}
  {
    var init := batch[..|batch| - 1];
    forall k | k in Numbers(batch) ensures k in Numbers(init) + {batch[|batch| - 1].number as int} {
      var i :| 0 <= i < |batch| && batch[i].number == k;
      if i < |batch| - 1 {
        assert init[i] == batch[i];
      }
    }
    forall k | k in Numbers(init) ensures k in Numbers(batch) {
      var i :| 0 <= i < |init| && init[i].number == k;
      assert batch[i] == init[i];
    }
  }

  /** One upsert traps exactly on an unstorable comic, and otherwise files it under its number. */
  lemma UpsertEffect(store: map<int, Record>, c: Comic, env: Foundation)
    requires Keyed(store)
    ensures Upsert(store, c, env).Some? <==> Storable(c)
    ensures Upsert(store, c, env).Some? ==>
      var after := Upsert(store, c, env).value;
      && Keyed(after)
      && after.Keys == store.Keys + {c.number as int}
      && forall k :: k in store && k != c.number ==> after[k] == store[k]
  {
    var old_ := if c.number in store then store[c.number] else NewRecord(c.number);
    UpdatedWithRules(old_, c, env);
    if c.number in store {
      assert c.number <= Int32Max;
    }
  }

  /** ApplyBatch on one more element of a batch is one more upsert. */
  lemma ApplyBatchStep(store: map<int, Record>, batch: seq<Comic>, env: Foundation, i: nat)
    requires i < |batch|
    ensures ApplyBatch(store, batch[..i + 1], env)
         == (match ApplyBatch(store, batch[..i], env)
             case None => None
             case Some(before) => Upsert(before, batch[i], env))
  {
    assert batch[..i + 1][..i] == batch[..i];
  }

  /** Every comic in the batch is storable. */
  predicate AllStorable(batch: seq<Comic>) {
    forall i :: 0 <= i < |batch| ==> Storable(batch[i])
  }

  lemma AllStorableSnoc(batch: seq<Comic>)
    requires batch != []
    ensures AllStorable(batch) <==> AllStorable(batch[..|batch| - 1]) && Storable(batch[|batch| - 1])
  {
    var init := batch[..|batch| - 1];
    assert forall i :: 0 <= i < |init| ==> init[i] == batch[i];
  }

  /** A batch goes through without a trap exactly when every comic in it is storable. */
  lemma {:induction false} ApplyBatchSucceeds(store: map<int, Record>, batch: seq<Comic>, env: Foundation)
    requires Keyed(store)
    ensures ApplyBatch(store, batch, env).Some? <==> AllStorable(batch)
    decreases |batch|
  {
    if batch != [] {
      var init, c := batch[..|batch| - 1], batch[|batch| - 1];
      ApplyBatchSucceeds(store, init, env);
      AllStorableSnoc(batch);
      var before := ApplyBatch(store, init, env);
      assert ApplyBatch(store, batch, env) == if before.None? then None else Upsert(before.value, c, env);
      if before.Some? {
        ApplyBatchShape(store, init, env);
        UpsertEffect(before.value, c, env);
      }
    }
  }

  /**
   * After a batch goes through, the keys have grown by the batch's numbers,
   * each record is still filed under its number, and numbers outside the
   * batch keep their record.
   */
  lemma {:induction false} ApplyBatchShape(store: map<int, Record>, batch: seq<Comic>, env: Foundation)
    requires Keyed(store)
    requires ApplyBatch(store, batch, env).Some?
    ensures Keyed(ApplyBatch(store, batch, env).value)
    ensures ApplyBatch(store, batch, env).value.Keys == store.Keys + Numbers(batch)
    ensures forall k :: k in store && k !in Numbers(batch) ==> ApplyBatch(store, batch, env).value[k] == store[k]
    decreases |batch|
  {
    if batch != [] {
      var init, c := batch[..|batch| - 1], batch[|batch| - 1];
      var before := ApplyBatch(store, init, env).value;
      ApplyBatchShape(store, init, env);
      UpsertEffect(before, c, env);
      NumbersSnoc(batch);
    }
  }

  /** Within a batch, the last comic with a given number decides that number's record. */
  lemma {:induction false} ApplyBatchLastWins(store: map<int, Record>, batch: seq<Comic>, env: Foundation, j: nat)
    requires ApplyBatch(store, batch, env).Some?
    requires j < |batch|
    requires forall i :: j < i < |batch| ==> batch[i].number != batch[j].number
    ensures batch[j].number in ApplyBatch(store, batch, env).value
    ensures Carries(ApplyBatch(store, batch, env).value[batch[j].number], batch[j], env)
    decreases |batch|
  {
    var init, c := batch[..|batch| - 1], batch[|batch| - 1];
    var before := ApplyBatch(store, init, env).value;
    assert ApplyBatch(store, batch, env) == Upsert(before, c, env);
    if j < |batch| - 1 {
      assert init[j] == batch[j];
      assert forall i :: j < i < |init| ==> init[i] == batch[i];
      ApplyBatchLastWins(store, init, env, j);
    }
  }

  /** Core Data calls `willSave` on the objects being saved; on current records it is the identity. */
  function SaveAll(store: map<int, Record>, normalize: string -> string): map<int, Record> {
    map k | k in store :: AfterWillSave(store[k], normalize)
  }

  /**
   * One flushed batch as seen after its save: None when a comic traps;
   * otherwise the upserted and saved store, or the old store after a rollback.
   */
  function Persist(store: map<int, Record>, batch: seq<Comic>, env: Foundation, saveSucceeds: bool)
    : (r: Option<map<int, Record>>)
    ensures r.Some? <==> ApplyBatch(store, batch, env).Some?
    ensures r.Some? ==> r.value.Keys == if saveSucceeds then store.Keys + Numbers(batch) else store.Keys
    ensures r.Some? && !saveSucceeds ==> r.value == store
  {
    var changed :- ApplyBatch(store, batch, env);
    Some(if saveSucceeds then SaveAll(changed, env.normalize) else store)
  }

  /**
   * A saved batch keeps the store invariant, adds exactly the batch's numbers,
   * leaves other numbers' attributes alone and carries each number's last comic.
   */
  lemma PersistEffect(store: map<int, Record>, batch: seq<Comic>, env: Foundation, saveSucceeds: bool)
    requires StoreInvariant(store, env.normalize)
    ensures Persist(store, batch, env, saveSucceeds).Some? <==> AllStorable(batch)
    ensures Persist(store, batch, env, saveSucceeds).Some? ==>
      var after := Persist(store, batch, env, saveSucceeds).value;
      && StoreInvariant(after, env.normalize)
      && after.Keys == (if saveSucceeds then store.Keys + Numbers(batch) else store.Keys)
      && (forall k :: k in store && k !in Numbers(batch) ==> Sources(after[k]) == Sources(store[k]))
      && (!saveSucceeds ==> after == store)
  {
    ApplyBatchSucceeds(store, batch, env);
    if ApplyBatch(store, batch, env).Some? {
      ApplyBatchShape(store, batch, env);
    }
    if ApplyBatch(store, batch, env).Some? && saveSucceeds {
      var changed := ApplyBatch(store, batch, env).value;
      var after := SaveAll(changed, env.normalize);
      forall k | k in after ensures 0 <= k <= Int32Max && after[k].number == k && TwinsCurrent(after[k], env.normalize) {
        assert Sources(after[k]) == Sources(changed[k]);
      }
    }
  }

  /** A saved batch's record for a number carries the last comic with that number. */
  lemma PersistLastWins(store: map<int, Record>, batch: seq<Comic>, env: Foundation, j: nat)
    requires Persist(store, batch, env, true).Some?
    requires j < |batch|
    requires forall i :: j < i < |batch| ==> batch[i].number != batch[j].number
    ensures batch[j].number in Persist(store, batch, env, true).value
    ensures Sources(Persist(store, batch, env, true).value[batch[j].number])
         == Sources(ApplyBatch(store, batch, env).value[batch[j].number])
    ensures Carries(Persist(store, batch, env, true).value[batch[j].number], batch[j], env)
  {
    ApplyBatchLastWins(store, batch, env, j);
    var changed := ApplyBatch(store, batch, env).value;
    var n := batch[j].number;
    var saved := AfterWillSave(changed[n], env.normalize);
    assert UpdatedWith(changed[n], batch[j], env) == Some(changed[n]);
    assert UpdatedWith(saved, batch[j], env).value == changed[n].(
      safeTitleNormalized := saved.safeTitleNormalized,
      alternateTextNormalized := saved.alternateTextNormalized,
      linkNormalized := saved.linkNormalized,
      transcriptNormalized := saved.transcriptNormalized);
  }

  datatype SaveOutcome = Saved | RolledBack | Trapped

  /** A managed object context holding the comic records. */
  class Context {
    /** The objects registered in the context, unsaved changes included. */
    var records: map<int, Record>
    /** The last saved state; `rollback()` returns the objects to it. */
    var persisted: map<int, Record>

    ghost predicate Valid(normalize: string -> string)
      reads this
    {
      records == persisted && StoreInvariant(persisted, normalize)
    }

    constructor (store: map<int, Record>, normalize: string -> string)
      requires StoreInvariant(store, normalize)
      ensures Valid(normalize) && persisted == store
    {
      records, persisted := store, store;
    }

    /**
     * `saveOrRollback()`: a save runs `willSave` on the objects and makes the
     * context's state the saved state; a failed save rolls the objects back.
     */
    method SaveOrRollback(saveSucceeds: bool, normalize: string -> string) returns (saved: bool)
      modifies this
      ensures saved == saveSucceeds
      ensures saved ==> records == SaveAll(old(records), normalize) && persisted == records
      ensures !saved ==> records == old(persisted) && persisted == old(persisted)
    {
      if saveSucceeds {
        records := SaveAll(records, normalize);
        persisted := records;
        return true;
      }
      records := persisted;
      return false;
    }

    /**
     * The block `addComicToBatch` hands to `context.perform` for one batch:
     * create or update a record per comic, in order, then save or roll back.
     */
    method UpsertBatch(batch: seq<Comic>, env: Foundation, saveSucceeds: bool) returns (outcome: SaveOutcome)
      requires Valid(env.normalize)
      modifies this
      ensures outcome == Trapped <==> Persist(old(persisted), batch, env, saveSucceeds).None?
      ensures outcome == Trapped ==> persisted == old(persisted)
      ensures outcome != Trapped ==>
        && Valid(env.normalize)
        && persisted == Persist(old(persisted), batch, env, saveSucceeds).value
        && (outcome == Saved <==> saveSucceeds)
    {
      var i := 0;
      while i < |batch|
        invariant 0 <= i <= |batch|
        invariant ApplyBatch(persisted, batch[..i], env) == Some(records)
        invariant persisted == old(persisted)
      {
        var next := Upsert(records, batch[i], env);
        ApplyBatchStep(persisted, batch, env, i);
        if next.None? {
          ApplyBatchPrefixTrap(persisted, batch, env, i + 1);
          return Trapped;
        }
        records := next.value;
        i := i + 1;
      }
      assert batch[..i] == batch;
      PersistEffect(persisted, batch, env, saveSucceeds);
      var saved := SaveOrRollback(saveSucceeds, env.normalize);
      outcome := if saved then Saved else RolledBack;
    }
  }

  /** A trap in a prefix of the batch is a trap of the whole batch. */
  lemma {:induction false} ApplyBatchPrefixTrap(store: map<int, Record>, batch: seq<Comic>, env: Foundation, n: nat)
    requires n <= |batch| && ApplyBatch(store, batch[..n], env).None?
    ensures ApplyBatch(store, batch, env).None?
    decreases |batch| - n
  {
    if n < |batch| {
      assert batch[..n + 1][..n] == batch[..n];
      ApplyBatchPrefixTrap(store, batch, env, n + 1);
    } else {
      assert batch[..n] == batch;
    }
  }
}
