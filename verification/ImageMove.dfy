/**
 Moving images out of the database into the object store: copy, read back, then clear, with a crash
 or a fault possible at every step, over any sequence of runs.

 `keyOf` and `original` stand for the fixed metadata of each row: the object key computed from it,
 and the bytes the row was created with.
 */
module ImageMove {
  import opened Text

  type Bytes = seq<int>
  datatype Table = EventImages | OrganizationImages
  datatype Id = Id(table: Table, row: nat)

  datatype Row = Row(bytes: Option<Bytes>, storageKey: Option<string>)

  datatype Entry = Put(key: string, body: Bytes) | ReadBack(key: string, size: nat) | Cleared(id: Id, key: string)

  /** `log` records what the script saw and did, in order, across runs. */
  datatype World = World(rows: map<Id, Row>, store: map<string, Bytes>, log: seq<Entry>)

  /** What becomes of a put: stored, stored but the reply lost, lost, or accepted while storing something else. */
  datatype PutFate = Stored | StoredReplyLost | Lost | Corrupted(instead: Option<Bytes>)

  /** What a get says: the object as it is, some size it is not, nothing, or an error. */
  datatype GetFate = Actual | Claims(size: nat) | SaysMissing | GetError

  /** What becomes of the row update: done, done but the reply lost, or refused. */
  datatype UpdateFate = Done | DoneReplyLost | NotDone

  /** The world's part in moving one row. The process may die before any of the three steps. */
  datatype Fate = Fate(diesBefore: nat, put: PutFate, get: GetFate, update: UpdateFate)

  function AfterPut(w: World, key: string, body: Bytes, fate: PutFate): World {
    var w := w.(log := w.log + [Put(key, body)]);
    match fate
    case Stored => w.(store := w.store[key := body])
    case StoredReplyLost => w.(store := w.store[key := body])
    case Lost => w
    case Corrupted(instead) =>
      if instead.Some? then w.(store := w.store[key := instead.value]) else w.(store := w.store - {key})
  }

  /** The size a get reports, if any. */
  function SizeRead(w: World, key: string, fate: GetFate): Option<nat> {
    match fate
    case Actual => if key in w.store then Some(|w.store[key]|) else None
    case Claims(size) => Some(size)
    case SaysMissing => None
    case GetError => None
  }

  function AfterUpdate(w: World, id: Id, key: string, fate: UpdateFate): World {
    if fate == NotDone || id !in w.rows then w
    else w.(rows := w.rows[id := Row(None, Some(key))], log := w.log + [Cleared(id, key)])
  }

  /** `moveOne`: the world it leaves, and whether it returned normally. */
  function MoveOne(w: World, id: Id, key: string, body: Bytes, fate: Fate): (World, bool) {
    if fate.diesBefore == 0 then (w, false)
    else
      var put := AfterPut(w, key, body, fate.put);
      if fate.put == StoredReplyLost || fate.put == Lost || fate.diesBefore == 1 then (put, false)
      else
        var size := SizeRead(put, key, fate.get);
        if size.None? || size.value != |body| then (put, false)
        else
          var seen := put.(log := put.log + [ReadBack(key, size.value)]);
          if fate.diesBefore == 2 then (seen, false)
          else (AfterUpdate(seen, id, key, fate.update), fate.update == Done)
  }

  /** One table's loop over its snapshot: rows without bytes are skipped, a failure ends the run. */
  function MoveAll(w: World, picks: seq<(Id, Row)>, keyOf: Id -> string, fates: nat -> Fate): (World, bool) {
    if picks == [] then (w, true)
    else
      var n := |picks| - 1;
      var before := MoveAll(w, picks[..n], keyOf, fates);
      if !before.1 || picks[n].1.bytes.None? then before
      else MoveOne(before.0, picks[n].0, keyOf(picks[n].0), picks[n].1.bytes.value, fates(n))
  }

  /** How many of the rows still hold their bytes. */
  function WithBytes(picks: seq<(Id, Row)>): nat {
    |set i | 0 <= i < |picks| && picks[i].1.bytes.Some?|
  }

  lemma WithBytesOfOneMore(picks: seq<(Id, Row)>, i: nat)
    requires i < |picks|
    ensures WithBytes(picks[..i + 1]) == WithBytes(picks[..i]) + if picks[i].1.bytes.Some? then 1 else 0
  {
    var less, more := picks[..i], picks[..i + 1];
    assert forall k :: 0 <= k < i ==> less[k] == more[k];
    var before := set k | 0 <= k < |less| && less[k].1.bytes.Some?;
    var after := set k | 0 <= k < |more| && more[k].1.bytes.Some?;
    assert after == before + if picks[i].1.bytes.Some? then {i} else {};
  }

  /** What `findMany` may answer: distinct rows of one table without a storage key, as they are, at most `limit`. */
  ghost predicate Snapshot(w: World, table: Table, picks: seq<(Id, Row)>, limit: nat) {
    && |picks| <= limit
    && (forall i :: 0 <= i < |picks| ==>
          && picks[i].0 in w.rows && picks[i].0.table == table
          && picks[i].1 == w.rows[picks[i].0] && picks[i].1.storageKey.None?)
    && (forall i, j :: 0 <= i < j < |picks| ==> picks[i].0 != picks[j].0)
  }

  // ---------------------------------------------------------------------------------------
  // The script's own form

  class Script {
    var world: World
    var moved: nat
    var skipped: nat

    constructor (w: World)
      ensures world == w && moved == 0 && skipped == 0
    {
      world, moved, skipped := w, 0, 0;
    }

    method MoveRow(id: Id, key: string, body: Bytes, fate: Fate) returns (ok: bool)
      modifies this`world
      ensures (world, ok) == MoveOne(old(world), id, key, body, fate)
    {
      if fate.diesBefore == 0 { return false; }
      world := AfterPut(world, key, body, fate.put);
      if fate.put == StoredReplyLost || fate.put == Lost || fate.diesBefore == 1 { return false; }
      var size := SizeRead(world, key, fate.get);
      if size.None? || size.value != |body| { return false; }
      world := world.(log := world.log + [ReadBack(key, size.value)]);
      if fate.diesBefore == 2 { return false; }
      world := AfterUpdate(world, id, key, fate.update);
      ok := fate.update == Done;
    }

    method MoveTable(picks: seq<(Id, Row)>, keyOf: Id -> string, fates: nat -> Fate) returns (ok: bool)
      modifies this
      ensures (world, ok) == MoveAll(old(world), picks, keyOf, fates)
      ensures ok ==> moved == old(moved) + WithBytes(picks) && skipped == old(skipped) + |picks| - WithBytes(picks)
    {
      ghost var start := world;
      var i := 0;
      ok := true;
      while i < |picks|
        invariant i <= |picks| && ok
        invariant (world, true) == MoveAll(start, picks[..i], keyOf, fates)
        invariant moved == old(moved) + WithBytes(picks[..i]) && skipped == old(skipped) + i - WithBytes(picks[..i])
      {
        assert picks[..i + 1][..i] == picks[..i];
        WithBytesOfOneMore(picks, i);
        if picks[i].1.bytes.None? {
          skipped := skipped + 1;
        } else {
          ok := MoveRow(picks[i].0, keyOf(picks[i].0), picks[i].1.bytes.value, fates(i));
          if !ok {
            StaysFailed(start, picks, i + 1, keyOf, fates);
            return;
          }
          moved := moved + 1;
        }
        i := i + 1;
      }
      assert picks[..i] == picks;
    }
  }

  /** After a failure the loop does nothing more. */
  lemma {:induction false} StaysFailed(w: World, picks: seq<(Id, Row)>, i: nat, keyOf: Id -> string, fates: nat -> Fate)
    requires i <= |picks| && !MoveAll(w, picks[..i], keyOf, fates).1
    ensures MoveAll(w, picks, keyOf, fates) == MoveAll(w, picks[..i], keyOf, fates)
    decreases |picks|
  {
    hide MoveOne;
    if i < |picks| {
      var n := |picks| - 1;
      assert picks[..n][..i] == picks[..i];
      StaysFailed(w, picks[..n], i, keyOf, fates);
    } else {
      assert picks[..i] == picks;
    }
  }

  // ---------------------------------------------------------------------------------------
  // Histories

  /** One run of the script: two snapshots, the second taken only if the first loop finished. */
  datatype RunScript = RunScript(events: seq<(Id, Row)>, organizations: seq<(Id, Row)>, limit: nat,
                                 eventFates: nat -> Fate, organizationFates: nat -> Fate)

  ghost predicate CanRun(w: World, r: RunScript, keyOf: Id -> string) {
    && Snapshot(w, EventImages, r.events, r.limit)
    && var mid := MoveAll(w, r.events, keyOf, r.eventFates);
       mid.1 ==> Snapshot(mid.0, OrganizationImages, r.organizations, r.limit)
  }

  function RunOnce(w: World, r: RunScript, keyOf: Id -> string): World {
    var mid := MoveAll(w, r.events, keyOf, r.eventFates);
    if mid.1 then MoveAll(mid.0, r.organizations, keyOf, r.organizationFates).0 else mid.0
  }

  ghost predicate History(start: World, runs: seq<RunScript>, keyOf: Id -> string) {
    runs == [] ||
    (&& History(start, runs[..|runs| - 1], keyOf)
     && CanRun(RunAll(start, runs[..|runs| - 1], keyOf), runs[|runs| - 1], keyOf))
  }

  function RunAll(start: World, runs: seq<RunScript>, keyOf: Id -> string): World {
    if runs == [] then start else RunOnce(RunAll(start, runs[..|runs| - 1], keyOf), runs[|runs| - 1], keyOf)
  }

  // ---------------------------------------------------------------------------------------
  // Crash safety

  /** The database constraint: a row holds its bytes or a key, never both and never neither. */
  ghost predicate OneHolder(w: World) {
    forall id :: id in w.rows ==> (w.rows[id].bytes.Some? <==> w.rows[id].storageKey.None?)
  }

  /**
   Whatever the world did, a row either still holds its original bytes or was cleared right after its
   key was written with those bytes and read back at their size.
   */
  ghost predicate ClearedAfterReadBack(w: World, original: map<Id, Bytes>, keyOf: Id -> string, i: nat)
    requires i < |w.log| && w.log[i].Cleared?
  {
    var id, key := w.log[i].id, w.log[i].key;
    && id in original && key == keyOf(id) && i >= 2
    && w.log[i - 1] == ReadBack(key, |original[id]|) && w.log[i - 2] == Put(key, original[id])
  }

  ghost predicate NothingDropped(w: World, original: map<Id, Bytes>, keyOf: Id -> string) {
    && OneHolder(w) && w.rows.Keys == original.Keys
    && (forall id :: id in w.rows && w.rows[id].bytes.Some? ==> w.rows[id].bytes.value == original[id])
    && (forall i :: 0 <= i < |w.log| && w.log[i].Cleared? ==> ClearedAfterReadBack(w, original, keyOf, i))
  }

  lemma LogGrows(w: World, v: World, original: map<Id, Bytes>, keyOf: Id -> string)
    requires NothingDropped(w, original, keyOf) && v.rows == w.rows
    requires |w.log| <= |v.log| && v.log[..|w.log|] == w.log
    requires forall i :: |w.log| <= i < |v.log| ==> !v.log[i].Cleared?
    ensures NothingDropped(v, original, keyOf)
  {
    forall i | 0 <= i < |v.log| && v.log[i].Cleared? ensures ClearedAfterReadBack(v, original, keyOf, i) {
      assert forall k :: 0 <= k < |w.log| ==> v.log[k] == w.log[k];
      assert w.log[i] == v.log[i];
      assert ClearedAfterReadBack(w, original, keyOf, i);
    }
  }

  lemma ClearKeepsAll(w: World, id: Id, original: map<Id, Bytes>, keyOf: Id -> string, fate: UpdateFate)
    requires NothingDropped(w, original, keyOf) && id in w.rows && |w.log| >= 2
    requires w.log[|w.log| - 1] == ReadBack(keyOf(id), |original[id]|)
    requires w.log[|w.log| - 2] == Put(keyOf(id), original[id])
    ensures NothingDropped(AfterUpdate(w, id, keyOf(id), fate), original, keyOf)
  {
    var v := AfterUpdate(w, id, keyOf(id), fate);
    if fate != NotDone {
      assert v.rows.Keys == w.rows.Keys;
      forall i | 0 <= i < |v.log| && v.log[i].Cleared? ensures ClearedAfterReadBack(v, original, keyOf, i) {
        if i < |w.log| {
          assert forall k :: 0 <= k < |w.log| ==> v.log[k] == w.log[k];
          assert ClearedAfterReadBack(w, original, keyOf, i);
        }
      }
    }
  }

  lemma MoveDropsNothing(w: World, id: Id, original: map<Id, Bytes>, keyOf: Id -> string, fate: Fate)
    requires NothingDropped(w, original, keyOf) && id in w.rows
    ensures NothingDropped(MoveOne(w, id, keyOf(id), original[id], fate).0, original, keyOf)
  {
    hide NothingDropped;
    assert id in original by { RowsAreOriginals(w, original, keyOf); }
    var key, body := keyOf(id), original[id];
    var put := AfterPut(w, key, body, fate.put);
    LogGrows(w, put, original, keyOf);
    var seen := put.(log := put.log + [ReadBack(key, |body|)]);
    LogGrows(w, seen, original, keyOf);
    ClearKeepsAll(seen, id, original, keyOf, fate.update);
  }

  lemma RowsAreOriginals(w: World, original: map<Id, Bytes>, keyOf: Id -> string)
    requires NothingDropped(w, original, keyOf)
    ensures w.rows.Keys == original.Keys
  {
  }

  /** A run's snapshot stays good for the rows it has not come to. */
  ghost predicate Pending(w: World, picks: seq<(Id, Row)>, from: nat, original: map<Id, Bytes>) {
    forall i :: from <= i < |picks| ==>
      && picks[i].0 in w.rows && picks[i].0 in original
      && (picks[i].1.bytes.Some? ==> picks[i].1.bytes.value == original[picks[i].0])
  }

  lemma {:induction false} LoopDropsNothing(w: World, picks: seq<(Id, Row)>, original: map<Id, Bytes>,
                                            keyOf: Id -> string, fates: nat -> Fate)
    requires NothingDropped(w, original, keyOf) && Pending(w, picks, 0, original)
    ensures NothingDropped(MoveAll(w, picks, keyOf, fates).0, original, keyOf)
    decreases |picks|
  {
    hide NothingDropped, MoveOne;
    if picks != [] {
      var n := |picks| - 1;
      LoopDropsNothing(w, picks[..n], original, keyOf, fates);
      var before := MoveAll(w, picks[..n], keyOf, fates);
      RowsAreOriginals(before.0, original, keyOf);
      if picks[n].1.bytes.Some? {
        assert picks[n].0 in original && picks[n].1.bytes.value == original[picks[n].0];
        MoveDropsNothing(before.0, picks[n].0, original, keyOf, fates(n));
      }
    }
  }

  lemma SnapshotIsPending(w: World, table: Table, picks: seq<(Id, Row)>, limit: nat, original: map<Id, Bytes>,
                          keyOf: Id -> string)
    requires NothingDropped(w, original, keyOf) && Snapshot(w, table, picks, limit)
    ensures Pending(w, picks, 0, original)
  {
  }

  /** Every reachable state, after any runs with any faults, has dropped nothing. */
  lemma {:induction false} NothingIsEverDropped(start: World, runs: seq<RunScript>, original: map<Id, Bytes>,
                                                keyOf: Id -> string)
    requires NothingDropped(start, original, keyOf) && History(start, runs, keyOf)
    ensures NothingDropped(RunAll(start, runs, keyOf), original, keyOf)
    decreases |runs|
  {
    hide NothingDropped, Snapshot, Pending, MoveAll;
    if runs != [] {
      var n := |runs| - 1;
      NothingIsEverDropped(start, runs[..n], original, keyOf);
      var w, r := RunAll(start, runs[..n], keyOf), runs[n];
      SnapshotIsPending(w, EventImages, r.events, r.limit, original, keyOf);
      LoopDropsNothing(w, r.events, original, keyOf, r.eventFates);
      var mid := MoveAll(w, r.events, keyOf, r.eventFates);
      if mid.1 {
        SnapshotIsPending(mid.0, OrganizationImages, r.organizations, r.limit, original, keyOf);
        LoopDropsNothing(mid.0, r.organizations, original, keyOf, r.organizationFates);
      }
    }
  }

  // ---------------------------------------------------------------------------------------
  // With a faithful store

  /** The store keeps what it is given or nothing, and gets tell the truth or fail. */
  predicate Faithful(f: Fate) { !f.put.Corrupted? && !f.get.Claims? }

  ghost predicate FaithfulRun(r: RunScript) {
    (forall n :: Faithful(r.eventFates(n))) && (forall n :: Faithful(r.organizationFates(n)))
  }

  /** Equal keys mean equal content. */
  ghost predicate ContentAddressed(original: map<Id, Bytes>, keyOf: Id -> string) {
    forall a, b :: a in original && b in original && keyOf(a) == keyOf(b) ==> original[a] == original[b]
  }

  /** Every image is readable somewhere: its bytes in the row, or under the row's key in the store. */
  ghost predicate Readable(w: World, original: map<Id, Bytes>, keyOf: Id -> string) {
    forall id :: id in w.rows ==>
      && id in original
      && (w.rows[id].bytes == Some(original[id]) ||
          (&& w.rows[id].storageKey == Some(keyOf(id))
           && keyOf(id) in w.store && w.store[keyOf(id)] == original[id]))
  }

  lemma MoveStaysReadable(w: World, id: Id, original: map<Id, Bytes>, keyOf: Id -> string, fate: Fate)
    requires Readable(w, original, keyOf) && ContentAddressed(original, keyOf) && Faithful(fate) && id in w.rows
    ensures id in original && Readable(MoveOne(w, id, keyOf(id), original[id], fate).0, original, keyOf)
    ensures MoveOne(w, id, keyOf(id), original[id], fate).0.rows.Keys == w.rows.Keys
  {
    var put := AfterPut(w, keyOf(id), original[id], fate.put);
    assert Readable(put, original, keyOf);
  }

  lemma {:induction false} LoopStaysReadable(w: World, picks: seq<(Id, Row)>, original: map<Id, Bytes>,
                                             keyOf: Id -> string, fates: nat -> Fate)
    requires Readable(w, original, keyOf) && ContentAddressed(original, keyOf) && Pending(w, picks, 0, original)
    requires forall n :: Faithful(fates(n))
    ensures Readable(MoveAll(w, picks, keyOf, fates).0, original, keyOf)
    ensures MoveAll(w, picks, keyOf, fates).0.rows.Keys == w.rows.Keys
    decreases |picks|
  {
    hide Readable, MoveOne, ContentAddressed, Faithful;
    if picks != [] {
      var n := |picks| - 1;
      LoopStaysReadable(w, picks[..n], original, keyOf, fates);
      var before := MoveAll(w, picks[..n], keyOf, fates);
      if picks[n].1.bytes.Some? {
        assert picks[n].0 in original && picks[n].1.bytes.value == original[picks[n].0];
        assert Faithful(fates(n));
        MoveStaysReadable(before.0, picks[n].0, original, keyOf, fates(n));
      }
    }
  }

  /** Content-addressed keys are needed: of two different images under one key the first is lost. */
  lemma CollidingKeysLoseAnImage(a: Id, b: Id, x: Bytes, y: Bytes, key: string, fate: Fate)
    requires a != b && x != y && FaultFree(fate)
    ensures var keyOf := (id: Id) => key;
            var original := map[a := x, b := y];
            var start := World(map[a := Row(Some(x), None), b := Row(Some(y), None)], map[], []);
            var first := MoveOne(start, a, key, x, fate);
            var second := MoveOne(first.0, b, key, y, fate);
            Readable(start, original, keyOf) && first.1 && second.1 && !Readable(second.0, original, keyOf)
  {
    var start := World(map[a := Row(Some(x), None), b := Row(Some(y), None)], map[], []);
    var first := MoveOne(start, a, key, x, fate);
    var second := MoveOne(first.0, b, key, y, fate);
    assert first.0.rows[a] == Row(None, Some(key));
    assert second.0.rows[a] == Row(None, Some(key)) && second.0.store[key] == y;
  }

  /**
   The read-back compares sizes, not bytes. So one move loses its image exactly when the store accepted
   the put but keeps something else, a get nevertheless reports the right size, and the row is cleared.
   */
  lemma MoveLosesExactly(w: World, id: Id, key: string, body: Bytes, fate: Fate)
    requires id in w.rows && w.rows[id] == Row(Some(body), None)
    ensures var v := MoveOne(w, id, key, body, fate).0;
            v.rows[id].bytes.None? && !(key in v.store && v.store[key] == body) <==>
              && fate.diesBefore >= 3 && fate.update != NotDone
              && fate.put.Corrupted? && fate.put.instead != Some(body)
              && (fate.get == Claims(|body|)
                  || (fate.get == Actual && fate.put.instead.Some? && |fate.put.instead.value| == |body|))
  {
  }

  /** A run goes on from a row exactly when it was put, read back at its size and cleared, and all that was heard. */
  lemma GoesOnExactly(w: World, id: Id, key: string, body: Bytes, fate: Fate)
    requires id in w.rows
    ensures var (v, ok) := MoveOne(w, id, key, body, fate);
            ok <==> v.log == w.log + [Put(key, body), ReadBack(key, |body|), Cleared(id, key)] && fate.update == Done
    ensures MoveOne(w, id, key, body, fate).1 ==> MoveOne(w, id, key, body, fate).0.rows[id] == Row(None, Some(key))
  {
    assert w.log + [Put(key, body)] + [ReadBack(key, |body|)] + [Cleared(id, key)]
        == w.log + [Put(key, body), ReadBack(key, |body|), Cleared(id, key)];
  }

  lemma SnapshotOfReadable(w: World, table: Table, picks: seq<(Id, Row)>, limit: nat, original: map<Id, Bytes>,
                           keyOf: Id -> string)
    requires Readable(w, original, keyOf) && Snapshot(w, table, picks, limit)
    ensures Pending(w, picks, 0, original)
  {
  }

  /** Over any runs with crashes, lost replies and failures no image is ever lost. */
  lemma {:induction false} ImagesAreNeverLost(start: World, runs: seq<RunScript>, original: map<Id, Bytes>,
                                              keyOf: Id -> string)
    requires Readable(start, original, keyOf) && ContentAddressed(original, keyOf) && History(start, runs, keyOf)
    requires forall i :: 0 <= i < |runs| ==> FaithfulRun(runs[i])
    ensures Readable(RunAll(start, runs, keyOf), original, keyOf)
    decreases |runs|
  {
    hide Readable, Snapshot, Pending, MoveAll, ContentAddressed, FaithfulRun;
    if runs != [] {
      var n := |runs| - 1;
      ImagesAreNeverLost(start, runs[..n], original, keyOf);
      var w, r := RunAll(start, runs[..n], keyOf), runs[n];
      RunStaysReadable(w, r, original, keyOf);
    }
  }

  lemma RunStaysReadable(w: World, r: RunScript, original: map<Id, Bytes>, keyOf: Id -> string)
    requires Readable(w, original, keyOf) && ContentAddressed(original, keyOf) && CanRun(w, r, keyOf) && FaithfulRun(r)
    ensures Readable(RunOnce(w, r, keyOf), original, keyOf)
  {
    hide Readable, Snapshot, Pending, MoveAll, ContentAddressed;
    SnapshotOfReadable(w, EventImages, r.events, r.limit, original, keyOf);
    LoopStaysReadable(w, r.events, original, keyOf, r.eventFates);
    var mid := MoveAll(w, r.events, keyOf, r.eventFates);
    if mid.1 {
      SnapshotOfReadable(mid.0, OrganizationImages, r.organizations, r.limit, original, keyOf);
      LoopStaysReadable(mid.0, r.organizations, original, keyOf, r.organizationFates);
    }
  }

  /** Every row still holds its bytes and nothing has been moved. */
  ghost predicate Untouched(w: World, original: map<Id, Bytes>) {
    w.rows.Keys == original.Keys && forall id :: id in original ==> w.rows[id] == Row(Some(original[id]), None)
  }

  ghost predicate FaithfulHistory(start: World, runs: seq<RunScript>, keyOf: Id -> string) {
    History(start, runs, keyOf) && forall i :: 0 <= i < |runs| ==> FaithfulRun(runs[i])
  }

  const FAULTLESS := Fate(3, Stored, Actual, Done)

  /** A run that finds one row to move and moves it. */
  function RunOf(id: Id, row: Row): RunScript {
    RunScript(if id.table == EventImages then [(id, row)] else [], if id.table == EventImages then [] else [(id, row)],
              1, n => FAULTLESS, n => FAULTLESS)
  }

  lemma OneRowRun(w: World, id: Id, body: Bytes, keyOf: Id -> string)
    requires id in w.rows && w.rows[id] == Row(Some(body), None)
    ensures CanRun(w, RunOf(id, w.rows[id]), keyOf) && FaithfulRun(RunOf(id, w.rows[id]))
    ensures var t := RunOnce(w, RunOf(id, w.rows[id]), keyOf);
            t.rows == w.rows[id := Row(None, Some(keyOf(id)))] && t.store == w.store[keyOf(id) := body]
  {
    hide MoveOne;
    var r := RunOf(id, w.rows[id]);
    var moved := MoveOne(w, id, keyOf(id), body, FAULTLESS);
    FaultlessMove(w, id, keyOf(id), body);
    LoopOfOne(w, id, w.rows[id], keyOf, n => FAULTLESS);
    assert r.events == [] ==> MoveAll(w, r.events, keyOf, r.eventFates) == (w, true);
    assert r.organizations == [] ==> MoveAll(moved.0, r.organizations, keyOf, r.organizationFates) == (moved.0, true);
  }

  lemma FaultlessMove(w: World, id: Id, key: string, body: Bytes)
    requires id in w.rows
    ensures var moved := MoveOne(w, id, key, body, FAULTLESS);
            moved.1 && moved.0.rows == w.rows[id := Row(None, Some(key))] && moved.0.store == w.store[key := body]
  {
  }

  lemma LoopOfOne(w: World, id: Id, row: Row, keyOf: Id -> string, fates: nat -> Fate)
    requires row.bytes.Some?
    ensures MoveAll(w, [(id, row)], keyOf, fates) == MoveOne(w, id, keyOf(id), row.bytes.value, fates(0))
  {
    hide MoveOne;
    assert [(id, row)][..0] == [];
  }

  /** Two rows with different bytes and one key: two faultless runs, and the first row's image is gone. */
  lemma CollisionLoses(start: World, original: map<Id, Bytes>, keyOf: Id -> string, a: Id, b: Id)
    returns (runs: seq<RunScript>)
    requires Untouched(start, original) && a in original && b in original
    requires keyOf(a) == keyOf(b) && original[a] != original[b]
    ensures FaithfulHistory(start, runs, keyOf) && !Readable(RunAll(start, runs, keyOf), original, keyOf)
  {
    hide RunOnce, CanRun, FaithfulRun, RunOf;
    var r1 := RunOf(a, start.rows[a]);
    OneRowRun(start, a, original[a], keyOf);
    var mid := RunOnce(start, r1, keyOf);
    assert mid.rows[b] == start.rows[b];
    var r2 := RunOf(b, mid.rows[b]);
    OneRowRun(mid, b, original[b], keyOf);
    runs := [r1, r2];
    TwoRuns(start, r1, r2, keyOf);
    var end := RunOnce(mid, r2, keyOf);
    assert end.rows[a] == Row(None, Some(keyOf(a))) && end.store[keyOf(a)] == original[b];
  }

  lemma TwoRuns(start: World, r1: RunScript, r2: RunScript, keyOf: Id -> string)
    requires CanRun(start, r1, keyOf) && CanRun(RunOnce(start, r1, keyOf), r2, keyOf)
    ensures History(start, [r1, r2], keyOf)
    ensures RunAll(start, [r1, r2], keyOf) == RunOnce(RunOnce(start, r1, keyOf), r2, keyOf)
  {
    hide RunOnce, CanRun;
    assert [r1, r2][..1] == [r1] && [r1][..0] == [];
    assert RunAll(start, [r1], keyOf) == RunOnce(start, r1, keyOf);
    assert History(start, [r1], keyOf);
  }

  lemma UntouchedIsReadable(start: World, original: map<Id, Bytes>, keyOf: Id -> string)
    requires Untouched(start, original)
    ensures Readable(start, original, keyOf)
  {
  }

  /**
   From rows still holding their bytes, every faithful history leaves every image readable if and only
   if equal keys mean equal content.
   */
  lemma ImagesAreSafeExactly(start: World, original: map<Id, Bytes>, keyOf: Id -> string)
    requires Untouched(start, original)
    ensures (forall runs :: FaithfulHistory(start, runs, keyOf) ==>
               Readable(RunAll(start, runs, keyOf), original, keyOf))
       <==> ContentAddressed(original, keyOf)
  {
    hide Readable, History, RunAll, FaithfulRun;
    if ContentAddressed(original, keyOf) {
      UntouchedIsReadable(start, original, keyOf);
      forall runs | FaithfulHistory(start, runs, keyOf) ensures Readable(RunAll(start, runs, keyOf), original, keyOf) {
        ImagesAreNeverLost(start, runs, original, keyOf);
      }
    } else {
      var a, b :| a in original && b in original && keyOf(a) == keyOf(b) && original[a] != original[b];
      var runs := CollisionLoses(start, original, keyOf, a, b);
    }
  }

  // ---------------------------------------------------------------------------------------
  // Progress

  predicate FaultFree(f: Fate) { f.diesBefore >= 3 && f.put == Stored && f.get == Actual && f.update == Done }

  function LeftIn(w: World, table: Table): set<Id> {
    set id | id in w.rows && id.table == table && w.rows[id].storageKey.None?
  }

  function PickedIds(picks: seq<(Id, Row)>): set<Id> { set i | 0 <= i < |picks| :: picks[i].0 }

  function Min(a: nat, b: nat): nat { if a <= b then a else b }

  /** A fault-free run that takes as many rows as the limit and the table allow. */
  ghost predicate FullTable(w: World, table: Table, picks: seq<(Id, Row)>, limit: nat, fates: nat -> Fate) {
    Snapshot(w, table, picks, limit) && |picks| == Min(limit, |LeftIn(w, table)|) && forall n :: FaultFree(fates(n))
  }

  ghost predicate FullRun(w: World, r: RunScript, keyOf: Id -> string) {
    && FullTable(w, EventImages, r.events, r.limit, r.eventFates)
    && FullTable(MoveAll(w, r.events, keyOf, r.eventFates).0, OrganizationImages, r.organizations, r.limit,
                 r.organizationFates)
  }

  lemma MoveClears(w: World, id: Id, key: string, body: Bytes, fate: Fate)
    requires FaultFree(fate) && id in w.rows
    ensures MoveOne(w, id, key, body, fate).1
    ensures MoveOne(w, id, key, body, fate).0.rows == w.rows[id := Row(None, Some(key))]
  {
  }

  /** The rows after a fault-free loop: those picked are cleared, the others untouched. */
  function ClearedRows(w: World, picks: seq<(Id, Row)>, keyOf: Id -> string): map<Id, Row> {
    map id | id in w.rows :: if id in PickedIds(picks) then Row(None, Some(keyOf(id))) else w.rows[id]
  }

  lemma {:induction false} LoopClears(w: World, picks: seq<(Id, Row)>, keyOf: Id -> string, fates: nat -> Fate)
    requires forall i :: 0 <= i < |picks| ==> picks[i].0 in w.rows && picks[i].1.bytes.Some?
    requires forall n :: FaultFree(fates(n))
    ensures MoveAll(w, picks, keyOf, fates).1
    ensures MoveAll(w, picks, keyOf, fates).0.rows == ClearedRows(w, picks, keyOf)
    decreases |picks|
  {
    hide MoveOne, FaultFree;
    if picks == [] {
      assert ClearedRows(w, picks, keyOf) == w.rows;
    } else {
      var n := |picks| - 1;
      LoopClears(w, picks[..n], keyOf, fates);
      var before := MoveAll(w, picks[..n], keyOf, fates).0;
      assert FaultFree(fates(n));
      MoveClears(before, picks[n].0, keyOf(picks[n].0), picks[n].1.bytes.value, fates(n));
      assert PickedIds(picks) == PickedIds(picks[..n]) + {picks[n].0} by {
        assert forall i :: 0 <= i < n ==> picks[..n][i] == picks[i];
      }
    }
  }

  lemma {:induction false} DistinctPicks(picks: seq<(Id, Row)>)
    requires forall i, j :: 0 <= i < j < |picks| ==> picks[i].0 != picks[j].0
    ensures |PickedIds(picks)| == |picks|
    decreases |picks|
  {
    if picks == [] {
      assert PickedIds(picks) == {};
    } else {
      var n := |picks| - 1;
      DistinctPicks(picks[..n]);
      assert forall i :: 0 <= i < n ==> picks[..n][i] == picks[i];
      assert PickedIds(picks) == PickedIds(picks[..n]) + {picks[n].0};
    }
  }

  /** A full table pass clears exactly as many rows as the limit and the table allow, and no other table's. */
  lemma TableShrinks(w: World, table: Table, picks: seq<(Id, Row)>, limit: nat, keyOf: Id -> string, fates: nat -> Fate)
    requires OneHolder(w) && FullTable(w, table, picks, limit, fates)
    ensures var after := MoveAll(w, picks, keyOf, fates);
            && after.1 && OneHolder(after.0)
            && |LeftIn(after.0, table)| == |LeftIn(w, table)| - Min(limit, |LeftIn(w, table)|)
            && forall other :: other != table ==> LeftIn(after.0, other) == LeftIn(w, other)
  {
    hide MoveAll, FaultFree;
    LoopClears(w, picks, keyOf, fates);
    DistinctPicks(picks);
    var after := MoveAll(w, picks, keyOf, fates).0;
    var ids := PickedIds(picks);
    assert ids <= LeftIn(w, table);
    assert LeftIn(after, table) == LeftIn(w, table) - ids;
    forall other | other != table ensures LeftIn(after, other) == LeftIn(w, other) {
      assert forall id :: id in ids ==> id.table == table;
    }
  }

  function Left(w: World): nat { |LeftIn(w, EventImages)| + |LeftIn(w, OrganizationImages)| }

  /** A fault-free run leaves exactly what two limits' worth does not cover. */
  lemma RunShrinks(w: World, r: RunScript, keyOf: Id -> string)
    requires OneHolder(w) && FullRun(w, r, keyOf)
    ensures OneHolder(RunOnce(w, r, keyOf))
    ensures Left(RunOnce(w, r, keyOf)) == Left(w)
              - Min(r.limit, |LeftIn(w, EventImages)|) - Min(r.limit, |LeftIn(w, OrganizationImages)|)
  {
    hide MoveAll, LeftIn, OneHolder, FullTable;
    TableShrinks(w, EventImages, r.events, r.limit, keyOf, r.eventFates);
    var mid := MoveAll(w, r.events, keyOf, r.eventFates).0;
    TableShrinks(mid, OrganizationImages, r.organizations, r.limit, keyOf, r.organizationFates);
  }

  ghost predicate FullHistory(start: World, runs: seq<RunScript>, keyOf: Id -> string) {
    runs == [] ||
    (&& FullHistory(start, runs[..|runs| - 1], keyOf)
     && FullRun(RunAll(start, runs[..|runs| - 1], keyOf), runs[|runs| - 1], keyOf))
  }

  /**
   Fault-free runs with a limit of at least one empty the database of images within as many runs as there
   were rows.
   */
  lemma {:induction false} RunsEmptyTheDatabase(start: World, runs: seq<RunScript>, keyOf: Id -> string)
    requires OneHolder(start) && FullHistory(start, runs, keyOf)
    requires forall i :: 0 <= i < |runs| ==> runs[i].limit >= 1
    ensures OneHolder(RunAll(start, runs, keyOf))
    ensures Left(RunAll(start, runs, keyOf)) + |runs| <= Left(start) || Left(RunAll(start, runs, keyOf)) == 0
    decreases |runs|
  {
    hide OneHolder, FullRun, RunOnce, LeftIn;
    if runs != [] {
      var n := |runs| - 1;
      RunsEmptyTheDatabase(start, runs[..n], keyOf);
      RunShrinks(RunAll(start, runs[..n], keyOf), runs[n], keyOf);
    }
  }

  /**
   A fault-free run makes progress exactly when rows are left and its limit is not zero, as `--limit 0.5`
   makes it.
   */
  lemma ProgressExactly(w: World, r: RunScript, keyOf: Id -> string)
    requires OneHolder(w) && FullRun(w, r, keyOf)
    ensures Left(RunOnce(w, r, keyOf)) < Left(w) <==> r.limit >= 1 && Left(w) > 0
  {
    hide OneHolder, FullRun, RunOnce, LeftIn;
    RunShrinks(w, r, keyOf);
  }
}
