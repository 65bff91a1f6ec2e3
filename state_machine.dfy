/**
 * The Raft state machine (cluster/src/state_machine/mod.rs, machine.rs and
 * snapshot.rs). `StateMachineData` is what the write lock guards: the last
 * applied log id, the last applied membership and the object store itself;
 * `StateMachineStore` adds the snapshot counter and the current snapshot.
 *
 * Applying a committed entry records its log id, runs the object-store
 * request it carries (an object put with `replace` set, an object delete or
 * a collection delete) and answers one response per entry. Building a
 * snapshot reads the state machine and never changes it.
 */
module StateMachine {
  import opened Wrappers
  import opened Text
  import opened Sled
  import opened Collections
  import opened Backends
  import opened RaftTypes
  import opened Ints

  /** `SnapshotMeta`: what a snapshot covers, and its id. */
  datatype SnapshotMeta = SnapshotMeta(lastLogId: Option<LogId>, lastMembership: StoredMembership, snapshotId: string)

  /** `StoredSnapshot`: the snapshot the store keeps. */
  datatype StoredSnapshot = StoredSnapshot(meta: SnapshotMeta, data: Bytes)

  /** openraft's `Snapshot`: a meta and a cursor over a copy of the data. */
  datatype Snapshot = Snapshot(meta: SnapshotMeta, snapshot: Bytes)

  /** The response to a request: the object's path, or the deleted collection's name. */
  function RequestResponse(req: Request): (r: Response)
    ensures !r.Empty?
  {
    match req
    case PutObject(collection, name, _) => PutObjectDone(collection + "/" + name)
    case DeleteObject(collection, name) => DeleteObjectDone(collection + "/" + name)
    case DeleteCollection(name) => DeleteCollectionDone(name)
  }

  /** The response `apply` pushes for an entry. */
  function ResponseFor(e: Entry): (r: Response)
    ensures r.Empty? <==> !e.payload.Normal?
  {
    match e.payload
    case Blank => Empty
    case MembershipChange(_) => Empty
    case Normal(req) => RequestResponse(req)
  }

  /** The collection a request is about. */
  function RequestCollection(req: Request): string
  {
    match req
    case PutObject(collection, _, _) => collection
    case DeleteObject(collection, _) => collection
    case DeleteCollection(name) => name
  }

  /**
   * The object store's contents after running a request, as a function of
   * the contents before: a put opens the collection and overwrites the
   * object in its data tree, a delete opens it and removes the object, and a
   * collection delete drops its four trees.
   */
  function ViewAfter(v: Contents, req: Request): Contents
  {
    match req
    case PutObject(collection, name, obj) =>
      var w, dn := Opened(v, collection), TreeName(DataTree, collection);
      w[dn := TreeIn(w, dn)[Key(name) := obj]]
    case DeleteObject(collection, name) =>
      var w, dn := Opened(v, collection), TreeName(DataTree, collection);
      w[dn := TreeIn(w, dn) - {Key(name)}]
    case DeleteCollection(name) =>
      v - CollectionTrees(name)
  }

  /** The signals a request sends the indexer: a `Watch`, and for a collection delete an `Unwatch` after it. */
  ghost predicate SignalsSent(before: seq<Indexer.IndexerSignal>, after: seq<Indexer.IndexerSignal>, req: Request)
  {
    match req
    case PutObject(collection, _, _) => WatchSent(before, after, collection)
    case DeleteObject(collection, _) => WatchSent(before, after, collection)
    case DeleteCollection(name) =>
      |after| == |before| + 2 && after[..|before|] == before
      && after[|before|].Watch? && after[|before|].c.name == name
      && after[|before| + 1] == Indexer.Unwatch(after[|before|].c)
  }

  /** What a signal tells the indexer, without the tree handles it carries: its kind and the collection's name. */
  datatype SignalShape = Watched(name: string) | Unwatched(name: string) | OtherSignal

  function Shape(sig: Indexer.IndexerSignal): SignalShape
  {
    match sig
    case Watch(c) => Watched(c.name)
    case Unwatch(c) => Unwatched(c.name)
    case _ => OtherSignal
  }

  /** The shapes of a run of signals, one for one. */
  function Shapes(sigs: seq<Indexer.IndexerSignal>): (r: seq<SignalShape>)
    ensures |r| == |sigs| && forall i :: 0 <= i < |sigs| ==> r[i] == Shape(sigs[i])
  {
    seq(|sigs|, i requires 0 <= i < |sigs| => Shape(sigs[i]))
  }

  /** The signals a request sends: `get_collection`'s `Watch`, and for a collection delete the `Unwatch` after it. */
  function RequestSignals(req: Request): (r: seq<SignalShape>)
    ensures |r| == (if req.DeleteCollection? then 2 else 1) && r[0] == Watched(RequestCollection(req))
  {
    match req
    case PutObject(collection, _, _) => [Watched(collection)]
    case DeleteObject(collection, _) => [Watched(collection)]
    case DeleteCollection(name) => [Watched(name), Unwatched(name)]
  }

  /** The signals a batch sends: each normal entry's request's in turn. */
  function BatchSignals(entries: seq<Entry>): seq<SignalShape>
    decreases |entries|
  {
    if entries == [] then []
    else
      var e := entries[|entries| - 1];
      var w := BatchSignals(entries[..|entries| - 1]);
      if e.payload.Normal? then w + RequestSignals(e.payload.req) else w
  }

  /** From position `from` on, every `Unwatch` comes right after the `Watch` of the same collection. */
  ghost predicate UnwatchesFollowWatch(sigs: seq<Indexer.IndexerSignal>, from: nat)
  {
    forall j :: from <= j < |sigs| && sigs[j].Unwatch? ==> from < j && sigs[j - 1] == Indexer.Watch(sigs[j].c)
  }

  /** One request's signals extend a run of signals as `RequestSignals` says, keeping `Unwatch`es paired. */
  lemma SignalsStep(s0: seq<Indexer.IndexerSignal>, mid: seq<Indexer.IndexerSignal>, after: seq<Indexer.IndexerSignal>,
                    req: Request)
    requires |s0| <= |mid| && mid[..|s0|] == s0 && UnwatchesFollowWatch(mid, |s0|)
    requires SignalsSent(mid, after, req)
    ensures |s0| <= |after| && after[..|s0|] == s0
    ensures Shapes(after[|s0|..]) == Shapes(mid[|s0|..]) + RequestSignals(req)
    ensures UnwatchesFollowWatch(after, |s0|)
  {
    assert after[..|mid|] == mid;
    assert after[..|s0|] == mid[..|s0|];
    assert after[|s0|..] == mid[|s0|..] + after[|mid|..];
    assert Shapes(after[|mid|..]) == RequestSignals(req);
  }

  /**
   * The signals `sigs` are those of `s0` followed by what the batch sends: `s0` is a
   * prefix, the rest has the shapes `BatchSignals` gives, and every new `Unwatch`
   * follows the `Watch` of the same collection.
   */
  ghost predicate SignalsAfterBatch(s0: seq<Indexer.IndexerSignal>, sigs: seq<Indexer.IndexerSignal>, entries: seq<Entry>)
  {
    |s0| <= |sigs| && sigs[..|s0|] == s0 && Shapes(sigs[|s0|..]) == BatchSignals(entries)
    && UnwatchesFollowWatch(sigs, |s0|)
  }

  /** Applying one more entry extends the batch's signals as that entry's payload says. */
  lemma SignalsAfterEntry(s0: seq<Indexer.IndexerSignal>, mid: seq<Indexer.IndexerSignal>,
                          after: seq<Indexer.IndexerSignal>, entries: seq<Entry>, e: Entry)
    requires SignalsAfterBatch(s0, mid, entries)
    requires e.payload.Normal? ==> SignalsSent(mid, after, e.payload.req)
    requires !e.payload.Normal? ==> after == mid
    ensures SignalsAfterBatch(s0, after, entries + [e])
  {
    assert (entries + [e])[..|entries + [e]| - 1] == entries;
    if e.payload.Normal? {
      SignalsStep(s0, mid, after, e.payload.req);
    }
  }

  /** A batch in two parts sends the first part's signals, then the second's. */
  lemma {:induction false} BatchSignalsAppend(a: seq<Entry>, b: seq<Entry>)
    ensures BatchSignals(a + b) == BatchSignals(a) + BatchSignals(b)
    decreases |b|
  {
    if b == [] {
      assert a + b == a;
    } else {
      var init := b[..|b| - 1];
      assert (a + b)[..|a + b| - 1] == a + init;
      assert (a + b)[|a + b| - 1] == b[|b| - 1];
      BatchSignalsAppend(a, init);
    }
  }

  /** Applying a batch in two parts is applying the first part, then the second. */
  lemma {:induction false} StoreAfterAppend(v: Contents, a: seq<Entry>, b: seq<Entry>)
    ensures StoreAfter(v, a + b) == StoreAfter(StoreAfter(v, a), b)
    decreases |b|
  {
    if b == [] {
      assert a + b == a;
    } else {
      var init := b[..|b| - 1];
      assert (a + b)[..|a + b| - 1] == a + init;
      assert (a + b)[|a + b| - 1] == b[|b| - 1];
      StoreAfterAppend(v, a, init);
    }
  }

  /** The object store's contents after a batch of entries: each normal entry's request in turn. */
  function StoreAfter(v: Contents, entries: seq<Entry>): Contents
    decreases |entries|
  {
    if entries == [] then v
    else
      var e := entries[|entries| - 1];
      var w := StoreAfter(v, entries[..|entries| - 1]);
      if e.payload.Normal? then ViewAfter(w, e.payload.req) else w
  }

  /** No request changes a tree of another collection. */
  lemma ViewAfterOthers(v: Contents, req: Request)
    ensures ViewAfter(v, req) - CollectionTrees(RequestCollection(req)) == v - CollectionTrees(RequestCollection(req))
  {
    OpenedKeeps(v, RequestCollection(req));
    if !req.DeleteCollection? {
      var c := RequestCollection(req);
      assert TreeName(DataTree, c) in CollectionTrees(c);
    }
  }

  /** A put overwrites the object in its collection's data tree and leaves the collection's other trees as they were. */
  lemma ViewAfterPut(v: Contents, collection: string, name: string, obj: Bytes)
    ensures var r := ViewAfter(v, PutObject(collection, name, obj));
      TreeIn(r, TreeName(DataTree, collection)) == TreeIn(v, TreeName(DataTree, collection))[Key(name) := obj]
      && TreeIn(r, TreeName(MetaTree, collection)) == TreeIn(v, TreeName(MetaTree, collection))
      && TreeIn(r, TreeName(FwdTree, collection)) == TreeIn(v, TreeName(FwdTree, collection))
      && TreeIn(r, TreeName(RevTree, collection)) == TreeIn(v, TreeName(RevTree, collection))
  {
    OpenedKeeps(v, collection);
    TreeNamesDistinct(collection);
  }

  /** A delete removes the object from its collection's data tree and leaves the collection's other trees as they were. */
  lemma ViewAfterDelete(v: Contents, collection: string, name: string)
    ensures var r := ViewAfter(v, DeleteObject(collection, name));
      TreeIn(r, TreeName(DataTree, collection)) == TreeIn(v, TreeName(DataTree, collection)) - {Key(name)}
      && TreeIn(r, TreeName(MetaTree, collection)) == TreeIn(v, TreeName(MetaTree, collection))
      && TreeIn(r, TreeName(FwdTree, collection)) == TreeIn(v, TreeName(FwdTree, collection))
      && TreeIn(r, TreeName(RevTree, collection)) == TreeIn(v, TreeName(RevTree, collection))
  {
    OpenedKeeps(v, collection);
    TreeNamesDistinct(collection);
  }

  /** After a collection delete none of its four trees exists. */
  lemma ViewAfterDeleteCollection(v: Contents, name: string)
    ensures forall k :: TreeName(k, name) !in ViewAfter(v, DeleteCollection(name))
  {
  }

  /** Deleting an object just put is deleting it: the put leaves no trace in the contents. */
  lemma DeleteUndoesPut(v: Contents, collection: string, name: string, obj: Bytes)
    ensures ViewAfter(ViewAfter(v, PutObject(collection, name, obj)), DeleteObject(collection, name))
            == ViewAfter(v, DeleteObject(collection, name))
  {
    var w, dn := Opened(v, collection), TreeName(DataTree, collection);
    var p := w[dn := TreeIn(w, dn)[Key(name) := obj]];
    OpenedKeeps(v, collection);
    assert Opened(p, collection) == p by {
      OpenedIdempotent(p, collection);
    }
    assert TreeIn(w, dn)[Key(name) := obj] - {Key(name)} == TreeIn(w, dn) - {Key(name)};
  }

  /** The last of two puts of an object wins. */
  lemma LastPutWins(v: Contents, collection: string, name: string, a: Bytes, b: Bytes)
    ensures ViewAfter(ViewAfter(v, PutObject(collection, name, a)), PutObject(collection, name, b))
            == ViewAfter(v, PutObject(collection, name, b))
  {
    var w, dn := Opened(v, collection), TreeName(DataTree, collection);
    var p := w[dn := TreeIn(w, dn)[Key(name) := a]];
    OpenedKeeps(v, collection);
    assert Opened(p, collection) == p by {
      OpenedIdempotent(p, collection);
    }
    assert TreeIn(p, dn) == TreeIn(w, dn)[Key(name) := a];
    assert TreeIn(w, dn)[Key(name) := a][Key(name) := b] == TreeIn(w, dn)[Key(name) := b];
  }

  /** The last applied membership after a batch: that of the last membership entry, or `m` when there is none. */
  function MembershipAfter(m: StoredMembership, entries: seq<Entry>): StoredMembership
    decreases |entries|
  {
    if entries == [] then m
    else
      var e := entries[|entries| - 1];
      if e.payload.MembershipChange? then StoredMembership(Some(e.logId), e.payload.mem)
      else MembershipAfter(m, entries[..|entries| - 1])
  }

  /** `format!("{}-{}-{}", leader_id, index, idx)`, or `format!("--{}", idx)` before anything was applied. */
  function SnapshotId(last: Option<LogId>, idx: nat): string
  {
    match last
    case Some(l) => LeaderText(l.leader) + "-" + NatToString(l.index) + "-" + NatToString(idx)
    case None => "--" + NatToString(idx)
  }

  /** Writing the data tree of an opened collection, the other trees aside, is `ViewAfter` of a put. */
  lemma PutOnSplit(v0: Contents, rest: Contents, collection: string, name: string, obj: Bytes, e0: map<Bytes, Bytes>)
    requires Opened(v0, collection) == rest[TreeName(DataTree, collection) := e0]
    ensures rest[TreeName(DataTree, collection) := e0[Key(name) := obj]] == ViewAfter(v0, PutObject(collection, name, obj))
  {
  }

  /** Removing from the data tree of an opened collection, the other trees aside, is `ViewAfter` of a delete. */
  lemma DeleteOnSplit(v0: Contents, rest: Contents, collection: string, name: string, e0: map<Bytes, Bytes>)
    requires Opened(v0, collection) == rest[TreeName(DataTree, collection) := e0]
    ensures rest[TreeName(DataTree, collection) := e0 - {Key(name)}] == ViewAfter(v0, DeleteObject(collection, name))
  {
  }

  /** `get_collection(collection)` then `put_object(name, object, true)`. */
  method PutReplacing(b: Backend, collection: string, name: string, obj: Bytes)
    requires b.db.Valid()
    modifies b, b.db, b.db.Repr
    ensures b.db.Valid()
    ensures old(b.db.Repr) <= b.db.Repr && fresh(b.db.Repr - old(b.db.Repr))
    ensures WatchSent(old(b.signals), b.signals, collection)
    ensures b.db.View() == ViewAfter(old(b.db.View()), PutObject(collection, name, obj))
  {
    ghost var v0 := b.db.View();
    var c := b.GetCollection(collection);
    ghost var dn, e0 := TreeName(DataTree, collection), c.data.entries;
    ghost var rest := b.db.ViewWithout(dn);
    assert b.db.View() == rest[dn := e0] by {
      b.db.ViewSplit(dn);
    }
    var _ := c.PutObject(name, obj, true);
    assert b.db.View() == rest[dn := e0[Key(name) := obj]] by {
      assert b.db.ViewWithout(dn) == rest;
      b.db.ViewSplit(dn);
    }
    PutOnSplit(v0, rest, collection, name, obj, e0);
  }

  /** `get_collection(collection)` then `delete_object(name)`. */
  method DeleteFrom(b: Backend, collection: string, name: string)
    requires b.db.Valid()
    modifies b, b.db, b.db.Repr
    ensures b.db.Valid()
    ensures old(b.db.Repr) <= b.db.Repr && fresh(b.db.Repr - old(b.db.Repr))
    ensures WatchSent(old(b.signals), b.signals, collection)
    ensures b.db.View() == ViewAfter(old(b.db.View()), DeleteObject(collection, name))
  {
    ghost var v0 := b.db.View();
    var c := b.GetCollection(collection);
    ghost var dn, e0 := TreeName(DataTree, collection), c.data.entries;
    ghost var rest := b.db.ViewWithout(dn);
    assert b.db.View() == rest[dn := e0] by {
      b.db.ViewSplit(dn);
    }
    var _ := c.DeleteObject(name);
    assert b.db.View() == rest[dn := e0 - {Key(name)}] by {
      assert b.db.ViewWithout(dn) == rest;
      b.db.ViewSplit(dn);
    }
    DeleteOnSplit(v0, rest, collection, name, e0);
  }

  /** `StateMachineData`. */
  class StateMachineData {
    var lastApplied: Option<LogId>
    var lastMembership: StoredMembership
    const backend: Backend

    /** A state machine over `backend` that has applied nothing. */
    constructor (backend: Backend)
      ensures this.backend == backend && lastApplied.None? && lastMembership == DefaultMembership
    {
      this.backend := backend;
      lastApplied := None;
      lastMembership := DefaultMembership;
    }

    /**
     * The body of `apply`'s loop for one entry. The `unwrap` calls cannot
     * fail here: the model's backend has no I/O errors and `put_object`
     * with `replace` set always succeeds.
     */
    method ApplyEntry(e: Entry) returns (resp: Response)
      requires backend.db.Valid()
      modifies this, backend, backend.db, backend.db.Repr
      ensures backend.db.Valid()
      ensures resp == ResponseFor(e)
      ensures lastApplied == Some(e.logId)
      ensures lastMembership == if e.payload.MembershipChange? then StoredMembership(Some(e.logId), e.payload.mem)
                                else old(lastMembership)
      ensures old(backend.db.Repr) <= backend.db.Repr && fresh(backend.db.Repr - old(backend.db.Repr))
      ensures !e.payload.Normal? ==> backend.db.View() == old(backend.db.View()) && backend.signals == old(backend.signals)
      ensures e.payload.Normal? ==> backend.db.View() == ViewAfter(old(backend.db.View()), e.payload.req)
                                    && SignalsSent(old(backend.signals), backend.signals, e.payload.req)

    {
      lastApplied := Some(e.logId);
      match e.payload {
        case Blank =>
          resp := Empty;
        case MembershipChange(mem) =>
          lastMembership := StoredMembership(Some(e.logId), mem);
          resp := Empty;
        case Normal(req) =>
          resp := ApplyRequest(backend, req);
      }
    }
  }

  /** The object-store half of applying a normal entry. */
  method ApplyRequest(b: Backend, req: Request) returns (resp: Response)
    requires b.db.Valid()
    modifies b, b.db, b.db.Repr
    ensures b.db.Valid()
    ensures resp == RequestResponse(req)
    ensures old(b.db.Repr) <= b.db.Repr && fresh(b.db.Repr - old(b.db.Repr))
    ensures b.db.View() == ViewAfter(old(b.db.View()), req)
    ensures SignalsSent(old(b.signals), b.signals, req)
  {
    match req {
      case PutObject(collection, name, obj) =>
        PutReplacing(b, collection, name, obj);
        resp := PutObjectDone(collection + "/" + name);
      case DeleteObject(collection, name) =>
        DeleteFrom(b, collection, name);
        resp := DeleteObjectDone(collection + "/" + name);
      case DeleteCollection(name) =>
        var n := b.DeleteCollection(name);
        resp := DeleteCollectionDone(n);
    }
  }

  /** `StateMachineStore`. */
  class StateMachineStore {
    const stateMachine: StateMachineData
    /** The `AtomicU64` snapshot counter. */
    var snapshotIdx: u64
    var currentSnapshot: Option<StoredSnapshot>

    constructor (sm: StateMachineData)
      ensures stateMachine == sm && snapshotIdx == 0 && currentSnapshot.None?
    {
      stateMachine := sm;
      snapshotIdx := 0;
      currentSnapshot := None;
    }

    /** `applied_state`: the last applied log id and membership, read without change. */
    method AppliedState() returns (last: Option<LogId>, mem: StoredMembership)
      ensures last == stateMachine.lastApplied && mem == stateMachine.lastMembership
    {
      last := stateMachine.lastApplied;
      mem := stateMachine.lastMembership;
    }

    /**
     * `apply`: one response per entry, in order; the last applied log id
     * is that of the last entry, and the last membership that of the last
     * membership entry.
     */
    method Apply(entries: seq<Entry>) returns (output: seq<Response>)
      requires stateMachine.backend.db.Valid()
      modifies stateMachine, stateMachine.backend, stateMachine.backend.db, stateMachine.backend.db.Repr
      ensures stateMachine.backend.db.Valid()
      ensures |output| == |entries| && forall i :: 0 <= i < |entries| ==> output[i] == ResponseFor(entries[i])
      ensures entries != [] ==> stateMachine.lastApplied == Some(entries[|entries| - 1].logId)
      ensures entries == [] ==> stateMachine.lastApplied == old(stateMachine.lastApplied)
      ensures stateMachine.lastMembership == MembershipAfter(old(stateMachine.lastMembership), entries)
      ensures stateMachine.backend.db.View() == StoreAfter(old(stateMachine.backend.db.View()), entries)
      ensures SignalsAfterBatch(old(stateMachine.backend.signals), stateMachine.backend.signals, entries)
    {
      var sm := stateMachine;
      ghost var s0 := sm.backend.signals;
      output := [];
      var i := 0;
      while i < |entries|
        invariant 0 <= i <= |entries| && |output| == i
        invariant sm.backend.db.Valid()
        invariant forall j :: 0 <= j < i ==> output[j] == ResponseFor(entries[j])
        invariant i > 0 ==> sm.lastApplied == Some(entries[i - 1].logId)
        invariant i == 0 ==> sm.lastApplied == old(sm.lastApplied)
        invariant sm.lastMembership == MembershipAfter(old(sm.lastMembership), entries[..i])
        invariant old(sm.backend.db.Repr) <= sm.backend.db.Repr && fresh(sm.backend.db.Repr - old(sm.backend.db.Repr))
        invariant sm.backend.db.View() == StoreAfter(old(sm.backend.db.View()), entries[..i])
        invariant SignalsAfterBatch(s0, sm.backend.signals, entries[..i])
      {
        assert entries[..i + 1][..i] == entries[..i];
        assert entries[..i + 1] == entries[..i] + [entries[i]];
        ghost var mid := sm.backend.signals;
        var resp := sm.ApplyEntry(entries[i]);
        SignalsAfterEntry(s0, mid, sm.backend.signals, entries[..i], entries[i]);
        output := output + [resp];
        i := i + 1;
      }
      assert entries[..i] == entries;
    }

    /** `get_snapshot_builder`: the store itself (a clone of the `Arc`). */
    method GetSnapshotBuilder() returns (b: StateMachineStore)
      ensures b == this
    {
      b := this;
    }

    /** `begin_receiving_snapshot`: an empty buffer to receive into. */
    method BeginReceivingSnapshot() returns (buf: Bytes)
      ensures buf == []
    {
      buf := [];
    }

    /** `get_current_snapshot`: `None`, or the stored meta with a copy of the stored data. */
    method GetCurrentSnapshot() returns (r: Option<Snapshot>)
      ensures currentSnapshot.None? <==> r.None?
      ensures currentSnapshot.Some? ==>
        r == Some(Snapshot(currentSnapshot.value.meta, currentSnapshot.value.data))
    {
      match currentSnapshot
      case Some(s) => r := Some(Snapshot(s.meta, s.data));
      case None => r := None;
    }

    /**
     * `build_snapshot`. `exported` is the JSON encoding of the exported
     * object store, or the serializer's error, which is returned before the
     * counter moves. Otherwise the counter goes up by one (wrapping like the
     * `u64` it is), the snapshot is named after the last applied log id and
     * the new counter value, replaces the current snapshot and is returned.
     */
    method BuildSnapshot(exported: Result<Bytes, string>) returns (r: Result<Snapshot, string>)
      modifies this
      ensures exported.Err? ==> r == Err(exported.error) && snapshotIdx == old(snapshotIdx)
                                && currentSnapshot == old(currentSnapshot)
      ensures exported.Ok? ==>
        var sm := stateMachine;
        var meta := SnapshotMeta(sm.lastApplied, sm.lastMembership, SnapshotId(sm.lastApplied, snapshotIdx));
        snapshotIdx == WrappingAdd(old(snapshotIdx), 1)
        && r == Ok(Snapshot(meta, exported.value))
        && currentSnapshot == Some(StoredSnapshot(meta, exported.value))
    {
      if exported.Err? {
        return Err(exported.error);
      }
      var data := exported.value;
      var last := stateMachine.lastApplied;
      var membership := stateMachine.lastMembership;
      snapshotIdx := WrappingAdd(snapshotIdx, 1);
      var id := SnapshotId(last, snapshotIdx);
      var meta := SnapshotMeta(last, membership, id);
      currentSnapshot := Some(StoredSnapshot(meta, data));
      r := Ok(Snapshot(meta, data));
    }
  }

  // ---------------------------------------------------------------- lemmas

  /**
   * The last applied membership is the initial one when the batch has no
   * membership entry, and otherwise that of the last membership entry.
   */
  lemma {:induction false} MembershipAfterIsLatest(m: StoredMembership, entries: seq<Entry>)
    ensures MembershipAfter(m, entries) == m || exists i :: 0 <= i < |entries| && entries[i].payload.MembershipChange?
    ensures (forall i :: 0 <= i < |entries| ==> !entries[i].payload.MembershipChange?) ==> MembershipAfter(m, entries) == m
    ensures forall i :: 0 <= i < |entries| && entries[i].payload.MembershipChange?
                        && (forall j :: i < j < |entries| ==> !entries[j].payload.MembershipChange?) ==>
              MembershipAfter(m, entries) == StoredMembership(Some(entries[i].logId), entries[i].payload.mem)
    decreases |entries|
  {
    if entries != [] {
      var init := entries[..|entries| - 1];
      MembershipAfterIsLatest(m, init);
      forall i | 0 <= i < |entries| && entries[i].payload.MembershipChange?
                 && (forall j :: i < j < |entries| ==> !entries[j].payload.MembershipChange?)
        ensures MembershipAfter(m, entries) == StoredMembership(Some(entries[i].logId), entries[i].payload.mem)
      {
        if i < |entries| - 1 {
          assert !entries[|entries| - 1].payload.MembershipChange?;
          assert init[i] == entries[i];
          assert forall j :: i < j < |init| ==> init[j] == entries[j];
        }
      }
      if forall i :: 0 <= i < |entries| ==> !entries[i].payload.MembershipChange? {
        assert forall i :: 0 <= i < |init| ==> init[i] == entries[i];
      }
    }
  }

  /**
   * Applying entries in log order never leaves the membership ahead of the
   * last applied log id, when it was not ahead before.
   */
  lemma MembershipNotAhead(m: StoredMembership, last: Option<LogId>, entries: seq<Entry>)
    requires OptLe(m.logId, last)
    requires forall i :: 0 <= i < |entries| ==> OptLe(last, Some(entries[i].logId))
    requires forall i, j :: 0 <= i < j < |entries| ==> LogIdLe(entries[i].logId, entries[j].logId)
    ensures OptLe(MembershipAfter(m, entries).logId, if entries == [] then last else Some(entries[|entries| - 1].logId))
  {
    MembershipAfterIsLatest(m, entries);
    if entries != [] {
      var end := Some(entries[|entries| - 1].logId);
      var after := MembershipAfter(m, entries);
      if after == m {
        OptLeTotalOrder(m.logId, last, end);
      } else {
        var i := LastMembershipEntry(entries);
        OptLeTotalOrder(after.logId, after.logId, end);
        if i < |entries| - 1 {
          assert LogIdLe(entries[i].logId, entries[|entries| - 1].logId);
        }
      }
    }
  }

  /** The position of the last membership entry of a batch that has one. */
  function LastMembershipEntry(entries: seq<Entry>): (i: nat)
    requires exists k :: 0 <= k < |entries| && entries[k].payload.MembershipChange?
    ensures i < |entries| && entries[i].payload.MembershipChange?
    ensures forall j :: i < j < |entries| ==> !entries[j].payload.MembershipChange?
    decreases |entries|
  {
    if entries[|entries| - 1].payload.MembershipChange? then |entries| - 1
    else
      var init := entries[..|entries| - 1];
      var k :| 0 <= k < |entries| && entries[k].payload.MembershipChange?;
      assert init[k] == entries[k];
      LastMembershipEntry(init)
  }

  /** Digits after a dash: two such strings are equal only when their digits are. */
  lemma DashDigitsSuffix(p1: string, d1: string, p2: string, d2: string)
    requires forall i :: 0 <= i < |d1| ==> '0' <= d1[i] <= '9'
    requires forall i :: 0 <= i < |d2| ==> '0' <= d2[i] <= '9'
    requires p1 + "-" + d1 == p2 + "-" + d2
    ensures d1 == d2
  {
    var s := p1 + "-" + d1;
    assert s[|s| - |d1| - 1] == '-';
    assert s[|s| - |d2| - 1] == '-';
    assert d1 == s[|s| - |d1|..];
    assert d2 == s[|s| - |d2|..];
  }

  /** Snapshots built with different counter values have different ids, whatever was applied. */
  lemma SnapshotIdsDistinct(last1: Option<LogId>, idx1: nat, last2: Option<LogId>, idx2: nat)
    requires idx1 != idx2
    ensures SnapshotId(last1, idx1) != SnapshotId(last2, idx2)
  {
    var d1, d2 := NatToString(idx1), NatToString(idx2);
    var p1 := match last1 case Some(l) => LeaderText(l.leader) + "-" + NatToString(l.index) case None => "-";
    var p2 := match last2 case Some(l) => LeaderText(l.leader) + "-" + NatToString(l.index) case None => "-";
    assert SnapshotId(last1, idx1) == p1 + "-" + d1;
    assert SnapshotId(last2, idx2) == p2 + "-" + d2;
    if SnapshotId(last1, idx1) == SnapshotId(last2, idx2) {
      DashDigitsSuffix(p1, d1, p2, d2);
      NatToStringInjective(idx1, idx2);
    }
  }
}
