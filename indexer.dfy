/**
 * The label indexer (backend/src/indexer.rs). A per-collection task keeps a
 * forward index (`name=value` to the objects carrying that label) and a
 * reverse index (`value=name` to the same objects), each a sled tree whose
 * values are bincode-encoded lists of object references. The top-level
 * indexer starts one such task per collection it is told to watch.
 *
 * The index operations are specified by functions on a tree's entries
 * (`UpsertEntries`, `DownsertEntries`, `UpsertAll`, `DownsertAll`,
 * `EventSpec`); the methods that change the trees in place are proved to
 * match them.
 */
module Indexer {
  import opened Wrappers
  import opened Sled
  import opened Collections
  import opened Objects
  import opened Labels
  import Meta
  import Codecs
  import BackendErrors
  import Utf8

  type RefCodec = Codecs.Codec<seq<ObjectRef>>
  type MetaCodec = Codecs.Codec<Meta.Metadata>
  type Error = BackendErrors.MauveError

  datatype IndexerSignal = Watch(c: Collection) | Unwatch(c: Collection) | Rebuild(c: Collection) | Shutdown

  // ------------------------------------------------------------------
  // The abstract index

  /** The references stored under `k`, or none when the key is absent or does not decode. */
  function RefsAt(e: map<Bytes, Bytes>, k: Bytes, codec: RefCodec): seq<ObjectRef>
  {
    if k in e && codec.decode(e[k]).Ok? then codec.decode(e[k]).value else []
  }

  /** Every stored list decodes. */
  ghost predicate Decodable(e: map<Bytes, Bytes>, codec: RefCodec)
  {
    forall k :: k in e ==> codec.decode(e[k]).Ok?
  }

  /** Order-keeping removal of every occurrence of `x` (`Vec::retain(|y| y != x)`). */
  function Without(s: seq<ObjectRef>, x: ObjectRef): (r: seq<ObjectRef>)
    ensures forall y :: y in r <==> y in s && y != x
    ensures |r| <= |s|
    ensures x !in s ==> r == s
  {
    if s == [] then []
    else if s[0] == x then Without(s[1..], x)
    else [s[0]] + Without(s[1..], x)
  }

  /** Removal works piecewise, so the other references keep their order. */
  lemma {:induction false} WithoutAppend(a: seq<ObjectRef>, b: seq<ObjectRef>, x: ObjectRef)
    ensures Without(a + b, x) == Without(a, x) + Without(b, x)
    decreases |a|
  {
    if a == [] {
      assert a + b == b;
    } else {
      assert (a + b)[0] == a[0] && (a + b)[1..] == a[1..] + b;
      WithoutAppend(a[1..], b, x);
    }
  }

  // ------------------------------------------------------------------
  // upsert / downsert on one tree

  /** `upsert`: appends `or` to the list under the label, creating `[or]` when there is none. */
  function UpsertEntries(e: map<Bytes, Bytes>, labelstr: string, or: ObjectRef, codec: RefCodec): (r: Result<map<Bytes, Bytes>, Error>)
    ensures var k := Utf8.Encode(labelstr);
      r.Err? <==> k in e && codec.decode(e[k]).Err?
    ensures var k := Utf8.Encode(labelstr);
      r.Err? ==> r.error == BackendErrors.TxStorageError(BackendErrors.ReportableBug(codec.decode(e[k]).error))
    ensures r.Ok? ==> r.value.Keys == e.Keys + {Utf8.Encode(labelstr)}
    ensures r.Ok? ==> forall k :: k in e && k != Utf8.Encode(labelstr) ==> r.value[k] == e[k]
    ensures r.Ok? && Codecs.RoundTrips(codec) ==>
      RefsAt(r.value, Utf8.Encode(labelstr), codec) == RefsAt(e, Utf8.Encode(labelstr), codec) + [or]
  {
    var k := Utf8.Encode(labelstr);
    if k in e then
      match codec.decode(e[k])
      case Ok(refs) => Ok(e[k := codec.encode(refs + [or])])
      case Err(msg) => Err(BackendErrors.TxStorageError(BackendErrors.ReportableBug(msg)))
    else
      Ok(e[k := codec.encode([or])])
  }

  /**
   * `downsert`: a one-element list loses its label whatever that element
   * is; a longer (or empty) list loses every occurrence of `or` and is
   * stored again; an absent label is left alone.
   */
  function DownsertEntries(e: map<Bytes, Bytes>, labelstr: string, or: ObjectRef, codec: RefCodec): (r: Result<map<Bytes, Bytes>, Error>)
    ensures var k := Utf8.Encode(labelstr);
      r.Err? <==> k in e && codec.decode(e[k]).Err?
    ensures var k := Utf8.Encode(labelstr);
      r.Err? ==> r.error == BackendErrors.TxStorageError(BackendErrors.ReportableBug(codec.decode(e[k]).error))
    ensures Utf8.Encode(labelstr) !in e ==> r == Ok(e)
    ensures r.Ok? ==> forall k :: k != Utf8.Encode(labelstr) ==> (k in r.value <==> k in e) && (k in e ==> r.value[k] == e[k])
    ensures var k := Utf8.Encode(labelstr);
      k in e && codec.decode(e[k]).Ok? && |codec.decode(e[k]).value| == 1 ==> r == Ok(e - {k})
    ensures var k := Utf8.Encode(labelstr);
      r.Ok? && k in e && |RefsAt(e, k, codec)| != 1 && Codecs.RoundTrips(codec) ==>
        k in r.value && RefsAt(r.value, k, codec) == Without(RefsAt(e, k, codec), or)
  {
    var k := Utf8.Encode(labelstr);
    if k in e then
      match codec.decode(e[k])
      case Ok(refs) =>
        if |refs| == 1 then Ok(e - {k})
        else Ok(e[k := codec.encode(Without(refs, or))])
      case Err(msg) => Err(BackendErrors.TxStorageError(BackendErrors.ReportableBug(msg)))
    else
      Ok(e)
  }

  /** A label whose only reference is another object loses that reference too. */
  lemma DownsertDropsOtherObject(e: map<Bytes, Bytes>, labelstr: string, or: ObjectRef, other: ObjectRef, codec: RefCodec)
    requires Codecs.RoundTrips(codec) && other != or
    requires e == map[Utf8.Encode(labelstr) := codec.encode([other])]
    ensures DownsertEntries(e, labelstr, or, codec) == Ok(map[])
  {
    var k := Utf8.Encode(labelstr);
    assert codec.decode(e[k]) == Ok([other]);
    assert e - {k} == map[];
  }

  /** A label listing the object twice keeps its key, with an empty list. */
  lemma DownsertKeepsEmptyList(labelstr: string, or: ObjectRef, codec: RefCodec)
    requires Codecs.RoundTrips(codec)
    ensures var k := Utf8.Encode(labelstr);
      var after := DownsertEntries(map[k := codec.encode([or, or])], labelstr, or, codec);
      after.Ok? && k in after.value && RefsAt(after.value, k, codec) == []
  {
    var k := Utf8.Encode(labelstr);
    assert codec.decode(codec.encode([or, or])) == Ok([or, or]);
    assert Without([or, or], or) == [];
  }

  /** `upsert` does not deduplicate: indexing the same object twice lists it twice. */
  lemma UpsertTwice(e: map<Bytes, Bytes>, labelstr: string, or: ObjectRef, codec: RefCodec)
    requires Codecs.RoundTrips(codec) && Utf8.Encode(labelstr) !in e
    ensures var once := UpsertEntries(e, labelstr, or, codec);
      once.Ok? && UpsertEntries(once.value, labelstr, or, codec).Ok?
      && RefsAt(UpsertEntries(once.value, labelstr, or, codec).value, Utf8.Encode(labelstr), codec) == [or, or]
  {
  }

  // ------------------------------------------------------------------
  // upsert / downsert over all labels of an object

  /** The two index trees' entries after a run of updates, and the error that stopped it, if any. */
  datatype IndexState = IndexState(fwd: map<Bytes, Bytes>, rev: map<Bytes, Bytes>, err: Option<Error>)

  /** The loop of `process_event` for an insert: forward then reverse upsert per label, stopping at the first error. */
  function UpsertAll(fwd: map<Bytes, Bytes>, rev: map<Bytes, Bytes>, labels: seq<Label>, or: ObjectRef, codec: RefCodec): IndexState
    decreases |labels|
  {
    if labels == [] then IndexState(fwd, rev, None)
    else
      match UpsertEntries(fwd, ToFwd(labels[0]), or, codec)
      case Err(e) => IndexState(fwd, rev, Some(e))
      case Ok(f1) =>
        match UpsertEntries(rev, ToRev(labels[0]), or, codec)
        case Err(e) => IndexState(f1, rev, Some(e))
        case Ok(r1) => UpsertAll(f1, r1, labels[1..], or, codec)
  }

  /** The loop of `process_event` for a removal: forward then reverse downsert per label, stopping at the first error. */
  function DownsertAll(fwd: map<Bytes, Bytes>, rev: map<Bytes, Bytes>, labels: seq<Label>, or: ObjectRef, codec: RefCodec): IndexState
    decreases |labels|
  {
    if labels == [] then IndexState(fwd, rev, None)
    else
      match DownsertEntries(fwd, ToFwd(labels[0]), or, codec)
      case Err(e) => IndexState(fwd, rev, Some(e))
      case Ok(f1) =>
        match DownsertEntries(rev, ToRev(labels[0]), or, codec)
        case Err(e) => IndexState(f1, rev, Some(e))
        case Ok(r1) => DownsertAll(f1, r1, labels[1..], or, codec)
  }

  /** An upsert into a decodable tree succeeds and keeps it decodable, and never loses a reference. */
  lemma UpsertKeeps(e: map<Bytes, Bytes>, labelstr: string, or: ObjectRef, codec: RefCodec)
    requires Codecs.RoundTrips(codec) && Decodable(e, codec)
    ensures UpsertEntries(e, labelstr, or, codec).Ok?
    ensures Decodable(UpsertEntries(e, labelstr, or, codec).value, codec)
    ensures forall k, x :: x in RefsAt(e, k, codec) ==> x in RefsAt(UpsertEntries(e, labelstr, or, codec).value, k, codec)
  {
    var r := UpsertEntries(e, labelstr, or, codec).value;
    forall k, x | x in RefsAt(e, k, codec) ensures x in RefsAt(r, k, codec) {
      if k == Utf8.Encode(labelstr) {
        assert RefsAt(r, k, codec) == RefsAt(e, k, codec) + [or];
      }
    }
  }

  /**
   * With a round-tripping codec and decodable index trees, indexing an
   * object never fails, and afterwards every one of its labels lists it,
   * forward as `name=value` and reverse as `value=name`.
   */
  lemma {:induction false} UpsertAllIndexes(fwd: map<Bytes, Bytes>, rev: map<Bytes, Bytes>, labels: seq<Label>, or: ObjectRef, codec: RefCodec)
    requires Codecs.RoundTrips(codec) && Decodable(fwd, codec) && Decodable(rev, codec)
    ensures var s := UpsertAll(fwd, rev, labels, or, codec);
      s.err.None? && Decodable(s.fwd, codec) && Decodable(s.rev, codec)
    ensures var s := UpsertAll(fwd, rev, labels, or, codec);
      forall l :: l in labels ==> or in RefsAt(s.fwd, Utf8.Encode(ToFwd(l)), codec) && or in RefsAt(s.rev, Utf8.Encode(ToRev(l)), codec)
    ensures var s := UpsertAll(fwd, rev, labels, or, codec);
      (forall k, x :: x in RefsAt(fwd, k, codec) ==> x in RefsAt(s.fwd, k, codec))
      && (forall k, x :: x in RefsAt(rev, k, codec) ==> x in RefsAt(s.rev, k, codec))
    decreases |labels|
  {
    if labels != [] {
      var l := labels[0];
      UpsertKeeps(fwd, ToFwd(l), or, codec);
      UpsertKeeps(rev, ToRev(l), or, codec);
      var f1 := UpsertEntries(fwd, ToFwd(l), or, codec).value;
      var r1 := UpsertEntries(rev, ToRev(l), or, codec).value;
      UpsertAllIndexes(f1, r1, labels[1..], or, codec);
      var s := UpsertAll(fwd, rev, labels, or, codec);
      assert s == UpsertAll(f1, r1, labels[1..], or, codec);
      assert or in RefsAt(f1, Utf8.Encode(ToFwd(l)), codec);
      assert or in RefsAt(r1, Utf8.Encode(ToRev(l)), codec);
      forall m | m in labels
        ensures or in RefsAt(s.fwd, Utf8.Encode(ToFwd(m)), codec) && or in RefsAt(s.rev, Utf8.Encode(ToRev(m)), codec)
      {
        if m != l { assert m in labels[1..]; }
      }
    }
  }

  /**
   * A downsert into a decodable tree succeeds and keeps it decodable; it adds
   * no reference anywhere, and afterwards the label does not list `or`.
   */
  lemma DownsertRemoves(e: map<Bytes, Bytes>, labelstr: string, or: ObjectRef, codec: RefCodec)
    requires Codecs.RoundTrips(codec) && Decodable(e, codec)
    ensures DownsertEntries(e, labelstr, or, codec).Ok?
    ensures Decodable(DownsertEntries(e, labelstr, or, codec).value, codec)
    ensures or !in RefsAt(DownsertEntries(e, labelstr, or, codec).value, Utf8.Encode(labelstr), codec)
    ensures forall k, x :: x in RefsAt(DownsertEntries(e, labelstr, or, codec).value, k, codec) ==> x in RefsAt(e, k, codec)
  {
    var k := Utf8.Encode(labelstr);
    var r := DownsertEntries(e, labelstr, or, codec).value;
    if k in e && |RefsAt(e, k, codec)| != 1 {
      assert RefsAt(r, k, codec) == Without(RefsAt(e, k, codec), or);
    }
    forall j, x | x in RefsAt(r, j, codec) ensures x in RefsAt(e, j, codec) {
      if j == k && k in e && |RefsAt(e, k, codec)| != 1 {
        assert RefsAt(r, k, codec) == Without(RefsAt(e, k, codec), or);
      }
    }
  }

  /**
   * With a round-tripping codec and decodable index trees, un-indexing an
   * object never fails, and afterwards none of its labels lists it, forward
   * or reverse; no reference is added anywhere.
   */
  lemma {:induction false} DownsertAllUnindexes(fwd: map<Bytes, Bytes>, rev: map<Bytes, Bytes>, labels: seq<Label>, or: ObjectRef, codec: RefCodec)
    requires Codecs.RoundTrips(codec) && Decodable(fwd, codec) && Decodable(rev, codec)
    ensures var s := DownsertAll(fwd, rev, labels, or, codec);
      s.err.None? && Decodable(s.fwd, codec) && Decodable(s.rev, codec)
    ensures var s := DownsertAll(fwd, rev, labels, or, codec);
      forall l :: l in labels ==> or !in RefsAt(s.fwd, Utf8.Encode(ToFwd(l)), codec) && or !in RefsAt(s.rev, Utf8.Encode(ToRev(l)), codec)
    ensures var s := DownsertAll(fwd, rev, labels, or, codec);
      (forall k, x :: x in RefsAt(s.fwd, k, codec) ==> x in RefsAt(fwd, k, codec))
      && (forall k, x :: x in RefsAt(s.rev, k, codec) ==> x in RefsAt(rev, k, codec))
    decreases |labels|
  {
    if labels != [] {
      var l := labels[0];
      DownsertRemoves(fwd, ToFwd(l), or, codec);
      DownsertRemoves(rev, ToRev(l), or, codec);
      var f1 := DownsertEntries(fwd, ToFwd(l), or, codec).value;
      var r1 := DownsertEntries(rev, ToRev(l), or, codec).value;
      DownsertAllUnindexes(f1, r1, labels[1..], or, codec);
      var s := DownsertAll(fwd, rev, labels, or, codec);
      assert s == DownsertAll(f1, r1, labels[1..], or, codec);
      forall m | m in labels
        ensures or !in RefsAt(s.fwd, Utf8.Encode(ToFwd(m)), codec) && or !in RefsAt(s.rev, Utf8.Encode(ToRev(m)), codec)
      {
        if m != l { assert m in labels[1..]; }
      }
    }
  }

  // ------------------------------------------------------------------
  // process_event

  /** A change to the data tree, as sled's `watch_prefix` reports it. */
  datatype Event = Insert(key: Bytes, value: Bytes) | Remove(key: Bytes)

  /** The metadata tree, the two index trees and the result after processing one event. */
  datatype EventOutcome = EventOutcome(meta: map<Bytes, Bytes>, fwd: map<Bytes, Bytes>, rev: map<Bytes, Bytes>, result: Result<(), Error>)

  /** `process_event`, on the trees' contents. */
  function EventSpec(ev: Event, collection: string, meta: map<Bytes, Bytes>, fwd: map<Bytes, Bytes>, rev: map<Bytes, Bytes>,
                     metaCodec: MetaCodec, refCodec: RefCodec): EventOutcome
  {
    match Utf8.Decode(ev.key)
    case Err(u) => EventOutcome(meta, fwd, rev, Err(BackendErrors.Utf8Error(u)))
    case Ok(objName) =>
      var or := Objects.New(collection, objName);
      var meta' := if ev.Insert? then meta else meta - {ev.key};
      if ev.key !in meta then EventOutcome(meta', fwd, rev, Ok(()))
      else
        match metaCodec.decode(meta[ev.key])
        case Err(msg) => EventOutcome(meta', fwd, rev, Err(BackendErrors.BincodeError(msg)))
        case Ok(m) =>
          var s := if ev.Insert? then UpsertAll(fwd, rev, m.labels, or, refCodec) else DownsertAll(fwd, rev, m.labels, or, refCodec);
          EventOutcome(meta', s.fwd, s.rev, if s.err.Some? then Err(s.err.value) else Ok(()))
  }

  /** Without metadata for the object an event changes no index (a removal still drops the absent metadata key, a no-op). */
  lemma EventWithoutMetadata(ev: Event, collection: string, meta: map<Bytes, Bytes>, fwd: map<Bytes, Bytes>, rev: map<Bytes, Bytes>,
                             metaCodec: MetaCodec, refCodec: RefCodec)
    requires ev.key !in meta
    ensures var o := EventSpec(ev, collection, meta, fwd, rev, metaCodec, refCodec);
      o.meta == meta && o.fwd == fwd && o.rev == rev
  {
  }

  /** After an insert event whose metadata decodes, every label of the object lists its reference in both indexes. */
  lemma InsertEventIndexes(key: Bytes, value: Bytes, collection: string, meta: map<Bytes, Bytes>, fwd: map<Bytes, Bytes>, rev: map<Bytes, Bytes>,
                           metaCodec: MetaCodec, refCodec: RefCodec)
    requires Utf8.IsUtf8(key) && key in meta && metaCodec.decode(meta[key]).Ok?
    requires Codecs.RoundTrips(refCodec) && Decodable(fwd, refCodec) && Decodable(rev, refCodec)
    ensures var o := EventSpec(Insert(key, value), collection, meta, fwd, rev, metaCodec, refCodec);
      var or := Objects.New(collection, Utf8.Decode(key).value);
      o.result.Ok? && o.meta == meta
      && forall l :: l in metaCodec.decode(meta[key]).value.labels ==>
        or in RefsAt(o.fwd, Utf8.Encode(ToFwd(l)), refCodec) && or in RefsAt(o.rev, Utf8.Encode(ToRev(l)), refCodec)
  {
    var or := Objects.New(collection, Utf8.Decode(key).value);
    UpsertAllIndexes(fwd, rev, metaCodec.decode(meta[key]).value.labels, or, refCodec);
  }

  /** After a remove event whose metadata decodes, no label of the object lists its reference in either index. */
  lemma RemoveEventUnindexes(key: Bytes, collection: string, meta: map<Bytes, Bytes>, fwd: map<Bytes, Bytes>, rev: map<Bytes, Bytes>,
                             metaCodec: MetaCodec, refCodec: RefCodec)
    requires Utf8.IsUtf8(key) && key in meta && metaCodec.decode(meta[key]).Ok?
    requires Codecs.RoundTrips(refCodec) && Decodable(fwd, refCodec) && Decodable(rev, refCodec)
    ensures var o := EventSpec(Remove(key), collection, meta, fwd, rev, metaCodec, refCodec);
      var or := Objects.New(collection, Utf8.Decode(key).value);
      o.result.Ok? && o.meta == meta - {key}
      && (forall l :: l in metaCodec.decode(meta[key]).value.labels ==>
            or !in RefsAt(o.fwd, Utf8.Encode(ToFwd(l)), refCodec) && or !in RefsAt(o.rev, Utf8.Encode(ToRev(l)), refCodec))
      && (forall k, x :: x in RefsAt(o.fwd, k, refCodec) ==> x in RefsAt(fwd, k, refCodec))
      && (forall k, x :: x in RefsAt(o.rev, k, refCodec) ==> x in RefsAt(rev, k, refCodec))
  {
    var or := Objects.New(collection, Utf8.Decode(key).value);
    DownsertAllUnindexes(fwd, rev, metaCodec.decode(meta[key]).value.labels, or, refCodec);
  }

  /** A remove event drops the object's metadata entry, whatever else happens. */
  lemma RemoveEventDropsMetadata(key: Bytes, collection: string, meta: map<Bytes, Bytes>, fwd: map<Bytes, Bytes>, rev: map<Bytes, Bytes>,
                                 metaCodec: MetaCodec, refCodec: RefCodec)
    requires Utf8.IsUtf8(key)
    ensures EventSpec(Remove(key), collection, meta, fwd, rev, metaCodec, refCodec).meta == meta - {key}
  {
  }

  // ------------------------------------------------------------------
  // The per-collection task

  /** `CollectionIndexer`: the collection it indexes (its signal channel is left out). */
  datatype CollectionIndexer = CollectionIndexer(collection: Collection)
  {
    /** `upsert`, as one sled transaction on `target`. */
    method Upsert(target: Tree, labelstr: string, or: ObjectRef, codec: RefCodec) returns (r: Result<(), Error>)
      modifies target
      ensures var spec := UpsertEntries(old(target.entries), labelstr, or, codec);
        (spec.Ok? ==> r.Ok? && target.entries == spec.value)
        && (spec.Err? ==> r == Err(spec.error) && target.entries == old(target.entries))
    {
      var k := Utf8.Encode(labelstr);
      var got := target.Get(k);
      match got {
        case Some(bytes) =>
          match codec.decode(bytes) {
            case Ok(refs) =>
              var refs' := refs + [or];
              var _ := target.Insert(k, codec.encode(refs'));
            case Err(msg) =>
              return Err(BackendErrors.TxStorageError(BackendErrors.ReportableBug(msg)));
          }
        case None =>
          var _ := target.Insert(k, codec.encode([or]));
      }
      r := Ok(());
    }

    /** `downsert`, as one sled transaction on `target`. */
    method Downsert(target: Tree, labelstr: string, or: ObjectRef, codec: RefCodec) returns (r: Result<(), Error>)
      modifies target
      ensures var spec := DownsertEntries(old(target.entries), labelstr, or, codec);
        (spec.Ok? ==> r.Ok? && target.entries == spec.value)
        && (spec.Err? ==> r == Err(spec.error) && target.entries == old(target.entries))
    {
      var k := Utf8.Encode(labelstr);
      var got := target.Get(k);
      match got {
        case Some(bytes) =>
          match codec.decode(bytes) {
            case Ok(refs) =>
              if |refs| == 1 {
                var _ := target.Remove(k);
                return Ok(());
              }
              var kept := Without(refs, or);
              var _ := target.Insert(k, codec.encode(kept));
            case Err(msg) =>
              return Err(BackendErrors.TxStorageError(BackendErrors.ReportableBug(msg)));
          }
        case None =>
      }
      r := Ok(());
    }

    /** `process_event`: keeps both indexes in step with one change to the data tree. */
    method ProcessEvent(ev: Event, metaCodec: MetaCodec, refCodec: RefCodec) returns (r: Result<(), Error>)
      requires collection.Valid()
      modifies collection.meta, collection.indexFwd, collection.indexRev
      ensures var o := EventSpec(ev, collection.name, old(collection.meta.entries), old(collection.indexFwd.entries),
                                 old(collection.indexRev.entries), metaCodec, refCodec);
        collection.meta.entries == o.meta && collection.indexFwd.entries == o.fwd
        && collection.indexRev.entries == o.rev && r == o.result
    {
      var c := collection;
      var decoded := Utf8.Decode(ev.key);
      if decoded.Err? {
        return Err(BackendErrors.Utf8Error(decoded.error));
      }
      var or := Objects.New(c.name, decoded.value);
      var bytes: Option<Bytes>;
      if ev.Insert? {
        bytes := c.meta.Get(ev.key);
      } else {
        bytes := c.meta.Remove(ev.key);
      }
      if bytes.None? {
        return Ok(());
      }
      var m := metaCodec.decode(bytes.value);
      if m.Err? {
        return Err(BackendErrors.BincodeError(m.error));
      }
      var labels := m.value.labels;
      ghost var f0, r0 := c.indexFwd.entries, c.indexRev.entries;
      ghost var target := if ev.Insert? then UpsertAll(f0, r0, labels, or, refCodec) else DownsertAll(f0, r0, labels, or, refCodec);
      var i := 0;
      while i < |labels|
        invariant 0 <= i <= |labels|
        invariant c.meta.entries == (if ev.Insert? then old(c.meta.entries) else old(c.meta.entries) - {ev.key})
        invariant target == if ev.Insert? then UpsertAll(c.indexFwd.entries, c.indexRev.entries, labels[i..], or, refCodec)
                            else DownsertAll(c.indexFwd.entries, c.indexRev.entries, labels[i..], or, refCodec)
      {
        var l := labels[i];
        assert labels[i..][0] == l && labels[i..][1..] == labels[i + 1..];
        var res: Result<(), Error>;
        if ev.Insert? {
          res := this.Upsert(c.indexFwd, ToFwd(l), or, refCodec);
          if res.Err? { return res; }
          res := this.Upsert(c.indexRev, ToRev(l), or, refCodec);
          if res.Err? { return res; }
        } else {
          res := this.Downsert(c.indexFwd, ToFwd(l), or, refCodec);
          if res.Err? { return res; }
          res := this.Downsert(c.indexRev, ToRev(l), or, refCodec);
          if res.Err? { return res; }
        }
        i := i + 1;
      }
      r := Ok(());
    }
  }

  // ------------------------------------------------------------------
  // The top-level indexer

  type Watching = map<string, seq<IndexerSignal>>

  /** One signal's effect on the watched collections (with the signals forwarded to each) and the tasks started, in order. */
  function Step(w: Watching, started: seq<Collection>, sig: IndexerSignal): (Watching, seq<Collection>)
  {
    match sig
    case Watch(c) => if c.name !in w then (w[c.name := []], started + [c]) else (w, started)
    case Unwatch(c) => if c.name in w then (w[c.name := w[c.name] + [sig]], started) else (w, started)
    case Rebuild(_) => (w, started)
    case Shutdown => (w, started)
  }

  /** The effect of handling `signals` in order. */
  function AfterSignals(w: Watching, started: seq<Collection>, signals: seq<IndexerSignal>): (Watching, seq<Collection>)
    decreases |signals|
  {
    if signals == [] then (w, started)
    else
      var p := AfterSignals(w, started, signals[..|signals| - 1]);
      Step(p.0, p.1, signals[|signals| - 1])
  }

  /** The names of the collections the signals ask to watch. */
  function WatchedNames(signals: seq<IndexerSignal>): set<string>
  {
    if signals == [] then {}
    else
      var last := signals[|signals| - 1];
      WatchedNames(signals[..|signals| - 1]) + (if last.Watch? then {last.c.name} else {})
  }

  /** The `Unwatch` signals for collection `name`, in order. */
  function Unwatches(signals: seq<IndexerSignal>, name: string): seq<IndexerSignal>
  {
    if signals == [] then []
    else
      var last := signals[|signals| - 1];
      Unwatches(signals[..|signals| - 1], name) + (if last.Unwatch? && last.c.name == name then [last] else [])
  }

  /** The watched names grow by exactly the names asked to be watched. */
  lemma {:induction false} AfterSignalsKeys(w: Watching, started: seq<Collection>, signals: seq<IndexerSignal>)
    ensures AfterSignals(w, started, signals).0.Keys == w.Keys + WatchedNames(signals)
    decreases |signals|
  {
    if signals != [] {
      AfterSignalsKeys(w, started, signals[..|signals| - 1]);
    }
  }

  /** A collection watched from the start has every later `Unwatch` for it forwarded to its task, in order. */
  lemma {:induction false} AfterSignalsForwards(w: Watching, started: seq<Collection>, signals: seq<IndexerSignal>, name: string)
    requires name in w
    ensures name in AfterSignals(w, started, signals).0
    ensures AfterSignals(w, started, signals).0[name] == w[name] + Unwatches(signals, name)
    decreases |signals|
  {
    if signals != [] {
      AfterSignalsForwards(w, started, signals[..|signals| - 1], name);
    }
  }

  /**
   * Exactly one task is started per newly watched collection: the tasks
   * started before are kept, and the new ones are for distinct collections,
   * none watched before, covering every name newly asked to be watched.
   */
  lemma {:induction false} AfterSignalsStarted(w: Watching, started: seq<Collection>, signals: seq<IndexerSignal>)
    ensures var r := AfterSignals(w, started, signals);
      |started| <= |r.1| && r.1[..|started|] == started
    ensures var r := AfterSignals(w, started, signals);
      forall i :: |started| <= i < |r.1| ==> r.1[i].name in WatchedNames(signals) && r.1[i].name !in w
    ensures var r := AfterSignals(w, started, signals);
      forall i, j :: |started| <= i < j < |r.1| ==> r.1[i].name != r.1[j].name
    ensures var r := AfterSignals(w, started, signals);
      forall n :: n in WatchedNames(signals) && n !in w ==> exists i :: |started| <= i < |r.1| && r.1[i].name == n
    decreases |signals|
  {
    if signals != [] {
      var init := signals[..|signals| - 1];
      var last := signals[|signals| - 1];
      AfterSignalsStarted(w, started, init);
      AfterSignalsKeys(w, started, init);
      AfterSignalsKeys(w, started, signals);
      var p := AfterSignals(w, started, init);
      var r := AfterSignals(w, started, signals);
      assert r == Step(p.0, p.1, last);
      if last.Watch? && last.c.name !in p.0 {
        assert r.1 == p.1 + [last.c];
        assert r.1[|p.1|].name == last.c.name;
        forall n | n in WatchedNames(signals) && n !in w
          ensures exists i :: |started| <= i < |r.1| && r.1[i].name == n
        {
          if n != last.c.name {
            assert n in WatchedNames(init);
            var i :| |started| <= i < |p.1| && p.1[i].name == n;
            assert r.1[i] == p.1[i];
          }
        }
      } else {
        assert r.1 == p.1;
      }
    }
  }

  /**
   * `Indexer`: the collections it watches, each with the signals forwarded
   * to its task's channel, and the collections `run` started a task for, in
   * order. The liveness report, the shutdown fan-out and the tasks
   * themselves are left out.
   */
  class Indexer {
    var watching: Watching
    var started: seq<Collection>

    /** `initialize`: every listed collection is watched from the start, with nothing forwarded yet. */
    constructor (names: seq<string>)
      ensures watching == (map n | n in names :: []) && started == []
    {
      watching := map n | n in names :: [];
      started := [];
    }

    /** One signal of `Indexer::run`; `stop` is true for `Shutdown`, which ends the loop. */
    method Handle(sig: IndexerSignal) returns (stop: bool)
      modifies this
      ensures stop <==> sig.Shutdown?
      ensures sig.Watch? && sig.c.name !in old(watching) ==>
        watching == old(watching)[sig.c.name := []] && started == old(started) + [sig.c]
      ensures sig.Watch? && sig.c.name in old(watching) ==>
        watching == old(watching) && started == old(started)
      ensures sig.Unwatch? && sig.c.name in old(watching) ==>
        watching == old(watching)[sig.c.name := old(watching)[sig.c.name] + [sig]] && started == old(started)
      ensures !sig.Watch? && !(sig.Unwatch? && sig.c.name in old(watching)) ==>
        watching == old(watching) && started == old(started)
    {
      stop := false;
      match sig {
        case Watch(c) =>
          if c.name !in watching {
            watching := watching[c.name := []];
            started := started + [c];
          }
        case Unwatch(c) =>
          if c.name in watching {
            watching := watching[c.name := watching[c.name] + [sig]];
          }
        case Shutdown =>
          stop := true;
        case Rebuild(_) =>
      }
    }

    /**
     * `Indexer::run` on its channel: the first `queued` signals are already
     * waiting when it starts and are drained unhandled; the rest are handled
     * in order, up to and including the first `Shutdown`. `handled` is how
     * far into the channel it got.
     */
    method Run(channel: seq<IndexerSignal>, queued: nat) returns (handled: nat)
      requires queued <= |channel|
      modifies this
      ensures queued <= handled <= |channel|
      ensures forall j :: queued <= j < handled - 1 ==> !channel[j].Shutdown?
      ensures handled == |channel| || (queued < handled && channel[handled - 1].Shutdown?)
      ensures (watching, started) == AfterSignals(old(watching), old(started), channel[queued..handled])
      ensures watching.Keys == old(watching.Keys) + WatchedNames(channel[queued..handled])
    {
      handled := queued;
      while handled < |channel|
        invariant queued <= handled <= |channel|
        invariant forall j :: queued <= j < handled ==> !channel[j].Shutdown?
        invariant (watching, started) == AfterSignals(old(watching), old(started), channel[queued..handled])
      {
        assert channel[queued..handled + 1][..handled - queued] == channel[queued..handled];
        var stop := Handle(channel[handled]);
        handled := handled + 1;
        if stop {
          AfterSignalsKeys(old(watching), old(started), channel[queued..handled]);
          return;
        }
      }
      AfterSignalsKeys(old(watching), old(started), channel[queued..handled]);
    }
  }
}
