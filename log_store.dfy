/**
 * The in-memory Raft log store (cluster/src/log_store/mod.rs and
 * cluster/src/log_store/ops.rs; cluster/src/storage.rs holds the same
 * methods again). The log is an ordered map from log index to entry; next
 * to it the store remembers the last purged log id, the committed log id
 * and the vote.
 *
 * openraft asks that the log never has a hole. The store does not check
 * it; it keeps it, given that appends continue the log (`AppendNextKeepsHoleFree`),
 * and truncation and purging cannot make one (`TruncateKeepsHoleFree`,
 * `PurgeKeepsHoleFree`).
 */
module LogStore {
  import opened Wrappers
  import opened Ordering
  import opened RaftTypes

  /** The start or end of a `RangeBounds<u64>`. */
  datatype Bound = Included(at: nat) | Excluded(at: nat) | Unbounded

  predicate AboveStart(k: nat, lo: Bound)
  {
    match lo
    case Included(n) => n <= k
    case Excluded(n) => n < k
    case Unbounded => true
  }

  predicate BelowEnd(k: nat, hi: Bound)
  {
    match hi
    case Included(n) => k <= n
    case Excluded(n) => k < n
    case Unbounded => true
  }

  predicate InRange(k: nat, lo: Bound, hi: Bound) { AboveStart(k, lo) && BelowEnd(k, hi) }

  /** `BTreeMap::range` panics on a start after the end, and on an empty range excluded at both ends. */
  predicate RangeOk(lo: Bound, hi: Bound)
  {
    match (lo, hi)
    case (Excluded(a), Excluded(b)) => a < b
    case (Included(a), Included(b)) => a <= b
    case (Included(a), Excluded(b)) => a <= b
    case (Excluded(a), Included(b)) => a <= b
    case _ => true
  }

  predicate IndexLess(x: nat, y: nat) { x < y }

  lemma IndexLessStrictTotal()
    ensures StrictTotal(IndexLess)
  {
  }

  /** The greatest of a non-empty set of indices: where `iter().next_back()` lands. */
  ghost function MaxKey(s: set<nat>): (m: nat)
    requires s != {}
    ensures m in s && forall k :: k in s ==> k <= m
    decreases |s|
  {
    var x :| x in s;
    if s == {x} then x
    else
      var rest := s - {x};
      assert rest != {};
      var m := MaxKey(rest);
      assert forall k :: k in s ==> k == x || k in rest;
      if x < m then m else x
  }

  /** The least of a non-empty set of indices. */
  ghost function MinKey(s: set<nat>): (m: nat)
    requires s != {}
    ensures m in s && forall k :: k in s ==> m <= k
    decreases |s|
  {
    var x :| x in s;
    if s == {x} then x
    else
      var rest := s - {x};
      assert rest != {};
      var m := MinKey(rest);
      assert forall k :: k in s ==> k == x || k in rest;
      if m < x then m else x
  }

  /** No index is missing between the first and the last. */
  ghost predicate HoleFree(keys: set<nat>)
  {
    keys == {} || forall k: nat :: MinKey(keys) <= k <= MaxKey(keys) ==> k in keys
  }

  /** Every entry is stored under its own log index. */
  ghost predicate KeyedByIndex(log: map<nat, Entry>)
  {
    forall k :: k in log ==> log[k].logId.index == k
  }

  /** The log after inserting each entry, in order, under its index. */
  function AfterAppend(log: map<nat, Entry>, entries: seq<Entry>): map<nat, Entry>
    decreases |entries|
  {
    if entries == [] then log
    else
      var e := entries[|entries| - 1];
      AfterAppend(log, entries[..|entries| - 1])[e.logId.index := e]
  }

  /** The last of `entries` with index `k`, if any. */
  function LastAt(entries: seq<Entry>, k: nat): (r: Option<Entry>)
    ensures r.Some? ==> r.value in entries && r.value.logId.index == k
    ensures r.None? <==> forall e :: e in entries ==> e.logId.index != k
    decreases |entries|
  {
    if entries == [] then None
    else if entries[|entries| - 1].logId.index == k then Some(entries[|entries| - 1])
    else
      var r := LastAt(entries[..|entries| - 1], k);
      assert forall e :: e in entries ==> e in entries[..|entries| - 1] || e == entries[|entries| - 1];
      r
  }

  /** The entries below index `n` (truncation from `n`). */
  function Below(log: map<nat, Entry>, n: nat): map<nat, Entry>
  {
    map k | k in log && k < n :: log[k]
  }

  /** The entries above index `n` (purging up to `n`). */
  function Above(log: map<nat, Entry>, n: nat): map<nat, Entry>
  {
    map k | k in log && n < k :: log[k]
  }

  /** `LogState`. */
  datatype LogState = LogState(lastLogId: Option<LogId>, lastPurgedLogId: Option<LogId>)

  /** `LogStoreInner`. */
  class LogStoreInner {
    var lastPurged: Option<LogId>
    var log: map<nat, Entry>
    var committed: Option<LogId>
    var vote: Option<Vote>

    /** `Default`: an empty log and nothing purged, committed or voted. */
    constructor()
      ensures lastPurged.None? && log == map[] && committed.None? && vote.None?
      ensures KeyedByIndex(log) && HoleFree(log.Keys)
    {
      lastPurged := None;
      log := map[];
      committed := None;
      vote := None;
    }

    /**
     * `try_get_log_entries`: the stored entries whose index is in the range,
     * in ascending index order, with `keys` listing their indices; missing indices
     * are simply skipped.
     */
    method TryGetLogEntries(lo: Bound, hi: Bound) returns (r: seq<Entry>, keys: seq<nat>)
      requires RangeOk(lo, hi)
      ensures Ascending(keys, IndexLess) && |r| == |keys|
      ensures forall k :: k in keys <==> k in log && InRange(k, lo, hi)
      ensures forall i :: 0 <= i < |r| ==> keys[i] in log && r[i] == log[keys[i]]
    {
      IndexLessStrictTotal();
      var ks := Enumerate<nat>((set k | k in log && InRange(k, lo, hi)), IndexLess);
      keys := ks;
      r := [];
      var i := 0;
      while i < |ks|
        invariant 0 <= i <= |ks| && |r| == i
        invariant forall j :: 0 <= j < i ==> ks[j] in log && r[j] == log[ks[j]]
      {
        assert ks[i] in ks;
        r := r + [log[ks[i]]];
        i := i + 1;
      }
    }

    /** `get_log_state`: the id of the entry with the greatest index, or the last purged id when the log is empty. */
    method GetLogState() returns (r: LogState)
      ensures r.lastPurgedLogId == lastPurged
      ensures log == map[] ==> r.lastLogId == lastPurged
      ensures log != map[] ==> r.lastLogId == Some(log[MaxKey(log.Keys)].logId)
    {
      IndexLessStrictTotal();
      var keys := Enumerate<nat>(log.Keys, IndexLess);
      var last: Option<LogId> := None;
      if |keys| > 0 {
        var k := keys[|keys| - 1];
        assert k in keys;
        forall x | x in log.Keys ensures x <= k {
          var j :| 0 <= j < |keys| && keys[j] == x;
          assert j == |keys| - 1 || IndexLess(keys[j], keys[|keys| - 1]);
        }
        assert k == MaxKey(log.Keys);
        last := Some(log[k].logId);
      } else {
        assert log.Keys == {};
      }
      r := LogState(if last.None? then lastPurged else last, lastPurged);
    }

    /** `save_committed`. */
    method SaveCommitted(c: Option<LogId>)
      modifies this
      ensures committed == c
      ensures lastPurged == old(lastPurged) && log == old(log) && vote == old(vote)
    {
      committed := c;
    }

    /** `read_committed`: what `save_committed` saved last. */
    method ReadCommitted() returns (r: Option<LogId>)
      ensures r == committed
    {
      r := committed;
    }

    /** `save_vote`. */
    method SaveVote(v: Vote)
      modifies this
      ensures vote == Some(v)
      ensures lastPurged == old(lastPurged) && log == old(log) && committed == old(committed)
    {
      vote := Some(v);
    }

    /** `read_vote`: the vote `save_vote` saved last. */
    method ReadVote() returns (r: Option<Vote>)
      ensures r == vote
    {
      r := vote;
    }

    /**
     * `append`: every entry is inserted under its index, a later one
     * replacing an earlier one with the same index. The flush callback is
     * told at once that the entries are persisted.
     */
    method Append(entries: seq<Entry>)
      modifies this
      ensures log == AfterAppend(old(log), entries)
      ensures old(KeyedByIndex(log)) ==> KeyedByIndex(log)
      ensures lastPurged == old(lastPurged) && committed == old(committed) && vote == old(vote)
    {
      var i := 0;
      while i < |entries|
        invariant 0 <= i <= |entries|
        invariant log == AfterAppend(old(log), entries[..i])
        invariant lastPurged == old(lastPurged) && committed == old(committed) && vote == old(vote)
      {
        assert entries[..i + 1][..i] == entries[..i];
        log := log[entries[i].logId.index := entries[i]];
        i := i + 1;
      }
      assert entries[..i] == entries;
      if old(KeyedByIndex(log)) {
        AfterAppendKeyed(old(log), entries);
      }
    }

    /** `truncate`: removes every entry from `id.index` on. */
    method Truncate(id: LogId)
      modifies this
      ensures log == Below(old(log), id.index)
      ensures lastPurged == old(lastPurged) && committed == old(committed) && vote == old(vote)
    {
      IndexLessStrictTotal();
      var keys := Enumerate<nat>((set k | k in log && id.index <= k), IndexLess);
      ghost var start := log;
      var i := 0;
      while i < |keys|
        invariant 0 <= i <= |keys|
        invariant log == map k | k in start && !(k in keys[..i]) :: start[k]
        invariant lastPurged == old(lastPurged) && committed == old(committed) && vote == old(vote)
      {
        assert forall k :: k in keys[..i + 1] <==> k in keys[..i] || k == keys[i];
        log := log - {keys[i]};
        i := i + 1;
      }
      assert keys[..i] == keys;
    }

    /**
     * `purge`: asserts that the last purged id does not go back, records
     * `id` as purged and removes every entry up to `id.index`.
     */
    method Purge(id: LogId)
      requires OptLe(lastPurged, Some(id))
      modifies this
      ensures lastPurged == Some(id) && OptLe(old(lastPurged), lastPurged)
      ensures log == Above(old(log), id.index)
      ensures committed == old(committed) && vote == old(vote)
    {
      lastPurged := Some(id);
      IndexLessStrictTotal();
      var keys := Enumerate<nat>((set k | k in log && k <= id.index), IndexLess);
      ghost var start := log;
      var i := 0;
      while i < |keys|
        invariant 0 <= i <= |keys|
        invariant log == map k | k in start && !(k in keys[..i]) :: start[k]
        invariant lastPurged == Some(id) && committed == old(committed) && vote == old(vote)
      {
        assert forall k :: k in keys[..i + 1] <==> k in keys[..i] || k == keys[i];
        log := log - {keys[i]};
        i := i + 1;
      }
      assert keys[..i] == keys;
    }
  }

  // ---------------------------------------------------------------- lemmas

  /** Appending keeps every entry under its own index. */
  lemma {:induction false} AfterAppendKeyed(log: map<nat, Entry>, entries: seq<Entry>)
    requires KeyedByIndex(log)
    ensures KeyedByIndex(AfterAppend(log, entries))
    decreases |entries|
  {
    if entries != [] {
      AfterAppendKeyed(log, entries[..|entries| - 1]);
    }
  }

  /**
   * What the reader sees after `append`: an index holds the last appended
   * entry with that index, and any other index what it held before.
   */
  lemma {:induction false} AfterAppendLookup(log: map<nat, Entry>, entries: seq<Entry>, k: nat)
    ensures LastAt(entries, k).Some? ==> k in AfterAppend(log, entries) && AfterAppend(log, entries)[k] == LastAt(entries, k).value
    ensures LastAt(entries, k).None? ==> (k in AfterAppend(log, entries) <==> k in log)
                                         && (k in log ==> AfterAppend(log, entries)[k] == log[k])
    decreases |entries|
  {
    if entries != [] {
      AfterAppendLookup(log, entries[..|entries| - 1], k);
    }
  }

  /** With distinct indices, every appended entry is readable under its index as soon as `append` returns. */
  lemma AppendedReadable(log: map<nat, Entry>, entries: seq<Entry>, i: nat)
    requires i < |entries|
    requires forall a, b :: 0 <= a < b < |entries| ==> entries[a].logId.index != entries[b].logId.index
    ensures entries[i].logId.index in AfterAppend(log, entries)
    ensures AfterAppend(log, entries)[entries[i].logId.index] == entries[i]
  {
    var k := entries[i].logId.index;
    AfterAppendLookup(log, entries, k);
    var e := LastAt(entries, k).value;
    var j :| 0 <= j < |entries| && entries[j] == e;
    assert j == i;
  }

  /** Entries numbered on from the end of a hole-free log (or from anywhere, into an empty one) keep it hole-free. */
  lemma {:induction false} AppendNextKeepsHoleFree(log: map<nat, Entry>, entries: seq<Entry>, start: nat)
    requires HoleFree(log.Keys)
    requires log.Keys != {} ==> start == MaxKey(log.Keys) + 1
    requires forall i :: 0 <= i < |entries| ==> entries[i].logId.index == start + i
    ensures HoleFree(AfterAppend(log, entries).Keys)
    ensures entries != [] ==> start + |entries| - 1 in AfterAppend(log, entries)
                              && MaxKey(AfterAppend(log, entries).Keys) == start + |entries| - 1
    ensures log.Keys != {} ==> MinKey(AfterAppend(log, entries).Keys) == MinKey(log.Keys)
    ensures log.Keys == {} && entries != [] ==> MinKey(AfterAppend(log, entries).Keys) == start
    decreases |entries|
  {
    if entries != [] {
      var init := entries[..|entries| - 1];
      var x := start + |entries| - 1;
      AppendNextKeepsHoleFree(log, init, start);
      var before := AfterAppend(log, init).Keys;
      var after := AfterAppend(log, entries).Keys;
      assert after == before + {x};
      if before == {} {
        assert after == {x};
      } else {
        assert MaxKey(before) == x - 1 by {
          if init == [] {
            assert before == log.Keys;
          }
        }
        assert MaxKey(after) == x;
        assert MinKey(after) == MinKey(before);
        if init == [] {
          assert before == log.Keys;
        }
      }
    }
  }

  /** Truncation cannot open a hole. */
  lemma TruncateKeepsHoleFree(log: map<nat, Entry>, n: nat)
    requires HoleFree(log.Keys)
    ensures HoleFree(Below(log, n).Keys)
  {
    var s, t := log.Keys, Below(log, n).Keys;
    if t != {} {
      var lo, hi := MinKey(t), MaxKey(t);
      assert lo in s && hi in s && lo < n && hi < n;
      assert MinKey(s) in t;
      assert lo == MinKey(s);
      forall k: nat | lo <= k <= hi ensures k in t {
        assert k <= MaxKey(s);
      }
    }
  }

  /** Purging cannot open a hole. */
  lemma PurgeKeepsHoleFree(log: map<nat, Entry>, n: nat)
    requires HoleFree(log.Keys)
    ensures HoleFree(Above(log, n).Keys)
  {
    var s, t := log.Keys, Above(log, n).Keys;
    if t != {} {
      var lo, hi := MinKey(t), MaxKey(t);
      assert lo in s && hi in s && n < lo && n < hi;
      assert MaxKey(s) in t;
      assert hi == MaxKey(s);
      forall k: nat | lo <= k <= hi ensures k in t {
        assert MinKey(s) <= k;
      }
    }
  }
}
