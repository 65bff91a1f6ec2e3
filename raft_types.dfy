/**
 * The openraft types the cluster's storage works with (cluster/src/lib.rs,
 * cluster/src/state_machine/mod.rs), for the `TypeConfig` the crate
 * declares: node ids are `u64`, nodes are `BasicNode`s, entries carry an
 * object-store `Request`.
 *
 * A committed leader id is openraft's `LeaderId { term, node_id }`, ordered
 * by term and then node and displayed as `T<term>-N<node>`; a log id is a
 * leader id and an index, ordered by leader and then index.
 */
module RaftTypes {
  import opened Wrappers
  import opened Text
  import Sled

  datatype LeaderId = LeaderId(term: nat, node: nat)

  datatype LogId = LogId(leader: LeaderId, index: nat)

  predicate LeaderLess(a: LeaderId, b: LeaderId)
  {
    a.term < b.term || (a.term == b.term && a.node < b.node)
  }

  /** The derived order on log ids. */
  predicate LogIdLe(a: LogId, b: LogId)
  {
    LeaderLess(a.leader, b.leader) || (a.leader == b.leader && a.index <= b.index)
  }

  /** The derived order on `Option<LogId>`: `None` first. */
  predicate OptLe(a: Option<LogId>, b: Option<LogId>)
  {
    match (a, b)
    case (None, _) => true
    case (Some(_), None) => false
    case (Some(x), Some(y)) => LogIdLe(x, y)
  }

  /** `OptLe` is a total order, so "never decreases" is meaningful along any run. */
  lemma OptLeTotalOrder(a: Option<LogId>, b: Option<LogId>, c: Option<LogId>)
    ensures OptLe(a, a)
    ensures OptLe(a, b) && OptLe(b, c) ==> OptLe(a, c)
    ensures OptLe(a, b) && OptLe(b, a) ==> a == b
    ensures OptLe(a, b) || OptLe(b, a)
  {
  }

  /** `Display` of a leader id. */
  function LeaderText(l: LeaderId): string
  {
    "T" + NatToString(l.term) + "-N" + NatToString(l.node)
  }

  /** `Vote { leader_id, committed }`. */
  datatype Vote = Vote(leader: LeaderId, committed: bool)

  /** `Membership`: the voter configurations and the known nodes with their `BasicNode` address. */
  datatype Membership = Membership(configs: seq<set<nat>>, nodes: map<nat, string>)

  /** `StoredMembership`: a membership and the log id it was stored at. */
  datatype StoredMembership = StoredMembership(logId: Option<LogId>, membership: Membership)

  const DefaultMembership := StoredMembership(None, Membership([], map[]))

  /** `Request`, the application payload of a normal entry. */
  datatype Request =
    | DeleteCollection(name: string)
    | PutObject(collection: string, name: string, obj: Sled.Bytes)
    | DeleteObject(collection: string, name: string)

  /**
   * `Response`, as `apply` builds it: an `Empty` response and a `path` in
   * the others (the declaration in cluster/src/lib.rs has neither).
   */
  datatype Response =
    | Empty
    | PutObjectDone(path: string)
    | DeleteObjectDone(path: string)
    | DeleteCollectionDone(path: string)

  datatype EntryPayload = Blank | Normal(req: Request) | MembershipChange(mem: Membership)

  /** `openraft::Entry`. */
  datatype Entry = Entry(logId: LogId, payload: EntryPayload)
}
