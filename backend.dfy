/**
 * The backend (backend/src/backend.rs): one sled database holding, for each
 * collection `name`, the trees `mauve_data::name`, `mauve_meta::name`,
 * `mauve_fwd::name` and `mauve_rev::name`, and the channel on which it sends
 * signals to the indexer (modelled as the sequence of signals sent).
 */
module Backends {
  import opened Text
  import opened Sled
  import opened Collections
  import Utf8
  import Indexer

  /** The four trees of a collection. */
  datatype TreeKind = DataTree | MetaTree | FwdTree | RevTree

  const META_PREFIX := "mauve_meta::"

  function Prefix(k: TreeKind): string
  {
    match k
    case DataTree => "mauve_data::"
    case MetaTree => META_PREFIX
    case FwdTree => "mauve_fwd::"
    case RevTree => "mauve_rev::"
  }

  /** The tree name `format!("mauve_<kind>::{name}")`, as bytes. */
  function TreeName(k: TreeKind, name: string): Bytes
  {
    Utf8.Encode(Prefix(k) + name)
  }

  /**
   * Tree names never collide: the four trees of a collection are different,
   * and no two collections share a tree.
   */
  lemma TreeNameInjective(k: TreeKind, a: string, l: TreeKind, b: string)
    ensures TreeName(k, a) == TreeName(l, b) <==> k == l && a == b
  {
    if TreeName(k, a) == TreeName(l, b) {
      var p, q := Prefix(k), Prefix(l);
      Utf8.EncodeInjective(p + a, q + b);
      assert (p + a)[6] == p[6] && (q + b)[6] == q[6];
      assert k == l;
      assert a == (p + a)[|p|..] && b == (q + b)[|q|..];
    }
  }

  /** A collection's four trees have four different names. */
  lemma TreeNamesDistinct(name: string)
    ensures forall k, l :: k != l ==> TreeName(k, name) != TreeName(l, name)
  {
    forall k, l | k != l ensures TreeName(k, name) != TreeName(l, name) {
      TreeNameInjective(k, name, l, name);
    }
  }

  /** The collection name behind a meta-tree name, if it is one (the loop body of `list_collections`). */
  function MetaCollection(n: Bytes): Wrappers.Option<string>
  {
    match Utf8.Decode(n)
    case Ok(s) => if StartsWith(s, META_PREFIX) then Wrappers.Some(s[|META_PREFIX|..]) else Wrappers.None
    case Err(_) => Wrappers.None
  }

  /** `MetaCollection` exactly inverts naming a meta tree. */
  lemma MetaCollectionOf(n: Bytes, s: string)
    ensures MetaCollection(n) == Wrappers.Some(s) <==> n == TreeName(MetaTree, s)
  {
    if n == TreeName(MetaTree, s) {
      Utf8.DecodeEncode(META_PREFIX + s);
      assert (META_PREFIX + s)[..|META_PREFIX|] == META_PREFIX;
      assert (META_PREFIX + s)[|META_PREFIX|..] == s;
    }
    if MetaCollection(n) == Wrappers.Some(s) {
      var t := Utf8.Decode(n).value;
      Utf8.EncodeDecode(n);
      assert t == t[..|META_PREFIX|] + t[|META_PREFIX|..];
    }
  }

  /** The collection names found among `names`, in their order. */
  function CollectionNames(names: seq<Bytes>): seq<string>
  {
    if names == [] then []
    else
      var last := names[|names| - 1];
      CollectionNames(names[..|names| - 1]) + (match MetaCollection(last) case Some(s) => [s] case None => [])
  }

  lemma {:induction false} CollectionNamesMember(names: seq<Bytes>, s: string)
    ensures s in CollectionNames(names) <==> TreeName(MetaTree, s) in names
  {
    if names != [] {
      var init := names[..|names| - 1];
      var last := names[|names| - 1];
      CollectionNamesMember(init, s);
      MetaCollectionOf(last, s);
      assert names == init + [last];
    }
  }

  /** No element occurs twice. */
  predicate Distinct<T(==)>(s: seq<T>)
  {
    forall i, j :: 0 <= i < j < |s| ==> s[i] != s[j]
  }

  lemma {:induction false} CollectionNamesDistinct(names: seq<Bytes>)
    requires Distinct(names)
    ensures Distinct(CollectionNames(names))
  {
    if names != [] {
      var init := names[..|names| - 1];
      var last := names[|names| - 1];
      assert Distinct(init) by {
        forall i, j | 0 <= i < j < |init| ensures init[i] != init[j] {
          assert init[i] == names[i] && init[j] == names[j];
        }
      }
      CollectionNamesDistinct(init);
      var r0 := CollectionNames(init);
      var m := MetaCollection(last);
      assert CollectionNames(names) == r0 + (match m case Some(s) => [s] case None => []);
      if m.Some? {
        var s := m.value;
        CollectionNamesMember(init, s);
        MetaCollectionOf(last, s);
        assert last !in init by {
          forall k | 0 <= k < |init| ensures init[k] != last {
            assert init[k] == names[k];
          }
        }
        assert CollectionNames(names) == r0 + [s];
        DistinctSnoc(r0, s);
      } else {
        assert CollectionNames(names) == r0;
      }
    }
  }

  /** Adding a new element at the end keeps a list duplicate-free. */
  lemma DistinctSnoc<T>(r0: seq<T>, s: T)
    requires Distinct(r0) && s !in r0
    ensures Distinct(r0 + [s])
  {
    var r := r0 + [s];
    forall i, j | 0 <= i < j < |r| ensures r[i] != r[j] {
      assert r[i] == r0[i];
      if j < |r0| {
        assert r[j] == r0[j];
      }
    }
  }

  /** Four successive updates at four different keys. */
  lemma FourUpdates<K, V>(t0: map<K, V>, t1: map<K, V>, t2: map<K, V>, t3: map<K, V>, t4: map<K, V>,
                          a: K, va: V, b: K, vb: V, c: K, vc: V, d: K, vd: V)
    requires a != b && a != c && a != d && b != c && b != d && c != d
    requires t1 == t0[a := va] && t2 == t1[b := vb] && t3 == t2[c := vc] && t4 == t3[d := vd]
    ensures t4 == t0[a := va][b := vb][c := vc][d := vd]
    ensures t4[a] == va && t4[b] == vb && t4[c] == vc && t4[d] == vd
    ensures (b in t1 <==> b in t0) && (b in t0 ==> t1[b] == t0[b])
    ensures (c in t2 <==> c in t0) && (c in t0 ==> t2[c] == t0[c])
    ensures (d in t3 <==> d in t0) && (d in t0 ==> t3[d] == t0[d])
  {
  }

  /** Adding four elements one at a time is adding them together. */
  lemma FourAdds<T>(r0: set<T>, r1: set<T>, r2: set<T>, r3: set<T>, r4: set<T>, a: T, b: T, c: T, d: T)
    requires r1 == r0 + {a} && r2 == r1 + {b} && r3 == r2 + {c} && r4 == r3 + {d}
    ensures r4 == r0 + {a, b, c, d}
  {
  }

  /** Opening four trees and then dropping them leaves the other trees as they were. */
  lemma OpenThenDrop<K, V>(t0: map<K, V>, a: K, va: V, b: K, vb: V, c: K, vc: V, d: K, vd: V)
    ensures t0[a := va][b := vb][c := vc][d := vd] - {a} - {b} - {c} - {d} == t0 - {a, b, c, d}
  {
  }

  /** Removing four keys one at a time is removing them together. */
  lemma DropFour<K, V>(t0: map<K, V>, a: K, b: K, c: K, d: K)
    ensures t0 - {a} - {b} - {c} - {d} == t0 - {a, b, c, d}
  {
  }

  /** The signal queue gained exactly one `Watch`, for a collection of that name. */
  ghost predicate WatchSent(before: seq<Indexer.IndexerSignal>, after: seq<Indexer.IndexerSignal>, name: string)
  {
    |after| == |before| + 1 && after[..|before|] == before
    && after[|before|].Watch? && after[|before|].c.name == name
  }

  /** The names of collection `name`'s four trees. */
  function CollectionTrees(name: string): set<Bytes>
  {
    {TreeName(DataTree, name), TreeName(MetaTree, name), TreeName(FwdTree, name), TreeName(RevTree, name)}
  }

  /**
   * Outside collection `name`'s four trees the database is as it was: the
   * same names, and each tree under them with the same contents.
   */
  twostate predicate OthersKept(b: Backend, name: string)
    reads b.db, b.db.Repr
  {
    old(b.db.Valid()) && b.db.Valid()
    && b.db.View() - CollectionTrees(name) == old(b.db.View()) - CollectionTrees(name)
  }

  /** The contents of every tree of the database, by name, as `Db.View` reads them. */
  type Contents = map<Bytes, map<Bytes, Bytes>>

  /**
   * `v` once `get_collection(name)` has opened the collection: its four
   * trees exist, any that was missing created empty, and nothing else
   * changes.
   */
  function Opened(v: Contents, name: string): Contents
  {
    var dn, mn, fn, rn := TreeName(DataTree, name), TreeName(MetaTree, name), TreeName(FwdTree, name), TreeName(RevTree, name);
    v[dn := TreeIn(v, dn)][mn := TreeIn(v, mn)][fn := TreeIn(v, fn)][rn := TreeIn(v, rn)]
  }

  /** Opening creates the four trees, keeps their contents and changes nothing outside them. */
  lemma OpenedKeeps(v: Contents, name: string)
    ensures CollectionTrees(name) <= Opened(v, name).Keys
    ensures Opened(v, name) - CollectionTrees(name) == v - CollectionTrees(name)
    ensures forall k :: TreeIn(Opened(v, name), TreeName(k, name)) == TreeIn(v, TreeName(k, name))
  {
    assert CollectionTrees(name) <= Opened(v, name).Keys;
    assert Opened(v, name) - CollectionTrees(name) == v - CollectionTrees(name) by {
      TreeNamesDistinct(name);
    }
    forall k ensures TreeIn(Opened(v, name), TreeName(k, name)) == TreeIn(v, TreeName(k, name)) {
      TreeNamesDistinct(name);
    }
  }

  /** Dropping the four trees of a collection just opened leaves what was outside it. */
  lemma OpenedThenDropped(v0: Contents, v1: Contents, v2: Contents, name: string)
    requires v1 == Opened(v0, name) && v2 == v1 - CollectionTrees(name)
    ensures v2 == v0 - CollectionTrees(name)
  {
    OpenedKeeps(v0, name);
  }

  /** Opening an open collection changes nothing. */
  lemma OpenedIdempotent(v: Contents, name: string)
    requires CollectionTrees(name) <= v.Keys
    ensures Opened(v, name) == v
  {
  }

  /** Four `open_tree` steps, each putting the tree's current contents under its name, give `Opened` contents. */
  lemma OpenedSteps(name: string, v0: Contents, v1: Contents, v2: Contents, v3: Contents, v4: Contents)
    requires v1 == v0[TreeName(DataTree, name) := TreeIn(v0, TreeName(DataTree, name))]
    requires v2 == v1[TreeName(MetaTree, name) := TreeIn(v1, TreeName(MetaTree, name))]
    requires v3 == v2[TreeName(FwdTree, name) := TreeIn(v2, TreeName(FwdTree, name))]
    requires v4 == v3[TreeName(RevTree, name) := TreeIn(v3, TreeName(RevTree, name))]
    ensures v4 == Opened(v0, name)
  {
    TreeNamesDistinct(name);
  }

  /** Two views with the same names and the same contents outside `s`, name by name, agree outside `s`. */
  lemma ViewKeptOutside(v0: map<Bytes, map<Bytes, Bytes>>, v1: map<Bytes, map<Bytes, Bytes>>, s: set<Bytes>)
    requires forall n :: n !in s ==> (n in v1 <==> n in v0) && (n in v1 ==> v1[n] == v0[n])
    ensures v1 - s == v0 - s
  {
  }

  class Backend {
    const db: Db
    /** The signals sent to the indexer, oldest first. */
    var signals: seq<Indexer.IndexerSignal>

    /** The contents of one of a collection's trees; a tree not yet created reads as empty. */
    ghost function Entries(k: TreeKind, name: string): map<Bytes, Bytes>
      reads db, if TreeName(k, name) in db.trees then {db.trees[TreeName(k, name)]} else {}
    {
      var n := TreeName(k, name);
      if n in db.trees then db.trees[n].entries else map[]
    }

    /** The database holds `c`'s four trees under `c`'s name. */
    ghost predicate Opens(c: Collection)
      reads db
    {
      TreeName(DataTree, c.name) in db.trees && db.trees[TreeName(DataTree, c.name)] == c.data
      && TreeName(MetaTree, c.name) in db.trees && db.trees[TreeName(MetaTree, c.name)] == c.meta
      && TreeName(FwdTree, c.name) in db.trees && db.trees[TreeName(FwdTree, c.name)] == c.indexFwd
      && TreeName(RevTree, c.name) in db.trees && db.trees[TreeName(RevTree, c.name)] == c.indexRev
    }

    /** While the database holds `c`, each tree's contents are what `Entries` reports. */
    lemma OpensEntries(c: Collection)
      requires Opens(c)
      ensures Entries(DataTree, c.name) == c.data.entries && Entries(MetaTree, c.name) == c.meta.entries
      ensures Entries(FwdTree, c.name) == c.indexFwd.entries && Entries(RevTree, c.name) == c.indexRev.entries
    {
    }

    /** `Entries` reads the database's contents. */
    lemma EntriesInView(k: TreeKind, name: string)
      requires db.Valid()
      ensures Entries(k, name) == TreeIn(db.View(), TreeName(k, name))
    {
    }

    /** While the database holds `c`, the trees under other names are not `c`'s trees. */
    lemma OthersDistinct(c: Collection)
      requires db.Valid() && Opens(c)
      ensures forall n :: n in db.trees && n !in CollectionTrees(c.name) ==>
        db.trees[n] != c.data && db.trees[n] != c.meta && db.trees[n] != c.indexFwd && db.trees[n] != c.indexRev
    {
    }

    /** Opens the backend over a database (sled's configuration and the spawned indexer task are left out). */
    constructor (db: Db)
      ensures this.db == db && signals == []
    {
      this.db := db;
      signals := [];
    }

    /** The four `open_tree` calls of `get_collection`. */
    method OpenCollection(name: string) returns (c: Collection)
      requires db.Valid()
      modifies db
      ensures db.Valid() && c.Valid() && c.name == name && Opens(c)
      ensures db.trees == old(db.trees)[TreeName(DataTree, name) := c.data][TreeName(MetaTree, name) := c.meta]
                           [TreeName(FwdTree, name) := c.indexFwd][TreeName(RevTree, name) := c.indexRev]
      ensures db.Repr == old(db.Repr) + {c.data, c.meta, c.indexFwd, c.indexRev}
      ensures c.data in old(db.Repr) || fresh(c.data)
      ensures c.meta in old(db.Repr) || fresh(c.meta)
      ensures c.indexFwd in old(db.Repr) || fresh(c.indexFwd)
      ensures c.indexRev in old(db.Repr) || fresh(c.indexRev)
      ensures db.View() == Opened(old(db.View()), name)
    {
      TreeNamesDistinct(name);
      var dn, mn, fn, rn := TreeName(DataTree, name), TreeName(MetaTree, name), TreeName(FwdTree, name), TreeName(RevTree, name);
      ghost var t0, v0, r0 := db.trees, db.View(), db.Repr;
      var data := db.OpenTree(dn);
      ghost var t1, v1, r1 := db.trees, db.View(), db.Repr;
      var meta := db.OpenTree(mn);
      ghost var t2, v2, r2 := db.trees, db.View(), db.Repr;
      var fwd := db.OpenTree(fn);
      ghost var t3, v3, r3 := db.trees, db.View(), db.Repr;
      var rev := db.OpenTree(rn);
      FourUpdates(t0, t1, t2, t3, db.trees, dn, data, mn, meta, fn, fwd, rn, rev);
      OpenedSteps(name, v0, v1, v2, v3, db.View());
      FourAdds(r0, r1, r2, r3, db.Repr, data, meta, fwd, rev);
      c := Collection(name, data, meta, fwd, rev);
    }

    /** `get_collection`: opens (creating when missing) the four trees and tells the indexer to watch them. */
    method GetCollection(name: string) returns (c: Collection)
      requires db.Valid()
      modifies this, db
      ensures db.Valid() && c.Valid() && c.name == name && Opens(c)
      ensures db.trees == old(db.trees)[TreeName(DataTree, name) := c.data][TreeName(MetaTree, name) := c.meta]
                           [TreeName(FwdTree, name) := c.indexFwd][TreeName(RevTree, name) := c.indexRev]
      ensures db.Repr == old(db.Repr) + {c.data, c.meta, c.indexFwd, c.indexRev} && fresh(db.Repr - old(db.Repr))
      ensures c.data.entries == old(Entries(DataTree, name)) && c.meta.entries == old(Entries(MetaTree, name))
      ensures c.indexFwd.entries == old(Entries(FwdTree, name)) && c.indexRev.entries == old(Entries(RevTree, name))
      ensures signals == old(signals) + [Indexer.Watch(c)]
      ensures db.View() == Opened(old(db.View()), name)
      ensures OthersKept(this, name)
    {
      ghost var v0 := db.View();
      EntriesInView(DataTree, name);
      EntriesInView(MetaTree, name);
      EntriesInView(FwdTree, name);
      EntriesInView(RevTree, name);
      c := OpenCollection(name);
      OpenedKeeps(v0, name);
      EntriesInView(DataTree, name);
      EntriesInView(MetaTree, name);
      EntriesInView(FwdTree, name);
      EntriesInView(RevTree, name);
      OpensEntries(c);
      signals := signals + [Indexer.Watch(c)];
    }

    /** `list_collections`: the name of every collection with a metadata tree, each once; tree names that are not UTF-8 are skipped. */
    method ListCollections() returns (r: seq<string>)
      ensures forall s :: s in r <==> TreeName(MetaTree, s) in db.trees
      ensures forall i, j :: 0 <= i < j < |r| ==> r[i] != r[j]
    {
      var names := db.TreeNames();
      r := [];
      var i := 0;
      while i < |names|
        invariant 0 <= i <= |names|
        invariant r == CollectionNames(names[..i])
      {
        assert names[..i + 1][..i] == names[..i];
        match Utf8.Decode(names[i]) {
          case Ok(s) =>
            if StartsWith(s, META_PREFIX) {
              r := r + [s[|META_PREFIX|..]];
            }
          case Err(_) =>
        }
        i := i + 1;
      }
      assert names[..i] == names;
      CollectionNamesDistinct(names);
      forall s ensures s in r <==> TreeName(MetaTree, s) in db.trees {
        CollectionNamesMember(names, s);
      }
    }

    /** The four `drop_tree` calls of `delete_collection`. */
    method DropCollection(name: string)
      requires db.Valid()
      modifies db
      ensures db.Valid()
      ensures db.trees == old(db.trees) - {TreeName(DataTree, name)} - {TreeName(MetaTree, name)} - {TreeName(FwdTree, name)} - {TreeName(RevTree, name)}
      ensures db.Repr == old(db.Repr)
      ensures db.View() == old(db.View()) - CollectionTrees(name)
    {
      ghost var v0 := db.View();
      var _ := db.DropTree(TreeName(DataTree, name));
      var _ := db.DropTree(TreeName(MetaTree, name));
      var _ := db.DropTree(TreeName(FwdTree, name));
      var _ := db.DropTree(TreeName(RevTree, name));
      DropFour(v0, TreeName(DataTree, name), TreeName(MetaTree, name), TreeName(FwdTree, name), TreeName(RevTree, name));
    }

    /** `delete_collection`: tells the indexer to stop watching, then drops the four trees; answers the name. */
    method DeleteCollection(name: string) returns (r: string)
      requires db.Valid()
      modifies this, db
      ensures db.Valid() && r == name
      ensures db.trees == old(db.trees) - {TreeName(DataTree, name), TreeName(MetaTree, name), TreeName(FwdTree, name), TreeName(RevTree, name)}
      ensures old(db.Repr) <= db.Repr && fresh(db.Repr - old(db.Repr))
      ensures |signals| == |old(signals)| + 2 && signals[..|old(signals)|] == old(signals)
      ensures var w := signals[|old(signals)|];
        w.Watch? && w.c.name == name && signals[|old(signals)| + 1] == Indexer.Unwatch(w.c)
      ensures db.View() == old(db.View()) - CollectionTrees(name)
    {
      ghost var t0, v0 := db.trees, db.View();
      var c := GetCollection(name);
      signals := signals + [Indexer.Unwatch(c)];
      ghost var v1 := db.View();
      DropCollection(name);
      OpenedThenDropped(v0, v1, db.View(), name);
      OpenThenDrop(t0, TreeName(DataTree, name), c.data, TreeName(MetaTree, name), c.meta,
                   TreeName(FwdTree, name), c.indexFwd, TreeName(RevTree, name), c.indexRev);
      r := name;
    }
  }
}
