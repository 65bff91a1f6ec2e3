/**
 * The part of sled the store uses: a `Tree` is an ordered map from byte
 * keys to byte values, updated in place; a `Db` is a set of named trees.
 * Trees are shared: every handle sled returns for a name is the same tree,
 * so the model hands out references. I/O failures are left out.
 */
module Sled {
  import opened Wrappers
  import opened Ordering
  import Utf8

  type Bytes = seq<Utf8.byte>

  predicate ByteLess(x: Utf8.byte, y: Utf8.byte) { x < y }

  /** sled's key order: bytes, lexicographically. */
  predicate KeyLess(a: Bytes, b: Bytes) { LexLess(a, b, ByteLess) }

  lemma KeyLessStrictTotal()
    ensures StrictTotal(KeyLess)
  {
    forall a: Bytes ensures !KeyLess(a, a) { LexIrreflexive(a, ByteLess); }
    forall a: Bytes, b: Bytes, c: Bytes | KeyLess(a, b) && KeyLess(b, c) ensures KeyLess(a, c) {
      LexTransitive(a, b, c, ByteLess);
    }
    forall a: Bytes, b: Bytes | a != b ensures KeyLess(a, b) || KeyLess(b, a) {
      LexTotal(a, b, ByteLess);
    }
  }

  /** `p` is a prefix of `k`. */
  predicate HasPrefix(k: Bytes, p: Bytes) { |p| <= |k| && k[..|p|] == p }

  class Tree {
    var entries: map<Bytes, Bytes>

    constructor ()
      ensures entries == map[]
    {
      entries := map[];
    }

    /** `Tree::get`. */
    method Get(k: Bytes) returns (r: Option<Bytes>)
      ensures r.Some? <==> k in entries
      ensures r.Some? ==> r.value == entries[k]
    {
      r := Lookup(entries, k);
    }

    /** `Tree::contains_key`. */
    method ContainsKey(k: Bytes) returns (b: bool)
      ensures b <==> k in entries
    {
      b := k in entries;
    }

    /** `Tree::insert`: stores `v` at `k` and hands back what was there. */
    method Insert(k: Bytes, v: Bytes) returns (prev: Option<Bytes>)
      modifies this
      ensures entries == old(entries)[k := v]
      ensures prev == Lookup(old(entries), k)
    {
      prev := Lookup(entries, k);
      entries := entries[k := v];
    }

    /** `Tree::remove`: drops `k` and hands back what was there. */
    method Remove(k: Bytes) returns (prev: Option<Bytes>)
      modifies this
      ensures entries == old(entries) - {k}
      ensures prev == Lookup(old(entries), k)
    {
      prev := Lookup(entries, k);
      entries := entries - {k};
    }

    /** `Tree::scan_prefix`: the entries whose key starts with `p`, in key order. */
    method ScanPrefix(p: Bytes) returns (r: seq<(Bytes, Bytes)>)
      ensures forall i, j :: 0 <= i < j < |r| ==> KeyLess(r[i].0, r[j].0)
      ensures forall k :: (exists i :: 0 <= i < |r| && r[i].0 == k) <==> k in entries && HasPrefix(k, p)
      ensures forall i :: 0 <= i < |r| ==> r[i].0 in entries && r[i].1 == entries[r[i].0]
    {
      KeyLessStrictTotal();
      var matching := set k | k in entries && HasPrefix(k, p);
      var keys := Enumerate(matching, KeyLess);
      r := [];
      var i := 0;
      while i < |keys|
        invariant 0 <= i <= |keys|
        invariant |r| == i
        invariant forall j :: 0 <= j < i ==> r[j].0 == keys[j] && keys[j] in matching && r[j].1 == entries[keys[j]]
      {
        assert keys[i] in keys;
        assert keys[i] in matching;
        r := r + [(keys[i], entries[keys[i]])];
        i := i + 1;
      }
      forall k | k in entries && HasPrefix(k, p)
        ensures exists i :: 0 <= i < |r| && r[i].0 == k
      {
        assert k in keys;
        var j :| 0 <= j < |keys| && keys[j] == k;
        assert r[j].0 == k;
      }
      forall i | 0 <= i < |r| ensures r[i].0 in entries && HasPrefix(r[i].0, p) {
        assert r[i].0 in matching;
      }
    }
  }

  /** Tree `n` in contents `v`; a tree not created yet reads as empty. */
  function TreeIn(v: map<Bytes, map<Bytes, Bytes>>, n: Bytes): map<Bytes, Bytes>
  {
    if n in v then v[n] else map[]
  }

  class Db {
    var trees: map<Bytes, Tree>
    /** Every tree this database has handed out (its footprint). */
    ghost var Repr: set<Tree>
    /** The name each tree was opened under. */
    ghost var owner: map<Tree, Bytes>

    /** Each name has its own tree, within the footprint: a tree's owner is the one name it is held under. */
    ghost predicate Valid()
      reads this
    {
      forall n :: n in trees ==> trees[n] in Repr && trees[n] in owner && owner[trees[n]] == n
    }

    /** No two names share a tree. */
    lemma Distinct(a: Bytes, b: Bytes)
      requires Valid() && a in trees && b in trees && a != b
      ensures trees[a] != trees[b]
    {
    }

    /** The contents of every tree, by name. */
    ghost function View(): map<Bytes, map<Bytes, Bytes>>
      requires Valid()
      reads this, Repr
    {
      map n | n in trees :: trees[n].entries
    }

    /** The contents of every tree but the one under `n`; it does not read that tree. */
    ghost function ViewWithout(n: Bytes): map<Bytes, map<Bytes, Bytes>>
      requires Valid()
      reads this, Repr - (if n in trees then {trees[n]} else {})
    {
      map m | m in trees && m != n :: trees[m].entries
    }

    /** The contents are those of the other trees with tree `n`'s contents put back under `n`. */
    lemma ViewSplit(n: Bytes)
      requires Valid() && n in trees
      ensures View() == ViewWithout(n)[n := trees[n].entries]
    {
    }

    constructor ()
      ensures Valid() && trees == map[] && Repr == {}
    {
      trees := map[];
      Repr := {};
      owner := map[];
    }

    /** `Db::open_tree`: the tree of that name, created empty if there is none. */
    method OpenTree(name: Bytes) returns (t: Tree)
      requires Valid()
      modifies this
      ensures Valid()
      ensures trees == old(trees)[name := t]
      ensures Repr == old(Repr) + {t} && (t in old(Repr) || fresh(t))
      ensures name in old(trees) ==> t == old(trees)[name]
      ensures name !in old(trees) ==> fresh(t) && t.entries == map[]
      ensures View() == old(View())[name := TreeIn(old(View()), name)]
    {
      if name in trees {
        t := trees[name];
        assert trees == trees[name := t];
        assert Repr == Repr + {t};
      } else {
        t := new Tree();
        trees := trees[name := t];
        Repr := Repr + {t};
        owner := owner[t := name];
      }
    }

    /** `Db::drop_tree`: forgets the tree of that name; says whether there was one. */
    method DropTree(name: Bytes) returns (existed: bool)
      requires Valid()
      modifies this
      ensures Valid()
      ensures trees == old(trees) - {name}
      ensures Repr == old(Repr)
      ensures existed <==> name in old(trees)
      ensures View() == old(View()) - {name}
    {
      existed := name in trees;
      trees := trees - {name};
    }

    /** `Db::tree_names`: every name once, in an order sled does not fix. */
    method TreeNames() returns (names: seq<Bytes>)
      ensures forall n :: n in names <==> n in trees
      ensures forall i, j :: 0 <= i < j < |names| ==> names[i] != names[j]
    {
      names := [];
      var rest := trees.Keys;
      while rest != {}
        invariant rest <= trees.Keys
        invariant forall n :: n in trees <==> n in rest || n in names
        invariant forall n :: n in names ==> n !in rest
        invariant forall i, j :: 0 <= i < j < |names| ==> names[i] != names[j]
        decreases rest
      {
        var n :| n in rest;
        names := names + [n];
        rest := rest - {n};
      }
    }
  }
}
