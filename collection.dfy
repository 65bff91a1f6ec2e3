/**
 * A collection (backend/src/collection.rs, backend/src/backend.rs): a name
 * and four sled trees: the objects, their metadata, and the forward and
 * reverse label indexes. Object names become keys as their UTF-8 bytes.
 */
module Collections {
  import opened Wrappers
  import opened Text
  import opened Sled
  import Utf8
  import Codecs
  import BackendErrors
  import Meta

  /** The key an object name is stored under (`&str` handed to sled). */
  function Key(ident: string): Bytes { Utf8.Encode(ident) }

  datatype Collection = Collection(name: string, data: Tree, meta: Tree, indexFwd: Tree, indexRev: Tree)
  {
    /** The four trees are different trees. */
    ghost predicate Valid()
    {
      data != meta && data != indexFwd && data != indexRev
      && meta != indexFwd && meta != indexRev && indexFwd != indexRev
    }

    /** `list_objects`: the names of the stored objects that start with `prefix`, in key order; keys that are not UTF-8 are skipped. */
    method ListObjects(prefix: string) returns (r: seq<string>)
      ensures forall s :: s in r <==> Key(s) in data.entries && StartsWith(s, prefix)
      ensures forall i, j :: 0 <= i < j < |r| ==> KeyLess(Key(r[i]), Key(r[j]))
    {
      var scanned := data.ScanPrefix(Key(prefix));
      r := [];
      var i := 0;
      while i < |scanned|
        invariant 0 <= i <= |scanned|
        invariant r == Utf8Names(scanned[..i])
      {
        assert scanned[..i + 1][..i] == scanned[..i];
        match Utf8.Decode(scanned[i].0) {
          case Ok(s) => r := r + [s];
          case Err(_) =>
        }
        i := i + 1;
      }
      assert scanned[..i] == scanned;
      Utf8NamesAscending(scanned);
      forall s ensures s in r <==> Key(s) in data.entries && StartsWith(s, prefix) {
        Utf8.EncodePrefix(s, prefix);
        Utf8NamesMember(scanned, s);
      }
    }

    /** `head_object`: whether an object of that name is stored. */
    method HeadObject(ident: string) returns (b: bool)
      ensures b <==> Key(ident) in data.entries
    {
      b := data.ContainsKey(Key(ident));
    }

    /** `get_object`: the stored bytes, or `ObjectNotFound`. */
    method GetObject(ident: string) returns (r: Result<Bytes, BackendErrors.MauveError>)
      ensures r.Ok? <==> Key(ident) in data.entries
      ensures r.Ok? ==> r.value == data.entries[Key(ident)]
      ensures r.Err? ==> r.error == BackendErrors.Collection(BackendErrors.ObjectNotFound)
    {
      var got := data.Get(Key(ident));
      match got
      case Some(bytes) => r := Ok(bytes);
      case None => r := Err(BackendErrors.Collection(BackendErrors.ObjectNotFound));
    }

    /**
     * `put_object`: refuses to overwrite unless `replace` is set; otherwise
     * stores the bytes and answers with the name.
     */
    method PutObject(ident: string, obj: Bytes, replace: bool) returns (r: Result<string, BackendErrors.MauveError>)
      modifies data
      ensures Key(ident) in old(data.entries) && !replace ==>
        r == Err(BackendErrors.Collection(BackendErrors.PutObjectExistsNoReplace)) && data.entries == old(data.entries)
      ensures !(Key(ident) in old(data.entries) && !replace) ==>
        r == Ok(ident) && data.entries == old(data.entries)[Key(ident) := obj]
    {
      var existing := data.Get(Key(ident));
      if existing.Some? && !replace {
        return Err(BackendErrors.Collection(BackendErrors.PutObjectExistsNoReplace));
      }
      var _ := data.Insert(Key(ident), obj);
      r := Ok(ident);
    }

    /** `delete_object`: removes the object and hands it back; `None` when there was none. */
    method DeleteObject(ident: string) returns (r: Option<Bytes>)
      modifies data
      ensures data.entries == old(data.entries) - {Key(ident)}
      ensures r == Lookup(old(data.entries), Key(ident))
    {
      r := data.Remove(Key(ident));
    }

    /**
     * `get_object_metadata` (its body is not part of this model's source):
     * the metadata stored under the object's key, decoded with bincode;
     * absent metadata is taken to be `ObjectNotFound`.
     */
    method GetObjectMetadata(ident: string, codec: Codecs.Codec<Meta.Metadata>) returns (r: Result<Meta.Metadata, BackendErrors.MauveError>)
      ensures r == MetadataAt(meta.entries, ident, codec)
    {
      var got := meta.Get(Key(ident));
      match got
      case None => r := Err(BackendErrors.Collection(BackendErrors.ObjectNotFound));
      case Some(bytes) =>
        match codec.decode(bytes)
        case Ok(m) => r := Ok(m);
        case Err(msg) => r := Err(BackendErrors.BincodeError(msg));
    }

    /** `put_object_metadata` (its body is not part of this model's source): stores the encoded metadata under the object's key. */
    method PutObjectMetadata(ident: string, m: Meta.Metadata, codec: Codecs.Codec<Meta.Metadata>)
      modifies meta
      ensures meta.entries == old(meta.entries)[Key(ident) := codec.encode(m)]
    {
      var _ := meta.Insert(Key(ident), codec.encode(m));
    }
  }

  /** What `get_object_metadata` answers for `ident` over the metadata entries `e`. */
  function MetadataAt(e: map<Bytes, Bytes>, ident: string, codec: Codecs.Codec<Meta.Metadata>): Result<Meta.Metadata, BackendErrors.MauveError>
  {
    if Key(ident) !in e then Err(BackendErrors.Collection(BackendErrors.ObjectNotFound))
    else match codec.decode(e[Key(ident)])
      case Ok(m) => Ok(m)
      case Err(msg) => Err(BackendErrors.BincodeError(msg))
  }

  /** The keys of the scanned entries that are UTF-8, decoded, in scan order. */
  function Utf8Names(scanned: seq<(Bytes, Bytes)>): seq<string>
  {
    if scanned == [] then []
    else
      var init := Utf8Names(scanned[..|scanned| - 1]);
      match Utf8.Decode(scanned[|scanned| - 1].0)
      case Ok(s) => init + [s]
      case Err(_) => init
  }

  /** A name is listed exactly when its key was scanned. */
  lemma {:induction false} Utf8NamesMember(scanned: seq<(Bytes, Bytes)>, s: string)
    ensures s in Utf8Names(scanned) <==> exists i :: 0 <= i < |scanned| && scanned[i].0 == Key(s)
    decreases |scanned|
  {
    if scanned != [] {
      var init := scanned[..|scanned| - 1];
      var last := scanned[|scanned| - 1].0;
      Utf8NamesMember(init, s);
      Utf8.DecodeEncode(s);
      if Utf8.Decode(last).Ok? {
        Utf8.EncodeDecode(last);
        if Utf8.Decode(last).value == s {
          assert last == Key(s);
        }
      }
      if exists i :: 0 <= i < |scanned| && scanned[i].0 == Key(s) {
        var i :| 0 <= i < |scanned| && scanned[i].0 == Key(s);
        if i < |scanned| - 1 {
          assert init[i].0 == Key(s);
        }
      }
      if exists i :: 0 <= i < |init| && init[i].0 == Key(s) {
        var i :| 0 <= i < |init| && init[i].0 == Key(s);
        assert scanned[i].0 == Key(s);
      }
    }
  }

  /** The names are in strictly ascending order of their keys. */
  predicate NamesAscending(r: seq<string>)
  {
    forall i, j :: 0 <= i < j < |r| ==> KeyLess(Key(r[i]), Key(r[j]))
  }

  /** Scanning in key order lists the names in key order. */
  lemma {:induction false} Utf8NamesAscending(scanned: seq<(Bytes, Bytes)>)
    requires forall i, j :: 0 <= i < j < |scanned| ==> KeyLess(scanned[i].0, scanned[j].0)
    ensures NamesAscending(Utf8Names(scanned))
    decreases |scanned|
  {
    if scanned != [] {
      var init := scanned[..|scanned| - 1];
      var last := scanned[|scanned| - 1].0;
      Utf8NamesAscending(init);
      var r0 := Utf8Names(init);
      if Utf8.Decode(last).Ok? {
        var s := Utf8.Decode(last).value;
        Utf8.EncodeDecode(last);
        forall i | 0 <= i < |r0| ensures KeyLess(Key(r0[i]), Key(s)) {
          assert r0[i] in r0;
          Utf8NamesMember(init, r0[i]);
          var k :| 0 <= k < |init| && init[k].0 == Key(r0[i]);
          assert KeyLess(scanned[k].0, scanned[|scanned| - 1].0);
        }
        var r := Utf8Names(scanned);
        assert r == r0 + [s];
        forall i, j | 0 <= i < j < |r| ensures KeyLess(Key(r[i]), Key(r[j])) {
          if j < |r0| {
            assert r[i] == r0[i] && r[j] == r0[j];
            assert NamesAscending(r0);
          } else {
            assert r[i] == r0[i] && r[j] == s;
          }
        }
      } else {
        assert Utf8Names(scanned) == r0;
      }
    }
  }
}
