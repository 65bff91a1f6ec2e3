/**
 * The object routes of the HTTP API (backend/src/api/objects.rs). Each
 * handler opens the collection through the backend (which also asks the
 * indexer to watch it), does one collection operation and turns a
 * `MauveError` into a status and message with `IntoServe`. Routing, request
 * guards and the streaming of the payload are left out; the payload
 * arrives as bytes together with the configured size limit.
 */
module ObjectsApi {
  import opened Wrappers
  import opened Sled
  import opened Collections
  import opened Backends
  import Http
  import BackendErrors
  import Meta
  import Codecs
  import Indexer

  type ServeError = (Http.Status, string)
  type MetaCodec = Codecs.Codec<Meta.Metadata>

  /** `ObjectWithMetadata`: an object's bytes with its decoded metadata. */
  datatype ObjectWithMetadata = ObjectWithMetadata(obj: Bytes, meta: Meta.Metadata)

  /** One mebibyte, the unit of `object_max_size_mb`. */
  const MEBIBYTE: nat := 1048576

  /**
   * `payload.open(limit).into_bytes()` followed by `.to_vec()`: at most
   * `limit` bytes are read, and the result is used whether or not the
   * payload was cut short.
   */
  function Capped(payload: Bytes, maxSizeMb: nat): (r: Bytes)
    ensures |r| <= maxSizeMb * MEBIBYTE
    ensures |payload| <= maxSizeMb * MEBIBYTE ==> r == payload
    ensures |payload| > maxSizeMb * MEBIBYTE ==> |r| == maxSizeMb * MEBIBYTE
    ensures r == payload[..|r|]
  {
    if |payload| <= maxSizeMb * MEBIBYTE then payload else payload[..maxSizeMb * MEBIBYTE]
  }

  /** `head_object`: 200 when the object is stored, 404 when it is not. */
  method HeadObject(b: Backend, collection: string, name: string) returns (r: Result<Http.Status, ServeError>)
    requires b.db.Valid()
    modifies b, b.db
    ensures b.db.Valid() && WatchSent(old(b.signals), b.signals, collection)
    ensures r == Ok(if Key(name) in old(b.Entries(DataTree, collection)) then Http.Ok else Http.NotFound)
    ensures b.Entries(DataTree, collection) == old(b.Entries(DataTree, collection))
    ensures b.Entries(MetaTree, collection) == old(b.Entries(MetaTree, collection))
    ensures b.Entries(FwdTree, collection) == old(b.Entries(FwdTree, collection))
    ensures b.Entries(RevTree, collection) == old(b.Entries(RevTree, collection))
    ensures OthersKept(b, collection)
    ensures b.db.View() == Opened(old(b.db.View()), collection)
  {
    var c := b.GetCollection(collection);
    var found := c.HeadObject(name);
    b.OpensEntries(c);
    r := Ok(if found then Http.Ok else Http.NotFound);
  }

  /** `get_object`: the object and its metadata; 404 when either is missing, 500 when the metadata does not decode. */
  method GetObject(b: Backend, collection: string, name: string, codec: MetaCodec) returns (r: Result<ObjectWithMetadata, ServeError>)
    requires b.db.Valid()
    modifies b, b.db
    ensures b.db.Valid() && WatchSent(old(b.signals), b.signals, collection)
    ensures var data, meta := old(b.Entries(DataTree, collection)), old(b.Entries(MetaTree, collection));
      if Key(name) !in data || Key(name) !in meta then
        r == Err(BackendErrors.IntoServe(BackendErrors.Collection(BackendErrors.ObjectNotFound)))
      else match codec.decode(meta[Key(name)])
        case Ok(m) => r == Ok(ObjectWithMetadata(data[Key(name)], m))
        case Err(msg) => r == Err(BackendErrors.IntoServe(BackendErrors.BincodeError(msg)))
    ensures b.Entries(DataTree, collection) == old(b.Entries(DataTree, collection))
    ensures b.Entries(MetaTree, collection) == old(b.Entries(MetaTree, collection))
    ensures b.Entries(FwdTree, collection) == old(b.Entries(FwdTree, collection))
    ensures b.Entries(RevTree, collection) == old(b.Entries(RevTree, collection))
    ensures OthersKept(b, collection)
    ensures b.db.View() == Opened(old(b.db.View()), collection)
  {
    var c := b.GetCollection(collection);
    b.OpensEntries(c);
    r := GetIn(c, name, codec);
  }

  /** The part of `get_object` after the collection is open; no tree changes. */
  method GetIn(c: Collection, name: string, codec: MetaCodec) returns (r: Result<ObjectWithMetadata, ServeError>)
    ensures var data, meta := c.data.entries, c.meta.entries;
      if Key(name) !in data || Key(name) !in meta then
        r == Err(BackendErrors.IntoServe(BackendErrors.Collection(BackendErrors.ObjectNotFound)))
      else match codec.decode(meta[Key(name)])
        case Ok(m) => r == Ok(ObjectWithMetadata(data[Key(name)], m))
        case Err(msg) => r == Err(BackendErrors.IntoServe(BackendErrors.BincodeError(msg)))
  {
    var got := c.GetObject(name);
    if got.Err? {
      return Err(BackendErrors.IntoServe(got.error));
    }
    var m := c.GetObjectMetadata(name, codec);
    if m.Err? {
      return Err(BackendErrors.IntoServe(m.error));
    }
    r := Ok(ObjectWithMetadata(got.value, m.value));
  }

  /**
   * `post_object` and `put_object`: store the (capped) payload, then the
   * metadata, and answer the object's name. Without `replace` an existing
   * object is refused with 409 and neither tree changes.
   */
  method StoreObject(b: Backend, collection: string, name: string, payload: Bytes, meta: Meta.Metadata,
                     maxSizeMb: nat, codec: MetaCodec, replace: bool) returns (r: Result<string, ServeError>)
    requires b.db.Valid()
    modifies b, b.db, b.db.Repr
    ensures b.db.Valid() && WatchSent(old(b.signals), b.signals, collection)
    ensures var data, metas := old(b.Entries(DataTree, collection)), old(b.Entries(MetaTree, collection));
      if Key(name) in data && !replace then
        r == Err(BackendErrors.IntoServe(BackendErrors.Collection(BackendErrors.PutObjectExistsNoReplace)))
        && b.Entries(DataTree, collection) == data && b.Entries(MetaTree, collection) == metas
      else
        r == Ok(name)
        && b.Entries(DataTree, collection) == data[Key(name) := Capped(payload, maxSizeMb)]
        && b.Entries(MetaTree, collection) == metas[Key(name) := codec.encode(meta)]
    ensures b.Entries(FwdTree, collection) == old(b.Entries(FwdTree, collection))
    ensures b.Entries(RevTree, collection) == old(b.Entries(RevTree, collection))
    ensures OthersKept(b, collection)
    ensures CollectionTrees(collection) <= b.db.View().Keys
  {
    var c := b.GetCollection(collection);
    label afterOpen:
    b.OthersDistinct(c);
    var bytes := Capped(payload, maxSizeMb);
    var result := c.PutObject(name, bytes, replace);
    if result.Err? {
      b.OpensEntries(c);
      ViewKeptOutside(old@afterOpen(b.db.View()), b.db.View(), CollectionTrees(collection));
      return Err(BackendErrors.IntoServe(result.error));
    }
    c.PutObjectMetadata(name, meta, codec);
    b.OpensEntries(c);
    ViewKeptOutside(old@afterOpen(b.db.View()), b.db.View(), CollectionTrees(collection));
    r := Ok(result.value);
  }

  /** `post_object`: create an object, refusing to overwrite one. */
  method PostObject(b: Backend, collection: string, name: string, payload: Bytes, meta: Meta.Metadata,
                    maxSizeMb: nat, codec: MetaCodec) returns (r: Result<string, ServeError>)
    requires b.db.Valid()
    modifies b, b.db, b.db.Repr
    ensures b.db.Valid() && WatchSent(old(b.signals), b.signals, collection)
    ensures var data, metas := old(b.Entries(DataTree, collection)), old(b.Entries(MetaTree, collection));
      if Key(name) in data then
        r == Err((Http.Conflict, "Object exists with ident, replace=false"))
        && b.Entries(DataTree, collection) == data && b.Entries(MetaTree, collection) == metas
      else
        r == Ok(name)
        && b.Entries(DataTree, collection) == data[Key(name) := Capped(payload, maxSizeMb)]
        && b.Entries(MetaTree, collection) == metas[Key(name) := codec.encode(meta)]
    ensures b.Entries(FwdTree, collection) == old(b.Entries(FwdTree, collection))
    ensures b.Entries(RevTree, collection) == old(b.Entries(RevTree, collection))
    ensures OthersKept(b, collection)
    ensures CollectionTrees(collection) <= b.db.View().Keys
  {
    r := StoreObject(b, collection, name, payload, meta, maxSizeMb, codec, false);
  }

  /** `put_object`: create or overwrite an object; it always answers the name. */
  method PutObject(b: Backend, collection: string, name: string, payload: Bytes, meta: Meta.Metadata,
                   maxSizeMb: nat, codec: MetaCodec) returns (r: Result<string, ServeError>)
    requires b.db.Valid()
    modifies b, b.db, b.db.Repr
    ensures b.db.Valid() && WatchSent(old(b.signals), b.signals, collection)
    ensures r == Ok(name)
    ensures b.Entries(DataTree, collection) == old(b.Entries(DataTree, collection))[Key(name) := Capped(payload, maxSizeMb)]
    ensures b.Entries(MetaTree, collection) == old(b.Entries(MetaTree, collection))[Key(name) := codec.encode(meta)]
    ensures b.Entries(FwdTree, collection) == old(b.Entries(FwdTree, collection))
    ensures b.Entries(RevTree, collection) == old(b.Entries(RevTree, collection))
    ensures OthersKept(b, collection)
    ensures CollectionTrees(collection) <= b.db.View().Keys
  {
    r := StoreObject(b, collection, name, payload, meta, maxSizeMb, codec, true);
  }

  /** `delete_object`: removes the object and answers its bytes; 404 when there was none. */
  method DeleteObject(b: Backend, collection: string, name: string) returns (r: Result<Option<Bytes>, ServeError>)
    requires b.db.Valid()
    modifies b, b.db, b.db.Repr
    ensures b.db.Valid() && WatchSent(old(b.signals), b.signals, collection)
    ensures var data := old(b.Entries(DataTree, collection));
      r == if Key(name) in data then Ok(Some(data[Key(name)]))
           else Err(BackendErrors.IntoServe(BackendErrors.Collection(BackendErrors.ObjectNotFound)))
    ensures b.Entries(DataTree, collection) == old(b.Entries(DataTree, collection)) - {Key(name)}
    ensures b.Entries(MetaTree, collection) == old(b.Entries(MetaTree, collection))
    ensures b.Entries(FwdTree, collection) == old(b.Entries(FwdTree, collection))
    ensures b.Entries(RevTree, collection) == old(b.Entries(RevTree, collection))
    ensures OthersKept(b, collection)
    ensures CollectionTrees(collection) <= b.db.View().Keys
  {
    var c := b.GetCollection(collection);
    b.OthersDistinct(c);
    var deleted := c.DeleteObject(name);
    b.OpensEntries(c);
    match deleted
    case Some(bytes) => r := Ok(Some(bytes));
    case None => r := Err(BackendErrors.IntoServe(BackendErrors.Collection(BackendErrors.ObjectNotFound)));
  }
}
