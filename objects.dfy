/**
 * References to stored objects (backend/src/objects.rs): a
 * collection/name pair, lower-cased by its constructor, printed as
 * `collection/name`, ordered as Rust derives it, and rebuilt from a pair of
 * raw keys by UTF-8 decoding.
 */
module Objects {
  import opened Wrappers
  import opened Text
  import opened Ordering
  import Utf8
  import BackendErrors

  datatype ObjectRef = ObjectRef(collection: string, name: string)

  /** `ObjectRef::new`: both parts ASCII-lower-cased. */
  function New(collection: string, name: string): (r: ObjectRef)
    ensures IsLower(r.collection) && IsLower(r.name)
    ensures EqIgnoreCase(r.collection, collection) && EqIgnoreCase(r.name, name)
  {
    LowerIsLower(collection);
    LowerIsLower(name);
    LowerEqIgnoreCase(collection);
    LowerEqIgnoreCase(name);
    ObjectRef(Lower(collection), Lower(name))
  }

  /** `impl Display for ObjectRef`: the collection is recovered by splitting at the first `/`. */
  function Display(o: ObjectRef): (r: string)
    ensures |r| == |o.collection| + 1 + |o.name| && r[|o.collection|] == '/'
    ensures '/' !in o.collection ==> SplitOnce(r, '/') == Some((o.collection, o.name))
  {
    var r := o.collection + "/" + o.name;
    if '/' !in o.collection then SplitOnceOfJoin(o.collection, '/', o.name); r else r
  }

  /**
   * The derived `Ord`: by collection, then by name. Rust compares `String`s
   * by their UTF-8 bytes, which orders them as their scalar values.
   */
  predicate Less(a: ObjectRef, b: ObjectRef)
  {
    LexLess(a.collection, b.collection, CharLess)
    || (a.collection == b.collection && LexLess(a.name, b.name, CharLess))
  }

  /** The derived order is a strict total order, so ordered sets of references are well defined. */
  lemma LessStrictTotal()
    ensures StrictTotal(Less)
  {
    CharLessStrictTotal();
    LexStrictTotal(CharLess);
    forall a: ObjectRef, b: ObjectRef, c: ObjectRef | Less(a, b) && Less(b, c)
      ensures Less(a, c)
    {
      if LexLess(a.collection, b.collection, CharLess) && LexLess(b.collection, c.collection, CharLess) {
        LexTransitive(a.collection, b.collection, c.collection, CharLess);
      } else if a.collection == b.collection == c.collection {
        LexTransitive(a.name, b.name, c.name, CharLess);
      }
    }
    forall a: ObjectRef, b: ObjectRef | a != b
      ensures Less(a, b) || Less(b, a)
    {
      if a.collection != b.collection {
        LexTotal(a.collection, b.collection, CharLess);
      } else {
        LexTotal(a.name, b.name, CharLess);
      }
    }
    forall a: ObjectRef ensures !Less(a, a) {
      LexIrreflexive(a.collection, CharLess);
      LexIrreflexive(a.name, CharLess);
    }
  }

  /** `TryFrom<(IVec, IVec)>`: both keys are decoded as UTF-8, the collection first; nothing is lower-cased. */
  function TryFromKeys(collection: seq<Utf8.byte>, name: seq<Utf8.byte>): (r: Result<ObjectRef, BackendErrors.MauveError>)
    ensures r.Ok? <==> Utf8.IsUtf8(collection) && Utf8.IsUtf8(name)
    ensures r.Ok? ==> Utf8.Encode(r.value.collection) == collection && Utf8.Encode(r.value.name) == name
    ensures !Utf8.IsUtf8(collection) ==> r == Err(BackendErrors.Utf8Error(Utf8.Decode(collection).error))
    ensures Utf8.IsUtf8(collection) && !Utf8.IsUtf8(name) ==> r == Err(BackendErrors.Utf8Error(Utf8.Decode(name).error))
  {
    match Utf8.Decode(collection)
    case Err(e) => Err(BackendErrors.Utf8Error(e))
    case Ok(c) =>
      match Utf8.Decode(name)
      case Err(e) => Err(BackendErrors.Utf8Error(e))
      case Ok(n) =>
        Utf8.EncodeDecode(collection);
        Utf8.EncodeDecode(name);
        Ok(ObjectRef(c, n))
  }

  /** The keys of any reference convert back to that very reference, upper case included. */
  lemma TryFromEncoded(o: ObjectRef)
    ensures TryFromKeys(Utf8.Encode(o.collection), Utf8.Encode(o.name)) == Ok(o)
  {
    Utf8.DecodeEncode(o.collection);
    Utf8.DecodeEncode(o.name);
  }

  /** A key with an upper-case letter names a different reference than `new` makes of it. */
  lemma NewLowersName(collection: string, name: string)
    requires !IsLower(name)
    ensures New(collection, name).name != name
  {
  }

  /** `ObjectRefs`: a list of references; iterating it yields the list in order. */
  datatype ObjectRefs = ObjectRefs(refs: seq<ObjectRef>)

  /** `impl IntoIterator for ObjectRefs`. */
  function IntoIter(r: ObjectRefs): (s: seq<ObjectRef>)
    ensures |s| == |r.refs| && forall i :: 0 <= i < |s| ==> s[i] == r.refs[i]
  {
    r.refs
  }
}
