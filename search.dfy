/**
 * Label search (backend/src/search/mod.rs, backend/src/search/search.rs). A
 * request names a collection and a list of labels, each to include or to
 * exclude. Every label is looked up in the collection's forward index; the
 * answer is the references found under some included label and under no
 * excluded one, each paired with that object's metadata.
 *
 * The source runs one task per label and collects into shared sets; here
 * the tasks run one after the other, which cannot change the sets they
 * produce (`MatchesOrderIndependent`).
 */
module Search {
  import opened Wrappers
  import opened Sled
  import opened Labels
  import opened Objects
  import opened Collections
  import opened Backends
  import Meta
  import Codecs
  import BackendErrors
  import Indexer
  import Utf8

  type RefCodec = Codecs.Codec<seq<ObjectRef>>
  type MetaCodec = Codecs.Codec<Meta.Metadata>

  /** `SearchError`: a response that has not been filled in yet. */
  datatype SearchError = NotYetExecuted

  datatype SearchLabel = Include(lbl: Label) | Exclude(lbl: Label)

  /** `FoundObject`: a matching reference and the metadata stored for it. */
  datatype FoundObject = FoundObject(obj: ObjectRef, meta: Meta.Metadata)

  function AsIncludes(ls: seq<Label>): seq<SearchLabel>
  {
    seq(|ls|, i requires 0 <= i < |ls| => Include(ls[i]))
  }

  function AsExcludes(ls: seq<Label>): seq<SearchLabel>
  {
    seq(|ls|, i requires 0 <= i < |ls| => Exclude(ls[i]))
  }

  /** `SearchRequest`: built up label by label before it is performed. */
  class SearchRequest {
    var collection: string
    var labels: seq<SearchLabel>

    /** `SearchRequest::new`. */
    constructor(c: string)
      ensures collection == c && labels == []
    {
      collection := c;
      labels := [];
    }

    /** `include`: one more label to include, after the earlier ones. */
    method AddInclude(lbl: Label)
      modifies this
      ensures collection == old(collection) && labels == old(labels) + [Include(lbl)]
    {
      labels := labels + [Include(lbl)];
    }

    /** `exclude`: one more label to exclude, after the earlier ones. */
    method AddExclude(lbl: Label)
      modifies this
      ensures collection == old(collection) && labels == old(labels) + [Exclude(lbl)]
    {
      labels := labels + [Exclude(lbl)];
    }

    /** `includes`: every given label to include, in the order given. */
    method AddIncludes(ls: seq<Label>)
      modifies this
      ensures collection == old(collection) && labels == old(labels) + AsIncludes(ls)
    {
      var i := 0;
      while i < |ls|
        invariant 0 <= i <= |ls|
        invariant collection == old(collection) && labels == old(labels) + AsIncludes(ls[..i])
      {
        AddInclude(ls[i]);
        assert AsIncludes(ls[..i + 1]) == AsIncludes(ls[..i]) + [Include(ls[i])];
        i := i + 1;
      }
      assert ls[..i] == ls;
    }

    /** `excludes`: every given label to exclude, in the order given. */
    method AddExcludes(ls: seq<Label>)
      modifies this
      ensures collection == old(collection) && labels == old(labels) + AsExcludes(ls)
    {
      var i := 0;
      while i < |ls|
        invariant 0 <= i <= |ls|
        invariant collection == old(collection) && labels == old(labels) + AsExcludes(ls[..i])
      {
        AddExclude(ls[i]);
        assert AsExcludes(ls[..i + 1]) == AsExcludes(ls[..i]) + [Exclude(ls[i])];
        i := i + 1;
      }
      assert ls[..i] == ls;
    }
  }

  /** `SearchResponse`: the request it answers and its result. */
  class SearchResponse {
    const req: SearchRequest
    var result: Result<seq<FoundObject>, SearchError>

    /** `SearchResponse::new`: not executed yet. */
    constructor(req: SearchRequest)
      ensures this.req == req && result == Err(NotYetExecuted)
    {
      this.req := req;
      result := Err(NotYetExecuted);
    }

    /** `set_ok`. */
    method SetOk(objects: seq<FoundObject>)
      modifies this
      ensures result == Ok(objects)
    {
      result := Ok(objects);
    }

    /** `set_err`. */
    method SetErr(e: SearchError)
      modifies this
      ensures result == Err(e)
    {
      result := Err(e);
    }
  }

  /** The shared set of references a label search adds to (a `DashSet<ObjectRef>`). */
  class RefSet {
    var items: set<ObjectRef>

    constructor()
      ensures items == {}
    {
      items := {};
    }

    method Insert(o: ObjectRef)
      modifies this
      ensures items == old(items) + {o}
    {
      items := items + {o};
    }
  }

  // ------------------------------------------------------------ the answer

  /** The references the forward index holds for one label, when its entry decodes. */
  function LabelRefs(fwd: map<Bytes, Bytes>, lbl: Label, codec: RefCodec): set<ObjectRef>
  {
    set o | o in Indexer.RefsAt(fwd, Key(ToFwd(lbl)), codec)
  }

  /** The union of `LabelRefs` over the labels to include (`inc`) or to exclude (`!inc`). */
  function Gathered(fwd: map<Bytes, Bytes>, labels: seq<SearchLabel>, inc: bool, codec: RefCodec): set<ObjectRef>
    decreases |labels|
  {
    if labels == [] then {}
    else
      var last := labels[|labels| - 1];
      Gathered(fwd, labels[..|labels| - 1], inc, codec)
      + (if last.Include? == inc then LabelRefs(fwd, last.lbl, codec) else {})
  }

  /** What a search answers: found under an included label and under no excluded one. */
  function Matches(fwd: map<Bytes, Bytes>, labels: seq<SearchLabel>, codec: RefCodec): set<ObjectRef>
  {
    Gathered(fwd, labels, true, codec) - Gathered(fwd, labels, false, codec)
  }

  /** A reference is gathered exactly when some label of the right kind lists it. */
  lemma {:induction false} GatheredMember(fwd: map<Bytes, Bytes>, labels: seq<SearchLabel>, inc: bool, codec: RefCodec, o: ObjectRef)
    ensures o in Gathered(fwd, labels, inc, codec)
        <==> exists l :: l in labels && l.Include? == inc && o in LabelRefs(fwd, l.lbl, codec)
    decreases |labels|
  {
    if labels != [] {
      var init := labels[..|labels| - 1];
      var last := labels[|labels| - 1];
      GatheredMember(fwd, init, inc, codec, o);
      assert labels == init + [last];
      if exists l :: l in labels && l.Include? == inc && o in LabelRefs(fwd, l.lbl, codec) {
        var l :| l in labels && l.Include? == inc && o in LabelRefs(fwd, l.lbl, codec);
        if l != last {
          assert l in init;
        }
      }
    }
  }

  /** The answer, element by element: listed by an included label and by no excluded one. */
  lemma MatchesMember(fwd: map<Bytes, Bytes>, labels: seq<SearchLabel>, codec: RefCodec, o: ObjectRef)
    ensures o in Matches(fwd, labels, codec)
        <==> (exists l :: l in labels && l.Include? && o in LabelRefs(fwd, l.lbl, codec))
             && (forall l :: l in labels && l.Exclude? ==> o !in LabelRefs(fwd, l.lbl, codec))
  {
    GatheredMember(fwd, labels, true, codec, o);
    GatheredMember(fwd, labels, false, codec, o);
  }

  /** The answer depends on which labels are asked for, not on their order or repetition. */
  lemma MatchesOrderIndependent(fwd: map<Bytes, Bytes>, a: seq<SearchLabel>, b: seq<SearchLabel>, codec: RefCodec)
    requires forall l :: l in a <==> l in b
    ensures Matches(fwd, a, codec) == Matches(fwd, b, codec)
  {
    forall o ensures o in Matches(fwd, a, codec) <==> o in Matches(fwd, b, codec) {
      MatchesMember(fwd, a, codec, o);
      MatchesMember(fwd, b, codec, o);
    }
  }

  /** When no stored list decodes with the search's codec, nothing is ever found. */
  lemma UnreadableIndexFindsNothing(fwd: map<Bytes, Bytes>, labels: seq<SearchLabel>, codec: RefCodec)
    requires forall k :: k in fwd ==> codec.decode(fwd[k]).Err?
    ensures Matches(fwd, labels, codec) == {}
  {
    forall o ensures o !in Matches(fwd, labels, codec) {
      MatchesMember(fwd, labels, codec, o);
      forall l | l in labels ensures LabelRefs(fwd, l.lbl, codec) == {} {
      }
    }
  }

  /**
   * After the indexer has handled the insertion of an object, searching for
   * one of its labels alone finds it, provided the search reads the index
   * with the codec the indexer wrote it with.
   */
  lemma InsertThenSearchFinds(key: Bytes, value: Bytes, collection: string, meta: map<Bytes, Bytes>,
                              fwd: map<Bytes, Bytes>, rev: map<Bytes, Bytes>,
                              metaCodec: MetaCodec, refCodec: RefCodec, l: Label)
    requires Utf8.IsUtf8(key) && key in meta && metaCodec.decode(meta[key]).Ok?
    requires Codecs.RoundTrips(refCodec) && Indexer.Decodable(fwd, refCodec) && Indexer.Decodable(rev, refCodec)
    requires l in metaCodec.decode(meta[key]).value.labels
    ensures var o := Indexer.EventSpec(Indexer.Insert(key, value), collection, meta, fwd, rev, metaCodec, refCodec);
      Objects.New(collection, Utf8.Decode(key).value) in Matches(o.fwd, [Include(l)], refCodec)
  {
    Indexer.InsertEventIndexes(key, value, collection, meta, fwd, rev, metaCodec, refCodec);
    var o := Indexer.EventSpec(Indexer.Insert(key, value), collection, meta, fwd, rev, metaCodec, refCodec);
    MatchesMember(o.fwd, [Include(l)], refCodec, Objects.New(collection, Utf8.Decode(key).value));
  }

  // ------------------------------------------------------------ the search

  /**
   * `search_label`: adds the references stored under the label's forward
   * key to `target` and answers how many the list held, duplicates
   * included; an absent key answers 0. A list that does not decode is an
   * error carrying the decoder's message and adds nothing.
   */
  method SearchLabelInto(c: Collection, lbl: Label, target: RefSet, codec: RefCodec) returns (r: Result<nat, string>)
    modifies target
    ensures Key(ToFwd(lbl)) !in c.indexFwd.entries ==> r == Ok(0)
    ensures Key(ToFwd(lbl)) in c.indexFwd.entries ==>
      match codec.decode(c.indexFwd.entries[Key(ToFwd(lbl))])
      case Ok(refs) => r == Ok(|refs|)
      case Err(msg) => r == Err(msg)
    ensures target.items == old(target.items) + LabelRefs(c.indexFwd.entries, lbl, codec)
  {
    var got := c.indexFwd.Get(Key(ToFwd(lbl)));
    match got {
      case None =>
        r := Ok(0);
      case Some(bytes) =>
        match codec.decode(bytes) {
          case Err(msg) =>
            r := Err(msg);
          case Ok(objects) =>
            var i := 0;
            while i < |objects|
              invariant 0 <= i <= |objects|
              invariant target.items == old(target.items) + set o | o in objects[..i]
            {
              assert objects[..i + 1] == objects[..i] + [objects[i]];
              target.Insert(objects[i]);
              i := i + 1;
            }
            assert objects[..i] == objects;
            r := Ok(|objects|);
        }
    }
  }

  /** The found objects are the matching references, each once, with the metadata stored for it. */
  ghost predicate Answers(items: seq<FoundObject>, found: set<ObjectRef>, meta: map<Bytes, Bytes>, codec: MetaCodec)
  {
    (forall i :: 0 <= i < |items| ==> items[i].obj in found && MetadataAt(meta, items[i].obj.name, codec) == Ok(items[i].meta))
    && (forall o :: o in found ==> exists i :: 0 <= i < |items| && items[i].obj == o)
    && (forall i, j :: 0 <= i < j < |items| ==> items[i].obj != items[j].obj)
  }

  /**
   * The label loop of `perform_search`: every label's references go into
   * the included or the excluded set, whatever the other labels found; a
   * label whose list does not decode adds nothing. The answer is the
   * difference of the two sets.
   */
  method GatherMatches(c: Collection, labels: seq<SearchLabel>, codec: RefCodec) returns (results: set<ObjectRef>)
    ensures results == Matches(c.indexFwd.entries, labels, codec)
  {
    var includes := new RefSet();
    var excludes := new RefSet();
    var i := 0;
    while i < |labels|
      invariant 0 <= i <= |labels|
      invariant includes.items == Gathered(c.indexFwd.entries, labels[..i], true, codec)
      invariant excludes.items == Gathered(c.indexFwd.entries, labels[..i], false, codec)
    {
      assert labels[..i + 1][..i] == labels[..i];
      match labels[i] {
        case Include(l) =>
          var _ := SearchLabelInto(c, l, includes, codec);
        case Exclude(l) =>
          var _ := SearchLabelInto(c, l, excludes, codec);
      }
      i := i + 1;
    }
    assert labels[..i] == labels;
    results := includes.items - excludes.items;
  }

  /**
   * The metadata loop of `perform_search`: each reference, in an order the
   * set chooses, paired with its metadata; the first failed lookup is the
   * answer.
   */
  method FetchMetadata(c: Collection, results: set<ObjectRef>, codec: MetaCodec) returns (r: Result<seq<FoundObject>, BackendErrors.MauveError>)
    ensures r.Ok? <==> forall o :: o in results ==> MetadataAt(c.meta.entries, o.name, codec).Ok?
    ensures r.Ok? ==> Answers(r.value, results, c.meta.entries, codec)
    ensures r.Err? ==> exists o :: o in results && MetadataAt(c.meta.entries, o.name, codec) == Err(r.error)
  {
    var items: seq<FoundObject> := [];
    var remaining := results;
    while remaining != {}
      invariant remaining <= results
      invariant forall i :: 0 <= i < |items| ==>
        items[i].obj in results - remaining && MetadataAt(c.meta.entries, items[i].obj.name, codec) == Ok(items[i].meta)
      invariant forall o :: o in results - remaining ==> exists i :: 0 <= i < |items| && items[i].obj == o
      invariant forall i, j :: 0 <= i < j < |items| ==> items[i].obj != items[j].obj
      decreases |remaining|
    {
      var o :| o in remaining;
      var m := c.GetObjectMetadata(o.name, codec);
      if m.Err? {
        return Err(m.error);
      }
      CoveredStep(items, results, remaining, FoundObject(o, m.value));
      items := items + [FoundObject(o, m.value)];
      remaining := remaining - {o};
    }
    assert results - remaining == results;
    r := Ok(items);
  }

  /** Pairing one more remaining reference keeps every handled reference listed. */
  lemma CoveredStep(items: seq<FoundObject>, results: set<ObjectRef>, remaining: set<ObjectRef>, f: FoundObject)
    requires f.obj in remaining
    requires forall o :: o in results - remaining ==> exists i :: 0 <= i < |items| && items[i].obj == o
    ensures forall o :: o in results - (remaining - {f.obj}) ==>
      exists i :: 0 <= i < |items + [f]| && (items + [f])[i].obj == o
  {
    var next := items + [f];
    forall p | p in results - (remaining - {f.obj}) ensures exists i :: 0 <= i < |next| && next[i].obj == p {
      if p == f.obj {
        assert next[|items|].obj == p;
      } else {
        assert p in results - remaining;
        var i :| 0 <= i < |items| && items[i].obj == p;
        assert next[i].obj == p;
      }
    }
  }

  /**
   * `perform_search`: opens the collection, gathers the matching references
   * and pairs each with its metadata. Which failed lookup is reported
   * depends on the set's iteration order, so the error is only said to
   * belong to some matching reference.
   */
  method PerformSearch(b: Backend, req: SearchRequest, refCodec: RefCodec, metaCodec: MetaCodec)
    returns (r: Result<SearchResponse, BackendErrors.MauveError>)
    requires b.db.Valid()
    modifies b, b.db
    ensures b.db.Valid() && WatchSent(old(b.signals), b.signals, req.collection)
    ensures var found := Matches(old(b.Entries(FwdTree, req.collection)), req.labels, refCodec);
      var meta := old(b.Entries(MetaTree, req.collection));
      (r.Ok? <==> forall o :: o in found ==> MetadataAt(meta, o.name, metaCodec).Ok?)
      && (r.Ok? ==> fresh(r.value) && r.value.req == req && r.value.result.Ok?
                    && Answers(r.value.result.value, found, meta, metaCodec))
      && (r.Err? ==> exists o :: o in found && MetadataAt(meta, o.name, metaCodec) == Err(r.error))
    ensures b.Entries(DataTree, req.collection) == old(b.Entries(DataTree, req.collection))
    ensures b.Entries(MetaTree, req.collection) == old(b.Entries(MetaTree, req.collection))
    ensures b.Entries(FwdTree, req.collection) == old(b.Entries(FwdTree, req.collection))
    ensures b.Entries(RevTree, req.collection) == old(b.Entries(RevTree, req.collection))
    ensures OthersKept(b, req.collection)
    ensures b.db.View() == Opened(old(b.db.View()), req.collection)
  {
    var c := b.GetCollection(req.collection);
    b.OpensEntries(c);
    r := SearchIn(c, req, refCodec, metaCodec);
  }

  /** The part of `perform_search` after the collection is open; no tree changes. */
  method SearchIn(c: Collection, req: SearchRequest, refCodec: RefCodec, metaCodec: MetaCodec)
    returns (r: Result<SearchResponse, BackendErrors.MauveError>)
    ensures var found := Matches(c.indexFwd.entries, req.labels, refCodec);
      (r.Ok? <==> forall o :: o in found ==> MetadataAt(c.meta.entries, o.name, metaCodec).Ok?)
      && (r.Ok? ==> fresh(r.value) && r.value.req == req && r.value.result.Ok?
                    && Answers(r.value.result.value, found, c.meta.entries, metaCodec))
      && (r.Err? ==> exists o :: o in found && MetadataAt(c.meta.entries, o.name, metaCodec) == Err(r.error))
  {
    var results := GatherMatches(c, req.labels, refCodec);
    var response := new SearchResponse(req);
    var items := FetchMetadata(c, results, metaCodec);
    if items.Err? {
      return Err(items.error);
    }
    response.SetOk(items.value);
    r := Ok(response);
  }
}
