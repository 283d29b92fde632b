/**
  Name uniqueness of the catalog, and how `deleteFile` breaks it.

  The upload path refuses a name that is already stored, so the catalog is
  meant to hold at most one record per name. That holds as long as every
  in-memory record is also in the metadata file under the same id. The
  service's delete removes the id from the file but not from the in-memory
  map, so the next save writes the id back; if the same name has been
  uploaded again in between, two ids now carry that name, and deleting
  either one removes the single file both refer to.

  `DeleteAndForget` is the delete that also drops the id from the
  in-memory map; with it, uploads and deletes keep the catalog coherent.
 */
module Coherence {
  import opened Base
  import Json
  import opened Catalog
  import CatalogLemmas

  /** No two stored records read as the same name. */
  ghost predicate UniqueNames(e: map<Id, Json.Object>) {
    forall a, b :: a in e && b in e && "name" in e[a] && "name" in e[b] &&
                   Json.AsText(e[a]["name"]) == Json.AsText(e[b]["name"])
                   ==> a == b
  }

  /** The stored record `k` reads as `name`. */
  ghost predicate NamedIn(e: map<Id, Json.Object>, k: Id, name: FileName) {
    k in e && "name" in e[k] && Json.AsText(e[k]["name"]) == name
  }

  /**
    The in-memory map agrees with the metadata file (every in-memory id is
    stored with its own record) and stored names are unique. Nothing is
    claimed of a metadata file that cannot be read.
   */
  ghost predicate Coherent(s: State) {
    && (s.json.Absent? ==> s.mem == map[])
    && (s.json.Present? ==>
          && (forall k :: k in s.mem ==> k in s.json.entries && s.json.entries[k] == RecordJson(s.mem[k]))
          && UniqueNames(s.json.entries))
  }

  /** An id that neither the in-memory map nor the metadata file holds. */
  ghost predicate FreshId(s: State, id: Id) {
    id !in s.mem && id !in StoredEntries(s.json)
  }

  /** Corrected delete: `deleteFile`, and the id is also removed from the in-memory map. */
  function DeleteAndForget(s: State, id: Id): (r: Step<bool>)
    requires Known(s, id)
    ensures id !in r.state.mem && r.state.mem == s.mem - {id}
    ensures r.state.dirExists == s.dirExists
    ensures r.state.disk == s.disk - {NameOf(s, id)}
    ensures r.state.json == Present(s.json.entries - {id})
    ensures r.out <==> NameOf(s, id) in s.disk
  {
    var d := DeleteFile(s, id);
    Step(d.state.(mem := d.state.mem - {id}), d.out)
  }

  /** The service's delete leaves any coherent state whose deleted id was uploaded in this process incoherent. */
  lemma DeleteFileBreaksCoherence(s: State, id: Id)
    requires Coherent(s) && Known(s, id) && id in s.mem
    ensures !Coherent(DeleteFile(s, id).state)
  {
    var t := DeleteFile(s, id).state;
    assert id in t.mem && id !in t.json.entries;
  }

  /**
    As written: delete an id uploaded in this process, upload its name again
    under a new id, and both ids end up stored under that one name.
   */
  lemma ReuploadAfterDeleteDuplicatesName(s: State, id: Id, q: Part, id2: Id, mkdirsOk: bool)
    requires Coherent(s) && Known(s, id) && id in s.mem
    requires q.name == NameOf(s, id)
    requires Upload(DeleteFile(s, id).state, q, id2, mkdirsOk).out == Stored
    requires id2 != id && id2 !in s.json.entries
    ensures var e := Upload(DeleteFile(s, id).state, q, id2, mkdirsOk).state.json.entries;
            NamedIn(e, id, q.name) && NamedIn(e, id2, q.name) && !UniqueNames(e)
  {
    var s1 := DeleteFile(s, id).state;
    CatalogLemmas.StoredUploadJson(s1, q, id2, mkdirsOk);
    assert s.json.entries[id] == RecordJson(s.mem[id]);
    MergeReAddsDeleted(s.mem, s1.json.entries, id, id2, RecordOf(q));
  }

  /** The merge of a save, on an in-memory map still holding a deleted id. */
  lemma MergeReAddsDeleted(mem: map<Id, Rec>, prior: map<Id, Json.Object>, id: Id, id2: Id, r: Rec)
    requires id in mem && id !in prior && id2 !in prior && id2 != id
    requires mem[id].name == r.name
    ensures var e := TreeOf(mem[id2 := r]) + prior;
            NamedIn(e, id, r.name) && NamedIn(e, id2, r.name) && !UniqueNames(e)
  {
    var e := TreeOf(mem[id2 := r]) + prior;
    assert e[id] == RecordJson(mem[id]) && e[id2] == RecordJson(r);
  }

  /** A concrete run of the scenario above, from an empty catalog. */
  lemma ReuploadAfterDeleteExample()
    ensures var s0 := State(true, map[], Present(map[]), map[]);
            var p := Part("a.pdf", Some("application/pdf"), [1]);
            var s1 := Upload(s0, p, "1", true);
            s1.out == Stored && Known(s1.state, "1") &&
            var s2 := DeleteFile(s1.state, "1").state;
            var s3 := Upload(s2, p, "2", true);
            s3.out == Stored && !UniqueNames(s3.state.json.entries)
  {
    var s0 := State(true, map[], Present(map[]), map[]);
    var p := Part("a.pdf", Some("application/pdf"), [1]);
    assert !NameStored(s0.json, p.name);
    var s1 := Upload(s0, p, "1", true);
    assert s1.state.json.entries == TreeOf(map["1" := RecordOf(p)]);
    assert s1.state.json.entries["1"] == RecordJson(RecordOf(p));
    assert Coherent(s1.state) by {
      assert s1.state.mem == map["1" := RecordOf(p)];
    }
    ReuploadAfterDeleteDuplicatesName(s1.state, "1", p, "2", true);
  }

  /** A coherent upload under a fresh id keeps the catalog coherent. */
  lemma UploadKeepsCoherent(s: State, p: Part, id: Id, mkdirsOk: bool)
    requires Coherent(s) && FreshId(s, id)
    ensures Coherent(Upload(s, p, id, mkdirsOk).state)
  {
    var r := Upload(s, p, id, mkdirsOk);
    if r.out == Stored {
      CatalogLemmas.StoredUploadJson(s, p, id, mkdirsOk);
      assert !NameStored(s.json, p.name);
      MergeKeepsCoherent(s, r.state, RecordOf(p), id);
    }
  }

  /** The save of a new, unstored name under a fresh id, on a coherent state. */
  lemma MergeKeepsCoherent(s: State, t: State, r: Rec, id: Id)
    requires Coherent(s) && FreshId(s, id) && !NameStored(s.json, r.name)
    requires !s.json.Unreadable?
    requires t.mem == s.mem[id := r]
    requires t.json == Present(TreeOf(t.mem) + StoredEntries(s.json))
    ensures Coherent(t)
  {
    var prior := StoredEntries(s.json);
    var e := t.json.entries;
    forall k | k in t.mem
      ensures k in e && e[k] == RecordJson(t.mem[k])
    {
      if k != id {
        assert k in prior;
      }
    }
    forall a, b | a in e && b in e && "name" in e[a] && "name" in e[b] &&
                  Json.AsText(e[a]["name"]) == Json.AsText(e[b]["name"])
      ensures a == b
    {
      assert a in prior || a == id;
      assert b in prior || b == id;
    }
  }

  /** The corrected delete keeps the catalog coherent. */
  lemma DeleteAndForgetKeepsCoherent(s: State, id: Id)
    requires Coherent(s) && Known(s, id)
    ensures Coherent(DeleteAndForget(s, id).state)
  {
  }

  /** One upload request: the part, the id it is given, and whether creating the directory succeeds. */
  datatype Request = Request(part: Part, id: Id, mkdirsOk: bool)

  /** The state after serving the requests in order. */
  function UploadAll(s: State, reqs: seq<Request>): State
    decreases |reqs|
  {
    if |reqs| == 0 then s
    else UploadAll(Upload(s, reqs[0].part, reqs[0].id, reqs[0].mkdirsOk).state, reqs[1..])
  }

  /** An id held neither in memory nor in the metadata file stays out of both across an upload under another id. */
  lemma UploadKeepsIdOut(s: State, p: Part, id2: Id, mkdirsOk: bool, id: Id)
    requires id !in s.mem && id !in StoredEntries(s.json) && id2 != id
    ensures id !in Upload(s, p, id2, mkdirsOk).state.mem
    ensures id !in StoredEntries(Upload(s, p, id2, mkdirsOk).state.json)
  {
  }

  /** ... and across any sequence of uploads under other ids. */
  lemma {:induction false} UploadsKeepIdOut(s: State, reqs: seq<Request>, id: Id)
    requires id !in s.mem && id !in StoredEntries(s.json)
    requires forall i :: 0 <= i < |reqs| ==> reqs[i].id != id
    ensures id !in UploadAll(s, reqs).mem && id !in StoredEntries(UploadAll(s, reqs).json)
    decreases |reqs|
  {
    if |reqs| > 0 {
      UploadKeepsIdOut(s, reqs[0].part, reqs[0].id, reqs[0].mkdirsOk, id);
      UploadsKeepIdOut(Upload(s, reqs[0].part, reqs[0].id, reqs[0].mkdirsOk).state, reqs[1..], id);
    }
  }

  /** After the corrected delete, no later sequence of uploads under other ids writes the id back. */
  lemma DeleteAndForgetStaysDeleted(s: State, id: Id, reqs: seq<Request>)
    requires Known(s, id)
    requires forall i :: 0 <= i < |reqs| ==> reqs[i].id != id
    ensures id !in StoredEntries(UploadAll(DeleteAndForget(s, id).state, reqs).json)
  {
    UploadsKeepIdOut(DeleteAndForget(s, id).state, reqs, id);
  }

  /** In a coherent catalog the listing shows each name under at most one id. */
  lemma CoherentListingHasUniqueNames(s: State)
    requires Coherent(s)
    ensures forall a, b :: a in LoadFile(s).out && b in LoadFile(s).out &&
                           "name" in LoadFile(s).out[a] && "name" in LoadFile(s).out[b] &&
                           LoadFile(s).out[a]["name"] == LoadFile(s).out[b]["name"]
                           ==> a == b
  {
  }

  /**
    In a coherent catalog, a stored upload under a fresh id is listed under
    exactly one id: its own.
   */
  lemma UploadThenListOnce(s: State, p: Part, id: Id, mkdirsOk: bool)
    requires Coherent(s) && FreshId(s, id)
    requires Upload(s, p, id, mkdirsOk).out == Stored
    ensures var after := LoadFile(Upload(s, p, id, mkdirsOk).state).out;
            forall k :: k in after && "name" in after[k] && after[k]["name"] == p.name <==> k == id
  {
    var t := Upload(s, p, id, mkdirsOk).state;
    UploadKeepsCoherent(s, p, id, mkdirsOk);
    CatalogLemmas.UploadThenList(s, p, id, mkdirsOk);
    CoherentListingHasUniqueNames(t);
  }
}
