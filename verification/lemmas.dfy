/**
  Properties of the catalog that relate several operations: what a listing
  shows after an upload or a delete, what a download returns, how a second
  upload of the same name is refused, that saves never lose stored entries,
  how a save brings a deleted id back, and that records this service
  writes always satisfy the size check's parsing.
 */
module CatalogLemmas {
  import opened Base
  import Json
  import opened Catalog

  /** How a content type reads back from the metadata file. */
  function TypeText(t: Option<string>): string {
    match t
    case Some(v) => v
    case None => "null"
  }

  /** The listing entry of an upload, as `getFilesMetadata` shows it after a save. */
  function ListedRecord(p: Part): map<string, string> {
    map["name" := p.name, "type" := TypeText(p.contentType), "size" := Json.IntText(|p.bytes|)]
  }

  /** Loading twice is loading once: the only side effect is creating the empty file. */
  lemma LoadIsIdempotent(s: State)
    ensures LoadFile(LoadFile(s).state) == LoadFile(s)
  {
  }

  lemma TextOfRecordJson(p: Part)
    ensures Json.TextOf(RecordJson(RecordOf(p))) == ListedRecord(p)
  {
    var t := Json.TextOf(RecordJson(RecordOf(p)));
    assert t.Keys == ListedRecord(p).Keys;
    assert t["type"] == TypeText(p.contentType) by {
      match p.contentType
      case Some(v) =>
      case None =>
    }
  }

  /** The metadata file a stored upload leaves behind (a restatement kept apart to keep proofs small). */
  lemma StoredUploadJson(s: State, p: Part, id: Id, mkdirsOk: bool)
    requires Upload(s, p, id, mkdirsOk).out == Stored
    ensures Upload(s, p, id, mkdirsOk).state.json
            == Present(TreeOf(s.mem[id := RecordOf(p)]) + StoredEntries(s.json))
  {
  }

  /** The listing of a metadata file written by a merge-save. */
  lemma ListingOfMerge(t: State, mem: map<Id, Rec>, prior: map<Id, Json.Object>)
    requires t.json == Present(TreeOf(mem) + prior)
    ensures LoadFile(t).out.Keys == mem.Keys + prior.Keys
    ensures forall k :: k in prior ==> LoadFile(t).out[k] == Json.TextOf(prior[k])
    ensures forall k :: k in mem && k !in prior ==> LoadFile(t).out[k] == Json.TextOf(RecordJson(mem[k]))
  {
  }

  /**
    After a stored upload under an id the metadata file did not hold, the
    listing shows that id with the upload's name, type and decimal size,
    keeps every previously listed record unchanged, and lists exactly the
    earlier ids plus the in-memory ones.
   */
  lemma UploadThenList(s: State, p: Part, id: Id, mkdirsOk: bool)
    requires Upload(s, p, id, mkdirsOk).out == Stored
    requires id !in StoredEntries(s.json)
    ensures id in LoadFile(Upload(s, p, id, mkdirsOk).state).out
    ensures LoadFile(Upload(s, p, id, mkdirsOk).state).out[id] == ListedRecord(p)
    ensures LoadFile(Upload(s, p, id, mkdirsOk).state).out.Keys == LoadFile(s).out.Keys + s.mem.Keys + {id}
    ensures forall k :: k in LoadFile(s).out ==>
              LoadFile(Upload(s, p, id, mkdirsOk).state).out[k] == LoadFile(s).out[k]
  {
    StoredUploadJson(s, p, id, mkdirsOk);
    var t := Upload(s, p, id, mkdirsOk).state;
    ListingAfterStoreShowsUpload(s, t, p, id);
    ListingAfterStoreKeys(s, t, p, id);
    ListingAfterStoreKeepsOthers(s, t, p, id);
  }

  lemma ListingAfterStoreShowsUpload(s: State, t: State, p: Part, id: Id)
    requires t.json == Present(TreeOf(s.mem[id := RecordOf(p)]) + StoredEntries(s.json))
    requires id !in StoredEntries(s.json)
    ensures id in LoadFile(t).out && LoadFile(t).out[id] == ListedRecord(p)
  {
    ListingOfMerge(t, s.mem[id := RecordOf(p)], StoredEntries(s.json));
    TextOfRecordJson(p);
  }

  lemma ListingAfterStoreKeys(s: State, t: State, p: Part, id: Id)
    requires t.json == Present(TreeOf(s.mem[id := RecordOf(p)]) + StoredEntries(s.json))
    ensures LoadFile(t).out.Keys == LoadFile(s).out.Keys + s.mem.Keys + {id}
  {
    ListingOfMerge(t, s.mem[id := RecordOf(p)], StoredEntries(s.json));
  }

  lemma ListingAfterStoreKeepsOthers(s: State, t: State, p: Part, id: Id)
    requires t.json == Present(TreeOf(s.mem[id := RecordOf(p)]) + StoredEntries(s.json))
    ensures forall k :: k in LoadFile(s).out ==> LoadFile(t).out[k] == LoadFile(s).out[k]
  {
    ListingOfMerge(t, s.mem[id := RecordOf(p)], StoredEntries(s.json));
  }

  /** Downloading a freshly stored upload returns byte-identical content under its name. */
  lemma UploadThenDownload(s: State, p: Part, id: Id, mkdirsOk: bool, encode: string -> string)
    requires Upload(s, p, id, mkdirsOk).out == Stored
    requires id !in StoredEntries(s.json)
    ensures Known(Upload(s, p, id, mkdirsOk).state, id)
    ensures DownloadFile(Upload(s, p, id, mkdirsOk).state, id, encode).out
            == Attachment(DispositionPrefix + encode(p.name), p.bytes)
  {
    var r := Upload(s, p, id, mkdirsOk);
    UploadThenList(s, p, id, mkdirsOk);
    assert NameOf(r.state, id) == p.name;
  }

  /**
    Once an upload is stored under a fresh id, uploading the same name again
    is refused whatever the content or its size, and changes neither the
    files nor the in-memory map.
   */
  lemma SecondUploadOfSameNameIsDuplicate(s: State, p: Part, id: Id, mkdirsOk: bool,
                                          q: Part, id2: Id, mkdirsOk2: bool)
    requires Upload(s, p, id, mkdirsOk).out == Stored
    requires id !in StoredEntries(s.json)
    requires q.name == p.name && |q.bytes| > 0
    ensures var s1 := Upload(s, p, id, mkdirsOk).state;
            var r := Upload(s1, q, id2, mkdirsOk2);
            r.out == Duplicate && r.state == s1
  {
    var s1 := Upload(s, p, id, mkdirsOk).state;
    assert "name" in s1.json.entries[id] && Json.AsText(s1.json.entries[id]["name"]) == p.name;
    assert NameStored(s1.json, q.name);
  }

  /** No upload removes or alters an entry the metadata file already held. */
  lemma UploadKeepsStoredEntries(s: State, p: Part, id: Id, mkdirsOk: bool)
    ensures var after := StoredEntries(Upload(s, p, id, mkdirsOk).state.json);
            forall k :: k in StoredEntries(s.json) ==> k in after && after[k] == StoredEntries(s.json)[k]
  {
  }

  /**
    Deleting a known id removes its file and exactly its listing entry; the
    other records are listed unchanged.
   */
  lemma DeleteThenList(s: State, id: Id)
    requires Known(s, id)
    ensures var s1 := DeleteFile(s, id).state;
            && LoadFile(s1).out == LoadFile(s).out - {id}
            && NameOf(s, id) !in s1.disk
  {
    var s1 := DeleteFile(s, id).state;
    assert LoadFile(s1).out.Keys == (LoadFile(s).out - {id}).Keys;
  }

  /**
    The in-memory map survives a delete, so the next stored upload writes
    the deleted id back into the metadata file with its in-memory record,
    even though its file is gone from disk.
   */
  lemma SaveAfterDeleteResurrects(s: State, id: Id, p: Part, id2: Id, mkdirsOk: bool)
    requires Known(s, id) && id in s.mem
    requires Upload(DeleteFile(s, id).state, p, id2, mkdirsOk).out == Stored
    requires id2 != id
    ensures !Known(DeleteFile(s, id).state, id)
    ensures var s2 := Upload(DeleteFile(s, id).state, p, id2, mkdirsOk).state;
            id in s2.json.entries && s2.json.entries[id] == RecordJson(s.mem[id])
  {
    var s1 := DeleteFile(s, id).state;
    var s2 := Upload(s1, p, id2, mkdirsOk).state;
    assert id !in StoredEntries(s1.json);
    assert id in s2.mem && s2.mem[id] == s.mem[id];
  }

  /** Every record has a "size" that `Long.parseLong` accepts. */
  ghost predicate SizesParse(recs: seq<map<string, string>>) {
    forall i :: 0 <= i < |recs| ==> "size" in recs[i] && Json.ParseLong(recs[i]["size"]).Some?
  }

  /**
    When every size parses, the size scan does not throw and reports exactly
    whether some record has the upload's size: it only picks which log line
    the duplicate check prints.
   */
  lemma {:induction false} SizeScanMatchesSize(recs: seq<map<string, string>>, size: int)
    requires SizesParse(recs)
    ensures SizeScan(recs, size) ==
            Found(exists i :: 0 <= i < |recs| && Json.ParseLong(recs[i]["size"]) == Some(size))
    decreases |recs|
  {
    if |recs| > 0 && Json.ParseLong(recs[0]["size"]) != Some(size) {
      SizeScanMatchesSize(recs[1..], size);
      if exists i :: 0 <= i < |recs| && Json.ParseLong(recs[i]["size"]) == Some(size) {
        var i :| 0 <= i < |recs| && Json.ParseLong(recs[i]["size"]) == Some(size);
        assert recs[1..][i - 1] == recs[i];
      }
    }
  }

  /**
    Every stored record carries a string "name" and a numeric "size" that
    fits a long, and every in-memory size fits a long: the shape of what
    this service itself writes.
   */
  ghost predicate WellFormed(s: State) {
    && (forall k :: k in s.mem ==> s.mem[k].size <= MaxLong)
    && (forall k :: k in StoredEntries(s.json) ==> WellFormedRecord(StoredEntries(s.json)[k]))
  }

  ghost predicate WellFormedRecord(o: Json.Object) {
    && "name" in o && o["name"].Str?
    && "size" in o && o["size"].Num? && 0 <= o["size"].n <= MaxLong
  }

  /** An upload whose content fits a long keeps the metadata well formed. */
  lemma UploadKeepsWellFormed(s: State, p: Part, id: Id, mkdirsOk: bool)
    requires WellFormed(s) && |p.bytes| <= MaxLong
    ensures WellFormed(Upload(s, p, id, mkdirsOk).state)
  {
    var r := Upload(s, p, id, mkdirsOk);
    if r.out == Stored {
      var e := r.state.json.entries;
      forall k | k in e
        ensures WellFormedRecord(e[k])
      {
        if k !in StoredEntries(s.json) {
          assert k in r.state.mem;
        }
      }
    }
  }

  lemma DeleteKeepsWellFormed(s: State, id: Id)
    requires WellFormed(s) && Known(s, id)
    ensures WellFormed(DeleteFile(s, id).state)
  {
  }

  /**
    On a well-formed state every listed record has a "size" that
    `Long.parseLong` accepts, so the size scan of the duplicate check never
    throws, in whatever order it visits the records.
   */
  lemma SizeScanNeverThrowsWhenWellFormed(s: State, recs: seq<map<string, string>>, size: int)
    requires WellFormed(s)
    requires forall i :: 0 <= i < |recs| ==> recs[i] in LoadFile(s).out.Values
    ensures SizeScan(recs, size) != Threw
  {
    forall i | 0 <= i < |recs|
      ensures "size" in recs[i] && Json.ParseLong(recs[i]["size"]).Some?
    {
      var id :| id in LoadFile(s).out && LoadFile(s).out[id] == recs[i];
      var o := s.json.entries[id];
      assert WellFormedRecord(o);
      Json.ParseLongOfIntText(o["size"].n);
    }
  }
}
