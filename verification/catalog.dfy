/**
  The metadata-backed file catalog of `BooksService`, as a state machine.

  The state holds everything the service's methods read or write: whether
  the upload directory exists, the uploaded files on disk (name to bytes),
  the metadata sidecar file (absent, unreadable, or a JSON object mapping
  id to record), and the instance field `fileMetadata`, an in-memory map
  that only ever grows while the process lives. Each service method is a
  pure function from a state to the next state and its result.
 */
module Catalog {
  import opened Base
  import Json

  type Id = string
  type FileName = string

  /** One multipart upload: original file name, content type (maybe null) and content. */
  datatype Part = Part(name: FileName, contentType: Option<string>, bytes: seq<Byte>)

  /** An entry of `fileMetadata`: the name, type and size that an upload records. */
  datatype Rec = Rec(name: FileName, contentType: Option<string>, size: nat)

  /** The metadata sidecar file in the upload directory. */
  datatype MetaFile =
    | Absent
    | Unreadable                                 // exists, but reading the JSON fails
    | Present(entries: map<Id, Json.Object>)

  datatype State = State(
    dirExists: bool,
    disk: map<FileName, seq<Byte>>,
    json: MetaFile,
    mem: map<Id, Rec>)

  /** Metadata as `getFilesMetadata` returns it: every field value as text. */
  type Listing = map<Id, map<string, string>>

  /** The state after an operation, and what the operation returned. */
  datatype Step<+T> = Step(state: State, out: T)

  /** The prefix of the Content-Disposition header of a download. */
  const DispositionPrefix: string := "attachment; filename*=UTF-8''"

  datatype UploadOutcome =
    | EmptyFile        // rejected by the controller before the service runs
    | NoDirectory      // the upload directory was missing and could not be created
    | Duplicate        // a stored record already carries this name
    | Stored           // file written and metadata saved
    | SaveFailed       // file written, but the metadata file could not be read back

  datatype Response = NotFound | Attachment(disposition: string, body: seq<Byte>)

  /** The record `uploadFile` puts into `fileMetadata` for an upload. */
  function RecordOf(p: Part): (r: Rec)
    ensures r.name == p.name && r.contentType == p.contentType && r.size == |p.bytes|
  {
    Rec(p.name, p.contentType, |p.bytes|)
  }

  /** A record as Jackson serialises it: a null content type becomes JSON null. */
  function RecordJson(r: Rec): (o: Json.Object)
    ensures o.Keys == {"name", "type", "size"}
    ensures o["name"] == Json.Str(r.name) && o["size"] == Json.Num(r.size)
    ensures o["type"] == (if r.contentType.Some? then Json.Str(r.contentType.value) else Json.Null)
  {
    map["name" := Json.Str(r.name),
        "type" := (match r.contentType case Some(t) => Json.Str(t) case None => Json.Null),
        "size" := Json.Num(r.size)]
  }

  /** `valueToTree(fileMetadata)`: the in-memory map as a JSON object. */
  function TreeOf(mem: map<Id, Rec>): (t: map<Id, Json.Object>)
    ensures t.Keys == mem.Keys
    ensures forall id :: id in t ==> t[id] == RecordJson(mem[id])
  {
    map id | id in mem :: RecordJson(mem[id])
  }

  /** The entries of the metadata file, or none when it is absent or unreadable. */
  function StoredEntries(f: MetaFile): map<Id, Json.Object> {
    if f.Present? then f.entries else map[]
  }

  /** Some stored record's "name" field reads as `name`. */
  predicate NameStored(f: MetaFile, name: FileName) {
    f.Present? &&
    exists id :: id in f.entries && "name" in f.entries[id] && Json.AsText(f.entries[id]["name"]) == name
  }

  /**
    `getFilesMetadata`. A missing metadata file is created as an empty
    object (which fails silently when the directory itself is missing) and
    yields no records; an unreadable one yields no records; otherwise every
    stored id is returned with every field converted to text.
   */
  function LoadFile(s: State): (r: Step<Listing>)
    ensures r.out.Keys == StoredEntries(s.json).Keys
    ensures forall id :: id in r.out ==> r.out[id] == Json.TextOf(s.json.entries[id])
    ensures r.state.disk == s.disk && r.state.mem == s.mem && r.state.dirExists == s.dirExists
    ensures !s.json.Absent? ==> r.state == s
    ensures s.json.Absent? ==> r.state.json == (if s.dirExists then Present(map[]) else Absent)
  {
    match s.json
    case Absent => Step(if s.dirExists then s.(json := Present(map[])) else s, map[])
    case Unreadable => Step(s, map[])
    case Present(e) => Step(s, map id | id in e :: Json.TextOf(e[id]))
  }

  /**
    `isFileExist`: whether some loaded record's "name" equals the upload's
    name. The size only chooses a log line (see `SizeScan`); it never
    decides the answer, so it is not a parameter.
   */
  function IsFileExist(s: State, name: FileName): (r: Step<bool>)
    ensures r.out <==> NameStored(s.json, name)
    ensures r.state == LoadFile(s).state
  {
    var loaded := LoadFile(s);
    Step(loaded.state,
         exists id :: id in loaded.out && "name" in loaded.out[id] && loaded.out[id]["name"] == name)
  }

  /** Outcome of the size comparison in `isFileExist`'s duplicate branch. */
  datatype ScanResult = Found(matched: bool) | Threw

  /**
    The `anyMatch` over loaded records, in the map's iteration order, that
    compares each record's parsed "size" with the upload's size. A record
    without "size" (NullPointerException) or whose size does not parse
    (NumberFormatException) throws before any later record is seen.
   */
  function SizeScan(recs: seq<map<string, string>>, size: int): (r: ScanResult)
    ensures r == Found(true) ==>
              exists i :: 0 <= i < |recs| && "size" in recs[i] && Json.ParseLong(recs[i]["size"]) == Some(size)
    ensures r == Threw ==>
              exists i :: 0 <= i < |recs| && ("size" !in recs[i] || Json.ParseLong(recs[i]["size"]).None?)
    decreases |recs|
  {
    if |recs| == 0 then Found(false)
    else if "size" !in recs[0] then Threw
    else
      match Json.ParseLong(recs[0]["size"])
      case None => Threw
      case Some(v) =>
        if v == size then Found(true)
        else
          SizeScan(recs[1..], size)
  }

  /**
    `saveMetadata`. When the metadata file exists, the in-memory map is
    serialised and the stored object is laid over it (`setAll`), so a key
    in both keeps its stored value; reading a corrupt file throws and
    nothing is written. When the file is absent, the in-memory map is
    written as is, which fails when the upload directory is missing. The
    result says whether the file was written.
   */
  function SaveMetadata(s: State): (r: Step<bool>)
    ensures r.state.disk == s.disk && r.state.mem == s.mem && r.state.dirExists == s.dirExists
    ensures r.out <==> s.json.Present? || (s.json.Absent? && s.dirExists)
    ensures !r.out ==> r.state == s
    ensures r.out ==> r.state.json.Present?
    ensures r.out ==> r.state.json.entries.Keys == s.mem.Keys + StoredEntries(s.json).Keys
    ensures r.out ==> forall id :: id in StoredEntries(s.json) ==>
                         r.state.json.entries[id] == s.json.entries[id]
    ensures r.out ==> forall id :: id in s.mem && id !in StoredEntries(s.json) ==>
                         r.state.json.entries[id] == RecordJson(s.mem[id])
  {
    match s.json
    case Absent =>
      if s.dirExists then Step(s.(json := Present(TreeOf(s.mem))), true) else Step(s, false)
    case Unreadable => Step(s, false)
    case Present(existing) => Step(s.(json := Present(TreeOf(s.mem) + existing)), true)
  }

  /**
    `fileUpload` in the controller followed by `uploadFile`: reject an empty
    file; create the upload directory if missing (`mkdirsOk` is whether
    that succeeds); reject a name already stored; otherwise write the file,
    record `id` in the in-memory map, and save the metadata.
   */
  function Upload(s: State, p: Part, id: Id, mkdirsOk: bool): (r: Step<UploadOutcome>)
    ensures |p.bytes| == 0 ==> r == Step(s, EmptyFile)
    ensures r.out == NoDirectory <==> |p.bytes| > 0 && !s.dirExists && !mkdirsOk
    ensures r.out == NoDirectory ==> r.state == s
    ensures r.out == Duplicate <==>
              |p.bytes| > 0 && (s.dirExists || mkdirsOk) && NameStored(s.json, p.name)
    ensures r.out == Duplicate ==>
              r.state.dirExists && r.state.disk == s.disk && r.state.mem == s.mem &&
              (r.state.json == s.json || (s.json.Absent? && r.state.json == Present(map[])))
    ensures r.out in {Stored, SaveFailed} ==>
              r.state.dirExists &&
              r.state.disk == s.disk[p.name := p.bytes] &&
              r.state.mem == s.mem[id := RecordOf(p)]
    ensures r.out == SaveFailed <==>
              |p.bytes| > 0 && (s.dirExists || mkdirsOk) && s.json.Unreadable?
    ensures r.out == SaveFailed ==> r.state.json == s.json
    ensures r.out == Stored <==>
              |p.bytes| > 0 && (s.dirExists || mkdirsOk) && !NameStored(s.json, p.name) && !s.json.Unreadable?
    ensures r.out == Stored ==>
              r.state.json == Present(TreeOf(s.mem[id := RecordOf(p)]) + StoredEntries(s.json))
  {
    if |p.bytes| == 0 then Step(s, EmptyFile)
    else if !s.dirExists && !mkdirsOk then Step(s, NoDirectory)
    else
      var check := IsFileExist(s.(dirExists := true), p.name);
      if check.out then Step(check.state, Duplicate)
      else
        var written := check.state.(disk := check.state.disk[p.name := p.bytes],
                                    mem := check.state.mem[id := RecordOf(p)]);
        var saved := SaveMetadata(written);
        Step(saved.state, if saved.out then Stored else SaveFailed)
  }

  /** The id is loadable and its record has a "name": `get(id).get("name")` does not hit null. */
  predicate Known(s: State, id: Id) {
    id in LoadFile(s).out && "name" in LoadFile(s).out[id]
  }

  /** The stored name of a known id, as text. */
  function NameOf(s: State, id: Id): (n: FileName)
    requires Known(s, id)
    ensures s.json.Present? && id in s.json.entries && "name" in s.json.entries[id]
    ensures n == Json.AsText(s.json.entries[id]["name"])
  {
    LoadFile(s).out[id]["name"]
  }

  /**
    `deleteFile`: remove the file under the record's name, then remove the
    id from the re-read metadata file. The result is whether the file was
    there; it is false when the re-read file lacks the id, which cannot
    happen without a concurrent writer.
   */
  function DeleteFile(s: State, id: Id): (r: Step<bool>)
    requires Known(s, id)
    ensures r.state.disk == s.disk - {NameOf(s, id)}
    ensures r.state.json == Present(s.json.entries - {id})
    ensures r.state.mem == s.mem && r.state.dirExists == s.dirExists
    ensures r.out <==> NameOf(s, id) in s.disk
  {
    var loaded := LoadFile(s);
    var name := loaded.out[id]["name"];
    var existed := name in loaded.state.disk;
    var removed := loaded.state.(disk := loaded.state.disk - {name});
    var root := removed.json.entries;
    if id in root then Step(removed.(json := Present(root - {id})), existed)
    else Step(removed, false)
  }

  /**
    The lookup and branching of `downloadFile`: NotFound when no file of the
    record's name is on disk, otherwise the file's content with a
    Content-Disposition header carrying the name percent-encoded by
    `encode` (the ext-value form of section 3.2 of RFC 8187).
   */
  function DownloadFile(s: State, id: Id, encode: string -> string): (r: Step<Response>)
    requires Known(s, id)
    ensures r.state == s
    ensures r.out.NotFound? <==> NameOf(s, id) !in s.disk
    ensures r.out.Attachment? ==>
              r.out.body == s.disk[NameOf(s, id)] &&
              |DispositionPrefix| <= |r.out.disposition| &&
              r.out.disposition[..|DispositionPrefix|] == DispositionPrefix &&
              r.out.disposition[|DispositionPrefix|..] == encode(NameOf(s, id))
  {
    var loaded := LoadFile(s);
    var name := loaded.out[id]["name"];
    if name in loaded.state.disk then Step(loaded.state, Attachment(DispositionPrefix + encode(name), loaded.state.disk[name]))
    else Step(loaded.state, NotFound)
  }
}
