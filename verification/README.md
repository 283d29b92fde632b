# Book catalog: a Dafny model of `BooksService`

This project models the metadata-backed file catalog of the lutetiae book
service. Users upload files. The service stores each file on disk under its
original name and records `{name, type, size}` under a generated id in a
JSON sidecar file. It also lists, downloads and deletes files by id.

The service's state is three maps plus one flag:

- `disk`: file name to content;
- `json`: the metadata file, which is absent, unreadable, or an object of
  id to record;
- `mem`: the instance field `fileMetadata`, which only ever grows while the
  process lives;
- `dirExists`: whether the upload directory exists.

Every service method is a pure function from a state to a `Step` holding
the next state and the method's result:

| Dafny | source method |
|---|---|
| `Catalog.LoadFile` | `getFilesMetadata` |
| `Catalog.IsFileExist`, `Catalog.SizeScan` | `isFileExist` |
| `Catalog.SaveMetadata` | `saveMetadata` |
| `Catalog.Upload` | controller `fileUpload` (empty-file guard), then `uploadFile` |
| `Catalog.DeleteFile` | `deleteFile` |
| `Catalog.DownloadFile` | the lookup and branching of `downloadFile` |

Files:

- `base.dfy`: bytes, `Option` and the range of a Java long.
- `json.dfy`: scalar JSON values, `asText`, and `Long.parseLong`. It proves
  that the decimal text of a stored size parses back to the same number.
- `catalog.dfy`: the state and the operations, each with its contract.
- `lemmas.dfy`: properties relating operations. These cover listing after
  upload and delete, download after upload, the refusal of a repeated name,
  stored entries surviving every save, the resurrection of deleted ids, and
  a well-formedness invariant under which the size check cannot throw.
- `coherence.dfy`: the name-uniqueness invariant, how the service's delete
  breaks it, and a corrected delete that keeps it (see Findings).

Two behaviours of the code are worth noting:

- The merge-save keeps the **stored** value of an id present both on disk
  and in memory, because `setAll(existingData)` is applied last.
- Deleting or downloading an unknown id dereferences null. This is a
  `requires Known(s, id)` on both.

## Model

| member | source | states |
|---|---|---|
| Json.ParseLong | src/main/java/com/lutetiae/service/BooksService.java:120 | `Long.parseLong`: a result only for an optional sign followed by at least one digit, always inside the range of a long. Digits alone or after `+` give their decimal value when that fits a long, digits after `-` give its negation when that is at least the least long, and otherwise there is no result |
| Json.AsText | src/main/java/com/lutetiae/service/BooksService.java:185 | `asText()` of a field value: a string is itself, null reads as "null", and a number in the range of a long reads as text that `Long.parseLong` turns back into that number |
| Catalog.RecordJson | src/main/java/com/lutetiae/service/BooksService.java:90-92 | The record an upload builds has exactly the fields name, type and size, with the name as a JSON string, the type as the content type, or JSON null when there is none, and the size as a JSON number |
| Catalog.TreeOf | src/main/java/com/lutetiae/service/BooksService.java:145 | `valueToTree(fileMetadata)` has exactly the in-memory ids, each mapped to its record as serialised |
| Json.ParseLongOfIntText | src/main/java/com/lutetiae/service/BooksService.java:120 | A size stored as a JSON number reads back as decimal text that `Long.parseLong` turns into the same number, for every value in the range of a long |
| Catalog.LoadFile | src/main/java/com/lutetiae/service/BooksService.java:159-195 | A missing metadata file gives no records and is created as an empty object, but only if the directory exists. An unreadable file gives no records and no change. Otherwise the result is exactly the stored ids, each field converted to its text. Disk and the in-memory map are never touched |
| Catalog.IsFileExist | src/main/java/com/lutetiae/service/BooksService.java:106-131 | True exactly when some stored record's "name" reads as the upload's name. The size plays no part. The state afterwards is the one loading leaves |
| Catalog.SizeScan | src/main/java/com/lutetiae/service/BooksService.java:117-127 | The size comparison that picks the log line. It reports a match only if some record's parsed size equals the upload's size. It throws only if some record lacks a size or has one that does not parse |
| Catalog.SaveMetadata | src/main/java/com/lutetiae/service/BooksService.java:138-152 | With an existing file, the new keys are the in-memory keys plus the stored keys. Every stored entry is kept unchanged, and in-memory ids not yet stored are added as serialised. With no file, the in-memory map is written as is, provided the upload directory exists; otherwise the write fails and changes nothing. An unreadable file makes the save fail and changes nothing |
| Catalog.Upload | src/main/java/com/lutetiae/service/BooksService.java:53-98 | An empty file changes nothing (the controller guard at BooksController.java lines 60-63). A directory that cannot be created changes nothing. A stored name changes neither disk nor memory, and at most creates the empty metadata file. Any other upload is written and, exactly when the metadata file is readable or absent, reported stored. It maps the name to its bytes, adds exactly `id ↦ {name, type, size}` to memory, and saves the merge. An unreadable metadata file leaves the file written but the metadata unsaved |
| Catalog.DeleteFile | src/main/java/com/lutetiae/service/BooksService.java:238-260 | For an id with a stored name: the file of that name is removed from disk and the id is removed from the metadata file. Every other entry and the in-memory map are unchanged. The result is whether the file existed |
| Catalog.DownloadFile | src/main/java/com/lutetiae/service/BooksService.java:203-229 | For an id with a stored name: NotFound exactly when no file of that name is on disk. Otherwise the response carries the file's bytes, and its header is `attachment; filename*=UTF-8''` followed by the encoded name. The state is unchanged |
| CatalogLemmas.LoadIsIdempotent | src/main/java/com/lutetiae/service/BooksService.java:163-169 | Loading the state a load left gives the same listing and the same state. Creating the empty file happens at most once |
| CatalogLemmas.UploadThenList | src/main/java/com/lutetiae/service/BooksService.java:83-96 | After a stored upload under an id the file did not hold, the listing shows that id with the name, the content type ("null" for none) and the decimal size. Every earlier record is unchanged, and the listed ids are the earlier ones plus the in-memory ones |
| CatalogLemmas.UploadThenDownload | src/main/java/com/lutetiae/service/BooksService.java:203-224 | After such an upload the id is downloadable. Download returns exactly the uploaded bytes, with the upload's name in the header |
| CatalogLemmas.SecondUploadOfSameNameIsDuplicate | src/main/java/com/lutetiae/service/BooksService.java:64-67 | Once a name is stored, uploading it again with any non-empty content of any size is refused as a duplicate. The state is left exactly as it was |
| CatalogLemmas.UploadKeepsStoredEntries | src/main/java/com/lutetiae/service/BooksService.java:143-147 | No upload removes or alters an entry the metadata file already held |
| CatalogLemmas.DeleteThenList | src/main/java/com/lutetiae/service/BooksService.java:246-256 | After a delete, the listing is the earlier listing minus exactly the deleted id, and the record's file is gone from disk |
| CatalogLemmas.SaveAfterDeleteResurrects | src/main/java/com/lutetiae/service/BooksService.java:143-147 | A deleted id that is still in the in-memory map is no longer known. The next stored upload of any other id writes it back into the metadata file with its in-memory record |
| CatalogLemmas.SizeScanMatchesSize | src/main/java/com/lutetiae/service/BooksService.java:117-127 | When every size parses, the size scan does not throw. It reports a match exactly when some record has the upload's size |
| CatalogLemmas.UploadKeepsWellFormed | src/main/java/com/lutetiae/service/BooksService.java:90-96 | If every stored record has a string name and a numeric size within the range of a long, any upload keeps it so |
| CatalogLemmas.DeleteKeepsWellFormed | src/main/java/com/lutetiae/service/BooksService.java:250-254 | Delete keeps every stored record well formed |
| CatalogLemmas.SizeScanNeverThrowsWhenWellFormed | src/main/java/com/lutetiae/service/BooksService.java:118-122 | On a well-formed state, the size scan over loaded records never throws, in any order |
| Coherence.DeleteFileBreaksCoherence | src/main/java/com/lutetiae/service/BooksService.java:252-254 | Deleting an id uploaded in this process leaves memory and the metadata file out of agreement |
| Coherence.ReuploadAfterDeleteDuplicatesName | src/main/java/com/lutetiae/service/BooksService.java:238-260 | Delete such an id, then upload its name again under a new id. Both ids end up stored under that one name, so names are no longer unique |
| Coherence.ReuploadAfterDeleteExample | src/main/java/com/lutetiae/service/BooksService.java:53-98 | A concrete run from an empty catalog: upload `a.pdf` as id 1, delete 1, upload `a.pdf` as id 2. Both stores succeed and the metadata file holds two records named `a.pdf` |
| Coherence.DeleteAndForget | src/main/java/com/lutetiae/service/BooksService.java:238-260 | Corrected delete. It has the same effect on disk, the metadata file, the directory and the result as the service's delete, and it also drops the id from memory |
| Coherence.UploadKeepsCoherent | src/main/java/com/lutetiae/service/BooksService.java:64-96 | An upload under a fresh id keeps memory in agreement with the metadata file, and keeps stored names unique |
| Coherence.DeleteAndForgetKeepsCoherent | src/main/java/com/lutetiae/service/BooksService.java:246-256 | The corrected delete keeps the catalog coherent |
| Coherence.UploadKeepsIdOut | src/main/java/com/lutetiae/service/BooksService.java:143-147 | An id held neither in memory nor in the metadata file is still in neither after an upload under another id |
| Coherence.UploadsKeepIdOut | src/main/java/com/lutetiae/service/BooksService.java:143-147 | The same holds across any sequence of uploads under other ids |
| Coherence.DeleteAndForgetStaysDeleted | src/main/java/com/lutetiae/service/BooksService.java:143-147 | After the corrected delete, no sequence of later uploads under other ids writes the id back into the metadata file |
| Coherence.CoherentListingHasUniqueNames | src/main/java/com/lutetiae/service/BooksService.java:112-116 | In a coherent catalog the listing shows each name under at most one id |
| Coherence.UploadThenListOnce | src/main/java/com/lutetiae/service/BooksService.java:83-96 | In a coherent catalog, a stored upload under a fresh id is listed under exactly one id, its own |

## Left out

- File and JSON I/O are operations on the abstract maps. `Files.write`, the writes of `writeValue`, and `deleteIfExists` always succeed once the directory exists. The I/O failures modelled are: a directory that cannot be created; a metadata file that cannot be read; and writing a new metadata file into a missing directory, which fails both when loading creates the empty file and when a save writes the in-memory map.
- Id generation uses wall-clock time and a random UUID, so the id is a parameter of `Upload`. Properties that need a new id say so (`FreshId`, or `id !in StoredEntries`).
- The percent-encoding of the download file name (`URLEncoder` plus the `+` to `%20` rewrite) is a library call. It is a parameter `encode`. It follows the ext-value form of section 3.2 of RFC 8187, as used by section 4.3 of RFC 6266.
- File names are opaque keys. Path resolution and normalisation are not modelled. So are names with separators or `..`, and `getFilename()` differing from the stored name. The same goes for a name equal to the metadata file's own name. The `MalformedURLException` branch of `downloadFile` cannot arise for opaque names and is left out.
- The download response's fixed content type (`application/octet-stream`) is not part of `Response`. The body is the file's bytes, not a streamed resource.
- Upload: when the name matches and the size scan throws on a record without a size that `Long.parseLong` accepts (a hand-edited one, or a number outside the range of a long), the source propagates an unchecked exception. The model reports `Duplicate` instead. The resulting state is the same, since nothing is written in either case. `SizeScanNeverThrowsWhenWellFormed` shows that records this service writes never trigger the exception.
- The original file name is never null. Under a null name, `isFileExist` would dereference null on the first stored record.
- The metadata file is an object of objects whose field values are strings, integer numbers or null. Other shapes are not modelled: booleans and fractional numbers in a hand-edited file (which `asText` would read as "true" or "1.5"), array or object field values, a top-level non-object (which `saveMetadata` would fail to cast), and an empty file.
- Json.ParseLong accepts only ASCII digits. `Long.parseLong` also accepts other Unicode decimal digits, which this service never writes.
- Logging, Spring wiring, routing and view names of the controller are not modelled. Nor are the raw `/metadata` dump, the startup URL logging, the browser upload script, and the QR code test, whose class is not part of this model.
- Concurrency is not modelled. The read-merge-write of the metadata file has no lock, and every operation here runs alone. That is why the "id not in the re-read file" branch of `deleteFile` is present in `DeleteFile` but can never be taken.

## Findings

| source | as written | input that shows it | evidently intended | confidence | as-written member | corrected member |
|---|---|---|---|---|---|---|
| src/main/java/com/lutetiae/service/BooksService.java:252-254 | `deleteFile` removes the id from the metadata file but not from `fileMetadata`. The next save merges it back in | Upload `a.pdf` as id `1`, delete `1`, then upload `a.pdf` as id `2`: the metadata file now holds ids `1` and `2`, both named `a.pdf`, and one file | A deleted id stays deleted, and each name is stored at most once, as the duplicate check intends | high (not executed) | Coherence.ReuploadAfterDeleteExample | Coherence.DeleteAndForget |

`DeleteFile` remains the model of the service as written. The coherence
results (`UploadKeepsCoherent`, `DeleteAndForgetKeepsCoherent`,
`DeleteAndForgetStaysDeleted`, `UploadThenListOnce`) are proved for the
corrected delete.
