# GridFS adapter for Flysystem, modelled in Dafny

This project models `League\Flysystem\GridFS\GridFSAdapter`. That class implements Flysystem's
filesystem-adapter operations on a MongoDB GridFS bucket. GridFS has no directories: a bucket is a
flat collection of file documents, each with an `_id`, a `filename`, a `chunkSize`, an
`uploadDate`, optional `metadata` (holding a `mimetype`) and the bytes of its chunks. The adapter
answers Flysystem's questions about paths by:

- looking documents up by exact filename, by identifier or by a `^prefix` filename pattern;
- uploading new documents;
- deleting documents by identifier;
- turning a stored document into a Flysystem descriptor array (`normalizeBSONDocument`).

The project has four modules:

- `Wrappers` holds `Option` and `Result`.
- `PhpStrings` models the PHP string built-ins the adapter applies to paths:
  - `trim`, `rtrim` and `ltrim` with the character list `'/'`;
  - which strings PHP treats as false in `?:` and `empty`, namely `""` and `"0"`;
  - Flysystem's `Util::dirname`.
- `GridFS` models the bucket:
  - `FileRecord` stands for one stored file document;
  - pure functions on the ordered store specify its queries: `Under`, `NotUnder`, `WithoutIds`
    and `CountNamed`;
  - `class Bucket` holds the store and the identifier counter as mutable fields, and its methods
    are the bucket calls the adapter makes.
- `Adapter` has three parts:
  - the `Descriptor` datatype (the arrays the adapter returns);
  - `NormalizeBSONDocument`;
  - `class GridFSAdapter`. It holds the bucket plus three operations supplied from outside
    (`applyPathPrefix`, `Util::guessMimeType` and `Util::emulateDirectories`). Every adapter
    operation is one of its methods.

State-changing operations are proved against the store functions:

- `write` appends one record, which is proved to be the newest, and then describes it.
- `delete` removes exactly one record of the name.
- `deleteDir` leaves exactly the records its prefix does not select.

Lemmas beside them prove what those effects mean:

- how many records each filename has afterwards;
- what a read returns after a write or a copy;
- that nothing under a deleted directory survives;
- that the selected and the unselected records together make up the store.

`writeObject` (src/GridFSAdapter.php:220-238) only uploads and never deletes an earlier record of
the same name. So every `write` and `update` adds one more record under that name
(`GridFSAdapter.WriteAccumulates`), and readers get whichever record the bucket returns.

## Model

| member | source | states |
|---|---|---|
| PhpStrings.IsFalsy | src/GridFSAdapter.php:251-259 | the strings PHP treats as false in `?:` and `empty()` are exactly those of length at most one made of '0's: `""` and `"0"` |
| PhpStrings.LTrimSlashes | src/GridFSAdapter.php:251 | `ltrim($s, '/')` returns a suffix of `s` that does not start with '/' |
| PhpStrings.RTrimSlashes | src/GridFSAdapter.php:178 | `rtrim($s, '/')` returns a prefix of `s` that does not end with '/' |
| PhpStrings.LTrimDropsSlashes | src/GridFSAdapter.php:251 | what `ltrim` drops is slashes only |
| PhpStrings.RTrimDropsSlashes | src/GridFSAdapter.php:178 | what `rtrim` drops is slashes only |
| PhpStrings.TrimSlashes | src/GridFSAdapter.php:251 | `trim($s, '/')` neither starts nor ends with '/' and is no longer than `s` |
| PhpStrings.TrimSlashesSplits | src/GridFSAdapter.php:251 | `s` is a run of slashes, then `trim($s, '/')` as a contiguous slice, then a run of slashes |
| PhpStrings.TrimmedSlice | src/GridFSAdapter.php:251 | a suffix after slashes, cut before slashes, is a slice of `s` between two runs of slashes |
| PhpStrings.TrimTrimmed | src/GridFSAdapter.php:251 | trimming a path with no leading or trailing '/' leaves it unchanged |
| PhpStrings.TrimIdempotent | src/GridFSAdapter.php:251 | trimming twice is trimming once |
| PhpStrings.Dirname | src/GridFSAdapter.php:257 | PHP's `dirname` of a trimmed path (with "" for "."): a prefix of the path, strictly shorter when non-empty |
| PhpStrings.Basename | src/GridFSAdapter.php:257 | the last segment is a suffix of the path and contains no '/' |
| PhpStrings.SplitAtLastSlash | src/GridFSAdapter.php:257 | a path with a '/' is its dirname, '/', and its last segment; without one its dirname is "" |
| PhpStrings.UtilDirname | src/GridFSAdapter.php:257 | `Util::dirname`: PHP's dirname with "." normalised to "", so never "." |
| PhpStrings.UtilDirnameOfJoin | src/GridFSAdapter.php:257 | `Util::dirname` of `dir/name` is `dir`, or "" when `dir` is "." |
| PhpStrings.UtilDirnameSplits | src/GridFSAdapter.php:257 | a trimmed path with a '/' is its `Util::dirname` (or "." where that is ""), '/', and its last segment; without a '/' its dirname is "" |
| PhpStrings.DirnameOfJoin | src/GridFSAdapter.php:257 | the dirname of `dir/name` is `dir` and its last segment is `name`, for `name` free of '/' |
| GridFS.UnderMembers | src/GridFSAdapter.php:180-182 | the `^prefix` query selects exactly the stored records whose filename starts with the prefix |
| GridFS.NotUnderMembers | src/GridFSAdapter.php:180-185 | the records the query leaves are exactly those whose filename does not start with the prefix |
| GridFS.UnderPartition | src/GridFSAdapter.php:180-185 | the selected and the unselected records together are the whole store, as multisets |
| GridFS.NothingLeftUnder | src/GridFSAdapter.php:180-185 | once only the unselected records are left, the prefix selects nothing |
| GridFS.NoneSelected | src/GridFSAdapter.php:180-182 | a prefix no filename starts with selects nothing |
| GridFS.UnderUnique | src/GridFSAdapter.php:180-182 | the selected records of a store with unique identifiers have unique identifiers |
| GridFS.WithoutIdsMembers | src/GridFSAdapter.php:184-185 | deleting a set of identifiers keeps exactly the records whose identifier is not in it |
| GridFS.WithoutIdsUnique | src/GridFSAdapter.php:184-185 | deleting by identifier keeps identifiers unique |
| GridFS.KeepsAllIds | src/GridFSAdapter.php:139 | deleting identifiers no record carries changes nothing |
| GridFS.RemoveById | src/GridFSAdapter.php:139 | deleting the identifier of the record at index i removes that record and no other, keeping order |
| GridFS.SameIdSameRecord | src/GridFSAdapter.php:235 | with unique identifiers, looking up by `_id` can only find one record |
| GridFS.WithoutSelectedIds | src/GridFSAdapter.php:180-186 | deleting every selected record's identifier leaves exactly the unselected records |
| GridFS.WithoutAllSelected | src/GridFSAdapter.php:180-186 | deleting the identifiers of all records `find` returned leaves exactly the unselected records |
| GridFS.WithoutIdsStep | src/GridFSAdapter.php:184-185 | deleting one more identifier after a set of them is deleting the enlarged set |
| GridFS.NextSelectedStillStored | src/GridFSAdapter.php:184-185 | the next record of the `foreach` is still stored when the loop reaches it |
| GridFS.CountNamedConcat | src/GridFSAdapter.php:53 | the number of records of a name is additive over concatenated stores |
| GridFS.NamedIffCounted | src/GridFSAdapter.php:53 | some record has the name exactly when that name's count is positive |
| GridFS.AppendedHolds | src/GridFSAdapter.php:234 | after an upload, bytes a record of `name` holds are an older such record's or the new record's; the new record's when `name` was absent |
| GridFS.RemovedOneCounts | src/GridFSAdapter.php:131-142 | removing one record of a name lowers that name's count by one and no other name's count |
| GridFS.AppendedCounts | src/GridFSAdapter.php:234 | uploading raises the count of the new record's filename by one and of no other |
| GridFS.CopyThenRemoveCounts | src/GridFSAdapter.php:160-163 | copying to `dst` and then removing a `src` record moves one record from `src` to `dst`; onto itself every count is kept |
| GridFS.RenameOfUniqueName | src/GridFSAdapter.php:160-163 | when `src` named exactly one record, afterwards `src` is absent and `dst` present |
| GridFS.Bucket.constructor | tests/unit/GridFSTest.php:38 | an empty bucket with the given chunk size and no identifiers in use |
| GridFS.Bucket.FindOneByName | src/GridFSAdapter.php:53 | None exactly when no record has the name; else some stored record of that name |
| GridFS.Bucket.FindOneById | src/GridFSAdapter.php:235 | None exactly when no record has the identifier; else a stored record with it |
| GridFS.Bucket.FindByPrefix | src/GridFSAdapter.php:180-182 | the loop returns the records the `^prefix` pattern selects, in store order |
| GridFS.Bucket.OpenDownloadStreamByName | src/GridFSAdapter.php:152-154 | the stream yields exactly the bytes of some record of that name |
| GridFS.Bucket.UploadFromStream | src/GridFSAdapter.php:234 | one record with a fresh identifier is appended, holding the filename, bytes, mimetype metadata, chunk size and upload time; nothing else changes |
| GridFS.Bucket.Delete | src/GridFSAdapter.php:139 | the record with that identifier is removed and every other record is kept in order |
| Adapter.PathSource | src/GridFSAdapter.php:251 | `$path ?: $file['filename']`: the filename when the path is absent or falsy, else the path; a falsy result can only be the filename |
| Adapter.NormalizeBSONDocument | src/GridFSAdapter.php:248-264 | path is the explicit path, or the filename when that path is absent or falsy, with '/' trimmed; a file entry; dirname is never "."; path = dirname (or "." where the dirname is "") + '/' + last segment, or dirname "" when there is no '/'; size is the chunk size; timestamp is the upload date; mimetype is present exactly when the metadata holds a non-empty one |
| Adapter.DeleteDirPrefix | src/GridFSAdapter.php:178 | the location with its trailing slashes replaced by exactly one '/': ends in one '/', and what it dropped was slashes only |
| Adapter.DeleteDirPrefixTrailingSlash | src/GridFSAdapter.php:178 | an extra trailing '/' on the directory does not change the prefix |
| Adapter.ListingKeys | src/GridFSAdapter.php:206-208 | one descriptor per found record |
| Adapter.ListingKeysSelected | src/GridFSAdapter.php:202-208 | each listed key is the file descriptor of a stored record whose filename starts with `dirname`, with the trimmed filename as path and the chunk size as size |
| Adapter.GridFSAdapter.constructor | src/GridFSAdapter.php:33-36 | the adapter keeps the bucket it is given and the three supplied operations; a valid bucket gives a valid adapter |
| Adapter.GridFSAdapter.Has | src/GridFSAdapter.php:49-54 | true exactly when some record is named by the prefixed path |
| Adapter.GridFSAdapter.StoredMimetype | src/GridFSAdapter.php:230-232 | the metadata mimetype when one is set, otherwise the one guessed from the path and contents |
| Adapter.GridFSAdapter.WriteObject | src/GridFSAdapter.php:220-238 | one record is appended (none removed), with the metadata mimetype if given else the guessed one; the result describes that record under `path` |
| Adapter.GridFSAdapter.Write | src/GridFSAdapter.php:59-68 | as writeObject, with the configured mimetype taking precedence over the guessed one and reported when non-empty; `path` is present afterwards |
| Adapter.GridFSAdapter.WriteStream | src/GridFSAdapter.php:73-76 | the same effect and answer as `write` |
| Adapter.GridFSAdapter.Update | src/GridFSAdapter.php:81-84 | the same effect and answer as `write`; the older record stays |
| Adapter.GridFSAdapter.UpdateStream | src/GridFSAdapter.php:89-92 | the same effect and answer as `writeStream` |
| Adapter.GridFSAdapter.GetMetadata | src/GridFSAdapter.php:97-102 | the descriptor of some record named `path`, whose path is `path` trimmed of '/' |
| Adapter.GridFSAdapter.GetMimetype | src/GridFSAdapter.php:107-110 | the whole metadata descriptor of some record named `path` |
| Adapter.GridFSAdapter.GetSize | src/GridFSAdapter.php:115-118 | the whole metadata descriptor of some record named `path` |
| Adapter.GridFSAdapter.GetTimestamp | src/GridFSAdapter.php:123-126 | the whole metadata descriptor of some record named `path` |
| Adapter.GridFSAdapter.Delete | src/GridFSAdapter.php:131-142 | false and no change exactly when nothing is named `path`; else exactly one record of that name is removed, the rest kept in order |
| Adapter.GridFSAdapter.Read | src/GridFSAdapter.php:147-155 | None (false) exactly when nothing is named `path`; else the bytes of a record of that name |
| Adapter.GridFSAdapter.Copy | src/GridFSAdapter.php:20 | false and no change exactly when `path` is absent; else one record named `newpath` with the bytes of a `path` record is appended |
| Adapter.GridFSAdapter.Rename | src/GridFSAdapter.php:160-163 | false and no change exactly when `path` is absent; else a copy followed by the removal of one `path` record |
| Adapter.GridFSAdapter.CreateDir | src/GridFSAdapter.php:168-171 | always a LogicException |
| Adapter.GridFSAdapter.SetVisibility | src/GridFSAdapter.php:19 | always a LogicException |
| Adapter.GridFSAdapter.GetVisibility | src/GridFSAdapter.php:19 | always a LogicException |
| Adapter.GridFSAdapter.DeleteDir | src/GridFSAdapter.php:176-189 | always true; exactly the records whose filename does not start with `rtrim(prefixed path, '/') . '/'` remain, in order |
| Adapter.GridFSAdapter.ListContents | src/GridFSAdapter.php:196-211 | a recursive listing is a BadMethodCallException; otherwise the emulator applied to the descriptors of the `^dirname` records, in store order |
| Adapter.GridFSAdapter.WriteAccumulates | src/GridFSAdapter.php:220-238 | each write adds one record under `path` and changes no other name's count |
| Adapter.GridFSAdapter.ReadAfterWrite | src/GridFSAdapter.php:147-155 | reading `path` after a write yields the written bytes or an older `path` record's; exactly the written bytes when `path` was absent before |
| Adapter.GridFSAdapter.ReadAfterCopy | src/GridFSAdapter.php:20 | after a copy both names are present, and reading a `newpath` absent before yields bytes of a `path` record |
| Adapter.GridFSAdapter.WriteDescriptor | src/GridFSAdapter.php:59-68 | a write answers with a file entry whose path is `path` trimmed, size the chunk size and timestamp the upload time; a non-empty configured mimetype is reported, an empty one is not |
| Adapter.GridFSAdapter.RenameMovesOne | src/GridFSAdapter.php:160-163 | a rename moves one record from `path` to `newpath`; a unique `path` is gone afterwards and `newpath` present |
| Adapter.GridFSAdapter.DeleteDirLeavesNothingUnder | src/GridFSAdapter.php:176-189 | after deleteDir nothing under the prefix remains, and the kept and deleted records together are the old store |
| Adapter.DescribedAtRoot | tests/unit/GridFSTest.php:89-111 | a record written as a path without '/' is described with that path and an empty dirname |
| Adapter.ListedInDirectory | tests/unit/GridFSTest.php:236-268 | a record listed by its filename `dir/name` is described with that filename as path and `dir` as dirname ("" when `dir` is ".") |

## Left out

- Which of several same-named records `findOne` and `openDownloadStreamByName` return. The bucket
  picks any one of them (MongoDB returns the first in natural order; `openDownloadStreamByName`
  returns the newest revision). The contracts hold for every choice.
- Regular-expression semantics of the `find` filters. The model treats the pattern `/^%s/` as a
  plain filename prefix. Regex metacharacters in a path (`.`, `+`, `(`…) are not escaped by the
  source and are not modelled.
- Chunking, the `fs.chunks` collection, revisions and the wire protocol. A record holds its bytes
  whole. `size` is the record's `chunkSize`, as the source reports it.
- Streams. `writeStream` and `updateStream` receive the bytes a stream would yield. Stream
  position, reuse of an already consumed stream, and `rewind` are not modelled. `readStream`
  (Flysystem's streamed-reading trait) is not part of this model.
- `Util::guessMimeType`, `Util::emulateDirectories` and `AbstractAdapter::applyPathPrefix` are
  supplied to the adapter as functions. The Flysystem library is not part of this model.
- Adapter.GridFSAdapter.Copy: modelled from Flysystem's streamed-copy trait as `readStream`
  (which reads through `read`) followed by `writeStream` with an empty `Config`. The traits' own
  code is not part of this model.
- PHP's `dirname` collapses repeated slashes (`"a//b"` has dirname `"a"`). `PhpStrings.Dirname`
  is "everything before the last '/'", so `PhpStrings.UtilDirname` (which also maps `"."` to `""`,
  as in `./a`) agrees with `Util::dirname` only on trimmed paths without repeated slashes.
- Exception messages. The exceptions are modelled by class only.
- Adapter.GridFSAdapter.Write: a `Config` whose `mimetype` is set to null is not modelled. In the
  source, `has` is true for such a config but `isset` then fails, so the guessed type is stored;
  the model has only "set to a string" or "not set".
- Metadata of other types than strings, and documents without `chunkSize` or `uploadDate`.
- Adapter.GridFSAdapter.GetMetadata: for a path that no record has, the source passes null to the
  `BSONDocument` parameter of `normalizeBSONDocument`, which throws a `TypeError`. The model
  requires the record to exist instead (the same holds for `getMimetype`, `getSize` and
  `getTimestamp`).
- GridFS.Bucket.Delete: requires the identifier to exist (the adapter only deletes identifiers it
  has just found). The bucket's exception for an unknown identifier is not modelled.
- `getBucket` (a plain accessor).
- The clock. The upload time is a parameter `now` in Unix seconds.
- Concurrent access to the bucket by other writers between the adapter's lookups and its deletes.
