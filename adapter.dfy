/**
 * The GridFS adapter: Flysystem's path operations (has, read, write,
 * update, delete, copy, rename, deleteDir, listContents, getMetadata)
 * carried out on a flat GridFS bucket, and the normalisation of a stored
 * file record into the descriptor Flysystem callers receive.
 */
module Adapter {
  import opened Wrappers
  import opened PhpStrings
  import opened GridFS

  /** The part of a Flysystem `Config` the adapter consults: its `mimetype` setting, if any. */
  datatype Config = Config(mimetype: Option<string>)

  /**
   * A descriptor array. Files carry `path`, `type` 'file', `size`,
   * `timestamp`, `dirname` and, only when known, `mimetype`; the directory
   * entries the directory emulator adds carry a path and a dirname only.
   */
  datatype Descriptor =
    | FileEntry(path: string, size: nat, timestamp: int, dirname: string, mimetype: Option<string>)
    | DirEntry(path: string, dirname: string)

  /** The PHP exception classes the adapter throws for what it does not support. */
  datatype AdapterError = LogicException | BadMethodCallException

  /** `$path ?: $file['filename']`: the explicit path unless it is absent or falsy. */
  function PathSource(file: FileRecord, path: Option<string>): (p: string)
    ensures path.None? ==> p == file.filename
    ensures path.Some? && IsFalsy(path.value) ==> p == file.filename
    ensures path.Some? && !IsFalsy(path.value) ==> p == path.value
    ensures IsFalsy(p) ==> p == file.filename
  {
    if path.Some? && !IsFalsy(path.value) then path.value else file.filename
  }

  /**
   * `normalizeBSONDocument`: the descriptor of a stored record. Its path is
   * the explicit path (or the filename) without surrounding slashes, its
   * dirname is that path up to the last '/', its size is the record's chunk
   * size, and it carries a mimetype exactly when the record's metadata holds
   * a non-empty one.
   */
  function NormalizeBSONDocument(file: FileRecord, path: Option<string>): (d: Descriptor)
    ensures d.FileEntry? && IsTrimmed(d.path)
    ensures d.path == TrimSlashes(PathSource(file, path))
    ensures d.dirname != "."
    ensures '/' in d.path ==> d.path == (if d.dirname == "" then "." else d.dirname) + "/" + Basename(d.path)
    ensures '/' !in d.path ==> d.dirname == ""
    ensures d.size == file.chunkSize && d.timestamp == file.uploadDate
    ensures d.mimetype.Some? <==> file.mimetype.Some? && !IsFalsy(file.mimetype.value)
    ensures d.mimetype.Some? ==> d.mimetype == file.mimetype
  {
    var p := TrimSlashes(PathSource(file, path));
    UtilDirnameSplits(p);
    var mimetype := if file.mimetype.Some? && !IsFalsy(file.mimetype.value) then file.mimetype else None;
    FileEntry(p, file.chunkSize, file.uploadDate, UtilDirname(p), mimetype)
  }

  /** `d` is the descriptor of some record named `path`, described under that path. */
  ghost predicate DescribesSome(files: seq<FileRecord>, path: string, d: Descriptor) {
    exists i :: 0 <= i < |files| && files[i].filename == path && d == NormalizeBSONDocument(files[i], Some(path))
  }

  /** The descriptors `listContents` hands to the directory emulator, one per record, in order. */
  function ListingKeys(found: seq<FileRecord>): (keys: seq<Descriptor>)
    ensures |keys| == |found|
  {
    seq(|found|, k requires 0 <= k < |found| => NormalizeBSONDocument(found[k], None))
  }

  /**
   * `deleteDir`'s prefix: the location with its trailing slashes replaced by
   * exactly one '/'.
   */
  function DeleteDirPrefix(location: string): (prefix: string)
    ensures |prefix| >= 1 && prefix[|prefix| - 1] == '/'
    ensures |prefix| == 1 || prefix[|prefix| - 2] != '/'
    ensures |prefix| - 1 <= |location|
    ensures var stem := prefix[..|prefix| - 1];
      stem == location[..|stem|] && OnlySlashes(location[|stem|..])
  {
    var stem := RTrimSlashes(location);
    RTrimDropsSlashes(location);
    assert (stem + "/")[..|stem|] == stem;
    stem + "/"
  }

  /** Trailing slashes on the directory passed to `deleteDir` make no difference. */
  lemma {:induction false} DeleteDirPrefixTrailingSlash(location: string)
    ensures DeleteDirPrefix(location + "/") == DeleteDirPrefix(location)
  {
    assert (location + "/")[..|location|] == location;
  }

  /** Every listed key is the file descriptor of a stored record the dirname pattern selects. */
  lemma ListingKeysSelected(files: seq<FileRecord>, dirname: string, k: nat)
    requires k < |Under(files, dirname)|
    ensures var u := Under(files, dirname);
      var key := ListingKeys(u)[k];
      u[k] in files && dirname <= u[k].filename &&
      key.FileEntry? && key.path == TrimSlashes(u[k].filename) && key.size == u[k].chunkSize
  {
    var u := Under(files, dirname);
    UnderMembers(files, dirname);
    assert u[k] in u;
  }

  class GridFSAdapter {
    const bucket: Bucket
    /** `AbstractAdapter::applyPathPrefix`, supplied from outside. */
    const applyPathPrefix: string -> string
    /** `Util::guessMimeType`, supplied from outside. */
    const guessMimeType: (string, seq<byte>) -> string
    /** `Util::emulateDirectories`, supplied from outside. */
    const emulateDirectories: seq<Descriptor> -> seq<Descriptor>

    ghost predicate Valid()
      reads bucket
    {
      bucket.Valid()
    }

    constructor (
      bucket: Bucket,
      applyPathPrefix: string -> string,
      guessMimeType: (string, seq<byte>) -> string,
      emulateDirectories: seq<Descriptor> -> seq<Descriptor>)
      requires bucket.Valid()
      ensures Valid()
      ensures this.bucket == bucket
      ensures this.applyPathPrefix == applyPathPrefix
      ensures this.guessMimeType == guessMimeType
      ensures this.emulateDirectories == emulateDirectories
    {
      this.bucket := bucket;
      this.applyPathPrefix := applyPathPrefix;
      this.guessMimeType := guessMimeType;
      this.emulateDirectories := emulateDirectories;
    }

    /** The mimetype `writeObject` stores: the one in the metadata when set, else the guessed one. */
    function StoredMimetype(path: string, contents: seq<byte>, metadata: Option<string>): (m: string)
      ensures metadata.Some? ==> m == metadata.value
      ensures metadata.None? ==> m == guessMimeType(path, contents)
    {
      if metadata.Some? then metadata.value else guessMimeType(path, contents)
    }

    /** `rec` is what an upload of `contents` under `path` at time `now` stores. */
    ghost predicate IsUpload(rec: FileRecord, path: string, contents: seq<byte>, mimetype: string, now: int) {
      rec.filename == path && rec.chunkSize == bucket.chunkSize && rec.uploadDate == now &&
      rec.mimetype == Some(mimetype) && rec.contents == contents
    }

    /** The effect of `write` (and of `update`, `writeStream`, `updateStream`) and its answer. */
    ghost predicate Wrote(
      before: seq<FileRecord>, after: seq<FileRecord>,
      path: string, contents: seq<byte>, config: Config, now: int, d: Descriptor)
    {
      Appended(before, after) &&
      IsUpload(Newest(after), path, contents, StoredMimetype(path, contents, config.mimetype), now) &&
      d == NormalizeBSONDocument(Newest(after), Some(path))
    }

    /** The effect of a successful `copy`: one new record named `newpath` holding bytes of a record named `path`. */
    ghost predicate Copied(before: seq<FileRecord>, after: seq<FileRecord>, path: string, newpath: string, now: int) {
      Appended(before, after) &&
      var rec := Newest(after);
      HoldsContents(before, path, rec.contents) &&
      IsUpload(rec, newpath, rec.contents, guessMimeType(newpath, rec.contents), now)
    }

    /** The effect of a successful `rename`: a copy, then one record named `path` deleted. */
    ghost predicate Renamed(before: seq<FileRecord>, after: seq<FileRecord>, path: string, newpath: string, now: int) {
      exists mid :: Copied(before, mid, path, newpath, now) && RemovedOne(mid, after, path)
    }

    /** `has`: whether a record is stored under the prefixed location. */
    method Has(path: string) returns (b: bool)
      ensures b <==> Named(bucket.files, applyPathPrefix(path))
    {
      var location := applyPathPrefix(path);
      var file := bucket.FindOneByName(location);
      b := file.Some?;
    }

    /** `writeObject`: upload a new record and describe it; no earlier record is removed. */
    method WriteObject(path: string, contents: seq<byte>, metadata: Option<string>, now: int) returns (d: Descriptor)
      requires Valid()
      modifies bucket
      ensures Valid()
      ensures Appended(old(bucket.files), bucket.files)
      ensures IsUpload(Newest(bucket.files), path, contents, StoredMimetype(path, contents, metadata), now)
      ensures d == NormalizeBSONDocument(Newest(bucket.files), Some(path))
    {
      var mimetype := StoredMimetype(path, contents, metadata);
      var id := bucket.UploadFromStream(path, contents, mimetype, now);
      var file := bucket.FindOneById(id);
      assert bucket.files[|bucket.files| - 1].id == id;
      assert HasId(bucket.files, id);
      assert file.value == Newest(bucket.files) by {
        SameIdSameRecord(bucket.files, file.value, Newest(bucket.files));
      }
      d := NormalizeBSONDocument(file.value, Some(path));
    }

    /**
     * `write`: the configured mimetype, when there is one, is stored and
     * reported in preference to the guessed one; the descriptor's path is
     * `path` without surrounding slashes and its size the bucket's chunk size.
     */
    method Write(path: string, contents: seq<byte>, config: Config, now: int) returns (d: Descriptor)
      requires Valid()
      modifies bucket
      ensures Valid()
      ensures Wrote(old(bucket.files), bucket.files, path, contents, config, now, d)
      ensures Named(bucket.files, path)
      ensures config.mimetype.Some? ==> Newest(bucket.files).mimetype == config.mimetype
      ensures config.mimetype.None? ==> Newest(bucket.files).mimetype == Some(guessMimeType(path, contents))
      ensures config.mimetype.Some? && !IsFalsy(config.mimetype.value) ==> d.mimetype == config.mimetype
      ensures d.FileEntry? && d.path == TrimSlashes(path)
      ensures d.size == bucket.chunkSize && d.timestamp == now
    {
      d := WriteObject(path, contents, config.mimetype, now);
      assert bucket.files[|bucket.files| - 1].filename == path;
    }

    /** `writeStream`: the stream's bytes are written as `write` would. */
    method WriteStream(path: string, contents: seq<byte>, config: Config, now: int) returns (d: Descriptor)
      requires Valid()
      modifies bucket
      ensures Valid()
      ensures Wrote(old(bucket.files), bucket.files, path, contents, config, now, d)
    {
      d := Write(path, contents, config, now);
    }

    /** `update`: the same operation as `write`; the older record stays. */
    method Update(path: string, contents: seq<byte>, config: Config, now: int) returns (d: Descriptor)
      requires Valid()
      modifies bucket
      ensures Valid()
      ensures Wrote(old(bucket.files), bucket.files, path, contents, config, now, d)
    {
      d := Write(path, contents, config, now);
    }

    /** `updateStream`: the same operation as `writeStream`. */
    method UpdateStream(path: string, contents: seq<byte>, config: Config, now: int) returns (d: Descriptor)
      requires Valid()
      modifies bucket
      ensures Valid()
      ensures Wrote(old(bucket.files), bucket.files, path, contents, config, now, d)
    {
      d := WriteStream(path, contents, config, now);
    }

    /**
     * `getMetadata`: the descriptor of some record named `path`, whose
     * path is `path` without surrounding slashes. The source passes null on
     * to a `BSONDocument` parameter when no such record exists.
     */
    method GetMetadata(path: string) returns (d: Descriptor)
      requires Named(bucket.files, path)
      ensures DescribesSome(bucket.files, path, d)
      ensures d.FileEntry? && d.path == TrimSlashes(path)
    {
      var file := bucket.FindOneByName(path);
      d := NormalizeBSONDocument(file.value, Some(path));
    }

    /** `getMimetype`: the whole metadata descriptor. */
    method GetMimetype(path: string) returns (d: Descriptor)
      requires Named(bucket.files, path)
      ensures DescribesSome(bucket.files, path, d)
    {
      d := GetMetadata(path);
    }

    /** `getSize`: the whole metadata descriptor. */
    method GetSize(path: string) returns (d: Descriptor)
      requires Named(bucket.files, path)
      ensures DescribesSome(bucket.files, path, d)
    {
      d := GetMetadata(path);
    }

    /** `getTimestamp`: the whole metadata descriptor. */
    method GetTimestamp(path: string) returns (d: Descriptor)
      requires Named(bucket.files, path)
      ensures DescribesSome(bucket.files, path, d)
    {
      d := GetMetadata(path);
    }

    /**
     * `delete`: false and no change when nothing is named `path`; otherwise
     * exactly one record named `path` is removed and every other stays in place.
     */
    method Delete(path: string) returns (ok: bool)
      requires Valid()
      modifies bucket
      ensures Valid()
      ensures ok <==> Named(old(bucket.files), path)
      ensures !ok ==> bucket.files == old(bucket.files)
      ensures ok ==> RemovedOne(old(bucket.files), bucket.files, path)
    {
      var file := bucket.FindOneByName(path);
      if file.None? {
        return false;
      }
      ghost var i :| 0 <= i < |bucket.files| && bucket.files[i] == file.value;
      RemoveById(bucket.files, i);
      bucket.Delete(file.value.id);
      ok := true;
    }

    /** `read`: None (PHP's false) when nothing is named `path`, else the bytes of a record so named. */
    method Read(path: string) returns (r: Option<seq<byte>>)
      ensures r.Some? <==> Named(bucket.files, path)
      ensures r.Some? ==> HoldsContents(bucket.files, path, r.value)
    {
      var file := bucket.FindOneByName(path);
      if file.None? {
        return None;
      }
      var contents := bucket.OpenDownloadStreamByName(path);
      r := Some(contents);
    }

    /**
     * `copy` (Flysystem's streamed copy): read `path`, and when that
     * succeeds write its bytes to `newpath` with an empty configuration.
     */
    method Copy(path: string, newpath: string, now: int) returns (ok: bool)
      requires Valid()
      modifies bucket
      ensures Valid()
      ensures ok <==> Named(old(bucket.files), path)
      ensures !ok ==> bucket.files == old(bucket.files)
      ensures ok ==> Copied(old(bucket.files), bucket.files, path, newpath, now)
    {
      var response := Read(path);
      if response.None? {
        return false;
      }
      var _ := WriteStream(newpath, response.value, Config(None), now);
      ok := true;
    }

    /** `rename`: `copy(path, newpath) && delete(path)`; the delete is tried only after a successful copy. */
    method Rename(path: string, newpath: string, now: int) returns (ok: bool)
      requires Valid()
      modifies bucket
      ensures Valid()
      ensures ok <==> Named(old(bucket.files), path)
      ensures !ok ==> bucket.files == old(bucket.files)
      ensures ok ==> Renamed(old(bucket.files), bucket.files, path, newpath, now)
    {
      ok := Copy(path, newpath, now);
      if ok {
        ghost var mid := bucket.files;
        assert Named(mid, path) by {
          var i :| 0 <= i < |old(bucket.files)| && old(bucket.files)[i].filename == path;
          assert mid[i] == old(bucket.files)[i];
        }
        ok := Delete(path);
        assert Copied(old(bucket.files), mid, path, newpath, now) && RemovedOne(mid, bucket.files, path);
      }
    }

    /** `createDir`: always a LogicException; the store is not touched. */
    method CreateDir(path: string, config: Config) returns (r: Result<Descriptor, AdapterError>)
      ensures r == Failure(LogicException)
    {
      r := Failure(LogicException);
    }

    /** `setVisibility`: not supported, always a LogicException. */
    method SetVisibility(path: string, visibility: string) returns (r: Result<Descriptor, AdapterError>)
      ensures r == Failure(LogicException)
    {
      r := Failure(LogicException);
    }

    /** `getVisibility`: not supported, always a LogicException. */
    method GetVisibility(path: string) returns (r: Result<Descriptor, AdapterError>)
      ensures r == Failure(LogicException)
    {
      r := Failure(LogicException);
    }

    /**
     * `deleteDir`: delete every record whose filename starts with the
     * prefixed directory followed by a single '/', keep every other record in
     * order, and answer true whether or not anything matched.
     */
    method DeleteDir(path: string) returns (ok: bool)
      requires Valid()
      modifies bucket
      ensures Valid()
      ensures ok
      ensures bucket.files == NotUnder(old(bucket.files), DeleteDirPrefix(applyPathPrefix(path)))
    {
      var prefix := DeleteDirPrefix(applyPathPrefix(path));
      var found := bucket.FindByPrefix(prefix);
      assert Ids(found[..0]) == {};
      KeepsAllIds(bucket.files, {});
      var i := 0;
      while i < |found|
        invariant 0 <= i <= |found|
        invariant found == Under(old(bucket.files), prefix) && UniqueIds(old(bucket.files))
        invariant Valid()
        invariant bucket.files == WithoutIds(old(bucket.files), Ids(found[..i]))
      {
        NextSelectedStillStored(old(bucket.files), prefix, i);
        bucket.Delete(found[i].id);
        WithoutIdsStep(old(bucket.files), Ids(found[..i]), found[i].id);
        i := i + 1;
      }
      assert found[..i] == found;
      WithoutAllSelected(old(bucket.files), prefix);
      ok := true;
    }

    /**
     * `listContents`: a recursive listing is refused before the store is
     * queried; otherwise every record whose filename starts with `dirname`
     * is normalised, in store order, and handed to the directory emulator.
     */
    method ListContents(dirname: string, recursive: bool) returns (r: Result<seq<Descriptor>, AdapterError>)
      ensures recursive ==> r == Failure(BadMethodCallException)
      ensures !recursive ==> r == Success(emulateDirectories(ListingKeys(Under(bucket.files, dirname))))
    {
      if recursive {
        return Failure(BadMethodCallException);
      }
      var files := bucket.FindByPrefix(dirname);
      var keys := ListingKeys(files);
      r := Success(emulateDirectories(keys));
    }

    // -------------------------------------------------------------------
    // Lemmas about the adapter's effects

    /** A write leaves one more record named `path` than before and every other name's count unchanged. */
    lemma WriteAccumulates(
      before: seq<FileRecord>, after: seq<FileRecord>,
      path: string, contents: seq<byte>, config: Config, now: int, d: Descriptor, other: string)
      requires Wrote(before, after, path, contents, config, now, d)
      ensures CountNamed(after, path) == CountNamed(before, path) + 1
      ensures other != path ==> CountNamed(after, other) == CountNamed(before, other)
    {
      AppendedCounts(before, after, other);
    }

    /**
     * Reading `path` after a write yields the written bytes or the bytes of
     * an older record of that name; when `path` was absent before, the
     * written bytes.
     */
    lemma ReadAfterWrite(
      before: seq<FileRecord>, after: seq<FileRecord>,
      path: string, contents: seq<byte>, config: Config, now: int, d: Descriptor, r: seq<byte>)
      requires Wrote(before, after, path, contents, config, now, d) && HoldsContents(after, path, r)
      ensures r == contents || HoldsContents(before, path, r)
      ensures !Named(before, path) ==> r == contents
    {
      AppendedHolds(before, after, path, r);
    }

    /**
     * After a copy the source is still present, and reading `newpath`, when
     * it was absent before, yields bytes of a record named `path`.
     */
    lemma ReadAfterCopy(before: seq<FileRecord>, after: seq<FileRecord>, path: string, newpath: string, now: int, r: seq<byte>)
      requires Copied(before, after, path, newpath, now) && HoldsContents(after, newpath, r)
      ensures Named(after, path) && Named(after, newpath)
      ensures !Named(before, newpath) ==> HoldsContents(before, path, r)
    {
      var i :| 0 <= i < |after| && after[i].filename == newpath && after[i].contents == r;
      var j :| 0 <= j < |before| && before[j].filename == path && before[j].contents == Newest(after).contents;
      assert after[j] == before[j];
      if i < |before| {
        assert before[i] == after[i];
      }
    }

    /**
     * The descriptor a write answers with: type file, path `path` without
     * surrounding slashes whether or not `path` is falsy, and the configured
     * mimetype when it is non-empty.
     */
    lemma WriteDescriptor(
      before: seq<FileRecord>, after: seq<FileRecord>,
      path: string, contents: seq<byte>, config: Config, now: int, d: Descriptor)
      requires Wrote(before, after, path, contents, config, now, d)
      ensures d.FileEntry? && d.path == TrimSlashes(path)
      ensures d.size == bucket.chunkSize && d.timestamp == now
      ensures config.mimetype.Some? && !IsFalsy(config.mimetype.value) ==> d.mimetype == config.mimetype
      ensures config.mimetype.Some? && IsFalsy(config.mimetype.value) ==> d.mimetype == None
    {
    }

    /**
     * A rename moves one record from `path` to `newpath` (a rename onto
     * itself keeps every count); when `path` named exactly one record, it is
     * gone afterwards and `newpath` is present.
     */
    lemma RenameMovesOne(
      before: seq<FileRecord>, after: seq<FileRecord>, path: string, newpath: string, now: int, other: string)
      requires Renamed(before, after, path, newpath, now)
      ensures path != newpath ==> CountNamed(after, path) == CountNamed(before, path) - 1
      ensures path != newpath ==> CountNamed(after, newpath) == CountNamed(before, newpath) + 1
      ensures path == newpath ==> CountNamed(after, path) == CountNamed(before, path)
      ensures other != path && other != newpath ==> CountNamed(after, other) == CountNamed(before, other)
      ensures path != newpath && CountNamed(before, path) == 1 ==> !Named(after, path) && Named(after, newpath)
    {
      var mid :| Copied(before, mid, path, newpath, now) && RemovedOne(mid, after, path);
      CopyThenRemoveCounts(before, mid, after, path, newpath, other);
      if path != newpath && CountNamed(before, path) == 1 {
        RenameOfUniqueName(before, mid, after, path, newpath);
      }
    }

    /** After `deleteDir`, nothing under its prefix remains and every other record is still there. */
    lemma DeleteDirLeavesNothingUnder(before: seq<FileRecord>, path: string)
      ensures var prefix := DeleteDirPrefix(applyPathPrefix(path));
        var after := NotUnder(before, prefix);
        Under(after, prefix) == [] &&
        multiset(after) + multiset(Under(before, prefix)) == multiset(before)
    {
      var prefix := DeleteDirPrefix(applyPathPrefix(path));
      UnderPartition(before, prefix);
      NothingLeftUnder(before, prefix);
    }
  }

  /**
   * A record described under a path with no '/' in it (`file.txt` when it
   * is written) has that path and an empty dirname.
   */
  lemma DescribedAtRoot(file: FileRecord, path: string)
    requires !IsFalsy(path) && IsTrimmed(path) && '/' !in path
    ensures var d := NormalizeBSONDocument(file, Some(path));
      d.path == path && d.dirname == ""
  {
    TrimTrimmed(path);
  }

  /**
   * A record listed by its filename `dir/name` (`lala dir/file one.txt`)
   * is described with that filename as path and `dir` as dirname ("" when
   * `dir` is ".").
   */
  lemma ListedInDirectory(file: FileRecord, dir: string, name: string)
    requires file.filename == dir + "/" + name && IsTrimmed(file.filename) && '/' !in name
    ensures var d := NormalizeBSONDocument(file, None);
      d.path == file.filename && d.dirname == (if dir == "." then "" else dir)
  {
    var d := NormalizeBSONDocument(file, None);
    TrimTrimmed(file.filename);
    assert d.path == file.filename;
    assert d.dirname == UtilDirname(file.filename);
    UtilDirnameOfJoin(dir, name);
  }
}
