/**
 * A GridFS bucket as the adapter sees it: a flat, ordered collection of file
 * records that it looks up by exact filename, by identifier or by filename
 * prefix, appends to, and deletes from by identifier. Chunking, revisions and
 * the wire protocol are not modelled; the bucket is an in-memory store.
 */
module GridFS {
  import opened Wrappers

  newtype byte = x: int | 0 <= x < 256

  /**
   * One stored file document: its `_id`, `filename`, `chunkSize`,
   * `uploadDate` in Unix seconds, the `mimetype` entry of its `metadata`
   * (None when the document has no metadata or no such entry) and the bytes
   * its chunks hold.
   */
  datatype FileRecord = FileRecord(
    id: nat,
    filename: string,
    chunkSize: nat,
    uploadDate: int,
    mimetype: Option<string>,
    contents: seq<byte>)

  /** Some record is stored under exactly this filename. */
  predicate Named(files: seq<FileRecord>, name: string) {
    exists i :: 0 <= i < |files| && files[i].filename == name
  }

  /** Some record with filename `name` holds exactly these bytes. */
  ghost predicate HoldsContents(files: seq<FileRecord>, name: string, contents: seq<byte>) {
    exists i :: 0 <= i < |files| && files[i].filename == name && files[i].contents == contents
  }

  /** Some record carries this identifier. */
  predicate HasId(files: seq<FileRecord>, id: nat) {
    exists i :: 0 <= i < |files| && files[i].id == id
  }

  /** No two records share an identifier. */
  ghost predicate UniqueIds(files: seq<FileRecord>) {
    forall i, j :: 0 <= i < |files| && 0 <= j < |files| && files[i].id == files[j].id ==> i == j
  }

  ghost function Ids(files: seq<FileRecord>): set<nat> {
    set r | r in files :: r.id
  }

  /** How many records are stored under filename `name`. */
  function CountNamed(files: seq<FileRecord>, name: string): nat {
    if files == [] then 0
    else CountNamed(files[..|files| - 1], name) + (if files[|files| - 1].filename == name then 1 else 0)
  }

  /** The records a `^prefix` filename pattern selects, in store order. */
  function Under(files: seq<FileRecord>, prefix: string): (r: seq<FileRecord>)
    ensures |r| <= |files|
  {
    if files == [] then []
    else
      var last := files[|files| - 1];
      Under(files[..|files| - 1], prefix) + (if prefix <= last.filename then [last] else [])
  }

  /** The records the same pattern does not select, in store order. */
  function NotUnder(files: seq<FileRecord>, prefix: string): (r: seq<FileRecord>)
    ensures |r| <= |files|
  {
    if files == [] then []
    else
      var last := files[|files| - 1];
      NotUnder(files[..|files| - 1], prefix) + (if prefix <= last.filename then [] else [last])
  }

  /** The store once every record whose identifier is in `ids` is deleted. */
  function WithoutIds(files: seq<FileRecord>, ids: set<nat>): (r: seq<FileRecord>)
    ensures |r| <= |files|
  {
    if files == [] then []
    else
      var last := files[|files| - 1];
      WithoutIds(files[..|files| - 1], ids) + (if last.id in ids then [] else [last])
  }

  /** `after` is `before` with the one record at some index named `name` taken out. */
  ghost predicate RemovedOne(before: seq<FileRecord>, after: seq<FileRecord>, name: string) {
    exists i :: 0 <= i < |before| && before[i].filename == name && after == before[..i] + before[i + 1..]
  }

  /** `after` is `before` with one record of a fresh identifier appended. */
  ghost predicate Appended(before: seq<FileRecord>, after: seq<FileRecord>) {
    |after| == |before| + 1 && after[..|before|] == before && after[|before|].id !in Ids(before)
  }

  function Newest(files: seq<FileRecord>): FileRecord
    requires files != []
  {
    files[|files| - 1]
  }

  // ---------------------------------------------------------------------
  // Lemmas about the store

  /** The selected records are exactly the stored records whose filename starts with the prefix. */
  lemma {:induction false} UnderMembers(files: seq<FileRecord>, prefix: string)
    ensures forall x :: x in Under(files, prefix) <==> x in files && prefix <= x.filename
  {
    if files != [] {
      var init := files[..|files| - 1];
      UnderMembers(init, prefix);
      assert files == init + [files[|files| - 1]];
    }
  }

  /** The unselected records are exactly the stored records whose filename does not start with the prefix. */
  lemma {:induction false} NotUnderMembers(files: seq<FileRecord>, prefix: string)
    ensures forall x :: x in NotUnder(files, prefix) <==> x in files && !(prefix <= x.filename)
  {
    if files != [] {
      var init := files[..|files| - 1];
      NotUnderMembers(init, prefix);
      assert files == init + [files[|files| - 1]];
    }
  }

  /** What stays after deleting `ids` is exactly the stored records whose identifier is not in `ids`. */
  lemma {:induction false} WithoutIdsMembers(files: seq<FileRecord>, ids: set<nat>)
    ensures forall x :: x in WithoutIds(files, ids) <==> x in files && x.id !in ids
  {
    if files != [] {
      var init := files[..|files| - 1];
      WithoutIdsMembers(init, ids);
      assert files == init + [files[|files| - 1]];
    }
  }

  /** A filtered store keeps distinct identifiers distinct. */
  lemma {:induction false} WithoutIdsUnique(files: seq<FileRecord>, ids: set<nat>)
    requires UniqueIds(files)
    ensures UniqueIds(WithoutIds(files, ids))
  {
    if files != [] {
      var init := files[..|files| - 1];
      var last := files[|files| - 1];
      WithoutIdsUnique(init, ids);
      WithoutIdsMembers(init, ids);
      var rest := WithoutIds(init, ids);
      forall x | x in rest ensures x.id != last.id {
        assert x in init;
        var k :| 0 <= k < |init| && init[k] == x;
        assert files[k] == x;
      }
    }
  }

  lemma {:induction false} UnderUnique(files: seq<FileRecord>, prefix: string)
    requires UniqueIds(files)
    ensures UniqueIds(Under(files, prefix))
  {
    if files != [] {
      var init := files[..|files| - 1];
      var last := files[|files| - 1];
      UnderUnique(init, prefix);
      UnderMembers(init, prefix);
      forall x | x in Under(init, prefix) ensures x.id != last.id {
        var k :| 0 <= k < |init| && init[k] == x;
        assert files[k] == x;
      }
    }
  }

  /** Records with the same identifier in a store of unique identifiers are the same record. */
  lemma SameIdSameRecord(files: seq<FileRecord>, x: FileRecord, y: FileRecord)
    requires UniqueIds(files) && x in files && y in files && x.id == y.id
    ensures x == y
  {
    var i :| 0 <= i < |files| && files[i] == x;
    var j :| 0 <= j < |files| && files[j] == y;
  }

  /** Dropping the newest record keeps identifiers unique. */
  lemma InitUnique(files: seq<FileRecord>)
    requires UniqueIds(files) && files != []
    ensures UniqueIds(files[..|files| - 1])
  {
    var init := files[..|files| - 1];
    forall a, b | 0 <= a < |init| && 0 <= b < |init| && init[a].id == init[b].id ensures a == b {
      assert files[a] == init[a] && files[b] == init[b];
    }
  }

  /** In a store of unique identifiers, no older record shares the newest one's identifier. */
  lemma NewestIdFresh(files: seq<FileRecord>)
    requires UniqueIds(files) && files != []
    ensures forall x :: x in files[..|files| - 1] ==> x.id != Newest(files).id
  {
    var init := files[..|files| - 1];
    forall x | x in init ensures x.id != Newest(files).id {
      var k :| 0 <= k < |init| && init[k] == x;
      assert files[k] == x;
    }
  }

  /** Removing index `i < |files| - 1` commutes with dropping the newest record. */
  lemma SliceAroundNewest(files: seq<FileRecord>, i: nat)
    requires i < |files| - 1
    ensures var init := files[..|files| - 1];
      files[..i] + files[i + 1..] == init[..i] + init[i + 1..] + [files[|files| - 1]]
  {
  }

  /** Deleting by the identifier of the record at index `i` removes that record and no other. */
  lemma {:induction false} RemoveById(files: seq<FileRecord>, i: nat)
    requires UniqueIds(files) && i < |files|
    ensures WithoutIds(files, {files[i].id}) == files[..i] + files[i + 1..]
  {
    var init := files[..|files| - 1];
    var last := files[|files| - 1];
    var id := files[i].id;
    NewestIdFresh(files);
    if i == |files| - 1 {
      KeepsAllIds(init, {id});
      assert files[..i] + files[i + 1..] == init;
    } else {
      InitUnique(files);
      assert init[i] == files[i];
      assert last.id != id;
      RemoveById(init, i);
      SliceAroundNewest(files, i);
    }
  }

  /** Deleting identifiers no record carries changes nothing. */
  lemma {:induction false} KeepsAllIds(files: seq<FileRecord>, ids: set<nat>)
    requires forall x :: x in files ==> x.id !in ids
    ensures WithoutIds(files, ids) == files
  {
    if files != [] {
      var init := files[..|files| - 1];
      KeepsAllIds(init, ids);
      assert init + [files[|files| - 1]] == files;
    }
  }

  /** Going one record further through a store of unique identifiers meets a new identifier. */
  lemma IdsStep(found: seq<FileRecord>, i: nat)
    requires UniqueIds(found) && i < |found|
    ensures found[i].id !in Ids(found[..i])
    ensures Ids(found[..i + 1]) == Ids(found[..i]) + {found[i].id}
  {
    forall y | y in found[..i] ensures y.id != found[i].id {
      var k :| 0 <= k < i && found[..i][k] == y;
      assert found[k] == y;
    }
    assert found[..i + 1] == found[..i] + [found[i]];
  }

  /** The identifiers of the selected records pick out exactly the selected records. */
  lemma SelectedIds(files: seq<FileRecord>, prefix: string)
    requires UniqueIds(files)
    ensures forall x :: x in files ==> (x.id in Ids(Under(files, prefix)) <==> prefix <= x.filename)
  {
    UnderMembers(files, prefix);
    forall x | x in files
      ensures x.id in Ids(Under(files, prefix)) <==> prefix <= x.filename
    {
      if x.id in Ids(Under(files, prefix)) {
        var y :| y in Under(files, prefix) && y.id == x.id;
        SameIdSameRecord(files, x, y);
      }
    }
  }

  /**
   * Deleting the selected records one by one in store order: after the first
   * `i`, the next one is still stored, and deleting it extends the deleted
   * identifiers by its own.
   */
  lemma NextSelectedStillStored(files: seq<FileRecord>, prefix: string, i: nat)
    requires UniqueIds(files) && i < |Under(files, prefix)|
    ensures var found := Under(files, prefix);
      HasId(WithoutIds(files, Ids(found[..i])), found[i].id) &&
      Ids(found[..i + 1]) == Ids(found[..i]) + {found[i].id}
  {
    var found := Under(files, prefix);
    UnderUnique(files, prefix);
    UnderMembers(files, prefix);
    IdsStep(found, i);
    WithoutIdsMembers(files, Ids(found[..i]));
    assert found[i] in found;
    var rest := WithoutIds(files, Ids(found[..i]));
    assert found[i] in rest;
    var k :| 0 <= k < |rest| && rest[k] == found[i];
  }

  /** Deleting the identifiers of all selected records leaves exactly the unselected ones. */
  lemma WithoutAllSelected(files: seq<FileRecord>, prefix: string)
    requires UniqueIds(files)
    ensures WithoutIds(files, Ids(Under(files, prefix))) == NotUnder(files, prefix)
  {
    SelectedIds(files, prefix);
    WithoutSelectedIds(files, Ids(Under(files, prefix)), prefix);
  }

  /** Deleting identifiers one at a time is deleting them all at once. */
  lemma {:induction false} WithoutIdsStep(files: seq<FileRecord>, ids: set<nat>, id: nat)
    ensures WithoutIds(WithoutIds(files, ids), {id}) == WithoutIds(files, ids + {id})
  {
    if files != [] {
      var init := files[..|files| - 1];
      var last := files[|files| - 1];
      WithoutIdsStep(init, ids, id);
      var kept := if last.id in ids then [] else [last];
      var r := WithoutIds(init, ids) + kept;
      if kept != [] {
        assert r[..|r| - 1] == WithoutIds(init, ids);
      } else {
        assert r == WithoutIds(init, ids);
      }
    }
  }

  /**
   * When the identifiers deleted are exactly those of the records a prefix
   * selects, what stays is exactly what the prefix does not select.
   */
  lemma {:induction false} WithoutSelectedIds(files: seq<FileRecord>, ids: set<nat>, prefix: string)
    requires forall x :: x in files ==> (x.id in ids <==> prefix <= x.filename)
    ensures WithoutIds(files, ids) == NotUnder(files, prefix)
  {
    if files != [] {
      WithoutSelectedIds(files[..|files| - 1], ids, prefix);
    }
  }

  /** The selected and the unselected records together are the store. */
  lemma {:induction false} UnderPartition(files: seq<FileRecord>, prefix: string)
    ensures multiset(Under(files, prefix)) + multiset(NotUnder(files, prefix)) == multiset(files)
  {
    if files != [] {
      var init := files[..|files| - 1];
      var last := files[|files| - 1];
      var u, n := Under(init, prefix), NotUnder(init, prefix);
      UnderPartition(init, prefix);
      assert files == init + [last];
      assert multiset(files) == multiset(init) + multiset{last};
      if prefix <= last.filename {
        assert Under(files, prefix) == u + [last];
        assert multiset(u + [last]) == multiset(u) + multiset{last};
      } else {
        assert NotUnder(files, prefix) == n + [last];
        assert multiset(n + [last]) == multiset(n) + multiset{last};
      }
    }
  }

  /** Once the unselected records are all that is left, the prefix selects nothing. */
  lemma NothingLeftUnder(files: seq<FileRecord>, prefix: string)
    ensures Under(NotUnder(files, prefix), prefix) == []
  {
    NotUnderMembers(files, prefix);
    NoneSelected(NotUnder(files, prefix), prefix);
  }

  /** A prefix that no record's filename starts with selects nothing. */
  lemma {:induction false} NoneSelected(files: seq<FileRecord>, prefix: string)
    requires forall k :: 0 <= k < |files| ==> !(prefix <= files[k].filename)
    ensures Under(files, prefix) == []
  {
    if files != [] {
      NoneSelected(files[..|files| - 1], prefix);
    }
  }

  /** Counting by filename distributes over concatenation. */
  lemma {:induction false} CountNamedConcat(a: seq<FileRecord>, b: seq<FileRecord>, name: string)
    ensures CountNamed(a + b, name) == CountNamed(a, name) + CountNamed(b, name)
  {
    if b != [] {
      var init := b[..|b| - 1];
      CountNamedConcat(a, init, name);
      assert (a + b)[..|a + b| - 1] == a + init;
    } else {
      assert a + b == a;
    }
  }

  /** A filename is present exactly when some record is counted under it. */
  lemma {:induction false} NamedIffCounted(files: seq<FileRecord>, name: string)
    ensures Named(files, name) <==> CountNamed(files, name) > 0
  {
    if files != [] {
      var init := files[..|files| - 1];
      NamedIffCounted(init, name);
      if Named(init, name) {
        var i :| 0 <= i < |init| && init[i].filename == name;
        assert files[i].filename == name;
      }
      if Named(files, name) && files[|files| - 1].filename != name {
        var i :| 0 <= i < |files| && files[i].filename == name;
        assert init[i].filename == name;
      }
    }
  }

  /** Removing one record named `name` lowers its count by one and leaves every other count alone. */
  lemma {:induction false} RemovedOneCounts(before: seq<FileRecord>, after: seq<FileRecord>, name: string, other: string)
    requires RemovedOne(before, after, name)
    ensures CountNamed(after, name) == CountNamed(before, name) - 1
    ensures other != name ==> CountNamed(after, other) == CountNamed(before, other)
  {
    var i :| 0 <= i < |before| && before[i].filename == name && after == before[..i] + before[i + 1..];
    assert before == before[..i] + [before[i]] + before[i + 1..];
    CountNamedConcat(before[..i] + [before[i]], before[i + 1..], name);
    CountNamedConcat(before[..i], [before[i]], name);
    CountNamedConcat(before[..i], before[i + 1..], name);
    CountNamedConcat(before[..i] + [before[i]], before[i + 1..], other);
    CountNamedConcat(before[..i], [before[i]], other);
    CountNamedConcat(before[..i], before[i + 1..], other);
  }

  /** Appending a record raises the count of its filename by one and of no other. */
  lemma {:induction false} AppendedCounts(before: seq<FileRecord>, after: seq<FileRecord>, other: string)
    requires Appended(before, after)
    ensures var name := Newest(after).filename;
      CountNamed(after, name) == CountNamed(before, name) + 1 &&
      (other != name ==> CountNamed(after, other) == CountNamed(before, other))
  {
    assert after[..|after| - 1] == before;
  }

  /**
   * Bytes some record of `name` holds after an append were held by an older
   * record of that name or are the appended record's; when `name` was
   * absent before, they are the appended record's.
   */
  lemma AppendedHolds(before: seq<FileRecord>, after: seq<FileRecord>, name: string, contents: seq<byte>)
    requires Appended(before, after) && HoldsContents(after, name, contents)
    ensures HoldsContents(before, name, contents) || (Newest(after).filename == name && Newest(after).contents == contents)
    ensures !Named(before, name) ==> Newest(after).filename == name && Newest(after).contents == contents
  {
    var i :| 0 <= i < |after| && after[i].filename == name && after[i].contents == contents;
    if i < |before| {
      assert before[i] == after[i];
    }
  }

  /**
   * A rename as the adapter performs it (append a copy named `dst`, then
   * remove one record named `src`) moves one record from `src` to `dst`; a
   * rename onto itself leaves every count as it was.
   */
  lemma {:induction false} CopyThenRemoveCounts(
    before: seq<FileRecord>, mid: seq<FileRecord>, after: seq<FileRecord>, src: string, dst: string, other: string)
    requires Appended(before, mid) && Newest(mid).filename == dst && RemovedOne(mid, after, src)
    ensures src != dst ==> CountNamed(after, src) == CountNamed(before, src) - 1
    ensures src != dst ==> CountNamed(after, dst) == CountNamed(before, dst) + 1
    ensures src == dst ==> CountNamed(after, src) == CountNamed(before, src)
    ensures other != src && other != dst ==> CountNamed(after, other) == CountNamed(before, other)
  {
    AppendedCounts(before, mid, src);
    AppendedCounts(before, mid, other);
    RemovedOneCounts(mid, after, src, dst);
    RemovedOneCounts(mid, after, src, other);
  }

  /** When `src` named exactly one record, after such a rename only `dst` is present. */
  lemma RenameOfUniqueName(
    before: seq<FileRecord>, mid: seq<FileRecord>, after: seq<FileRecord>, src: string, dst: string)
    requires Appended(before, mid) && Newest(mid).filename == dst && RemovedOne(mid, after, src)
    requires src != dst && CountNamed(before, src) == 1
    ensures !Named(after, src) && Named(after, dst)
  {
    CopyThenRemoveCounts(before, mid, after, src, dst, src);
    NamedIffCounted(after, src);
    NamedIffCounted(after, dst);
  }

  // ---------------------------------------------------------------------
  // The bucket

  /**
   * The store behind the adapter. `files` is kept in natural (insertion)
   * order; `nextId` is the identifier the next upload receives;
   * `chunkSize` is the chunk size the bucket writes new files with.
   */
  class Bucket {
    var files: seq<FileRecord>
    var nextId: nat
    const chunkSize: nat

    ghost predicate Valid()
      reads this
    {
      UniqueIds(files) && forall x :: x in files ==> x.id < nextId
    }

    constructor (chunkSize: nat)
      ensures Valid() && files == [] && this.chunkSize == chunkSize
    {
      files := [];
      nextId := 0;
      this.chunkSize := chunkSize;
    }

    /** `findOne(['filename' => name])`: some record of that name, which one is not specified. */
    method FindOneByName(name: string) returns (r: Option<FileRecord>)
      ensures r.None? <==> !Named(files, name)
      ensures r.Some? ==> r.value in files && r.value.filename == name
    {
      if Named(files, name) {
        var i :| 0 <= i < |files| && files[i].filename == name;
        r := Some(files[i]);
      } else {
        r := None;
      }
    }

    /** `findOne(['_id' => id])`. */
    method FindOneById(id: nat) returns (r: Option<FileRecord>)
      ensures r.None? <==> !HasId(files, id)
      ensures r.Some? ==> r.value in files && r.value.id == id
    {
      if HasId(files, id) {
        var i :| 0 <= i < |files| && files[i].id == id;
        r := Some(files[i]);
      } else {
        r := None;
      }
    }

    /** `find(['filename' => new Regex('^' . prefix)])`, in store order. */
    method FindByPrefix(prefix: string) returns (found: seq<FileRecord>)
      ensures found == Under(files, prefix)
    {
      found := [];
      var i := 0;
      while i < |files|
        invariant 0 <= i <= |files|
        invariant found == Under(files[..i], prefix)
      {
        assert files[..i + 1][..i] == files[..i];
        if prefix <= files[i].filename {
          found := found + [files[i]];
        }
        i := i + 1;
      }
      assert files[..i] == files;
    }

    /** `openDownloadStreamByName(name)`, read to the end: the bytes of some record of that name. */
    method OpenDownloadStreamByName(name: string) returns (contents: seq<byte>)
      requires Named(files, name)
      ensures HoldsContents(files, name, contents)
    {
      var i :| 0 <= i < |files| && files[i].filename == name;
      contents := files[i].contents;
    }

    /** `uploadFromStream`: store a new file under a fresh identifier; existing records stay. */
    method UploadFromStream(filename: string, contents: seq<byte>, mimetype: string, uploadDate: int)
      returns (id: nat)
      requires Valid()
      modifies this
      ensures Valid()
      ensures Appended(old(files), files)
      ensures Newest(files) == FileRecord(id, filename, chunkSize, uploadDate, Some(mimetype), contents)
    {
      id := nextId;
      files := files + [FileRecord(id, filename, chunkSize, uploadDate, Some(mimetype), contents)];
      nextId := nextId + 1;
      assert id !in Ids(old(files));
    }

    /** `delete(id)`: remove the record with that identifier. */
    method Delete(id: nat)
      requires Valid() && HasId(files, id)
      modifies this
      ensures Valid() && nextId == old(nextId)
      ensures files == WithoutIds(old(files), {id})
    {
      WithoutIdsUnique(files, {id});
      WithoutIdsMembers(files, {id});
      files := WithoutIds(files, {id});
    }
  }
}
