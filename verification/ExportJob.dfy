/** Writing an export: the manifest, then each file streamed from the store's chunks. */
module ExportJob {
  import opened Wrappers
  import opened Bytes
  import opened ItemRequests
  import opened BlobStore
  import opened ExportFormat
  import Upload

  /** A file of the snapshot: its row in the database, and the chunks its blob decrypts to. */
  datatype SnapshotFile = SnapshotFile(name: string, size: nat, sha256: string, chunks: seq<Option<bytes>>)

  datatype Snapshot = Snapshot(name: string, fields: seq<Field>, files: seq<SnapshotFile>)

  datatype ExportError = BadReference

  function RowsOf(files: seq<SnapshotFile>): (rows: seq<FileEntry>)
    ensures |rows| == |files|
    ensures forall i :: 0 <= i < |files| ==> rows[i] == FileEntry(files[i].name, files[i].sha256, files[i].size)
  {
    seq(|files|, i requires 0 <= i < |files| => FileEntry(files[i].name, files[i].sha256, files[i].size))
  }

  function ManifestOf(snapshot: Snapshot): Manifest {
    Manifest(EXPORT_FORMAT, EXPORT_VERSION, snapshot.name, snapshot.fields, RowsOf(snapshot.files))
  }

  /** The bytes a stream of chunks delivers before it ends or fails. */
  function Delivered(chunks: seq<Option<bytes>>): bytes {
    if chunks == [] || chunks[0].None? then [] else chunks[0].value + Delivered(chunks[1..])
  }

  predicate Unbroken(chunks: seq<Option<bytes>>) {
    forall i :: 0 <= i < |chunks| ==> chunks[i].Some?
  }

  /** Reads the chunks as one stream, counting and digesting what it hands out. */
  class SnapshotFileReader {
    var chunks: seq<Option<bytes>>
    var current: bytes
    var offset: nat
    var size: nat
    var digested: bytes

    constructor (chunks: seq<Option<bytes>>)
      ensures this.chunks == chunks && current == [] && offset == 0 && size == 0 && digested == []
    {
      this.chunks := chunks;
      current, offset, size, digested := [], 0, 0, [];
    }

    ghost predicate Valid()
      reads this
    {
      offset <= |current| && size == |digested|
    }

    /** What is still to come, unless the stream breaks first. */
    ghost function Ahead(): bytes
      reads this
      requires Valid()
    {
      current[offset..] + Delivered(chunks)
    }

    /** Hands out between one and `limit` bytes, or none at the end; `None` if the stream broke. */
    method Read(limit: nat) returns (part: Option<bytes>)
      requires Valid()
      modifies this
      ensures Valid()
      ensures part.Some? ==>
        && part.value + Ahead() == old(Ahead()) && |part.value| <= limit
        && digested == old(digested) + part.value
        && Unbroken(chunks) == Unbroken(old(chunks))
      ensures part.Some? && limit > 0 ==> (part.value == [] <==> old(Ahead()) == [] && Unbroken(old(chunks)))
      ensures part.None? ==> !Unbroken(old(chunks)) && old(Ahead()) == []
    {
      if limit == 0 {
        return Some([]);
      }
      while true
        invariant Valid() && digested == old(digested)
        invariant Ahead() == old(Ahead()) && Unbroken(chunks) == Unbroken(old(chunks))
        decreases |chunks|
      {
        if offset < |current| {
          var count := if limit < |current| - offset then limit else |current| - offset;
          var bytes := current[offset..offset + count];
          assert current[offset..] == bytes + current[offset + count..];
          Assoc(bytes, current[offset + count..], Delivered(chunks));
          offset := offset + count;
          size := size + count;
          digested := digested + bytes;
          return Some(bytes);
        }
        current, offset := [], 0;
        if chunks == [] {
          return Some([]);
        }
        if chunks[0].None? {
          return None;
        }
        UnbrokenTail(chunks);
        current, chunks := chunks[0].value, chunks[1..];
        assert current[0..] == current;
      }
    }

    method Sha256(sha: bytes -> string) returns (s: string)
      ensures s == sha(digested)
    {
      s := sha(digested);
    }
  }

  lemma UnbrokenTail(chunks: seq<Option<bytes>>)
    requires chunks != [] && chunks[0].Some?
    ensures Unbroken(chunks) <==> Unbroken(chunks[1..])
  {
  }

  // ----- whole archives -----

  /** The blob still is what its database row says. */
  predicate Exportable(file: SnapshotFile, sha: bytes -> string) {
    && Unbroken(file.chunks)
    && |Delivered(file.chunks)| == file.size && sha(Delivered(file.chunks)) == file.sha256
  }

  function RegularEntry(path: string, data: bytes): Entry {
    Entry(Regular, path, |data|, data, None)
  }

  function FileListings(files: seq<SnapshotFile>): (listings: seq<Listing>)
    ensures |listings| == |files|
    ensures forall i :: 0 <= i < |files| ==>
      listings[i] == Listed(RegularEntry(FilePath(files[i].sha256), Delivered(files[i].chunks)))
  {
    seq(|files|, i requires 0 <= i < |files| =>
      Listed(RegularEntry(FilePath(files[i].sha256), Delivered(files[i].chunks))))
  }

  function ManifestListing(snapshot: Snapshot, codec: Codec): Listing {
    Listed(RegularEntry(MANIFEST_PATH, codec.encode(ManifestOf(snapshot))))
  }

  /** The archive of a snapshot: manifest, files in order, and the second of two zero blocks. */
  function ArchiveOf(snapshot: Snapshot, codec: Codec): Archive {
    Archive([ManifestListing(snapshot, codec)] + FileListings(snapshot.files), Zeros(TAR_BLOCK_BYTES), None)
  }

  ghost predicate ExportableSnapshot(snapshot: Snapshot, codec: Codec, sha: bytes -> string) {
    && |codec.encode(ManifestOf(snapshot))| <= MAX_MANIFEST_BYTES
    && forall i :: 0 <= i < |snapshot.files| ==> Exportable(snapshot.files[i], sha)
  }

  /** Copies a file into the archive in pieces of any size, and checks it afterwards. */
  method AppendSnapshotFile(file: SnapshotFile, sha: bytes -> string) returns (r: Result<Entry, ExportError>)
    ensures r ==
      if Exportable(file, sha) then Ok(RegularEntry(FilePath(file.sha256), Delivered(file.chunks)))
      else Err(BadReference)
  {
    var reader := new SnapshotFileReader(file.chunks);
    var written: bytes := [];
    ghost var all := Delivered(file.chunks);
    assert reader.Ahead() == [] + all == all;
    while true
      invariant reader.Valid() && fresh(reader)
      invariant written == reader.digested && written + reader.Ahead() == all
      invariant Unbroken(reader.chunks) == Unbroken(file.chunks)
      decreases |reader.Ahead()|
    {
      var limit: nat :| limit > 0;
      var part := reader.Read(limit);
      if part.None? {
        return Err(BadReference);
      }
      if part.value == [] {
        break;
      }
      Assoc(written, part.value, reader.Ahead());
      written := written + part.value;
    }
    assert written + [] == written;
    var hash := reader.Sha256(sha);
    if reader.size != file.size || hash != file.sha256 {
      return Err(BadReference);
    }
    r := Ok(Entry(Regular, FilePath(file.sha256), file.size, written, None));
  }

  method StreamExport(snapshot: Snapshot, codec: Codec, sha: bytes -> string)
    returns (r: Result<Archive, ExportError>)
    ensures r ==
      if ExportableSnapshot(snapshot, codec, sha) then Ok(ArchiveOf(snapshot, codec)) else Err(BadReference)
  {
    var manifest := codec.encode(ManifestOf(snapshot));
    if |manifest| > MAX_MANIFEST_BYTES {
      return Err(BadReference);
    }
    var listings: seq<Listing> := [Listed(Entry(Regular, MANIFEST_PATH, |manifest|, manifest, None))];
    for i := 0 to |snapshot.files|
      invariant listings == [ManifestListing(snapshot, codec)] + FileListings(snapshot.files)[..i]
      invariant forall k :: 0 <= k < i ==> Exportable(snapshot.files[k], sha)
    {
      var entry := AppendSnapshotFile(snapshot.files[i], sha);
      if entry.Err? {
        return Err(BadReference);
      }
      listings := listings + [Listed(entry.value)];
    }
    assert FileListings(snapshot.files)[..|snapshot.files|] == FileListings(snapshot.files);
    r := Ok(Archive(listings, Zeros(TAR_BLOCK_BYTES), None));
  }

  /**
   * What export writes, import takes: the archive of an exportable snapshot is accepted, as
   * its own manifest, exactly when the snapshot's names and hashes are distinct and valid.
   */
  lemma ExportIsAccepted(snapshot: Snapshot, codec: Codec, sha: bytes -> string)
    requires codec.Faithful() && ExportableSnapshot(snapshot, codec, sha)
    ensures Accepted(ArchiveOf(snapshot, codec), codec, sha, ManifestOf(snapshot))
      <==> ValidContents(snapshot.fields, RowsOf(snapshot.files))
  {
    hide ValidContents, Exportable, Delivered, RowsOf;
    var archive, m := ArchiveOf(snapshot, codec), ManifestOf(snapshot);
    assert ManifestEntry(archive.entries[0], codec, m);
    forall i | 0 <= i < |m.files|
      ensures FileListing(archive.entries[i + 1], sha, m.files[i])
    {
      ExportedListing(snapshot.files[i], sha);
      assert archive.entries[i + 1] == FileListings(snapshot.files)[i];
    }
  }

  lemma ExportedListing(file: SnapshotFile, sha: bytes -> string)
    requires Exportable(file, sha)
    ensures FileListing(
      Listed(RegularEntry(FilePath(file.sha256), Delivered(file.chunks))), sha,
      FileEntry(file.name, file.sha256, file.size))
  {
  }

  /** The archive entry by entry, as another implementation would have to write it. */
  lemma ArchiveLayout(snapshot: Snapshot, codec: Codec, i: nat)
    requires i < |snapshot.files|
    ensures
      var archive, m := ArchiveOf(snapshot, codec), ManifestOf(snapshot);
      && |archive.entries| == 1 + |snapshot.files|
      && archive.entries[0].Listed? && archive.entries[0].entry.path == "manifest.json"
      && archive.entries[0].entry.kind == Regular && archive.entries[0].entry.data == codec.encode(m)
      && m.format == "monopass-export" && m.version == 1 && m.name == snapshot.name && m.fields == snapshot.fields
      && |m.files| == |snapshot.files|
      && m.files[i] == FileEntry(snapshot.files[i].name, snapshot.files[i].sha256, snapshot.files[i].size)
      && archive.entries[i + 1].Listed? && archive.entries[i + 1].entry.path == "files/" + snapshot.files[i].sha256
      && archive.entries[i + 1].entry.kind == Regular
      && archive.entries[i + 1].entry.data == Delivered(snapshot.files[i].chunks)
      && |archive.tail| == 512 && forall k :: 0 <= k < 512 ==> archive.tail[k] == 0
  {
    hide Delivered;
    assert ArchiveOf(snapshot, codec).entries[i + 1] == FileListings(snapshot.files)[i];
  }

  /** What an unbroken stream delivers is its chunks one after the other. */
  lemma {:induction false} DeliveredIsConcat(chunks: seq<Option<bytes>>, whole: seq<bytes>)
    requires |whole| == |chunks| && forall i :: 0 <= i < |chunks| ==> chunks[i] == Some(whole[i])
    ensures Delivered(chunks) == Concat(whole)
  {
    if chunks != [] {
      DeliveredIsConcat(chunks[1..], whole[1..]);
      assert whole == [whole[0]] + whole[1..];
      Upload.ConcatCons(whole[0], whole[1..]);
    }
  }
}
