/**
 * Importing an export: the archive is checked while its files stream into the blob store,
 * and whatever the job has newly stored is removed again when any step fails.
 */
module ImportJob {
  import opened Wrappers
  import opened Bytes
  import opened Distinct
  import opened ItemRequests
  import opened BlobStore
  import opened ExportFormat
  import Upload

  datatype ImportError = DecryptFailed | BadArchive | Database(error: DbError)

  function ReadError(failure: ReadFailure): ImportError {
    if failure == AgeLayer then DecryptFailed else BadArchive
  }

  // ----- readers of the decompressed archive -----

  /** Reads `data` in pieces of any size, then ends or fails. */
  class PieceReader {
    const data: bytes
    const failure: Option<ReadFailure>
    var position: nat

    constructor (data: bytes, failure: Option<ReadFailure>)
      ensures this.data == data && this.failure == failure && position == 0
    {
      this.data, this.failure, position := data, failure, 0;
    }

    ghost predicate Valid()
      reads this`position
    {
      position <= |data|
    }

    method Read(limit: nat) returns (part: Result<bytes, ReadFailure>)
      requires Valid() && limit > 0
      modifies this`position
      ensures Valid()
      ensures part.Ok? ==>
        && position == old(position) + |part.value| && |part.value| <= limit
        && part.value == data[old(position)..position]
        && (part.value == [] <==> old(position) == |data|)
        && (part.value == [] ==> failure == None)
      ensures part.Err? ==> position == old(position) == |data| && failure == Some(part.error)
    {
      if position == |data| {
        return if failure.Some? then Err(failure.value) else Ok([]);
      }
      var n :| 1 <= n <= limit && position + n <= |data|;
      part := Ok(data[position..position + n]);
      position := position + n;
    }
  }

  /**
   * Accepts a tail of exactly one zero block. Every piece is checked against how much of the
   * block is still missing, so the verdict does not depend on the pieces.
   */
  method ValidateTarTerminatorAndFinish(reader: PieceReader) returns (r: Result<(), ImportError>)
    requires reader.Valid() && reader.position == 0
    modifies reader
    ensures reader.failure == None ==>
      r == if reader.data == Zeros(TAR_BLOCK_BYTES) then Ok(()) else Err(BadArchive)
    ensures reader.failure.Some? ==> r == Err(ReadError(reader.failure.value))
  {
    var count: nat := 0;
    var exactZeroTerminator := true;
    while true
      invariant reader.Valid() && count == reader.position
      invariant exactZeroTerminator ==> count <= TAR_BLOCK_BYTES
      invariant exactZeroTerminator <==>
        count <= TAR_BLOCK_BYTES && forall i :: 0 <= i < count ==> reader.data[i] == 0
      decreases |reader.data| - reader.position
    {
      var part := reader.Read(FILE_RECORD_PLAINTEXT_BYTES);
      if part.Err? {
        return Err(ReadError(part.error));
      }
      var piece := part.value;
      if piece == [] {
        break;
      }
      var missing := if count < TAR_BLOCK_BYTES then TAR_BLOCK_BYTES - count else 0;
      if count >= TAR_BLOCK_BYTES || |piece| > missing || exists i :: 0 <= i < |piece| && piece[i] != 0 {
        exactZeroTerminator := false;
      }
      assert forall i :: count <= i < count + |piece| ==> reader.data[i] == piece[i - count];
      assert forall i :: 0 <= i < |piece| ==> piece[i] == reader.data[count + i];
      count := count + |piece|;
    }
    if !exactZeroTerminator || count != TAR_BLOCK_BYTES {
      return Err(BadArchive);
    }
    r := Ok(());
  }

  // ----- checks -----

  method ValidateManifest(m: Manifest) returns (ok: bool)
    ensures ok == ValidManifest(m)
  {
    hide NoDuplicates, ValidFiles;
    if m.format != EXPORT_FORMAT || m.version != EXPORT_VERSION {
      return false;
    }
    ghost var all := FieldNames(m.fields) + FileNames(m.files);
    assert FieldNames(m.fields) == all[..|m.fields|];
    var names;
    ok, names := CheckFieldNames(m.fields);
    if !ok {
      DuplicatesOfPrefix(all, |m.fields|);
      return;
    }
    ok := CheckFiles(m.files, names, FieldNames(m.fields));
  }

  method CheckFieldNames(fields: seq<Field>) returns (ok: bool, names: set<string>)
    ensures ok == NoDuplicates(FieldNames(fields))
    ensures ok ==> names == Elements(FieldNames(fields))
  {
    ghost var all := FieldNames(fields);
    names := {};
    assert NoDuplicates(all[..0]) && Elements(all[..0]) == {};
    hide NoDuplicates, Elements;
    for i := 0 to |fields|
      invariant names == Elements(all[..i]) && NoDuplicates(all[..i])
    {
      ElementsGrow(all, i);
      if fields[i].name in names {
        return false, names;
      }
      names := names + {fields[i].name};
    }
    assert all[..|fields|] == all;
    ok := true;
  }

  /** The names and hashes met in the first `i` files, all of which are in order so far. */
  ghost predicate FilesChecked(
    before: seq<string>, files: seq<FileEntry>, i: nat, names: set<string>, hashes: set<string>)
    requires i <= |files|
  {
    && names == Elements(before + FileNames(files[..i])) && NoDuplicates(before + FileNames(files[..i]))
    && hashes == HashSet(files[..i]) && ValidFiles(files[..i])
  }

  predicate FileFits(file: FileEntry, names: set<string>, hashes: set<string>) {
    && file.name !in names && file.sha256 !in hashes
    && IsSha256Hex(file.sha256) && file.size <= MAX_FILE_UPLOAD_BYTES
  }

  lemma FilesCheckedStep(
    before: seq<string>, files: seq<FileEntry>, i: nat, names: set<string>, hashes: set<string>)
    requires i < |files| && FilesChecked(before, files, i, names, hashes)
    ensures FileFits(files[i], names, hashes) ==>
      FilesChecked(before, files, i + 1, names + {files[i].name}, hashes + {files[i].sha256})
    ensures !FileFits(files[i], names, hashes) ==>
      !(NoDuplicates(before + FileNames(files)) && ValidFiles(files))
  {
    hide NoDuplicates, Elements, ValidFiles, HashSet;
    var all := before + FileNames(files);
    assert all[..|before| + i] == before + FileNames(files[..i]);
    assert all[..|before| + (i + 1)] == before + FileNames(files[..i + 1]);
    ElementsGrow(all, |before| + i);
    FilesGrow(files, i);
  }

  method CheckFiles(files: seq<FileEntry>, fieldNames: set<string>, ghost before: seq<string>) returns (ok: bool)
    requires NoDuplicates(before) && fieldNames == Elements(before)
    ensures ok == (NoDuplicates(before + FileNames(files)) && ValidFiles(files))
  {
    var names := fieldNames;
    var hashes: set<string> := {};
    assert before + FileNames(files[..0]) == before;
    assert FilesChecked(before, files, 0, names, hashes);
    hide FilesChecked, FileFits, NoDuplicates, ValidFiles, IsSha256Hex;
    for i := 0 to |files|
      invariant FilesChecked(before, files, i, names, hashes)
    {
      FilesCheckedStep(before, files, i, names, hashes);
      FileFitsMeans(files[i], names, hashes);
      if files[i].name in names {
        return false;
      }
      names := names + {files[i].name};
      if files[i].sha256 in hashes {
        return false;
      }
      hashes := hashes + {files[i].sha256};
      if !IsSha256Hex(files[i].sha256) || files[i].size > MAX_FILE_UPLOAD_BYTES {
        return false;
      }
    }
    FilesCheckedAll(before, files, names, hashes);
    ok := true;
  }

  lemma FileFitsMeans(file: FileEntry, names: set<string>, hashes: set<string>)
    ensures FileFits(file, names, hashes) <==>
      file.name !in names && file.sha256 !in hashes
      && IsSha256Hex(file.sha256) && file.size <= MAX_FILE_UPLOAD_BYTES
  {
  }

  lemma FilesCheckedAll(before: seq<string>, files: seq<FileEntry>, names: set<string>, hashes: set<string>)
    requires FilesChecked(before, files, |files|, names, hashes)
    ensures NoDuplicates(before + FileNames(files)) && ValidFiles(files)
  {
    assert files[..|files|] == files;
  }

  /** The next file keeps the list valid exactly when it is valid itself and its hash is new. */
  lemma FilesGrow(files: seq<FileEntry>, i: nat)
    requires i < |files| && ValidFiles(files[..i])
    ensures HashSet(files[..i + 1]) == HashSet(files[..i]) + {files[i].sha256}
    ensures
      var fits := && files[i].sha256 !in HashSet(files[..i])
                  && IsSha256Hex(files[i].sha256) && files[i].size <= MAX_FILE_UPLOAD_BYTES;
      (ValidFiles(files[..i + 1]) <==> fits) && (!fits ==> !ValidFiles(files))
  {
    var before, now := files[..i], files[..i + 1];
    assert now == before + [files[i]];
    assert forall k :: 0 <= k < i ==> now[k] == before[k] == files[k];
    if files[i].sha256 in HashSet(before) {
      var k :| 0 <= k < i && before[k].sha256 == files[i].sha256;
      assert now[k].sha256 == now[i].sha256;
    }
  }

  ghost function HashSet(files: seq<FileEntry>): set<string> {
    set i | 0 <= i < |files| :: files[i].sha256
  }

  // ----- streaming one file -----

  datatype StreamFileError = EntryUnreadable | Db(error: DbError)

  /** The entry is the file announced: it reads cleanly to its size and has the right hash. */
  ghost predicate Genuine(entry: Entry, size: nat, sha256: string, sha: bytes -> string) {
    entry.failure == None && |entry.data| == size && sha(entry.data) == sha256
  }

  /** Every byte arrives and hashes well, and only then reading fails. */
  ghost predicate FailsTooLate(entry: Entry, size: nat, sha256: string, sha: bytes -> string) {
    entry.failure.Some? && |entry.data| == size && sha(entry.data) == sha256
  }

  method StreamFileToDatabase(store: Store, entry: Entry, expectedSize: nat, expectedSha256: string)
    returns (r: Result<CreatedFile, StreamFileError>)
    requires store.Valid() && IsSha256Hex(expectedSha256) && expectedSize <= MAX_FILE_UPLOAD_BYTES
    modifies store`blobs
    ensures store.Valid()
    ensures r.Ok? ==> Genuine(entry, expectedSize, expectedSha256, store.sha)
    ensures r.Ok? ==> r.value.id in store.blobs && store.blobs[r.value.id].sha256 == expectedSha256
    ensures r.Ok? && r.value.newlyCreated ==>
      && r.value.id !in old(store.blobs)
      && store.blobs == old(store.blobs)[r.value.id := Blob(expectedSha256, entry.data)]
    ensures r.Ok? && !r.value.newlyCreated ==> store.blobs == old(store.blobs)
    ensures r.Err? && !(FailsTooLate(entry, expectedSize, expectedSha256, store.sha)
                        && !HoldsHash(old(store.blobs), expectedSha256)) ==>
      store.blobs == old(store.blobs)
    ensures r.Err? ==> Kept(old(store.blobs), store.blobs)
    ensures store.healthy && Genuine(entry, expectedSize, expectedSha256, store.sha) ==> r.Ok?
    ensures r.Err? ==>
      match r.error
      case EntryUnreadable => !store.healthy || entry.failure.Some? || |entry.data| != expectedSize
      case Db(BadRequest) => !Genuine(entry, expectedSize, expectedSha256, store.sha)
      case Db(error) => error == Internal && !store.healthy
    ensures entry.failure.Some? ==> r == Err(EntryUnreadable)
    ensures store.healthy && FailsTooLate(entry, expectedSize, expectedSha256, store.sha)
            && !HoldsHash(old(store.blobs), expectedSha256) ==>
      r.Err? && store.blobs.Keys != old(store.blobs).Keys
  {
    hide Concat;
    var sender, failed := SendEntry(entry, store.healthy);
    var stored: Result<CreatedFile, DbError>;
    if failed == Closed {
      stored := Err(Internal);
    } else {
      stored := store.CreateFileFromChunks(sender.sent, expectedSize, Some(expectedSha256));
    }
    if stored.Ok? {
      assert stored.value.newlyCreated ==> stored.value.id in store.blobs && stored.value.id !in old(store.blobs);
      assert !stored.value.newlyCreated ==> HoldsHash(old(store.blobs), store.sha(entry.data));
    }
    if failed != Finished || |entry.data| != expectedSize {
      return Err(EntryUnreadable);
    }
    r := if stored.Ok? then Ok(stored.value) else Err(Db(stored.error));
  }

  ghost predicate Kept(before: map<Id, Blob>, after: map<Id, Blob>) {
    forall id :: id in before ==> id in after && after[id] == before[id]
  }

  datatype Sending = Finished | ReadFailed | Closed

  /** Passes the entry's bytes on piece by piece; the receiver may go away. */
  method SendEntry(entry: Entry, connected: bool) returns (sender: Upload.Sender, outcome: Sending)
    ensures fresh(sender)
    ensures outcome != Closed ==> Concat(sender.sent) == entry.data
    ensures outcome == Finished ==> entry.failure == None
    ensures outcome == ReadFailed ==> entry.failure.Some?
    ensures connected ==> outcome != Closed
    ensures forall i :: 0 <= i < |sender.sent| ==> |sender.sent[i]| <= FILE_RECORD_PLAINTEXT_BYTES
  {
    var reader := new PieceReader(entry.data, entry.failure);
    sender := new Upload.Sender(connected);
    while true
      invariant reader.Valid() && fresh(reader) && fresh(sender) && sender.connected == connected
      invariant Concat(sender.sent) == entry.data[..reader.position]
      invariant forall i :: 0 <= i < |sender.sent| ==> |sender.sent[i]| <= FILE_RECORD_PLAINTEXT_BYTES
      decreases |entry.data| - reader.position
    {
      ghost var before := sender.sent;
      var part := reader.Read(FILE_RECORD_PLAINTEXT_BYTES);
      if part.Err? {
        outcome := ReadFailed;
        assert entry.data[..reader.position] == entry.data;
        return;
      }
      if part.value == [] {
        assert entry.data[..reader.position] == entry.data;
        outcome := Finished;
        return;
      }
      var ok := sender.Send(part.value);
      if !ok {
        outcome := Closed;
        return;
      }
      assert sender.sent[..|before|] == before;
    }
  }

  // ----- the whole archive -----

  ghost function IdSet(ids: seq<Id>): set<Id> {
    set id | id in ids
  }

  /** `after` is `before` plus blobs of exactly the ids `added`. */
  ghost predicate GrownBy(before: map<Id, Blob>, after: map<Id, Blob>, added: set<Id>) {
    && after.Keys == before.Keys + added && added !! before.Keys
    && Kept(before, after)
  }

  ghost function InputIds(inputs: seq<FileInput>): set<Id> {
    set i | 0 <= i < |inputs| :: inputs[i].id
  }

  lemma InputIdsGrow(inputs: seq<FileInput>, last: FileInput)
    ensures InputIds(inputs + [last]) == InputIds(inputs) + {last.id}
  {
    var all := inputs + [last];
    assert all[|inputs|] == last;
    assert forall i :: 0 <= i < |inputs| ==> all[i] == inputs[i];
  }

  /** The files the manifest starts with are in the store under the ids of `inputs`. */
  ghost predicate FilesStored(blobs: map<Id, Blob>, inputs: seq<FileInput>, files: seq<FileEntry>) {
    && |inputs| <= |files|
    && forall k :: 0 <= k < |inputs| ==>
         && inputs[k].name == files[k].name && inputs[k].id in blobs
         && blobs[inputs[k].id].sha256 == files[k].sha256
  }

  ghost predicate ListingsMatch(archive: Archive, sha: bytes -> string, files: seq<FileEntry>, n: nat) {
    && n <= |files| && n < |archive.entries|
    && forall k :: 0 <= k < n ==> FileListing(archive.entries[k + 1], sha, files[k])
  }

  method ReadManifest(archive: Archive, codec: Codec) returns (r: Result<Manifest, ImportError>)
    ensures r.Ok? <==>
      && archive.entries != [] && archive.entries[0].Listed?
      && codec.decode(archive.entries[0].entry.data).Some?
      && ManifestEntry(archive.entries[0], codec, codec.decode(archive.entries[0].entry.data).value)
      && ValidManifest(codec.decode(archive.entries[0].entry.data).value)
    ensures r.Ok? ==> codec.decode(archive.entries[0].entry.data) == Some(r.value)
    ensures r.Err? ==> r.error == if ManifestBelow(archive) then DecryptFailed else BadArchive
  {
    hide ValidManifest;
    if archive.entries == [] {
      return Err(BadArchive);
    }
    if archive.entries[0].Unreadable? {
      return Err(ReadError(archive.entries[0].failure));
    }
    var entry := archive.entries[0].entry;
    if !IsRegular(entry, MANIFEST_PATH) || entry.size > MAX_MANIFEST_BYTES {
      return Err(BadArchive);
    }
    if entry.failure.Some? {
      return Err(ReadError(entry.failure.value));
    }
    if |entry.data| != entry.size {
      return Err(BadArchive);
    }
    var manifest := codec.decode(entry.data);
    if manifest.None? {
      return Err(BadArchive);
    }
    var ok := ValidateManifest(manifest.value);
    r := if ok then Ok(manifest.value) else Err(BadArchive);
  }

  // ----- failures below decryption -----

  ghost predicate BrokenBelow(listing: Listing) {
    match listing
    case Unreadable(failure) => failure == AgeLayer
    case Listed(entry) => entry.failure == Some(AgeLayer)
  }

  /** Decryption fails at the manifest, which looked like one so far. */
  ghost predicate ManifestBelow(archive: Archive) {
    && archive.entries != [] && BrokenBelow(archive.entries[0])
    && (archive.entries[0].Listed? ==>
          var entry := archive.entries[0].entry;
          IsRegular(entry, MANIFEST_PATH) && entry.size <= MAX_MANIFEST_BYTES)
  }

  /** Decryption fails at the entry of the file, which looked like it so far. */
  ghost predicate FileBelow(listing: Listing, file: FileEntry) {
    && BrokenBelow(listing)
    && (listing.Listed? ==> IsRegular(listing.entry, FilePath(file.sha256)) && listing.entry.size == file.size)
  }

  /** Decryption fails where the archive should end, after `n` entries. */
  ghost predicate EndBelow(archive: Archive, n: nat) {
    if n < |archive.entries| then archive.entries[n] == Unreadable(AgeLayer)
    else archive.tailFailure == Some(AgeLayer)
  }

  /** The archive is in order up to the manifest's file `i`, or up to its end, and decryption fails there. */
  ghost predicate FailsBelowAt(archive: Archive, codec: Codec, sha: bytes -> string, m: Manifest, i: int) {
    && 0 <= i && ManifestFirst(archive, codec, m) && ListingsMatch(archive, sha, m.files, i)
    && if i < |m.files| then i + 1 < |archive.entries| && FileBelow(archive.entries[i + 1], m.files[i])
       else EndBelow(archive, i + 1)
  }

  /** Everything is in order up to a place where decryption fails. */
  ghost predicate FailsBelow(archive: Archive, codec: Codec, sha: bytes -> string) {
    ManifestBelow(archive) || exists m, i :: FailsBelowAt(archive, codec, sha, m, i)
  }

  lemma NoManifestBelow(archive: Archive, codec: Codec, sha: bytes -> string)
    requires forall m :: !ManifestFirst(archive, codec, m)
    ensures FailsBelow(archive, codec, sha) <==> ManifestBelow(archive)
  {
  }

  lemma FileInOrder(listing: Listing, sha: bytes -> string, file: FileEntry)
    ensures FileListing(listing, sha, file) ==> !FileBelow(listing, file)
  {
  }

  /** With the manifest and `n` files in order, decryption can only fail later, and in one place. */
  lemma FailsNoSooner(archive: Archive, codec: Codec, sha: bytes -> string, m: Manifest, n: nat)
    requires ManifestFirst(archive, codec, m) && ListingsMatch(archive, sha, m.files, n)
    ensures !ManifestBelow(archive)
    ensures forall other, i :: FailsBelowAt(archive, codec, sha, other, i) ==> other == m && n <= i
  {
    ManifestUnique(archive, codec, m);
    assert !ManifestBelow(archive) by {
      hide ValidManifest;
    }
    forall i | 0 <= i < n
      ensures !FailsBelowAt(archive, codec, sha, m, i)
    {
      FileInOrder(archive.entries[i + 1], sha, m.files[i]);
      hide ManifestFirst, FileBelow, FileListing;
    }
    hide ManifestFirst, ListingsMatch, FileBelow, EndBelow;
  }

  /** At a file that is not in order, its entry alone tells whether decryption fails. */
  lemma FailsHere(archive: Archive, codec: Codec, sha: bytes -> string, m: Manifest, n: nat)
    requires ManifestFirst(archive, codec, m) && ListingsMatch(archive, sha, m.files, n)
    requires n < |m.files|
    ensures n + 1 >= |archive.entries| ==> !FailsBelow(archive, codec, sha)
    ensures n + 1 < |archive.entries| && !FileListing(archive.entries[n + 1], sha, m.files[n]) ==>
      (FailsBelow(archive, codec, sha) <==> FileBelow(archive.entries[n + 1], m.files[n]))
  {
    FailsNoSooner(archive, codec, sha, m, n);
    hide ManifestFirst, FileBelow, FileListing, EndBelow, ManifestBelow;
    if n + 1 < |archive.entries| && FileBelow(archive.entries[n + 1], m.files[n]) {
      assert FailsBelowAt(archive, codec, sha, m, n);
    }
  }

  /** After the last file only the end is left. */
  lemma FailsAtEnd(archive: Archive, codec: Codec, sha: bytes -> string, m: Manifest)
    requires ManifestFirst(archive, codec, m) && ListingsMatch(archive, sha, m.files, |m.files|)
    ensures FailsBelow(archive, codec, sha) <==> EndBelow(archive, |m.files| + 1)
  {
    FailsNoSooner(archive, codec, sha, m, |m.files|);
    hide ManifestFirst, FileBelow, FileListing, EndBelow, ManifestBelow;
    if EndBelow(archive, |m.files| + 1) {
      assert FailsBelowAt(archive, codec, sha, m, |m.files|);
    }
  }

  // ----- failures that come too late -----

  /** The file's entry, of which every byte arrives before reading fails. */
  ghost predicate LateListing(listing: Listing, sha: bytes -> string, file: FileEntry) {
    && listing.Listed? && IsRegular(listing.entry, FilePath(file.sha256)) && listing.entry.size == file.size
    && FailsTooLate(listing.entry, file.size, file.sha256, sha)
  }

  /** The archive is in order up to the manifest's file `i`, which fails too late. */
  ghost predicate LateAt(archive: Archive, codec: Codec, sha: bytes -> string, m: Manifest, i: int) {
    && 0 <= i < |m.files| && ManifestFirst(archive, codec, m)
    && i + 1 < |archive.entries| && ListingsMatch(archive, sha, m.files, i)
    && LateListing(archive.entries[i + 1], sha, m.files[i])
  }

  ghost predicate ManifestFirst(archive: Archive, codec: Codec, m: Manifest) {
    archive.entries != [] && ManifestEntry(archive.entries[0], codec, m) && ValidManifest(m)
  }

  /** Importing the archive stops at a file that fails too late and whose content is new. */
  ghost predicate StrandsBlob(archive: Archive, codec: Codec, sha: bytes -> string, blobs: map<Id, Blob>) {
    exists m, i :: LateAt(archive, codec, sha, m, i) && !HoldsHash(blobs, m.files[i].sha256)
  }

  /** Entries whose reader stops at the declared size never fail too late. */
  lemma CleanArchiveStrandsNothing(archive: Archive, codec: Codec, sha: bytes -> string, blobs: map<Id, Blob>)
    requires EndsCleanly(archive)
    ensures !StrandsBlob(archive, codec, sha, blobs)
  {
    hide ManifestFirst, ListingsMatch, HoldsHash, IsRegular;
    forall m, i
      ensures !LateAt(archive, codec, sha, m, i)
    {
      if 0 <= i && i + 1 < |archive.entries| {
        CleanEntry(archive, i + 1);
      }
    }
  }

  lemma NoManifestStrandsNothing(archive: Archive, codec: Codec, sha: bytes -> string, blobs: map<Id, Blob>)
    requires forall m :: !ManifestFirst(archive, codec, m)
    ensures !StrandsBlob(archive, codec, sha, blobs)
  {
  }

  lemma ManifestUnique(archive: Archive, codec: Codec, m: Manifest)
    requires ManifestFirst(archive, codec, m)
    ensures forall other :: ManifestFirst(archive, codec, other) ==> other == m
  {
    hide ValidManifest;
  }

  /** Entries that are in order so far push the point of failure further back. */
  lemma LateIsLater(archive: Archive, codec: Codec, sha: bytes -> string, m: Manifest, n: nat)
    requires ListingsMatch(archive, sha, m.files, n)
    ensures forall i :: LateAt(archive, codec, sha, m, i) ==> n <= i
  {
    hide ManifestFirst, ValidManifest, IsRegular;
  }

  /** Nothing was stranded if all files are in order, or the next entry is missing. */
  lemma NothingStranded(
    archive: Archive, codec: Codec, sha: bytes -> string, m: Manifest, n: nat, blobs: map<Id, Blob>)
    requires ManifestFirst(archive, codec, m) && ListingsMatch(archive, sha, m.files, n)
    requires n == |m.files| || n + 1 >= |archive.entries|
    ensures !StrandsBlob(archive, codec, sha, blobs)
  {
    ManifestUnique(archive, codec, m);
    LateIsLater(archive, codec, sha, m, n);
    hide ManifestFirst, ListingsMatch, LateListing, HoldsHash;
  }

  /** At a file that is not in order, its entry alone tells whether its blob is stranded. */
  lemma StrandedHere(
    archive: Archive, codec: Codec, sha: bytes -> string, m: Manifest, n: nat, blobs: map<Id, Blob>)
    requires ManifestFirst(archive, codec, m) && ListingsMatch(archive, sha, m.files, n)
    requires n < |m.files| && n + 1 < |archive.entries|
    requires !FileListing(archive.entries[n + 1], sha, m.files[n])
    ensures StrandsBlob(archive, codec, sha, blobs)
      <==> LateListing(archive.entries[n + 1], sha, m.files[n]) && !HoldsHash(blobs, m.files[n].sha256)
  {
    ManifestUnique(archive, codec, m);
    LateIsLater(archive, codec, sha, m, n);
    LateIsNoLater(archive, codec, sha, m, n);
    hide ManifestFirst, LateListing, HoldsHash, FileListing;
    assert LateListing(archive.entries[n + 1], sha, m.files[n]) ==> LateAt(archive, codec, sha, m, n);
  }

  /** Nor can the point of failure lie behind a file that is not in order. */
  lemma LateIsNoLater(archive: Archive, codec: Codec, sha: bytes -> string, m: Manifest, n: nat)
    requires n < |m.files| && n + 1 < |archive.entries| && !FileListing(archive.entries[n + 1], sha, m.files[n])
    ensures forall i :: LateAt(archive, codec, sha, m, i) ==> i <= n
  {
    hide ManifestFirst, LateListing, FileListing;
  }

  /** What the job has stored so far has other hashes than the files still to come. */
  lemma HashHeldAlike(
    first: map<Id, Blob>, blobs: map<Id, Blob>, newlyCreated: seq<Id>, inputs: seq<FileInput>, files: seq<FileEntry>,
    i: nat)
    requires i < |files| && ValidFiles(files) && Progress(first, blobs, newlyCreated, inputs, files[..i])
    ensures HoldsHash(blobs, files[i].sha256) <==> HoldsHash(first, files[i].sha256)
  {
    hide ValidFiles;
    if HoldsHash(first, files[i].sha256) {
      var id :| id in first && first[id].sha256 == files[i].sha256;
      assert blobs[id] == first[id];
    }
    forall id | id in blobs && id !in first
      ensures blobs[id].sha256 != files[i].sha256
    {
      var k :| 0 <= k < |inputs| && inputs[k].id == id;
      OtherHash(files, k, i);
      assert files[..i][k] == files[k];
    }
    assert forall id :: id in first ==> blobs[id] == first[id];
  }

  lemma OtherHash(files: seq<FileEntry>, k: nat, i: nat)
    requires ValidFiles(files) && k < i < |files|
    ensures files[k].sha256 != files[i].sha256
  {
  }

  method ImportFile(store: Store, listing: Listing, file: FileEntry) returns (r: Result<CreatedFile, ImportError>)
    requires store.Valid() && IsSha256Hex(file.sha256) && file.size <= MAX_FILE_UPLOAD_BYTES
    modifies store`blobs
    ensures store.Valid()
    ensures r.Ok? ==> FileListing(listing, store.sha, file)
    ensures r.Ok? ==> r.value.id in store.blobs && store.blobs[r.value.id].sha256 == file.sha256
    ensures r.Ok? ==>
      GrownBy(old(store.blobs), store.blobs, if r.value.newlyCreated then {r.value.id} else {})
    ensures r.Err? && !(LateListing(listing, store.sha, file) && !HoldsHash(old(store.blobs), file.sha256)) ==>
      store.blobs == old(store.blobs)
    ensures r.Err? ==> Kept(old(store.blobs), store.blobs)
    ensures store.healthy && FileListing(listing, store.sha, file) ==> r.Ok?
    ensures store.healthy && LateListing(listing, store.sha, file) && !HoldsHash(old(store.blobs), file.sha256) ==>
      r.Err? && store.blobs.Keys != old(store.blobs).Keys
    ensures r.Err? ==>
      || r.error == (if FileBelow(listing, file) then DecryptFailed else BadArchive)
      || (r.error == Database(Internal) && !store.healthy && !FileBelow(listing, file))
  {
    hide HoldsHash;
    if listing.Unreadable? {
      return Err(ReadError(listing.failure));
    }
    var entry := listing.entry;
    if !IsRegular(entry, FilePath(file.sha256)) || entry.size != file.size {
      return Err(BadArchive);
    }
    var created := StreamFileToDatabase(store, entry, file.size, file.sha256);
    match created {
      case Ok(c) =>
        r := Ok(c);
      case Err(e) =>
        r := Err(match e
                 case EntryUnreadable => if entry.failure.Some? then ReadError(entry.failure.value) else BadArchive
                 case Db(BadRequest) => BadArchive
                 case Db(error) => Database(error));
    }
  }

  /**
   * Reads an archive into the store. `newlyCreated` lists the blobs that were not there
   * before, whether or not the archive turns out to be acceptable.
   */
  method ParseExport(store: Store, archive: Archive, codec: Codec)
    returns (r: Result<ItemRequest, ImportError>, newlyCreated: seq<Id>, ghost m: Manifest)
    requires store.Valid()
    modifies store`blobs
    ensures store.Valid()
    ensures r.Ok? ==>
      && Accepted(archive, codec, store.sha, m)
      && r.value.fields == m.fields && |r.value.files| == |m.files|
      && FilesStored(store.blobs, r.value.files, m.files)
      && IdSet(newlyCreated) <= InputIds(r.value.files)
    ensures r.Ok? || !StrandsBlob(archive, codec, store.sha, old(store.blobs)) ==>
      GrownBy(old(store.blobs), store.blobs, IdSet(newlyCreated))
    ensures store.healthy && StrandsBlob(archive, codec, store.sha, old(store.blobs)) ==>
      r.Err? && IdSet(newlyCreated) != store.blobs.Keys - old(store.blobs).Keys
    ensures Kept(old(store.blobs), store.blobs)
    ensures IdSet(newlyCreated) <= store.blobs.Keys - old(store.blobs).Keys
    ensures store.healthy && (exists accepted :: Accepted(archive, codec, store.sha, accepted)) ==> r.Ok?
    ensures r.Err? ==> ParseFails(archive, codec, store.sha, store.healthy, r.error)
  {
    hide FailsBelow, FileBelow, EndBelow, ManifestBelow;
    hide ValidManifest, ManifestEntry, FileListing, ProperEnd, Progress, GrownBy, Kept, FilesStored, InputIds,
      IsSha256Hex, StrandsBlob, LateListing, HoldsHash, ManifestFirst, ValidFiles;
    newlyCreated := [];
    m := Manifest("", 0, "", [], []);
    AcceptedUnfold(archive, codec, store.sha);
    ManifestFirstUnfold(archive, codec);
    ProgressStarts(store.blobs);
    ghost var first := store.blobs;
    var manifest := ReadManifest(archive, codec);
    if manifest.Err? {
      ProgressMeans(first, store.blobs, [], [], []);
      NoManifestStrandsNothing(archive, codec, store.sha, first);
      NoManifestBelow(archive, codec, store.sha);
      return Err(manifest.error), [], m;
    }
    m := manifest.value;
    ValidManifestFiles(m);
    var inputs: seq<FileInput> := [];
    for i := 0 to |manifest.value.files|
      invariant store.Valid() && |inputs| == i
      invariant Progress(first, store.blobs, newlyCreated, inputs, m.files[..i])
      invariant ListingsMatch(archive, store.sha, m.files, i)
    {
      ProgressMeans(first, store.blobs, newlyCreated, inputs, m.files[..i]);
      FailsHere(archive, codec, store.sha, m, i);
      if i + 1 >= |archive.entries| {
        NothingStranded(archive, codec, store.sha, m, i, first);
        return Err(BadArchive), newlyCreated, m;
      }
      var file := manifest.value.files[i];
      ghost var before := store.blobs;
      HashHeldAlike(first, before, newlyCreated, inputs, m.files, i);
      var created := ImportFile(store, archive.entries[i + 1], file);
      if created.Err? {
        FileInOrder(archive.entries[i + 1], store.sha, file);
        StoppedAt(archive, codec, store.sha, m, i, first, before, store.blobs, newlyCreated, store.healthy);
        return Err(created.error), newlyCreated, m;
      }
      assert m.files[..i + 1] == m.files[..i] + [file];
      ProgressStep(first, before, store.blobs, newlyCreated, inputs, m.files[..i], file, created.value);
      if created.value.newlyCreated {
        newlyCreated := newlyCreated + [created.value.id];
      }
      inputs := inputs + [FileInput(file.name, created.value.id)];
    }
    assert m.files[..|m.files|] == m.files;
    ProgressMeans(first, store.blobs, newlyCreated, inputs, m.files);
    NothingStranded(archive, codec, store.sha, m, |m.files|, first);
    FailsAtEnd(archive, codec, store.sha, m);
    EndBelowMeans(archive, |m.files| + 1);
    if |archive.entries| > |manifest.value.files| + 1 {
      var extra := archive.entries[|manifest.value.files| + 1];
      return Err(if extra.Unreadable? then ReadError(extra.failure) else BadArchive), newlyCreated, m;
    }
    var ended := CheckEnd(archive);
    r := if ended.Ok? then Ok(ItemRequest(manifest.value.fields, inputs)) else Err(ended.error);
  }

  /** The error of an archive that cannot be taken: whether everything was in order up to where decryption failed. */
  ghost predicate ParseFails(
    archive: Archive, codec: Codec, sha: bytes -> string, healthy: bool, error: ImportError)
  {
    if healthy then error == if FailsBelow(archive, codec, sha) then DecryptFailed else BadArchive
    else
      || error == BadArchive || error == Database(Internal)
      || (error == DecryptFailed && FailsBelow(archive, codec, sha))
  }

  lemma EndBelowMeans(archive: Archive, n: nat)
    ensures EndBelow(archive, n) <==>
      if n < |archive.entries| then archive.entries[n].Unreadable? && archive.entries[n].failure == AgeLayer
      else archive.tailFailure == Some(AgeLayer)
  {
  }

  lemma ManifestFirstUnfold(archive: Archive, codec: Codec)
    ensures forall m :: ManifestFirst(archive, codec, m) <==>
      && archive.entries != [] && archive.entries[0].Listed?
      && codec.decode(archive.entries[0].entry.data) == Some(m)
      && ManifestEntry(archive.entries[0], codec, m) && ValidManifest(m)
  {
    hide ValidManifest, ReadsAs;
  }

  /** What is left when the job stops at a file. */
  lemma StoppedAt(
    archive: Archive, codec: Codec, sha: bytes -> string, m: Manifest, i: nat,
    first: map<Id, Blob>, before: map<Id, Blob>, after: map<Id, Blob>, ids: seq<Id>, healthy: bool)
    requires ManifestFirst(archive, codec, m) && ListingsMatch(archive, sha, m.files, i)
    requires i < |m.files| && i + 1 < |archive.entries|
    requires GrownBy(first, before, IdSet(ids)) && Kept(before, after)
    requires HoldsHash(before, m.files[i].sha256) <==> HoldsHash(first, m.files[i].sha256)
    requires
      var late := LateListing(archive.entries[i + 1], sha, m.files[i]) && !HoldsHash(before, m.files[i].sha256);
      && (!late ==> after == before)
      && (healthy && late ==> after.Keys != before.Keys)
    requires healthy ==> !FileListing(archive.entries[i + 1], sha, m.files[i])
    ensures Kept(first, after) && IdSet(ids) <= after.Keys - first.Keys
    ensures !StrandsBlob(archive, codec, sha, first) ==> GrownBy(first, after, IdSet(ids))
    ensures healthy && StrandsBlob(archive, codec, sha, first) ==> IdSet(ids) != after.Keys - first.Keys
  {
    GrownKept(first, before, after, IdSet(ids));
    if !FileListing(archive.entries[i + 1], sha, m.files[i]) {
      StrandedHere(archive, codec, sha, m, i, first);
    } else {
      InOrderIsNotLate(archive.entries[i + 1], sha, m.files[i]);
    }
    hide StrandsBlob, LateListing, FileListing, HoldsHash, ManifestFirst, ListingsMatch;
  }

  lemma InOrderIsNotLate(listing: Listing, sha: bytes -> string, file: FileEntry)
    requires FileListing(listing, sha, file)
    ensures !LateListing(listing, sha, file)
  {
  }

  method CheckEnd(archive: Archive) returns (r: Result<(), ImportError>)
    ensures r.Ok? <==> ProperEnd(archive)
    ensures r.Err? ==> r.error == if archive.tailFailure == Some(AgeLayer) then DecryptFailed else BadArchive
  {
    var reader := new PieceReader(archive.tail, archive.tailFailure);
    r := ValidateTarTerminatorAndFinish(reader);
  }

  lemma ValidManifestFiles(m: Manifest)
    requires ValidManifest(m)
    ensures ValidFiles(m.files)
    ensures forall i :: 0 <= i < |m.files| ==>
      IsSha256Hex(m.files[i].sha256) && m.files[i].size <= MAX_FILE_UPLOAD_BYTES
  {
  }

  lemma CleanEntry(archive: Archive, i: nat)
    requires i < |archive.entries|
    ensures EndsCleanly(archive) && archive.entries[i].Listed? && archive.entries[i].entry.failure.Some? ==>
      |archive.entries[i].entry.data| < archive.entries[i].entry.size
  {
  }

  /** Acceptance in the order in which an archive is read. */
  lemma AcceptedUnfold(archive: Archive, codec: Codec, sha: bytes -> string)
    ensures forall m :: Accepted(archive, codec, sha, m) ==>
      && archive.entries != [] && archive.entries[0].Listed?
      && codec.decode(archive.entries[0].entry.data) == Some(m)
  {
  }

  lemma GrownKept(first: map<Id, Blob>, before: map<Id, Blob>, after: map<Id, Blob>, added: set<Id>)
    requires GrownBy(first, before, added) && Kept(before, after)
    ensures Kept(first, after) && added <= after.Keys - first.Keys
  {
  }

  /** Where the job stands after the given files: what it stored, and under which ids. */
  ghost predicate Progress(
    first: map<Id, Blob>, blobs: map<Id, Blob>, newlyCreated: seq<Id>, inputs: seq<FileInput>, files: seq<FileEntry>)
  {
    && GrownBy(first, blobs, IdSet(newlyCreated))
    && |inputs| == |files| && FilesStored(blobs, inputs, files)
    && IdSet(newlyCreated) <= InputIds(inputs)
  }

  lemma ProgressStarts(blobs: map<Id, Blob>)
    ensures Progress(blobs, blobs, [], [], [])
  {
  }

  lemma ProgressMeans(
    first: map<Id, Blob>, blobs: map<Id, Blob>, newlyCreated: seq<Id>, inputs: seq<FileInput>, files: seq<FileEntry>)
    requires Progress(first, blobs, newlyCreated, inputs, files)
    ensures GrownBy(first, blobs, IdSet(newlyCreated)) && FilesStored(blobs, inputs, files)
    ensures IdSet(newlyCreated) <= InputIds(inputs)
    ensures Kept(first, blobs) && IdSet(newlyCreated) <= blobs.Keys - first.Keys
  {
  }

  lemma ProgressStep(
    first: map<Id, Blob>, before: map<Id, Blob>, after: map<Id, Blob>, ids: seq<Id>, inputs: seq<FileInput>,
    files: seq<FileEntry>, file: FileEntry, created: CreatedFile)
    requires Progress(first, before, ids, inputs, files)
    requires GrownBy(before, after, if created.newlyCreated then {created.id} else {})
    requires created.id in after && after[created.id].sha256 == file.sha256
    ensures Progress(
      first, after, if created.newlyCreated then ids + [created.id] else ids,
      inputs + [FileInput(file.name, created.id)], files + [file])
  {
    GrownTwice(first, before, after, ids, created);
    InputIdsGrow(inputs, FileInput(file.name, created.id));
    var ids' := if created.newlyCreated then ids + [created.id] else ids;
    assert IdSet(ids') <= IdSet(ids) + {created.id};
    hide GrownBy, InputIds;
  }

  lemma GrownTwice(
    first: map<Id, Blob>, before: map<Id, Blob>, after: map<Id, Blob>, ids: seq<Id>, created: CreatedFile)
    requires GrownBy(first, before, IdSet(ids))
    requires GrownBy(before, after, if created.newlyCreated then {created.id} else {})
    ensures GrownBy(first, after, IdSet(if created.newlyCreated then ids + [created.id] else ids))
    ensures Kept(before, after)
  {
    assert IdSet(ids + [created.id]) == IdSet(ids) + {created.id};
  }

  // ----- the job -----

  /** Removes what a failed job had newly stored, as far as the store lets it. */
  method CleanupNewFiles(store: Store, ids: seq<Id>)
    requires store.Valid() && IdSet(ids) !! store.attached
    modifies store`blobs
    ensures store.Valid()
    ensures forall id :: id in old(store.blobs) && id !in ids ==>
      id in store.blobs && store.blobs[id] == old(store.blobs)[id]
    ensures store.blobs.Keys <= old(store.blobs).Keys
    ensures store.healthy || store.deletable ==> store.blobs == old(store.blobs) - IdSet(ids)
  {
    assert old(store.blobs) - IdSet(ids[..0]) == old(store.blobs);
    for i := 0 to |ids|
      invariant store.Valid()
      invariant store.blobs.Keys <= old(store.blobs).Keys
      invariant forall id :: id in old(store.blobs) && id !in ids ==>
        id in store.blobs && store.blobs[id] == old(store.blobs)[id]
      invariant store.healthy || store.deletable ==> store.blobs == old(store.blobs) - IdSet(ids[..i])
    {
      assert ids[i] in ids;
      assert IdSet(ids[..i + 1]) == IdSet(ids[..i]) + {ids[i]};
      var _ := store.DeleteUnattachedFile(ids[i]);
    }
    assert ids[..|ids|] == ids;
  }

  // ----- creating the item -----

  /** What the store asks of a manifest's names and one-time passwords beyond what import checks. */
  ghost predicate ContentsAdmitted(totp: TotpCheck, m: Manifest) {
    && (forall i :: 0 <= i < |m.fields| ==> FieldFits(totp, m.fields[i]))
    && (forall i :: 0 <= i < |m.files| ==> m.files[i].name != "")
  }

  /** The item can be created: a legal name, free in a writable directory, and contents the store admits. */
  ghost predicate Importable(store: Store, dir: string, item: string, m: Manifest)
    reads store
  {
    && ValidItemName(item) && store.Writable(dir) && (dir, item) !in store.items
    && ContentsAdmitted(store.totp, m)
  }

  /** The stored item has exactly the manifest's fields and files, by name. */
  ghost predicate ItemHolds(item: StoredItem, m: Manifest, blobs: map<Id, Blob>) {
    && item.fields == FieldsByName(m.fields)
    && item.files.Keys == Elements(FileNames(m.files))
    && forall i :: 0 <= i < |m.files| ==>
         && m.files[i].name in item.files && item.files[m.files[i].name] in blobs
         && blobs[item.files[m.files[i].name]].sha256 == m.files[i].sha256
  }

  lemma SameNames(inputs: seq<FileInput>, files: seq<FileEntry>, blobs: map<Id, Blob>)
    requires |inputs| == |files| && FilesStored(blobs, inputs, files)
    ensures InputNames(inputs) == FileNames(files)
  {
  }

  /** Distinct hashes are stored under distinct ids. */
  lemma DistinctIds(inputs: seq<FileInput>, files: seq<FileEntry>, blobs: map<Id, Blob>)
    requires |inputs| == |files| && FilesStored(blobs, inputs, files) && ValidFiles(files)
    ensures NoDuplicates(IdsOf(inputs))
  {
    forall i, j | 0 <= i < j < |inputs|
      ensures inputs[i].id != inputs[j].id
    {
      OtherHash(files, i, j);
    }
  }

  /** Of a request built from a valid manifest the store only has to check names and one-time passwords. */
  lemma RequestAdmitted(totp: TotpCheck, m: Manifest, inputs: seq<FileInput>, blobs: map<Id, Blob>)
    requires ValidManifest(m) && |inputs| == |m.files| && FilesStored(blobs, inputs, m.files)
    ensures Admitted(totp, ItemRequest(m.fields, inputs)) <==> ContentsAdmitted(totp, m)
  {
    SameNames(inputs, m.files, blobs);
    DistinctIds(inputs, m.files, blobs);
    ConcatNoDuplicates(FieldNames(m.fields), FileNames(m.files));
    assert forall i :: 0 <= i < |m.files| ==> inputs[i].name == m.files[i].name;
    hide NoDuplicates, Elements, ValidFiles, FieldFits;
  }

  lemma RequestHolds(m: Manifest, inputs: seq<FileInput>, blobs: map<Id, Blob>)
    requires ValidManifest(m) && |inputs| == |m.files| && FilesStored(blobs, inputs, m.files)
    ensures ItemHolds(Stored(ItemRequest(m.fields, inputs)), m, blobs)
    ensures InputIds(inputs) <= Stored(ItemRequest(m.fields, inputs)).files.Values
  {
    SameNames(inputs, m.files, blobs);
    ConcatNoDuplicates(FieldNames(m.fields), FileNames(m.files));
    FilesByNameMeans(inputs);
    hide NoDuplicates, Elements, ValidFiles, FieldsByName, FilesByName;
    var files := FilesByName(inputs);
    forall i | 0 <= i < |m.files|
      ensures m.files[i].name in files && files[m.files[i].name] == inputs[i].id
    {
      assert inputs[i].name in files;
    }
  }

  lemma RefusalOfImport(store: Store, dir: string, item: string, m: Manifest, inputs: seq<FileInput>)
    requires ValidManifest(m) && |inputs| == |m.files| && FilesStored(store.blobs, inputs, m.files)
    ensures store.Refusal(dir, item, ItemRequest(m.fields, inputs)).None? <==> Importable(store, dir, item, m)
  {
    RequestAdmitted(store.totp, m, inputs, store.blobs);
    hide Admitted, ContentsAdmitted, ValidItemName, ValidManifest;
  }

  /** The encrypted file: opaque to a wrong key, else an archive. */
  datatype Encrypted = Undecryptable | Decrypts(archive: Archive)

  /** A file that import can take as it is: decrypted, in order, and of an item that can be created. */
  ghost predicate Acceptable(store: Store, dir: string, item: string, file: Encrypted, codec: Codec, m: Manifest)
    reads store
  {
    file.Decrypts? && Accepted(file.archive, codec, store.sha, m) && Importable(store, dir, item, m)
  }

  /**
   * One import job. It either creates the item, with the manifest's fields and files, or
   * changes nothing: blobs it stored are gone again and blobs it only reused are still there.
   * On a store that works it creates the item exactly if archive and item are acceptable, and
   * otherwise restores the blobs exactly unless reading a new file failed after its last byte.
   */
  method RunImportJob(store: Store, dir: string, item: string, file: Encrypted, codec: Codec)
    returns (r: Result<(), ImportError>, ghost m: Manifest)
    requires store.Valid()
    modifies store
    ensures store.Valid()
    ensures r.Ok? ==>
      && old(Acceptable(store, dir, item, file, codec, m))
      && (dir, item) in store.items
      && store.items == old(store.items)[(dir, item) := store.items[(dir, item)]]
      && ItemHolds(store.items[(dir, item)], m, store.blobs)
      && Kept(old(store.blobs), store.blobs)
      && store.blobs.Keys <= old(store.blobs).Keys + store.items[(dir, item)].files.Values
    ensures r.Err? ==>
      && store.items == old(store.items) && store.attached == old(store.attached)
      && Kept(old(store.blobs), store.blobs)
    ensures
      r.Err? && (store.healthy || store.deletable)
      && (file.Decrypts? ==> !StrandsBlob(file.archive, codec, store.sha, old(store.blobs))) ==>
        store.blobs == old(store.blobs)
    ensures
      store.healthy && file.Decrypts? && StrandsBlob(file.archive, codec, store.sha, old(store.blobs)) ==>
        r.Err? && store.blobs != old(store.blobs)
    ensures store.healthy && (exists accepted :: old(Acceptable(store, dir, item, file, codec, accepted))) ==> r.Ok?
    ensures r.Err? && store.healthy ==> old(FailsWith(store, dir, item, file, codec, r.error))
    ensures r == Err(DecryptFailed) ==> old(FailsWith(store, dir, item, file, codec, DecryptFailed))
  {
    hide FailsBelow, RefusedWith;
    hide Accepted, StrandsBlob, ValidManifest, ContentsAdmitted, ItemHolds, InputIds, FilesStored, ValidItemName,
      GrownBy, Store.Refusal, Stored;
    if file.Undecryptable? {
      m := Manifest("", 0, "", [], []);
      return Err(DecryptFailed), m;
    }
    ghost var first := store.blobs;
    AcceptedManifestUnique(file.archive, codec, store.sha);
    var parsed, newlyCreated;
    parsed, newlyCreated, m := ParseExport(store, file.archive, codec);
    if parsed.Err? {
      ghost var grown := store.blobs;
      CleanupNewFiles(store, newlyCreated);
      if store.healthy || store.deletable {
        CleanedUp(first, grown, store.blobs, newlyCreated);
      }
      return Err(parsed.error), m;
    }
    AcceptedIsValid(file.archive, codec, store.sha, m);
    RefusalOfImport(store, dir, item, m, parsed.value.files);
    RequestHolds(m, parsed.value.files, store.blobs);
    RefusalIsSpelledOut(store, dir, item, m, parsed.value.files);
    var created := store.CreateItem(dir, item, parsed.value);
    if created.Err? {
      ghost var grown := store.blobs;
      CleanupNewFiles(store, newlyCreated);
      if store.healthy || store.deletable {
        CleanedUp(first, grown, store.blobs, newlyCreated);
      }
      return Err(Database(created.error)), m;
    }
    GrownUnfold(first, store.blobs, IdSet(newlyCreated));
    r := Ok(());
  }

  /** The error of a request made from a file that is in order: name, directory, item, and then contents. */
  ghost predicate RefusedWith(store: Store, dir: string, item: string, m: Manifest, error: DbError)
    reads store`items
  {
    if !ValidItemName(item) then error == BadRequest
    else if dir !in store.dirs then error == NotFound
    else if store.dirs[dir].system then error == AccessDenied
    else if (dir, item) in store.items then error == Conflict
    else error == BadRequest && !ContentsAdmitted(store.totp, m)
  }

  /**
   * The error of an import on a store that works. It is blamed on the decryption exactly if that
   * fails, at once or after a part that is in order; on the request if the archive is in order to
   * its end; and on the archive otherwise.
   */
  ghost predicate FailsWith(
    store: Store, dir: string, item: string, file: Encrypted, codec: Codec, error: ImportError)
    reads store`items
  {
    match error
    case DecryptFailed => file.Decrypts? ==> FailsBelow(file.archive, codec, store.sha)
    case Database(refusal) =>
      file.Decrypts? && exists m :: Accepted(file.archive, codec, store.sha, m) && RefusedWith(store, dir, item, m, refusal)
    case BadArchive =>
      && file.Decrypts? && !FailsBelow(file.archive, codec, store.sha)
      && forall m :: !Accepted(file.archive, codec, store.sha, m)
  }

  /** So the error is never ambiguous: an archive in order to its end is one whose decryption does not fail. */
  lemma AcceptedNotBelow(archive: Archive, codec: Codec, sha: bytes -> string, m: Manifest)
    requires Accepted(archive, codec, sha, m)
    ensures !FailsBelow(archive, codec, sha)
  {
    hide FailsBelow, ManifestEntry, FileListing, ValidManifest;
    FailsAtEnd(archive, codec, sha, m);
  }

  lemma RefusalIsSpelledOut(store: Store, dir: string, item: string, m: Manifest, inputs: seq<FileInput>)
    requires ValidManifest(m) && |inputs| == |m.files| && FilesStored(store.blobs, inputs, m.files)
    ensures forall e :: store.Refusal(dir, item, ItemRequest(m.fields, inputs)) == Some(e) ==>
      RefusedWith(store, dir, item, m, e)
  {
    RequestAdmitted(store.totp, m, inputs, store.blobs);
    hide Admitted, ContentsAdmitted, ValidItemName, ValidManifest;
  }

  lemma AcceptedManifestUnique(archive: Archive, codec: Codec, sha: bytes -> string)
    ensures forall a, b :: Accepted(archive, codec, sha, a) && Accepted(archive, codec, sha, b) ==> a == b
  {
    hide ValidManifest, ProperEnd, FileListing;
  }

  lemma AcceptedIsValid(archive: Archive, codec: Codec, sha: bytes -> string, m: Manifest)
    requires Accepted(archive, codec, sha, m)
    ensures ValidManifest(m)
  {
  }

  lemma GrownUnfold(before: map<Id, Blob>, after: map<Id, Blob>, added: set<Id>)
    requires GrownBy(before, after, added)
    ensures after.Keys == before.Keys + added && Kept(before, after)
  {
  }

  lemma CleanedUp(first: map<Id, Blob>, grown: map<Id, Blob>, after: map<Id, Blob>, ids: seq<Id>)
    requires Kept(first, grown) && IdSet(ids) <= grown.Keys - first.Keys && after == grown - IdSet(ids)
    ensures GrownBy(first, grown, IdSet(ids)) ==> after == first
    ensures IdSet(ids) != grown.Keys - first.Keys ==> after != first
  {
    if IdSet(ids) != grown.Keys - first.Keys {
      var id :| id in grown.Keys - first.Keys && id !in IdSet(ids);
      assert id in after && id !in first;
    }
  }

  /** A failure below the decryption is reported as one of it, any other as a bad archive. */
  lemma ReadErrorMeans(failure: ReadFailure)
    ensures ReadError(failure) == DecryptFailed <==> failure == AgeLayer
    ensures ReadError(failure) == BadArchive <==> failure == ArchiveLayer
  {
  }
}
