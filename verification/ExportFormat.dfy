/**
 * The export format: a tar archive of a manifest and the files it lists. Compression and
 * encryption are the identity, tar is a list of entries, JSON an abstract codec.
 */
module ExportFormat {
  import opened Wrappers
  import opened Bytes
  import opened Distinct
  import opened ItemRequests
  import opened BlobStore

  const EXPORT_FORMAT := "monopass-export"
  const EXPORT_VERSION: nat := 1
  const MANIFEST_PATH := "manifest.json"
  const MAX_MANIFEST_BYTES: nat := 16 * 1024 * 1024
  const TAR_BLOCK_BYTES: nat := 512

  /** Which layer a read failed in: a failure below decryption is reported as such. */
  datatype ReadFailure = AgeLayer | ArchiveLayer

  datatype EntryKind = Regular | OldRegular | OtherKind

  /** An entry, the bytes its reader delivers, and how reading ends. */
  datatype Entry = Entry(kind: EntryKind, path: string, size: nat, data: bytes, failure: Option<ReadFailure>)

  datatype Listing = Listed(entry: Entry) | Unreadable(failure: ReadFailure)

  /** The entries up to the first zero block, and the decompressed bytes after that block. */
  datatype Archive = Archive(entries: seq<Listing>, tail: bytes, tailFailure: Option<ReadFailure>)

  datatype FileEntry = FileEntry(name: string, sha256: string, size: nat)

  datatype Manifest =
    Manifest(format: string, version: nat, name: string, fields: seq<Field>, files: seq<FileEntry>)

  datatype Codec = Codec(encode: Manifest -> bytes, decode: bytes -> Option<Manifest>) {
    ghost predicate Faithful() {
      forall m :: decode(encode(m)) == Some(m)
    }
  }

  function FilePath(sha256: string): string {
    "files/" + sha256
  }

  function Zeros(n: nat): (z: bytes)
    ensures |z| == n && forall i :: 0 <= i < n ==> z[i] == 0
  {
    seq(n, _ => 0)
  }

  function FileNames(files: seq<FileEntry>): (names: seq<string>)
    ensures |names| == |files| && forall i :: 0 <= i < |files| ==> names[i] == files[i].name
  {
    seq(|files|, i requires 0 <= i < |files| => files[i].name)
  }

  ghost predicate ValidFiles(files: seq<FileEntry>) {
    && (forall i, j :: 0 <= i < j < |files| ==> files[i].sha256 != files[j].sha256)
    && (forall i :: 0 <= i < |files| ==> IsSha256Hex(files[i].sha256) && files[i].size <= MAX_FILE_UPLOAD_BYTES)
  }

  /** Field and file names are distinct from one another and hashes among themselves. */
  ghost predicate ValidContents(fields: seq<Field>, files: seq<FileEntry>) {
    NoDuplicates(FieldNames(fields) + FileNames(files)) && ValidFiles(files)
  }

  ghost predicate ValidManifest(m: Manifest) {
    m.format == EXPORT_FORMAT && m.version == EXPORT_VERSION && ValidContents(m.fields, m.files)
  }

  predicate IsRegular(entry: Entry, path: string) {
    (entry.kind == Regular || entry.kind == OldRegular) && entry.path == path
  }

  /** A regular entry of the given path that reads cleanly to its declared size. */
  predicate ReadsAs(listing: Listing, path: string, size: nat) {
    && listing.Listed? && IsRegular(listing.entry, path)
    && listing.entry.size == size == |listing.entry.data|
    && listing.entry.failure == None
  }

  ghost predicate ManifestEntry(listing: Listing, codec: Codec, m: Manifest) {
    && listing.Listed? && ReadsAs(listing, MANIFEST_PATH, |listing.entry.data|)
    && |listing.entry.data| <= MAX_MANIFEST_BYTES
    && codec.decode(listing.entry.data) == Some(m)
  }

  ghost predicate FileListing(listing: Listing, sha: bytes -> string, file: FileEntry) {
    && ReadsAs(listing, FilePath(file.sha256), file.size)
    && sha(listing.entry.data) == file.sha256
  }

  ghost predicate ProperEnd(archive: Archive) {
    archive.tailFailure == None && archive.tail == Zeros(TAR_BLOCK_BYTES)
  }

  /** An archive that import takes: exactly the manifest and its files, in order, properly ended. */
  ghost predicate Accepted(archive: Archive, codec: Codec, sha: bytes -> string, m: Manifest) {
    && |archive.entries| == 1 + |m.files|
    && ManifestEntry(archive.entries[0], codec, m)
    && ValidManifest(m)
    && (forall i :: 0 <= i < |m.files| ==> FileListing(archive.entries[i + 1], sha, m.files[i]))
    && ProperEnd(archive)
  }

  /** What the tar reader guarantees: reading fails only short of the declared size. */
  ghost predicate EndsCleanly(archive: Archive) {
    forall i :: 0 <= i < |archive.entries| && archive.entries[i].Listed? && archive.entries[i].entry.failure.Some? ==>
      |archive.entries[i].entry.data| < archive.entries[i].entry.size
  }

  /** The text renders the 32 bytes of a digest. */
  ghost predicate RendersDigest(s: string) {
    exists digest: bytes :: |digest| == 32 && HexOf(digest) == s
  }

  /**
   * A manifest is valid if and only if it has the format and version, no name occurs twice among
   * its fields and files, and its files have distinct hashes that render digests and sizes of at
   * most 2^32 - 1 records of 8 KiB.
   */
  lemma ValidManifestIff(m: Manifest)
    ensures ValidManifest(m) <==>
      && m.format == "monopass-export" && m.version == 1
      && NoDuplicates(FieldNames(m.fields)) && NoDuplicates(FileNames(m.files))
      && Elements(FieldNames(m.fields)) !! Elements(FileNames(m.files))
      && (forall i, j :: 0 <= i < j < |m.files| ==> m.files[i].sha256 != m.files[j].sha256)
      && (forall i :: 0 <= i < |m.files| ==>
            RendersDigest(m.files[i].sha256) && m.files[i].size <= 4294967295 * 8192)
  {
    forall i | 0 <= i < |m.files|
      ensures RendersDigest(m.files[i].sha256) <==> IsSha256Hex(m.files[i].sha256)
    {
      Sha256HexIff(m.files[i].sha256);
    }
    ConcatNoDuplicates(FieldNames(m.fields), FileNames(m.files));
    hide IsSha256Hex, RendersDigest, NoDuplicates, Elements;
  }

  /** The manifest entry: a regular file of that name, in the old or new style, of at most 16 MiB, read to its end. */
  lemma ManifestEntryIff(listing: Listing, codec: Codec, m: Manifest)
    ensures ManifestEntry(listing, codec, m) <==>
      && listing.Listed?
      && listing.entry.kind in [Regular, OldRegular] && listing.entry.path == "manifest.json"
      && listing.entry.size == |listing.entry.data| <= 16777216
      && listing.entry.failure == None
      && codec.decode(listing.entry.data) == Some(m)
  {
  }

  /** The entry of a file, likewise, under its hash. */
  lemma FileListingIff(listing: Listing, sha: bytes -> string, file: FileEntry)
    ensures FileListing(listing, sha, file) <==>
      && listing.Listed?
      && listing.entry.kind in [Regular, OldRegular] && listing.entry.path == "files/" + file.sha256
      && listing.entry.size == file.size == |listing.entry.data|
      && listing.entry.failure == None && sha(listing.entry.data) == file.sha256
  {
  }

  /** The end of an archive, after its first zero block: one more of 512 bytes, and nothing else. */
  lemma ProperEndIff(archive: Archive)
    ensures ProperEnd(archive) <==>
      && archive.tailFailure == None
      && |archive.tail| == 512 && forall i :: 0 <= i < 512 ==> archive.tail[i] == 0
  {
  }
}
