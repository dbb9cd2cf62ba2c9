/** Sharing an item: what import rebuilds from the archive that export wrote. */
module TransferRoundTrip {
  import opened Wrappers
  import opened Bytes
  import opened ItemRequests
  import opened Distinct
  import opened BlobStore
  import opened ExportFormat
  import opened ImportJob
  import ExportJob

  ghost predicate CollisionFree(sha: bytes -> string) {
    forall x, y :: sha(x) == sha(y) ==> x == y
  }

  /** The archive of an export never strands a blob: none of its entries fails. */
  lemma ExportStrandsNothing(snapshot: ExportJob.Snapshot, codec: Codec, sha: bytes -> string, blobs: map<Id, Blob>)
    ensures !StrandsBlob(ExportJob.ArchiveOf(snapshot, codec), codec, sha, blobs)
  {
    hide LateAt, HoldsHash;
    var archive := ExportJob.ArchiveOf(snapshot, codec);
    forall i | 0 <= i < |archive.entries|
      ensures archive.entries[i].entry.failure == None
    {
      if i > 0 {
        assert archive.entries[i] == ExportJob.FileListings(snapshot.files)[i - 1];
      }
    }
    CleanArchiveStrandsNothing(archive, codec, sha, blobs);
  }

  /** The fields of the snapshot as the store keeps them, and its files with the bytes that were streamed. */
  ghost predicate Reproduces(item: StoredItem, snapshot: ExportJob.Snapshot, blobs: map<Id, Blob>) {
    && item.fields.Keys == Elements(FieldNames(snapshot.fields))
    && (forall i :: 0 <= i < |snapshot.fields| ==>
          && snapshot.fields[i].name in item.fields
          && item.fields[snapshot.fields[i].name] == Normalized(snapshot.fields[i]))
    && item.files.Keys == Elements(FileNames(ExportJob.RowsOf(snapshot.files)))
    && (forall k :: 0 <= k < |snapshot.files| ==>
          && snapshot.files[k].name in item.files && item.files[snapshot.files[k].name] in blobs
          && blobs[item.files[snapshot.files[k].name]].data == ExportJob.Delivered(snapshot.files[k].chunks))
  }

  lemma HeldIsReproduced(
    item: StoredItem, snapshot: ExportJob.Snapshot, codec: Codec, sha: bytes -> string, blobs: map<Id, Blob>)
    requires CollisionFree(sha) && Coherent(sha, blobs) && ExportJob.ExportableSnapshot(snapshot, codec, sha)
    requires ValidContents(snapshot.fields, ExportJob.RowsOf(snapshot.files))
    requires ItemHolds(item, ExportJob.ManifestOf(snapshot), blobs)
    ensures Reproduces(item, snapshot, blobs)
  {
    hide CollisionFree, NoDuplicates, Elements, ValidFiles, Normalized;
    var m := ExportJob.ManifestOf(snapshot);
    FieldsByNameMeans(snapshot.fields);
    ConcatNoDuplicates(FieldNames(snapshot.fields), FileNames(m.files));
    forall k | 0 <= k < |snapshot.files|
      ensures snapshot.files[k].name in item.files && item.files[snapshot.files[k].name] in blobs
      ensures blobs[item.files[snapshot.files[k].name]].data == ExportJob.Delivered(snapshot.files[k].chunks)
    {
      assert m.files[k].name == snapshot.files[k].name;
      var blob := blobs[item.files[snapshot.files[k].name]];
      assert ExportJob.Exportable(snapshot.files[k], sha);
      SameHashSameBytes(sha, blob.data, ExportJob.Delivered(snapshot.files[k].chunks));
    }
  }

  lemma SameHashSameBytes(sha: bytes -> string, a: bytes, b: bytes)
    requires CollisionFree(sha) && sha(a) == sha(b)
    ensures a == b
  {
  }

  /**
   * Exporting an item and importing it into a store that works. If names and one-time
   * passwords are what that store admits, and the item's name is legal and free in a writable
   * directory, the item is there afterwards with the same fields and the same bytes; otherwise
   * everything is as before.
   */
  method ExportThenImport(
    snapshot: ExportJob.Snapshot, codec: Codec, store: Store, dir: string, item: string)
    returns (r: Result<(), ImportError>)
    requires codec.Faithful() && CollisionFree(store.sha) && ExportJob.ExportableSnapshot(snapshot, codec, store.sha)
    requires ValidContents(snapshot.fields, ExportJob.RowsOf(snapshot.files))
    requires store.Valid() && store.healthy
    modifies store
    ensures r.Ok? <==> old(Importable(store, dir, item, ExportJob.ManifestOf(snapshot)))
    ensures r.Ok? ==> (dir, item) in store.items && Reproduces(store.items[(dir, item)], snapshot, store.blobs)
    ensures r.Err? ==> store.items == old(store.items) && store.blobs == old(store.blobs)
  {
    hide Accepted, ValidContents, ItemHolds, CollisionFree, Coherent, StrandsBlob, Importable, Reproduces;
    ExportJob.ExportIsAccepted(snapshot, codec, store.sha);
    var exported := ExportJob.StreamExport(snapshot, codec, store.sha);
    var archive := exported.value;
    AcceptedManifestUnique(archive, codec, store.sha);
    ExportStrandsNothing(snapshot, codec, store.sha, store.blobs);
    ghost var manifest := ExportJob.ManifestOf(snapshot);
    assert Importable(store, dir, item, manifest) <==> Acceptable(store, dir, item, Decrypts(archive), codec, manifest);
    ghost var m;
    r, m := RunImportJob(store, dir, item, Decrypts(archive), codec);
    if r.Ok? {
      HeldIsReproduced(store.items[(dir, item)], snapshot, codec, store.sha, store.blobs);
    }
  }
}
