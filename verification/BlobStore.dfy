/**
 * The content-addressed store of file blobs: creation from a stream of chunks, deletion of
 * unattached blobs and attachment to items. SHA-256 is an uninterpreted function of the
 * content; encryption at rest is the identity.
 */
module BlobStore {
  import opened Wrappers
  import opened Bytes
  import opened ItemRequests

  const FILE_RECORD_PLAINTEXT_BYTES: nat := 8 * 1024
  const MAX_FILE_UPLOAD_BYTES: nat := 0xFFFF_FFFF * FILE_RECORD_PLAINTEXT_BYTES

  datatype Blob = Blob(sha256: string, data: bytes)

  datatype DbError = BadRequest | Conflict | NotFound | AccessDenied | Internal

  datatype CreatedFile = CreatedFile(id: Id, newlyCreated: bool)

  datatype Directory = Directory(system: bool)

  function Concat(chunks: seq<bytes>): bytes {
    if chunks == [] then [] else Concat(chunks[..|chunks| - 1]) + chunks[|chunks| - 1]
  }

  predicate IsSha256Hex(s: string) {
    |s| == 64 && forall i :: 0 <= i < |s| ==> '0' <= s[i] <= '9' || 'a' <= s[i] <= 'f'
  }

  // ----- hashes as text -----

  /** A digit below 16 in lower case. */
  function LowerHexDigit(n: nat): char
    requires n < 16
  {
    "0123456789abcdef"[n]
  }

  /** Two digits for each byte, the high one first. */
  function HexOf(b: bytes): string {
    if b == [] then "" else [LowerHexDigit(b[0] / 16), LowerHexDigit(b[0] % 16)] + HexOf(b[1..])
  }

  predicate IsLowerHex(c: char) {
    '0' <= c <= '9' || 'a' <= c <= 'f'
  }

  lemma DigitIsHex(n: nat)
    requires n < 16
    ensures IsLowerHex(LowerHexDigit(n))
  {
  }

  lemma HexIsDigit(c: char) returns (n: nat)
    requires IsLowerHex(c)
    ensures n < 16 && LowerHexDigit(n) == c
  {
    n := if c <= '9' then c as int - '0' as int else c as int - 'a' as int + 10;
  }

  lemma {:induction false} HexOfShape(b: bytes)
    ensures |HexOf(b)| == 2 * |b| && forall i :: 0 <= i < |HexOf(b)| ==> IsLowerHex(HexOf(b)[i])
  {
    hide LowerHexDigit, IsLowerHex;
    if b != [] {
      HexOfShape(b[1..]);
      DigitIsHex(b[0] / 16);
      DigitIsHex(b[0] % 16);
    }
  }

  lemma {:induction false} BytesOfHex(s: string) returns (b: bytes)
    requires |s| % 2 == 0 && forall i :: 0 <= i < |s| ==> IsLowerHex(s[i])
    ensures 2 * |b| == |s| && HexOf(b) == s
  {
    hide LowerHexDigit, IsLowerHex;
    b := [];
    if s != "" {
      var high := HexIsDigit(s[0]);
      var low := HexIsDigit(s[1]);
      var rest := BytesOfHex(s[2..]);
      var first: byte := high * 16 + low;
      assert first / 16 == high && first % 16 == low;
      b := [first] + rest;
      assert b[1..] == rest;
      assert s == [s[0], s[1]] + s[2..];
    }
  }

  /** The texts that pass for a SHA-256 are exactly the lower-case renderings of 32 bytes. */
  lemma Sha256HexIff(s: string)
    ensures IsSha256Hex(s) <==> exists b: bytes :: |b| == 32 && HexOf(b) == s
  {
    hide LowerHexDigit, HexOf;
    if IsSha256Hex(s) {
      var b := BytesOfHex(s);
    }
    forall b: bytes | |b| == 32 && HexOf(b) == s
      ensures IsSha256Hex(s)
    {
      HexOfShape(b);
    }
  }

  lemma {:induction false} UnusedId(ids: set<Id>) returns (id: Id)
    ensures forall x :: x in ids ==> x < id
  {
    if ids == {} {
      id := 0;
    } else {
      var some :| some in ids;
      var below := UnusedId(ids - {some});
      id := if some < below then below else some + 1;
      assert forall x :: x in ids ==> x == some || x in ids - {some};
    }
  }

  ghost predicate HoldsHash(blobs: map<Id, Blob>, sha256: string) {
    exists id :: id in blobs && blobs[id].sha256 == sha256
  }

  /** Hashes are genuine and unique, as the UNIQUE constraint demands. */
  ghost predicate Coherent(sha: bytes -> string, blobs: map<Id, Blob>) {
    && (forall id :: id in blobs ==> blobs[id].sha256 == sha(blobs[id].data))
    && (forall a, b :: a in blobs && b in blobs && blobs[a].sha256 == blobs[b].sha256 ==> a == b)
  }

  class Store {
    const sha: bytes -> string
    const totp: TotpCheck
    const dirs: map<string, Directory>
    const healthy: bool               // the database and disk never fail on their own
    const deletable: bool             // deletions in particular never do
    var blobs: map<Id, Blob>
    var attached: set<Id>
    var items: map<(string, string), StoredItem>

    constructor (
      sha: bytes -> string, totp: TotpCheck, dirs: map<string, Directory>, healthy: bool, deletable: bool)
      ensures this.sha == sha && this.totp == totp && this.dirs == dirs && this.healthy == healthy && this.deletable == deletable
      ensures blobs == map[] && items == map[] && Valid()
    {
      this.sha, this.totp, this.dirs, this.healthy, this.deletable := sha, totp, dirs, healthy, deletable;
      blobs, attached, items := map[], {}, map[];
    }

    ghost predicate Valid()
      reads this
    {
      Coherent(sha, blobs) && attached <= blobs.Keys
    }

    method FailsNow() returns (fails: bool)
      ensures healthy ==> !fails
    {
      fails := *;
      fails := fails && !healthy;
    }

    method FindBySha256(sha256: string) returns (found: Option<Id>)
      ensures found.Some? ==> found.value in blobs && blobs[found.value].sha256 == sha256
      ensures found.None? ==> !HoldsHash(blobs, sha256)
    {
      var ids := blobs.Keys;
      while ids != {}
        invariant ids <= blobs.Keys
        invariant forall id :: id in blobs.Keys - ids ==> blobs[id].sha256 != sha256
        decreases |ids|
      {
        var id :| id in ids;
        if blobs[id].sha256 == sha256 {
          return Some(id);
        }
        ids := ids - {id};
      }
      found := None;
    }

    /** What a consumer of `chunks` does: the chunks are valid, add up to the size, and match the hash. */
    ghost predicate Storable(chunks: seq<bytes>, size: nat, sha256: Option<string>) {
      && size <= MAX_FILE_UPLOAD_BYTES
      && (forall i :: 0 <= i < |chunks| ==> |chunks[i]| <= FILE_RECORD_PLAINTEXT_BYTES)
      && |Concat(chunks)| == size
      && (sha256.Some? ==> IsSha256Hex(sha256.value) && sha256.value == sha(Concat(chunks)))
    }

    /** Collects the chunks, giving up as soon as one is too large or their sum is. */
    static method ReceiveChunks(chunks: seq<bytes>, expectedSize: nat) returns (r: Result<bytes, DbError>)
      ensures r ==
        if (forall i :: 0 <= i < |chunks| ==> |chunks[i]| <= FILE_RECORD_PLAINTEXT_BYTES)
           && |Concat(chunks)| == expectedSize
        then Ok(Concat(chunks)) else Err(BadRequest)
    {
      var data: bytes := [];
      for i := 0 to |chunks|
        invariant data == Concat(chunks[..i]) && |data| <= expectedSize
        invariant forall k :: 0 <= k < i ==> |chunks[k]| <= FILE_RECORD_PLAINTEXT_BYTES
      {
        assert chunks[..i + 1][..i] == chunks[..i];
        ConcatGrows(chunks, i + 1);
        if |chunks[i]| > FILE_RECORD_PLAINTEXT_BYTES {
          return Err(BadRequest);
        }
        if |data| + |chunks[i]| > expectedSize {
          return Err(BadRequest);
        }
        data := data + chunks[i];
      }
      assert chunks[..|chunks|] == chunks;
      r := if |data| == expectedSize then Ok(data) else Err(BadRequest);
    }

    /**
     * Stores a stream of chunks under its hash. A blob of the same content is reused; a stream
     * of the wrong size or hash is rejected and leaves the store as it was.
     */
    method CreateFileFromChunks(chunks: seq<bytes>, expectedSize: nat, expectedSha256: Option<string>)
      returns (r: Result<CreatedFile, DbError>)
      requires Valid()
      modifies this`blobs
      ensures Valid()
      ensures r.Ok? ==> Storable(chunks, expectedSize, expectedSha256)
      ensures r.Ok? ==> r.value.id in blobs && blobs[r.value.id].sha256 == sha(Concat(chunks))
      ensures r.Ok? && r.value.newlyCreated ==>
        && r.value.id !in old(blobs) && !HoldsHash(old(blobs), sha(Concat(chunks)))
        && blobs == old(blobs)[r.value.id := Blob(sha(Concat(chunks)), Concat(chunks))]
      ensures r.Ok? && !r.value.newlyCreated ==> blobs == old(blobs)
      ensures r.Err? ==> blobs == old(blobs)
      ensures r.Err? ==>
        if r.error == BadRequest then !Storable(chunks, expectedSize, expectedSha256)
        else r.error == Internal && !healthy
      ensures healthy && Storable(chunks, expectedSize, expectedSha256) ==> r.Ok?
    {
      if expectedSize > MAX_FILE_UPLOAD_BYTES {
        return Err(BadRequest);
      }
      if expectedSha256.Some? && !IsSha256Hex(expectedSha256.value) {
        return Err(BadRequest);
      }
      var broken := FailsNow();
      if broken {
        return Err(Internal);
      }
      var received := ReceiveChunks(chunks, expectedSize);
      if received.Err? {
        return Err(received.error);
      }
      var data := received.value;
      var sha256 := sha(data);
      if expectedSha256.Some? && expectedSha256.value != sha256 {
        return Err(BadRequest);
      }
      var existing := FindBySha256(sha256);
      if existing.Some? {
        return Ok(CreatedFile(existing.value, false));
      }
      broken := FailsNow();
      if broken {
        return Err(Internal);
      }
      ghost var unused := UnusedId(blobs.Keys);
      assert unused !in blobs;
      var id: Id :| id !in blobs;
      blobs := blobs[id := Blob(sha256, data)];
      r := Ok(CreatedFile(id, true));
    }

    /** Deletes a blob unless an item uses it. `ok` tells whether the store could do its part. */
    method DeleteUnattachedFile(id: Id) returns (ok: bool)
      requires Valid()
      modifies this`blobs
      ensures Valid()
      ensures blobs == if ok && id !in attached then old(blobs) - {id} else old(blobs)
      ensures healthy || deletable ==> ok
    {
      var broken := FailsNow();
      ok := deletable || !broken;
      if ok && id !in attached {
        blobs := blobs - {id};
      }
    }

    predicate Writable(dir: string) {
      dir in dirs && !dirs[dir].system
    }

    /** Why a request to create an item is refused by a store that works, if it is. */
    ghost function Refusal(dir: string, item: string, request: ItemRequest): Option<DbError>
      reads this
    {
      if !ValidItemName(item) then Some(BadRequest)
      else if dir !in dirs then Some(NotFound)
      else if dirs[dir].system then Some(AccessDenied)
      else if (dir, item) in items then Some(Conflict)
      else if !Admitted(totp, request) then Some(BadRequest)
      else if exists i :: 0 <= i < |request.files| && request.files[i].id !in blobs then Some(BadRequest)
      else None
    }

    /** Creates an item and attaches its files; any failure leaves the store as it was. */
    method CreateItem(dir: string, item: string, request: ItemRequest) returns (r: Result<(), DbError>)
      requires Valid()
      modifies this`items, this`attached
      ensures Valid()
      ensures r.Ok? ==>
        && old(Refusal(dir, item, request)).None?
        && items == old(items)[(dir, item) := Stored(request)]
        && attached == old(attached) + set i | 0 <= i < |request.files| :: request.files[i].id
      ensures r.Err? ==> items == old(items) && attached == old(attached)
      ensures healthy ==>
        match old(Refusal(dir, item, request))
        case None => r.Ok?
        case Some(e) => r == Err(e)
      ensures r.Err? ==> old(Refusal(dir, item, request)) == Some(r.error) || (r.error == Internal && !healthy)
    {
      hide Admitted, Stored, ValidItemName, Coherent;
      if !ValidItemName(item) {
        return Err(BadRequest);
      }
      var broken := FailsNow();
      if broken {
        return Err(Internal);
      }
      if dir !in dirs {
        return Err(NotFound);
      }
      if dirs[dir].system {
        return Err(AccessDenied);
      }
      if (dir, item) in items {
        return Err(Conflict);
      }
      var merged := MergeRequest(totp, request);
      if merged.None? {
        return Err(BadRequest);
      }
      if exists i :: 0 <= i < |request.files| && request.files[i].id !in blobs {
        return Err(BadRequest);
      }
      broken := FailsNow();
      if broken {
        return Err(Internal);
      }
      items := items[(dir, item) := merged.value];
      attached := attached + set i | 0 <= i < |request.files| :: request.files[i].id;
      r := Ok(());
    }
  }

  lemma {:induction false} ConcatGrows(chunks: seq<bytes>, k: nat)
    requires k <= |chunks|
    ensures |Concat(chunks[..k])| <= |Concat(chunks)|
    decreases |chunks|
  {
    if k < |chunks| {
      ConcatGrows(chunks[..|chunks| - 1], k);
      assert chunks[..|chunks| - 1][..k] == chunks[..k];
    } else {
      assert chunks[..k] == chunks;
    }
  }
}
