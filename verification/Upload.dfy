/** Re-chunking an upload into fixed-size records on its way to the blob store. */
module Upload {
  import opened Wrappers
  import opened Bytes
  import opened ItemRequests
  import opened BlobStore

  /** The plain split of a body: records of full size, and what remains as the last one. */
  function Records(body: bytes): seq<bytes> {
    if body == [] then []
    else if |body| <= FILE_RECORD_PLAINTEXT_BYTES then [body]
    else [body[..FILE_RECORD_PLAINTEXT_BYTES]] + Records(body[FILE_RECORD_PLAINTEXT_BYTES..])
  }

  ghost predicate AllFull(records: seq<bytes>) {
    forall i :: 0 <= i < |records| ==> |records[i]| == FILE_RECORD_PLAINTEXT_BYTES
  }

  /** Full records, except for a last one that is not empty. */
  ghost predicate WellSplit(records: seq<bytes>) {
    records == [] ||
    (AllFull(records[..|records| - 1]) && 1 <= |records[|records| - 1]| <= FILE_RECORD_PLAINTEXT_BYTES)
  }

  lemma {:induction false} ConcatCons(first: bytes, rest: seq<bytes>)
    ensures Concat([first] + rest) == first + Concat(rest)
    decreases |rest|
  {
    if rest == [] {
      assert [first] + rest == [first] && [first][..0] == [];
    } else {
      assert ([first] + rest)[..|rest|] == [first] + rest[..|rest| - 1];
      ConcatCons(first, rest[..|rest| - 1]);
      Assoc(first, Concat(rest[..|rest| - 1]), rest[|rest| - 1]);
    }
  }

  lemma {:induction false} RecordsSplitBody(body: bytes)
    ensures Concat(Records(body)) == body && WellSplit(Records(body))
    ensures body != [] ==> Records(body) != []
  {
    if body == [] {
    } else if |body| <= FILE_RECORD_PLAINTEXT_BYTES {
      assert [body][..0] == [];
      assert [] + body == body;
    } else {
      var first, rest := body[..FILE_RECORD_PLAINTEXT_BYTES], body[FILE_RECORD_PLAINTEXT_BYTES..];
      RecordsSplitBody(rest);
      ConcatCons(first, Records(rest));
      assert body == first + rest;
      var records := Records(body);
      assert records[..|records| - 1] == [first] + Records(rest)[..|Records(rest)| - 1];
    }
  }

  /**
   * There is only one way to split a body into records, so records depend on the bytes alone
   * and not on how they were framed.
   */
  lemma {:induction false} SplitUnique(records: seq<bytes>)
    requires WellSplit(records)
    ensures records == Records(Concat(records))
    decreases |records|
  {
    if |records| == 1 {
      assert records[..0] == [];
      assert [] + records[0] == records[0];
    } else if |records| > 1 {
      var first, rest := records[0], records[1..];
      assert records == [first] + rest;
      ConcatCons(first, rest);
      assert first == records[..|records| - 1][0];
      assert rest[..|rest| - 1] == records[..|records| - 1][1..];
      SplitUnique(rest);
      ConcatNonEmpty(rest);
      var body := Concat(records);
      assert body[..FILE_RECORD_PLAINTEXT_BYTES] == first && body[FILE_RECORD_PLAINTEXT_BYTES..] == Concat(rest);
    }
  }

  lemma RecordsFit(body: bytes)
    ensures forall i :: 0 <= i < |Records(body)| ==> |Records(body)[i]| <= FILE_RECORD_PLAINTEXT_BYTES
  {
    RecordsSplitBody(body);
    var records := Records(body);
    forall i | 0 <= i < |records|
      ensures |records[i]| <= FILE_RECORD_PLAINTEXT_BYTES
    {
      if i < |records| - 1 {
        assert records[i] == records[..|records| - 1][i];
      }
    }
  }

  lemma ConcatNonEmpty(records: seq<bytes>)
    requires records != [] && records[|records| - 1] != []
    ensures Concat(records) != []
  {
  }

  /** The sending half of the channel to the store; the receiver may go away at any time. */
  class Sender {
    const connected: bool   // the receiver stays until the sender is done
    var sent: seq<bytes>

    constructor (connected: bool)
      ensures this.connected == connected && sent == []
    {
      this.connected, sent := connected, [];
    }

    method Send(record: bytes) returns (ok: bool)
      modifies this`sent
      ensures sent == if ok then old(sent) + [record] else old(sent)
      ensures connected ==> ok
    {
      ok := *;
      ok := ok || connected;
      if ok {
        sent := sent + [record];
      }
    }
  }

  /** Bytes already taken are the full records sent, followed by a buffer that is not full. */
  ghost predicate Buffered(sent: seq<bytes>, buffer: bytes, taken: bytes) {
    && AllFull(sent) && |buffer| < FILE_RECORD_PLAINTEXT_BYTES
    && Concat(sent) + buffer == taken
  }

  lemma {:induction false} BufferedSend(sent: seq<bytes>, buffer: bytes, taken: bytes, more: bytes)
    requires AllFull(sent) && Concat(sent) + buffer == taken
    requires |buffer + more| == FILE_RECORD_PLAINTEXT_BYTES
    ensures Buffered(sent + [buffer + more], [], taken + more)
  {
    assert (sent + [buffer + more])[..|sent|] == sent;
    Assoc(Concat(sent), buffer, more);
    assert Concat(sent) + (buffer + more) + [] == Concat(sent) + (buffer + more);
  }

  lemma BufferedFinish(sent: seq<bytes>, buffer: bytes, taken: bytes)
    requires Buffered(sent, buffer, taken)
    ensures (if buffer == [] then sent else sent + [buffer]) == Records(taken)
  {
    var records := if buffer == [] then sent else sent + [buffer];
    assert buffer != [] ==> records[..|records| - 1] == sent;
    assert Concat(records) == taken by {
      assert buffer == [] ==> Concat(sent) + buffer == Concat(sent);
    }
    SplitUnique(records);
  }

  method SendUploadBodyBytes(sender: Sender, buffer: bytes, chunk: bytes, ghost taken: bytes)
    returns (ok: bool, remainder: bytes)
    requires Buffered(sender.sent, buffer, taken)
    modifies sender`sent
    ensures ok ==> Buffered(sender.sent, remainder, taken + chunk)
    ensures sender.connected ==> ok
  {
    remainder := buffer;
    var rest := chunk;
    ghost var done: bytes := [];
    assert taken + done == taken && done + rest == chunk;
    while rest != []
      invariant done + rest == chunk
      invariant Buffered(sender.sent, remainder, taken + done)
      decreases |rest|
    {
      var room := FILE_RECORD_PLAINTEXT_BYTES - |remainder|;
      var take := if room < |rest| then room else |rest|;
      ghost var now := taken + done;
      Assoc(taken, done, rest[..take]);
      Assoc(done, rest[..take], rest[take..]);
      assert rest == rest[..take] + rest[take..];
      Assoc(Concat(sender.sent), remainder, rest[..take]);
      ghost var before := remainder;
      remainder := remainder + rest[..take];
      done := done + rest[..take];
      ghost var sentBefore := sender.sent;
      if |remainder| == FILE_RECORD_PLAINTEXT_BYTES {
        var delivered := sender.Send(remainder);
        if !delivered {
          return false, [];
        }
        BufferedSend(sentBefore, before, now, rest[..take]);
        remainder := [];
      }
      rest := rest[take..];
    }
    assert done == chunk;
    ok := true;
  }

  /** `Broken`: the body fails, or the client goes away. */
  datatype Frame = Data(data: bytes) | Trailers | Broken

  /** All the data carried by a list of frames. */
  function BodyOf(frames: seq<Frame>): bytes {
    if frames == [] then []
    else
      var last := frames[|frames| - 1];
      BodyOf(frames[..|frames| - 1]) + (if last.Data? then last.data else [])
  }

  lemma {:induction false} BodyGrows(frames: seq<Frame>, k: nat)
    requires k <= |frames|
    ensures |BodyOf(frames[..k])| <= |BodyOf(frames)|
    decreases |frames|
  {
    if k < |frames| {
      BodyGrows(frames[..|frames| - 1], k);
      assert frames[..|frames| - 1][..k] == frames[..k];
    } else {
      assert frames[..k] == frames;
    }
  }

  datatype UploadError = BadRequest | Internal

  /** Frames that arrive whole and add up to the announced, permitted size. */
  ghost predicate WellSent(frames: seq<Frame>, expectedSize: nat) {
    && (forall i :: 0 <= i < |frames| ==> !frames[i].Broken?)
    && |BodyOf(frames)| == expectedSize <= MAX_FILE_UPLOAD_BYTES
  }

  // ----- bodies that fail -----

  /** Reading the body fails at frame `k`: it is broken, or more than was announced. */
  ghost predicate FailsAt(frames: seq<Frame>, expectedSize: nat, k: int) {
    && 0 <= k < |frames|
    && (forall j :: 0 <= j < k ==> !frames[j].Broken?)
    && |BodyOf(frames[..k])| <= expectedSize
    && (frames[k].Broken? || |BodyOf(frames[..k + 1])| > expectedSize)
  }

  /** All that was announced has arrived in full records when the body fails, and it is new to the store. */
  ghost predicate StrandsBody(frames: seq<Frame>, expectedSize: nat, sha: bytes -> string, blobs: map<Id, Blob>) {
    exists k :: StrandsAt(frames, expectedSize, k, sha, blobs)
  }

  ghost predicate StrandsAt(frames: seq<Frame>, expectedSize: nat, k: int, sha: bytes -> string, blobs: map<Id, Blob>) {
    && FailsAt(frames, expectedSize, k)
    && |BodyOf(frames[..k])| == expectedSize <= MAX_FILE_UPLOAD_BYTES
    && expectedSize % FILE_RECORD_PLAINTEXT_BYTES == 0
    && !HoldsHash(blobs, sha(BodyOf(frames[..k])))
  }

  lemma {:induction false} BodiesGrow(frames: seq<Frame>, j: nat, k: nat)
    requires j <= k <= |frames|
    ensures |BodyOf(frames[..j])| <= |BodyOf(frames[..k])|
  {
    BodyGrows(frames[..k], j);
    assert frames[..k][..j] == frames[..j];
  }

  lemma FailsOnce(frames: seq<Frame>, expectedSize: nat, j: int, k: int)
    requires FailsAt(frames, expectedSize, j) && FailsAt(frames, expectedSize, k)
    ensures j == k
  {
    if j < k {
      BodiesGrow(frames, j + 1, k);
    } else if k < j {
      BodiesGrow(frames, k + 1, j);
    }
  }

  lemma FailingFrames(frames: seq<Frame>, expectedSize: nat, k: int)
    requires FailsAt(frames, expectedSize, k)
    ensures (exists i :: 0 <= i < |frames| && frames[i].Broken?) || |BodyOf(frames)| > expectedSize
  {
    BodyGrows(frames, k + 1);
  }

  lemma {:induction false} FullLength(records: seq<bytes>)
    requires AllFull(records)
    ensures |Concat(records)| == |records| * FILE_RECORD_PLAINTEXT_BYTES
  {
    if records != [] {
      FullLength(records[..|records| - 1]);
    }
  }

  /** The records sent before the failure are all that was announced exactly if nothing is left in the buffer. */
  lemma AllSentIff(sent: seq<bytes>, buffer: bytes, taken: bytes, expectedSize: nat)
    requires Buffered(sent, buffer, taken) && |taken| <= expectedSize
    ensures |Concat(sent)| == expectedSize
      <==> |taken| == expectedSize && expectedSize % FILE_RECORD_PLAINTEXT_BYTES == 0
    ensures |Concat(sent)| == expectedSize ==> Concat(sent) == taken
    ensures forall i :: 0 <= i < |sent| ==> |sent[i]| <= FILE_RECORD_PLAINTEXT_BYTES
  {
    FullLength(sent);
    hide Concat;
    assert |taken| == |sent| * FILE_RECORD_PLAINTEXT_BYTES + |buffer|;
    assert |Concat(sent)| == |taken| ==> Concat(sent) + [] == Concat(sent);
  }

  /**
   * Passes the body of an upload on to the store, record by record. On a failure `stopped` is the
   * frame that brought it about and `buffer` what was not sent yet.
   */
  method SendFrames(frames: seq<Frame>, expectedSize: nat, sender: Sender)
    returns (r: Result<(), UploadError>, ghost stopped: nat, ghost left: bytes)
    requires sender.sent == []
    modifies sender`sent
    ensures r.Ok? ==> sender.sent == Records(BodyOf(frames)) && |BodyOf(frames)| <= expectedSize
    ensures r.Ok? ==> forall i :: 0 <= i < |frames| ==> !frames[i].Broken?
    ensures r == Err(UploadError.BadRequest) ==>
      FailsAt(frames, expectedSize, stopped) && Buffered(sender.sent, left, BodyOf(frames[..stopped]))
    ensures r == Err(UploadError.BadRequest) ==> !WellSent(frames, expectedSize)
    ensures r.Err? && sender.connected ==> r.error.BadRequest?
    ensures sender.connected && WellSent(frames, expectedSize) ==> r.Ok?
  {
    hide Records;
    var received := 0;
    var buffer: bytes := [];
    stopped, left := 0, [];
    assert BodyOf(frames[..0]) == [];
    assert Buffered(sender.sent, buffer, []);
    hide Buffered;
    for i := 0 to |frames|
      invariant received == |BodyOf(frames[..i])| <= expectedSize
      invariant Buffered(sender.sent, buffer, BodyOf(frames[..i]))
      invariant forall k :: 0 <= k < i ==> !frames[k].Broken?
    {
      assert frames[..i + 1][..i] == frames[..i];
      BodyGrows(frames, i + 1);
      if frames[i].Broken? {
        return Err(UploadError.BadRequest), i, buffer;
      }
      if frames[i].Trailers? {
        assert BodyOf(frames[..i]) + [] == BodyOf(frames[..i]);
        continue;
      }
      received := received + |frames[i].data|;
      if received > expectedSize {
        return Err(UploadError.BadRequest), i, buffer;
      }
      var ok;
      ok, buffer := SendUploadBodyBytes(sender, buffer, frames[i].data, BodyOf(frames[..i]));
      if !ok {
        return Err(UploadError.Internal), i, buffer;
      }
    }
    assert frames[..|frames|] == frames;
    BufferedFinish(sender.sent, buffer, BodyOf(frames));
    if buffer != [] {
      var ok := sender.Send(buffer);
      if !ok {
        return Err(UploadError.Internal), |frames|, buffer;
      }
    }
    r := Ok(());
  }

  /** The only change a failed upload can make: the body up to the failure, as a new blob. */
  ghost predicate StrandedOnly(
    before: map<Id, Blob>, after: map<Id, Blob>, frames: seq<Frame>, expectedSize: nat, sha: bytes -> string)
  {
    exists k, id: Id ::
      && StrandsAt(frames, expectedSize, k, sha, before) && id !in before
      && after == before[id := Blob(sha(BodyOf(frames[..k])), BodyOf(frames[..k]))]
  }

  /**
   * What the store made of the records sent before the body failed.
   */
  lemma FailedBody(
    frames: seq<Frame>, expectedSize: nat, k: nat, sent: seq<bytes>, left: bytes, store: Store, before: map<Id, Blob>,
    r: Result<CreatedFile, DbError>)
    requires expectedSize <= MAX_FILE_UPLOAD_BYTES
    requires FailsAt(frames, expectedSize, k) && Buffered(sent, left, BodyOf(frames[..k]))
    requires r.Ok? ==> store.Storable(sent, expectedSize, None)
    requires r.Ok? ==> r.value.id in store.blobs && store.blobs[r.value.id].sha256 == store.sha(Concat(sent))
    requires r.Ok? && r.value.newlyCreated ==>
      && r.value.id !in before && !HoldsHash(before, store.sha(Concat(sent)))
      && store.blobs == before[r.value.id := Blob(store.sha(Concat(sent)), Concat(sent))]
    requires (r.Ok? && !r.value.newlyCreated) || r.Err? ==> store.blobs == before
    requires store.healthy && store.Storable(sent, expectedSize, None) ==> r.Ok?
    ensures store.blobs == before || StrandedOnly(before, store.blobs, frames, expectedSize, store.sha)
    ensures store.healthy && StrandsBody(frames, expectedSize, store.sha, before) ==> store.blobs.Keys != before.Keys
  {
    AllSentIff(sent, left, BodyOf(frames[..k]), expectedSize);
    forall j | FailsAt(frames, expectedSize, j)
      ensures j == k
    {
      FailsOnce(frames, expectedSize, j, k);
    }
    hide FailsAt, Buffered, Concat, BodyOf;
    if r.Ok? && r.value.newlyCreated {
      assert StrandsAt(frames, expectedSize, k, store.sha, before);
    }
    assert r.Ok? && r.value.newlyCreated ==> r.value.id in store.blobs.Keys;
    assert r.Ok? && !r.value.newlyCreated ==> HoldsHash(before, store.sha(Concat(sent)));
  }

  /** A failure that strands nothing changes nothing. */
  lemma StrandedOnlyIfStrands(
    before: map<Id, Blob>, after: map<Id, Blob>, frames: seq<Frame>, expectedSize: nat, sha: bytes -> string)
    requires StrandedOnly(before, after, frames, expectedSize, sha)
    ensures StrandsBody(frames, expectedSize, sha, before)
  {
    hide StrandsAt;
  }

  /**
   * Receives an upload. What reaches the store are the records of the whole body, whatever
   * its framing, and the stored blob is the body itself. It is accepted exactly when it
   * arrives whole, with the announced and permitted size, and nothing else breaks.
   *
   * The store works on its own: after a failure it still finishes with the records it got. So
   * a failed upload leaves a blob behind exactly if those were all that was announced, in full
   * records, and new.
   */
  method CreateFile(frames: seq<Frame>, expectedSize: nat, store: Store, sender: Sender)
    returns (r: Result<Id, UploadError>)
    requires store.Valid() && sender.sent == []
    modifies store`blobs, sender`sent
    ensures store.Valid()
    ensures r.Ok? ==>
      && WellSent(frames, expectedSize) && sender.sent == Records(BodyOf(frames))
      && r.value in store.blobs && store.blobs[r.value].sha256 == store.sha(BodyOf(frames))
      && if HoldsHash(old(store.blobs), store.sha(BodyOf(frames))) then store.blobs == old(store.blobs)
         else
           && r.value !in old(store.blobs)
           && store.blobs == old(store.blobs)[r.value := Blob(store.sha(BodyOf(frames)), BodyOf(frames))]
    ensures r.Err? ==>
      || store.blobs == old(store.blobs)
      || StrandedOnly(old(store.blobs), store.blobs, frames, expectedSize, store.sha)
    ensures r.Err? && !StrandsBody(frames, expectedSize, store.sha, old(store.blobs)) ==> store.blobs == old(store.blobs)
    ensures sender.connected && store.healthy && StrandsBody(frames, expectedSize, store.sha, old(store.blobs)) ==>
      r.Err? && store.blobs.Keys != old(store.blobs).Keys
    ensures sender.connected && store.healthy && WellSent(frames, expectedSize) ==> r.Ok?
    ensures r.Err? ==>
      if r.error.BadRequest? then !WellSent(frames, expectedSize) else !(sender.connected && store.healthy)
  {
    hide Records, Concat, BodyOf, FailsAt, Buffered, StrandsAt, StrandsBody, StrandedOnly;
    StrandingFrames(frames, expectedSize, store.sha, store.blobs);
    if expectedSize > MAX_FILE_UPLOAD_BYTES {
      return Err(UploadError.BadRequest);
    }
    ghost var before := store.blobs;
    var done;
    ghost var stopped, left;
    done, stopped, left := SendFrames(frames, expectedSize, sender);
    if done.Err? {
      if done.error.BadRequest? {
        var created := store.CreateFileFromChunks(sender.sent, expectedSize, None);
        FailedBody(frames, expectedSize, stopped, sender.sent, left, store, before, created);
        if StrandedOnly(before, store.blobs, frames, expectedSize, store.sha) {
          StrandedOnlyIfStrands(before, store.blobs, frames, expectedSize, store.sha);
        }
      }
      // Otherwise the store has given up before, or it would have taken the record.
      return Err(done.error);
    }
    RecordsSplitBody(BodyOf(frames));
    RecordsFit(BodyOf(frames));
    var created := store.CreateFileFromChunks(sender.sent, expectedSize, None);
    r := match created
      case Ok(file) => Ok(file.id)
      case Err(BadRequest) => Err(UploadError.BadRequest)
      case Err(_) => Err(UploadError.Internal);
  }

  lemma StrandingFrames(frames: seq<Frame>, expectedSize: nat, sha: bytes -> string, blobs: map<Id, Blob>)
    ensures StrandsBody(frames, expectedSize, sha, blobs) ==>
      && expectedSize <= MAX_FILE_UPLOAD_BYTES
      && ((exists i :: 0 <= i < |frames| && frames[i].Broken?) || |BodyOf(frames)| > expectedSize)
  {
    if StrandsBody(frames, expectedSize, sha, blobs) {
      var k :| StrandsAt(frames, expectedSize, k, sha, blobs);
      FailingFrames(frames, expectedSize, k);
    }
  }

  /** One full record of new content, announced as such, and then nothing but a failure or a byte too many. */
  lemma FullRecordStrands(record: bytes, last: Frame, sha: bytes -> string, blobs: map<Id, Blob>)
    requires |record| == FILE_RECORD_PLAINTEXT_BYTES && !HoldsHash(blobs, sha(record))
    requires last.Broken? || (last.Data? && last.data != [])
    ensures StrandsBody([Data(record), last], FILE_RECORD_PLAINTEXT_BYTES, sha, blobs)
  {
    var frames := [Data(record), last];
    assert frames[..1] == [Data(record)] && [Data(record)][..0] == [] && frames[..2] == frames;
    assert BodyOf([]) + record == record;
    assert BodyOf(frames[..1]) == record;
    assert StrandsAt(frames, FILE_RECORD_PLAINTEXT_BYTES, 1, sha, blobs);
  }

  /** A body whose reading ends with its last announced byte strands nothing. */
  lemma DelimitedBodyStrandsNothing(frames: seq<Frame>, expectedSize: nat, sha: bytes -> string, blobs: map<Id, Blob>)
    requires forall k :: 0 <= k < |frames| ==> |BodyOf(frames[..k])| < expectedSize
    ensures !StrandsBody(frames, expectedSize, sha, blobs)
  {
  }
}
