/** The growable buffer a chunk download fills (`MemoryBuffer` and
    `write_memory_callback`) and the body of one download thread
    (`download_chunk_thread`), in download_video.c. */
module MemoryBuffers {
  import opened Common

  /** An inclusive byte range [start, end] of the remote object. */
  datatype ByteRange = ByteRange(start: int, end: int)

  /** What one download thread leaves in its chunk: `success` and, on success,
      the buffer of `bytes_downloaded` bytes. */
  datatype ChunkOutcome = Fetched(data: seq<Byte>) | FetchFailed

  /** What the transfer library and the allocator do during one chunk download:
      whether the initial buffer and the transfer handle were obtained, the pieces of
      the response body in delivery order, whether a buffer enlargement can be
      allocated, and whether the transfer itself reports success. */
  datatype Transfer = Transfer(setupOk: bool, deliveries: seq<seq<Byte>>, growthAllocOk: bool, transportOk: bool)

  class MemoryBuffer {
    var data: array<Byte>
    var size: nat
    var capacity: nat

    ghost predicate Valid()
      reads this
    {
      capacity == data.Length && size <= capacity
    }

    /** Whether appending n more bytes exceeds the current capacity. */
    ghost predicate MustGrow(n: nat)
      reads this
    {
      size + n > capacity
    }

    constructor (initialCapacity: nat)
      ensures Valid() && fresh(data)
      ensures size == 0 && capacity == initialCapacity
    {
      data := new Byte[initialCapacity];
      size, capacity := 0, initialCapacity;
    }

    /** Appends the `itemSize * nmemb` bytes of `contents` and returns that count, or
        returns 0 (leaving the buffer as it was) when an enlargement is needed and the
        allocation fails. An enlargement takes a fresh block of
        max(2 * capacity, size + realsize) bytes and does not copy the bytes already
        received, so only the newly appended bytes are known afterwards. */
    method WriteMemoryCallback(contents: seq<Byte>, itemSize: nat, nmemb: nat, allocOk: bool) returns (accepted: nat)
      requires Valid() && |contents| == itemSize * nmemb
      modifies this, data
      ensures Valid()
      ensures old(MustGrow(|contents|)) && !allocOk ==>
        accepted == 0 && size == old(size) && capacity == old(capacity) &&
        data == old(data) && data[..] == old(data[..])
      ensures !(old(MustGrow(|contents|)) && !allocOk) ==>
        accepted == |contents| && size == old(size) + |contents| && data[old(size)..size] == contents
      ensures old(MustGrow(|contents|)) && allocOk ==>
        fresh(data) && capacity == Max(2 * old(capacity), old(size) + |contents|)
      ensures !old(MustGrow(|contents|)) ==>
        data == old(data) && capacity == old(capacity) && data[..old(size)] == old(data[..size])
    {
      var realsize := itemSize * nmemb;
      if size + realsize > capacity {
        var newCapacity := capacity * 2;
        if newCapacity < size + realsize {
          newCapacity := size + realsize;
        }
        if !allocOk {
          return 0;
        }
        data := new Byte[newCapacity];
        capacity := newCapacity;
      }
      Append(contents);
      accepted := realsize;
    }

    /** `memcpy(&data[size], contents, realsize)` and `size += realsize`, once the
        capacity suffices. */
    method Append(contents: seq<Byte>)
      requires Valid() && size + |contents| <= capacity
      modifies this, data
      ensures Valid() && data == old(data) && capacity == old(capacity)
      ensures size == old(size) + |contents|
      ensures data[old(size)..size] == contents && data[..old(size)] == old(data[..size])
    {
      forall k | 0 <= k < |contents| {
        data[size + k] := contents[k];
      }
      size := size + |contents|;
    }
  }

  /** Receiving piece i extends the bytes received so far by that piece, and never
      goes past the whole body. */
  lemma DeliveryStep(parts: seq<seq<Byte>>, i: nat)
    requires i < |parts|
    ensures Flatten(parts[..i + 1]) == Flatten(parts[..i]) + parts[i]
    ensures |Flatten(parts[..i + 1])| <= |Flatten(parts)|
  {
    FlattenStep(parts, i);
    FlattenPrefixGrows(parts, i + 1, |parts|);
    assert parts[..|parts|] == parts;
  }

  /** The number of bytes an inclusive range spans (0 for the empty range [s, s-1]). */
  function RangeLength(r: ByteRange): int { r.end - r.start + 1 }

  /** The buffer after the first i pieces of the body were accepted: it holds their
      total count and ends with the last of them; until it grows it is the original
      block and holds exactly those bytes; it grows only when enlargement can be
      allocated and the body is longer than the initial capacity. */
  ghost predicate Received(mem: MemoryBuffer, parts: seq<seq<Byte>>, i: nat, cap0: nat, grew: bool, allocOk: bool)
    reads mem, mem.data
  {
    i <= |parts| && mem.Valid() && mem.size == |Flatten(parts[..i])| &&
    (!grew ==> mem.capacity == cap0 && mem.data[..mem.size] == Flatten(parts[..i])) &&
    (grew ==> allocOk && |Flatten(parts)| > cap0) &&
    (0 < i ==> |parts[i - 1]| <= mem.size && mem.data[mem.size - |parts[i - 1]|..mem.size] == parts[i - 1])
  }

  /** One call of the write callback, for piece i. It is refused only when the buffer
      must grow and enlargement cannot be allocated, which happens only when the body
      is longer than the initial capacity. */
  method ReceivePiece(mem: MemoryBuffer, parts: seq<seq<Byte>>, i: nat, cap0: nat, ghost grew: bool, allocOk: bool)
    returns (accepted: bool, ghost grewAfter: bool)
    requires i < |parts| && Received(mem, parts, i, cap0, grew, allocOk)
    modifies mem, mem.data
    ensures mem.data == old(mem.data) || fresh(mem.data)
    ensures accepted ==> Received(mem, parts, i + 1, cap0, grewAfter, allocOk)
    ensures !accepted ==> !allocOk && |Flatten(parts)| > cap0
  {
    DeliveryStep(parts, i);
    ghost var before := mem.data[..mem.size];
    ghost var mustGrow := mem.MustGrow(|parts[i]|);
    var n := mem.WriteMemoryCallback(parts[i], 1, |parts[i]|, allocOk);
    accepted := n == |parts[i]|;
    grewAfter := grew || mustGrow;
    if accepted && !grewAfter {
      assert mem.data[..mem.size] == before + parts[i];
    }
  }

  /** One download thread: a buffer sized to the requested range receives the
      response body piece by piece; the transfer aborts when the callback refuses a
      piece. The chunk succeeds exactly when setup, every callback and the transfer
      succeed. When the server sends no more than the range's length (the buffer never
      grows) the chunk holds exactly the bytes received; otherwise only their count and
      the last piece are determined, because enlargement drops earlier bytes. */
  method DownloadChunkThread(range: ByteRange, transfer: Transfer) returns (outcome: ChunkOutcome)
    requires RangeLength(range) >= 0
    ensures outcome.Fetched? <==>
      transfer.setupOk && transfer.transportOk &&
      (transfer.growthAllocOk || |Flatten(transfer.deliveries)| <= RangeLength(range))
    ensures outcome.Fetched? ==> |outcome.data| == |Flatten(transfer.deliveries)|
    ensures outcome.Fetched? && |Flatten(transfer.deliveries)| <= RangeLength(range) ==>
      outcome.data == Flatten(transfer.deliveries)
    ensures outcome.Fetched? && transfer.deliveries != [] ==>
      var last := transfer.deliveries[|transfer.deliveries| - 1];
      |last| <= |outcome.data| && outcome.data[|outcome.data| - |last|..] == last
  {
    if !transfer.setupOk {
      return FetchFailed;
    }
    var parts := transfer.deliveries;
    var cap0: nat := RangeLength(range);
    var mem := new MemoryBuffer(cap0);
    var i := 0;
    var aborted := false;
    ghost var grew := false;
    assert parts[..0] == [];
    while i < |parts| && !aborted
      invariant 0 <= i <= |parts| && fresh(mem.data)
      invariant !aborted ==> Received(mem, parts, i, cap0, grew, transfer.growthAllocOk)
      invariant aborted ==> !transfer.growthAllocOk && |Flatten(parts)| > cap0
      decreases |parts| - i, if aborted then 0 else 1
    {
      var accepted;
      accepted, grew := ReceivePiece(mem, parts, i, cap0, grew, transfer.growthAllocOk);
      if accepted {
        i := i + 1;
      } else {
        aborted := true;
      }
    }
    if aborted || !transfer.transportOk {
      return FetchFailed;
    }
    assert parts[..i] == parts;
    outcome := Fetched(mem.data[..mem.size]);
  }
}
