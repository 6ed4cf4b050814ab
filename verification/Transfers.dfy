/** Chunked file transfers: what sendChunks cuts and what ReceiveChunk puts together. */
module Transfers {
  import opened Permutations
  import opened BinaryCodec

  datatype State = Pending | Active | Completed | Failed

  /** An upload, and what it handed to the storage over time. */
  datatype Upload = Upload(
    totalChunks: int,
    state: State,
    chunks: map<int, Bytes>,
    progress: int,
    stored: seq<Bytes>)

  /** A chunk that arrives, and whether the storage would accept a file at that moment. */
  datatype Delivery = Delivery(index: int, data: Bytes, storable: bool)

  /** Go's integer division, which truncates toward zero. */
  function Quotient(a: int, b: int): int
    requires b > 0
  {
    if a >= 0 then a / b else -(-a / b)
  }

  function ChunkCount(size: int, chunkSize: int): int
    requires chunkSize > 0
  {
    Quotient(size + chunkSize - 1, chunkSize)
  }

  function NewUpload(size: int, chunkSize: int): Upload
    requires chunkSize > 0
  {
    Upload(ChunkCount(size, chunkSize), Pending, map[], 0, [])
  }

  predicate HasAll(chunks: map<int, Bytes>, n: int) {
    forall i :: 0 <= i < n ==> i in chunks
  }

  /** The chunks below n, joined in order. */
  function Assemble(chunks: map<int, Bytes>, n: nat): Bytes
    requires HasAll(chunks, n)
  {
    if n == 0 then [] else Assemble(chunks, n - 1) + chunks[n - 1]
  }

  /** completeTransfer: a missing chunk or an error of the storage fails the upload. */
  function Complete(u: Upload, storable: bool): Upload {
    if !HasAll(u.chunks, u.totalChunks) || !storable then u.(state := Failed)
    else u.(state := Completed, chunks := map[],
            stored := u.stored + [if u.totalChunks < 0 then [] else Assemble(u.chunks, u.totalChunks)])
  }

  predicate Open(u: Upload) {
    u.state == Pending || u.state == Active
  }

  /** ReceiveChunk: a closed transfer rejects the chunk, a known index is overwritten. */
  function Receive(u: Upload, d: Delivery): Upload {
    if !Open(u) then u
    else
      var v := u.(state := Active, chunks := u.chunks[d.index := d.data], progress := u.progress + |d.data|);
      if |v.chunks| == v.totalChunks then Complete(v, d.storable) else v
  }

  function ReceiveAll(u: Upload, deliveries: seq<Delivery>): Upload {
    if deliveries == [] then u
    else Receive(ReceiveAll(u, deliveries[..|deliveries| - 1]), deliveries[|deliveries| - 1])
  }

  // ---------------------------------------------------------------------
  // Any deliveries
  // ---------------------------------------------------------------------

  /** The last data seen for each index, until n different indices have been seen. */
  function Gathered(deliveries: seq<Delivery>, n: int): map<int, Bytes> {
    if deliveries == [] then map[]
    else
      var last := |deliveries| - 1;
      var before := Gathered(deliveries[..last], n);
      if n > 0 && |before| == n then before else before[deliveries[last].index := deliveries[last].data]
  }

  /** The bytes of the deliveries that arrived before the upload was closed, repeats included. */
  function BytesUntilClosed(deliveries: seq<Delivery>, n: int): nat {
    if deliveries == [] then 0
    else
      var last := |deliveries| - 1;
      BytesUntilClosed(deliveries[..last], n)
      + if n > 0 && |Gathered(deliveries[..last], n)| == n then 0 else |deliveries[last].data|
  }

  /** Whether the storage accepts at the delivery that closes the upload. */
  predicate StorageAccepts(deliveries: seq<Delivery>, n: int) {
    if deliveries == [] then false
    else
      var last := |deliveries| - 1;
      if n > 0 && |Gathered(deliveries[..last], n)| == n then StorageAccepts(deliveries[..last], n)
      else deliveries[last].storable
  }

  lemma {:induction false} GatheredIsBounded(deliveries: seq<Delivery>, n: int)
    ensures n > 0 ==> |Gathered(deliveries, n)| <= n
  {
    if deliveries != [] {
      var last := |deliveries| - 1;
      GatheredIsBounded(deliveries[..last], n);
      var before, index := Gathered(deliveries[..last], n), deliveries[last].index;
      assert before[index := deliveries[last].data].Keys == before.Keys + {index};
    }
  }

  /** What an upload of n chunks makes of arbitrary deliveries, in any order, with repeats
      and stray indices: it stays open until n different indices have arrived. Then, if they
      are the right ones and the storage accepts, it stores what was gathered, once; otherwise
      it fails and stores nothing. After that nothing changes it. */
  lemma {:induction false} UploadFollowsDeliveries(size: int, chunkSize: int, deliveries: seq<Delivery>)
    requires chunkSize > 0 && ChunkCount(size, chunkSize) > 0
    ensures var n := ChunkCount(size, chunkSize);
            var u, gathered := ReceiveAll(NewUpload(size, chunkSize), deliveries), Gathered(deliveries, n);
      && |gathered| <= n && u.totalChunks == n && u.progress == BytesUntilClosed(deliveries, n)
      && (|gathered| < n ==> u.chunks == gathered && u.stored == [] && u.state == if deliveries == [] then Pending else Active)
      && (|gathered| == n && HasAll(gathered, n) && StorageAccepts(deliveries, n) ==>
            u.state == Completed && u.stored == [Assemble(gathered, n)])
      && (|gathered| == n && !(HasAll(gathered, n) && StorageAccepts(deliveries, n)) ==>
            u.state == Failed && u.stored == [])
  {
    hide Assemble;
    GatheredIsBounded(deliveries, ChunkCount(size, chunkSize));
    if deliveries != [] {
      UploadFollowsDeliveries(size, chunkSize, deliveries[..|deliveries| - 1]);
    }
  }

  /** An upload of an empty file, or of a negative size, is never completed: no chunk can
      make the count right. */
  lemma {:induction false} EmptyUploadNeverCompletes(size: int, chunkSize: int, deliveries: seq<Delivery>)
    requires chunkSize > 0 && size <= 0
    ensures var u := ReceiveAll(NewUpload(size, chunkSize), deliveries);
            u.totalChunks <= 0 && Open(u) && u.stored == [] && (deliveries != [] ==> u.chunks != map[])
  {
    NoChunks(size, chunkSize);
    hide ChunkCount;
    if deliveries != [] {
      EmptyUploadNeverCompletes(size, chunkSize, deliveries[..|deliveries| - 1]);
      var u, d := ReceiveAll(NewUpload(size, chunkSize), deliveries[..|deliveries| - 1]), deliveries[|deliveries| - 1];
      assert d.index in u.chunks[d.index := d.data].Keys;
    }
  }

  lemma NoChunks(size: int, chunkSize: int)
    requires chunkSize > 0 && size <= 0
    ensures ChunkCount(size, chunkSize) <= 0
  {
    var a := size + chunkSize - 1;
    if a >= 0 {
      DivisionBounds(a, chunkSize);
      if a / chunkSize >= 1 {
        Product(chunkSize, a / chunkSize);
      }
    } else {
      DivisionBounds(-a, chunkSize);
    }
  }

  lemma Product(a: nat, b: nat)
    requires b >= 1
    ensures b * a >= a
  {
  }

  // ---------------------------------------------------------------------
  // The chunks of a file
  // ---------------------------------------------------------------------

  /** Where the chunk with an index starts. */
  function Start(chunkSize: int, i: nat): int {
    i * chunkSize
  }

  lemma StartOfNext(chunkSize: int, i: nat)
    ensures Start(chunkSize, i + 1) == Start(chunkSize, i) + chunkSize && Start(chunkSize, 0) == 0
  {
  }

  lemma {:induction false} StartsIncrease(chunkSize: int, i: nat, j: nat)
    requires chunkSize > 0 && i <= j
    ensures 0 <= Start(chunkSize, i) <= Start(chunkSize, j)
    decreases j
  {
    hide Start;
    if i < j {
      StartsIncrease(chunkSize, i, j - 1);
      StartOfNext(chunkSize, j - 1);
    } else if i > 0 {
      StartsIncrease(chunkSize, 0, i - 1);
      StartOfNext(chunkSize, i - 1);
    } else {
      StartOfNext(chunkSize, 0);
    }
  }

  lemma DivisionBounds(a: nat, b: nat)
    requires b > 0
    ensures a / b * b <= a < a / b * b + b
  {
    assert a == a / b * b + a % b;
  }

  /** Every chunk that counts starts inside the file, and together they reach its end. */
  lemma ChunksCoverFile(size: nat, chunkSize: int)
    requires chunkSize > 0
    ensures var n := ChunkCount(size, chunkSize);
      && n >= 0 && Start(chunkSize, n) >= size && (n == 0 <==> size == 0)
      && forall i: nat :: i < n ==> Start(chunkSize, i) < size
  {
    var n := ChunkCount(size, chunkSize);
    DivisionBounds(size + chunkSize - 1, chunkSize);
    assert Start(chunkSize, n) == n * chunkSize;
    hide Start, ChunkCount;
    StartOfNext(chunkSize, 0);
    forall i: nat | i < n
      ensures Start(chunkSize, i) < size
    {
      StartsIncrease(chunkSize, i, n - 1);
      StartOfNext(chunkSize, n - 1);
    }
  }

  predicate StartsIn(data: Bytes, chunkSize: int, i: nat) {
    0 <= Start(chunkSize, i) <= |data|
  }

  /** The chunk that sendChunks cuts for an index. */
  function Chunk(data: Bytes, chunkSize: int, i: nat): Bytes
    requires chunkSize > 0 && StartsIn(data, chunkSize, i)
  {
    var start := Start(chunkSize, i);
    data[start..if start + chunkSize < |data| then start + chunkSize else |data|]
  }

  predicate HoldsChunks(chunks: map<int, Bytes>, data: Bytes, chunkSize: int)
    requires chunkSize > 0
  {
    forall i :: i in chunks ==> i >= 0 && StartsIn(data, chunkSize, i) && chunks[i] == Chunk(data, chunkSize, i)
  }

  lemma {:induction false} ChunksAssemble(chunks: map<int, Bytes>, data: Bytes, chunkSize: int, n: nat)
    requires chunkSize > 0 && HasAll(chunks, n) && HoldsChunks(chunks, data, chunkSize) && n <= ChunkCount(|data|, chunkSize)
    ensures Start(chunkSize, n) >= 0
    ensures Assemble(chunks, n) == if Start(chunkSize, n) < |data| then data[..Start(chunkSize, n)] else data
  {
    hide Start, ChunkCount, Chunk;
    ChunksCoverFile(|data|, chunkSize);
    StartsIncrease(chunkSize, 0, n);
    StartOfNext(chunkSize, 0);
    if n > 0 {
      StartsIncrease(chunkSize, 0, n - 1);
      ChunksAssemble(chunks, data, chunkSize, n - 1);
      ChunkExtends(data, chunkSize, n - 1);
    }
  }

  lemma ChunkExtends(data: Bytes, chunkSize: int, i: nat)
    requires chunkSize > 0 && StartsIn(data, chunkSize, i)
    ensures Start(chunkSize, i + 1) == Start(chunkSize, i) + chunkSize
    ensures data[..Start(chunkSize, i)] + Chunk(data, chunkSize, i)
         == if Start(chunkSize, i + 1) < |data| then data[..Start(chunkSize, i + 1)] else data
  {
    StartOfNext(chunkSize, i);
    hide Start;
  }

  /** The deliveries of the chunks with these indices. */
  function ChunkDeliveries(data: Bytes, chunkSize: int, order: seq<nat>, storable: seq<bool>): (deliveries: seq<Delivery>)
    requires chunkSize > 0 && |storable| == |order|
    requires forall k :: 0 <= k < |order| ==> StartsIn(data, chunkSize, order[k])
    ensures |deliveries| == |order|
  {
    if order == [] then []
    else
      var last := |order| - 1;
      ChunkDeliveries(data, chunkSize, order[..last], storable[..last])
      + [Delivery(order[last], Chunk(data, chunkSize, order[last]), storable[last])]
  }

  lemma {:induction false} GatheredChunks(data: Bytes, chunkSize: int, order: seq<nat>, storable: seq<bool>, n: int)
    requires chunkSize > 0 && |storable| == |order|
    requires forall k :: 0 <= k < |order| ==> StartsIn(data, chunkSize, order[k])
    ensures var gathered := Gathered(ChunkDeliveries(data, chunkSize, order, storable), n);
      && HoldsChunks(gathered, data, chunkSize)
      && (forall i :: i in gathered ==> i in order)
      && (n > 0 && |gathered| < n ==> forall i :: i in order ==> i in gathered)
  {
    hide Chunk, StartsIn;
    if order != [] {
      var last := |order| - 1;
      var front := ChunkDeliveries(data, chunkSize, order[..last], storable[..last]);
      GatheredChunks(data, chunkSize, order[..last], storable[..last], n);
      assert ChunkDeliveries(data, chunkSize, order, storable)[..last] == front;
      assert order == order[..last] + [order[last]];
      GatheredIsBounded(ChunkDeliveries(data, chunkSize, order, storable), n);
      GatheredIsBounded(front, n);
      HoldsOneMore(Gathered(front, n), data, chunkSize, order[last]);
      hide HoldsChunks;
    }
  }

  lemma HoldsOneMore(chunks: map<int, Bytes>, data: Bytes, chunkSize: int, i: nat)
    requires chunkSize > 0 && HoldsChunks(chunks, data, chunkSize) && StartsIn(data, chunkSize, i)
    ensures HoldsChunks(chunks[i := Chunk(data, chunkSize, i)], data, chunkSize)
  {
  }

  function Below(n: nat): (s: set<int>)
    ensures forall i :: i in s <==> 0 <= i < n
    ensures |s| == n
  {
    if n == 0 then {} else Below(n - 1) + {n - 1}
  }

  /** A file that is not empty, cut into chunks that arrive in any order and with repeats,
      stays open until the last missing index arrives. Then it is stored exactly once and
      unchanged if the storage accepts it at that moment, and the upload fails otherwise.
      (Every prefix of the order is an order, so this speaks of each moment.) */
  lemma UploadStoresTheFile(data: Bytes, chunkSize: int, order: seq<nat>, storable: seq<bool>)
    requires chunkSize > 0 && data != [] && |storable| == |order|
    requires forall k :: 0 <= k < |order| ==> order[k] < ChunkCount(|data|, chunkSize)
    ensures forall k :: 0 <= k < |order| ==> StartsIn(data, chunkSize, order[k])
    ensures var n, deliveries := ChunkCount(|data|, chunkSize), ChunkDeliveries(data, chunkSize, order, storable);
            var u, complete := ReceiveAll(NewUpload(|data|, chunkSize), deliveries), forall i :: 0 <= i < n ==> i in order;
            (Open(u) <==> !complete) && (u.state == Completed <==> complete && StorageAccepts(deliveries, n))
            && u.stored == (if complete && StorageAccepts(deliveries, n) then [data] else [])
  {
    var n := ChunkCount(|data|, chunkSize);
    ChunksCoverFile(|data|, chunkSize);
    forall k | 0 <= k < |order|
      ensures StartsIn(data, chunkSize, order[k])
    {
      StartsIncrease(chunkSize, 0, order[k]);
    }
    var deliveries := ChunkDeliveries(data, chunkSize, order, storable);
    hide Gathered, ChunkDeliveries, ChunkCount, ReceiveAll, Assemble, StartsIn, Start, StorageAccepts;
    UploadFollowsDeliveries(|data|, chunkSize, deliveries);
    var complete := AllGathered(data, chunkSize, order, storable, n);
    if complete {
      ChunksAssemble(Gathered(deliveries, n), data, chunkSize, n);
    }
  }

  lemma AllGathered(data: Bytes, chunkSize: int, order: seq<nat>, storable: seq<bool>, n: nat) returns (complete: bool)
    requires chunkSize > 0 && n > 0 && |storable| == |order|
    requires forall k :: 0 <= k < |order| ==> order[k] < n && StartsIn(data, chunkSize, order[k])
    ensures complete <==> forall i :: 0 <= i < n ==> i in order
    ensures var gathered := Gathered(ChunkDeliveries(data, chunkSize, order, storable), n);
      HoldsChunks(gathered, data, chunkSize) && (complete <==> |gathered| == n) && (complete ==> HasAll(gathered, n))
  {
    hide Gathered, ChunkDeliveries, StartsIn, HoldsChunks;
    var gathered := Gathered(ChunkDeliveries(data, chunkSize, order, storable), n);
    GatheredChunks(data, chunkSize, order, storable, n);
    GatheredIsBounded(ChunkDeliveries(data, chunkSize, order, storable), n);
    assert gathered.Keys <= Below(n);
    CardinalityOfSubset(gathered.Keys, Below(n));
    complete := |gathered.Keys| == n;
    if !complete {
      var i :| i in Below(n) && i !in gathered.Keys;
      assert i !in order;
    }
  }
}
