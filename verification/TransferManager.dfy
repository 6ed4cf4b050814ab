/** The transfer objects and the manager that updates them in place. */
module TransferManager {
  import opened BinaryCodec
  import opened Transfers

  class FileTransfer {
    const chunkSize: int
    const totalChunks: int
    var state: State
    var chunks: map<int, Bytes>
    var progress: int
    ghost var stored: seq<Bytes>

    ghost function View(): Upload
      reads this
    {
      Upload(totalChunks, state, chunks, progress, stored)
    }

    constructor (size: int, chunkSize: int)
      requires chunkSize > 0
      ensures View() == NewUpload(size, chunkSize) && this.chunkSize == chunkSize
    {
      this.chunkSize, totalChunks := chunkSize, ChunkCount(size, chunkSize);
      state, chunks, progress, stored := Pending, map[], 0, [];
    }
  }

  class FileTransferManager {
    var transfers: map<string, FileTransfer>
    var files: map<string, Bytes>

    constructor ()
      ensures transfers == map[] && files == map[]
    {
      transfers, files := map[], map[];
    }

    /** What a call stored, if anything, replaces the file of that id. */
    static ghost function FilesAfter(files: map<string, Bytes>, id: string, before: seq<Bytes>, after: seq<Bytes>)
      : map<string, Bytes>
    {
      if |after| > |before| then files[id := after[|after| - 1]] else files
    }

    /** ok is false for an unknown or closed transfer and for a failed completion. Whether
        the storage would accept a file is an input. */
    method ReceiveChunk(id: string, index: int, data: Bytes, storable: bool) returns (ok: bool)
      modifies this`files, if id in transfers then {transfers[id]} else {}
      ensures id !in transfers ==> !ok && files == old(files)
      ensures id in transfers ==> transfers[id].View() == Receive(old(transfers[id].View()), Delivery(index, data, storable))
      ensures id in transfers ==> (ok <==> Open(old(transfers[id].View())) && transfers[id].state != State.Failed)
      ensures id in transfers ==> files == FilesAfter(old(files), id, old(transfers[id].stored), transfers[id].stored)
    {
      if id !in transfers {
        return false;
      }
      var transfer := transfers[id];
      if transfer.state != Pending && transfer.state != Active {
        return false;
      }
      if transfer.state == Pending {
        transfer.state := Active;
      }
      transfer.chunks := transfer.chunks[index := data];
      transfer.progress := transfer.progress + |data|;
      if |transfer.chunks| == transfer.totalChunks {
        ok := CompleteTransfer(id, transfer, storable);
        return;
      }
      ok := true;
    }

    /** Joins the chunks in index order and stores the file, or fails at the first gap or
        with an error of the storage. */
    method CompleteTransfer(id: string, transfer: FileTransfer, storable: bool) returns (ok: bool)
      modifies this`files, transfer
      ensures transfer.View() == Complete(old(transfer.View()), storable)
      ensures ok <==> storable && HasAll(old(transfer.chunks), transfer.totalChunks)
      ensures !ok ==> files == old(files) && transfer.stored == old(transfer.stored) && transfer.state == State.Failed
      ensures files == FilesAfter(old(files), id, old(transfer.stored), transfer.stored)
    {
      var buffer: Bytes := [];
      var i := 0;
      while i < transfer.totalChunks
        invariant 0 <= i && (i > 0 ==> i <= transfer.totalChunks)
        invariant unchanged(transfer) && files == old(files)
        invariant HasAll(transfer.chunks, i) && buffer == Assemble(transfer.chunks, i)
      {
        if i !in transfer.chunks {
          transfer.state := State.Failed;
          return false;
        }
        buffer := buffer + transfer.chunks[i];
        i := i + 1;
      }
      if !storable {
        transfer.state := State.Failed;
        return false;
      }
      files := files[id := buffer];
      transfer.state := Completed;
      transfer.chunks := map[];
      transfer.stored := transfer.stored + [buffer];
      ok := true;
    }

    /** The loop of sendChunks: the chunks in the order in which they are sent. */
    static method SendChunks(data: Bytes, chunkSize: int) returns (sent: seq<Bytes>)
      requires chunkSize > 0
      ensures |sent| == ChunkCount(|data|, chunkSize)
      ensures forall i :: 0 <= i < |sent| ==> StartsIn(data, chunkSize, i) && sent[i] == Chunk(data, chunkSize, i)
    {
      ChunksCoverFile(|data|, chunkSize);
      var total := ChunkCount(|data|, chunkSize);
      sent := [];
      for i := 0 to total
        invariant |sent| == i
        invariant forall k :: 0 <= k < i ==> StartsIn(data, chunkSize, k) && sent[k] == Chunk(data, chunkSize, k)
      {
        StartsIncrease(chunkSize, 0, i);
        StartOfNext(chunkSize, 0);
        var start := i * chunkSize;
        var end := if start + chunkSize < |data| then start + chunkSize else |data|;
        assert start == Start(chunkSize, i);
        hide Start;
        sent := sent + [data[start..end]];
      }
    }
  }
}
