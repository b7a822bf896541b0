/** Uploads: the chunked write loop of local storage against the one-shot check of S3 storage. */
module Storage {
  import opened Common

  type Bytes = seq<bv8>

  /** Cancelled is no `Exception` and passes the handlers; `afterOpen` says whether the file was open by then. */
  datatype Error = FileTooLarge | BackendFailure | Cancelled(afterOpen: bool)

  datatype Result = Stored(key: string, sizeBytes: nat) | Failed(error: Error)

  /** The answer the storage protocol promises for a stream that can be read to its end. */
  function OneShot(data: Bytes, key: string, maxSize: nat): Result {
    if |data| > maxSize then Failed(FileTooLarge) else Stored(key, |data|)
  }

  const CHUNK_SIZE: nat := 1024 * 1024

  /** How a read goes: bytes arrive (at most so many, when not 0), it fails, or the request is cancelled. */
  datatype Arrival = Arrives(most: nat) | ReadFails | ReadCancelled

  /** How a disk operation goes; a write that does not succeed leaves so many bytes of its chunk behind. */
  datatype Fault = Works | Breaks(written: nat) | Cancels(written: nat)

  /** Nothing fails and nothing is cancelled. */
  predicate Smooth(arrivals: seq<Arrival>, faults: seq<Fault>) {
    (forall i | 0 <= i < |arrivals| :: arrivals[i].Arrives?) && (forall i | 0 <= i < |faults| :: faults[i].Works?)
  }

  /** Nothing cancels the request while it waits for the stream or for the disk. */
  predicate Undisturbed(arrivals: seq<Arrival>, faults: seq<Fault>) {
    (forall i | 0 <= i < |arrivals| :: !arrivals[i].ReadCancelled?)
    && (forall i | 0 <= i < |faults| :: !faults[i].Cancels?)
  }

  function Longer(peak: nat, size: nat): nat {
    if size > peak then size else peak
  }

  datatype Chunk = Chunk(content: Bytes) | NoChunk | NeverArrived

  /** An uploaded stream. `unread` is what is left of it. */
  class UploadFile {
    var unread: Bytes
    var arrivals: seq<Arrival>

    constructor (data: Bytes, arrivals: seq<Arrival>)
      ensures unread == data && this.arrivals == arrivals
    {
      unread, this.arrivals := data, arrivals;
    }

    /** Up to `limit` bytes, empty only at the end of the stream; or an exception, or a cancellation. */
    method Read(limit: nat) returns (chunk: Chunk)
      requires limit > 0
      modifies this
      ensures chunk.Chunk? ==>
                && |chunk.content| <= limit && old(unread) == chunk.content + unread
                && (chunk.content == [] <==> old(unread) == [])
      ensures !chunk.Chunk? ==> unread == old(unread)
      ensures Smooth(old(arrivals), []) ==> chunk.Chunk? && Smooth(arrivals, [])
      ensures Undisturbed(old(arrivals), []) ==> !chunk.NeverArrived? && Undisturbed(arrivals, [])
    {
      var size := if limit < |unread| then limit else |unread|;
      if arrivals != [] {
        var arrival := arrivals[0];
        arrivals := arrivals[1..];
        match arrival
        case ReadFails => return NoChunk;
        case ReadCancelled => return NeverArrived;
        case Arrives(most) => size := if 0 < most < size then most else size;
      }
      chunk := Chunk(unread[..size]);
      unread := unread[size..];
    }
  }

  class LocalStorage {
    var files: map<string, Bytes>
    /** How each coming disk operation goes; those after the last one work. */
    var faults: seq<Fault>
    /** The length of the longest file this storage has ever held at any moment. */
    ghost var peak: nat

    constructor (faults: seq<Fault>)
      ensures files == map[] && this.faults == faults && peak == 0
    {
      files, this.faults, peak := map[], faults, 0;
    }

    method NextFault() returns (fault: Fault)
      modifies this`faults
      ensures Smooth([], old(faults)) ==> fault.Works? && Smooth([], faults)
      ensures Undisturbed([], old(faults)) ==> !fault.Cancels? && Undisturbed([], faults)
    {
      if faults == [] {
        fault := Works;
      } else {
        fault := faults[0];
        faults := faults[1..];
      }
    }

    /** Opens a file for writing, which truncates it; if that does not succeed there is no new file. */
    method Open(key: string) returns (outcome: Fault)
      modifies this
      ensures files == if outcome.Works? then old(files)[key := []] else old(files)
      ensures peak == old(peak)
      ensures Smooth([], old(faults)) ==> outcome.Works? && Smooth([], faults)
      ensures Undisturbed([], old(faults)) ==> !outcome.Cancels? && Undisturbed([], faults)
    {
      outcome := NextFault();
      if outcome.Works? {
        files := files[key := []];
      }
    }

    /** Appends to an open file. */
    method Write(key: string, chunk: Bytes) returns (outcome: Fault)
      requires key in files
      modifies this
      ensures key in files && files == old(files)[key := files[key]]
      ensures outcome.Works? ==> files[key] == old(files)[key] + chunk
      ensures files[key] <= old(files)[key] + chunk && peak == Longer(old(peak), |files[key]|)
      ensures Smooth([], old(faults)) ==> outcome.Works? && Smooth([], faults)
      ensures Undisturbed([], old(faults)) ==> !outcome.Cancels? && Undisturbed([], faults)
    {
      outcome := NextFault();
      var written := if outcome.Works? || outcome.written > |chunk| then |chunk| else outcome.written;
      files := files[key := files[key] + chunk[..written]];
      peak := Longer(peak, |files[key]|);
    }

    method Unlink(key: string)
      modifies this`files
      ensures files == old(files) - {key}
    {
      files := files - {key};
    }

    /** Counts a chunk and, unless that is too much, appends it. */
    method Append(key: string, chunk: Bytes, size: nat, maxSize: nat) returns (total: nat, error: Option<Error>)
      requires key in files && size == |files[key]| <= maxSize
      modifies this
      ensures total == size + |chunk| && key in files && files == old(files)[key := files[key]]
      ensures error.None? ==> files[key] == old(files)[key] + chunk
      ensures files[key] <= old(files)[key] + chunk
      ensures error == Some(FileTooLarge) <==> total > maxSize
      ensures error != Some(Cancelled(false)) && peak <= Longer(old(peak), maxSize)
      ensures Smooth([], old(faults)) ==> Smooth([], faults) && (error.None? || error == Some(FileTooLarge))
      ensures Undisturbed([], old(faults)) ==> Undisturbed([], faults) && error != Some(Cancelled(true))
    {
      total := size + |chunk|;
      if total > maxSize {
        return total, Some(FileTooLarge);
      }
      var outcome := Write(key, chunk);
      match outcome
      case Works => error := None;
      case Breaks(_) => error := Some(BackendFailure);
      case Cancels(_) => error := Some(Cancelled(true));
    }

    /** Copies the upload into an open, empty file chunk by chunk. */
    method Copy(upload: UploadFile, key: string, maxSize: nat) returns (result: Result)
      requires key in files && files[key] == []
      modifies this, upload
      ensures key in files && files[key] <= old(upload.unread) && files == old(files)[key := files[key]]
      ensures result.Stored? ==> result == OneShot(old(upload.unread), key, maxSize) && files[key] == old(upload.unread)
      ensures result == Failed(FileTooLarge) ==> |old(upload.unread)| > maxSize
      ensures result != Failed(Cancelled(false))
      ensures Smooth(old(upload.arrivals), old(faults)) ==> result == OneShot(old(upload.unread), key, maxSize)
      ensures Undisturbed(old(upload.arrivals), old(faults)) ==> result != Failed(Cancelled(true))
      ensures peak <= Longer(old(peak), maxSize)
    {
      var size := 0;
      while true
        invariant key in files && files == old(files)[key := files[key]]
        invariant old(upload.unread) == files[key] + upload.unread
        invariant size == |files[key]| <= maxSize
        invariant Smooth(old(upload.arrivals), old(faults)) ==> Smooth(upload.arrivals, faults)
        invariant Undisturbed(old(upload.arrivals), old(faults)) ==> Undisturbed(upload.arrivals, faults)
        invariant peak <= Longer(old(peak), maxSize)
        decreases |upload.unread|
      {
        var chunk := upload.Read(CHUNK_SIZE);
        if !chunk.Chunk? {
          return Failed(if chunk.NeverArrived? then Cancelled(true) else BackendFailure);
        }
        if chunk.content == [] {
          break;
        }
        var error;
        size, error := Append(key, chunk.content, size, maxSize);
        if error.Some? {
          return Failed(error.value);
        }
      }
      assert files[key] + upload.unread == files[key];
      return Stored(key, size);
    }

    /** Opens the file and copies the upload into it. */
    method Stream(upload: UploadFile, key: string, maxSize: nat) returns (result: Result)
      modifies this, upload
      ensures result.Stored? ==>
                && result == OneShot(old(upload.unread), key, maxSize)
                && files == old(files)[key := old(upload.unread)]
      ensures result.Failed? && !result.error.Cancelled? ==> files - {key} == old(files) - {key}
      ensures result == Failed(Cancelled(false)) ==> files == old(files)
      ensures result == Failed(Cancelled(true)) ==>
                key in files && files[key] <= old(upload.unread) && files == old(files)[key := files[key]]
      ensures result == Failed(FileTooLarge) ==> |old(upload.unread)| > maxSize
      ensures Smooth(old(upload.arrivals), old(faults)) ==> result == OneShot(old(upload.unread), key, maxSize)
      ensures Undisturbed(old(upload.arrivals), old(faults)) ==> result.Failed? ==> !result.error.Cancelled?
      ensures peak <= Longer(old(peak), maxSize)
    {
      var outcome := Open(key);
      if !outcome.Works? {
        return Failed(if outcome.Cancels? then Cancelled(false) else BackendFailure);
      }
      result := Copy(upload, key, maxSize);
    }

    /**
     Streams the upload; every failure removes the file again, except that a request cancelled
     after the file was opened leaves what was written so far.
     */
    method Save(upload: UploadFile, key: string, maxSize: nat) returns (result: Result)
      modifies this, upload
      ensures result.Stored? ==>
                && result == OneShot(old(upload.unread), key, maxSize)
                && files == old(files)[key := old(upload.unread)]
                && result.key == key && result.sizeBytes == |files[key]| && |files[key]| <= maxSize
      ensures Smooth(old(upload.arrivals), old(faults)) ==> (result.Stored? <==> |old(upload.unread)| <= maxSize)
      ensures result.Failed? && !result.error.Cancelled? ==> files == old(files) - {key}
      ensures result == Failed(Cancelled(false)) ==> files == old(files)
      ensures result == Failed(Cancelled(true)) ==>
                key in files && files[key] <= old(upload.unread) && files == old(files)[key := files[key]]
      ensures result == Failed(FileTooLarge) ==> |old(upload.unread)| > maxSize
      ensures Smooth(old(upload.arrivals), old(faults)) ==>
                result == OneShot(old(upload.unread), key, maxSize)
      ensures Undisturbed(old(upload.arrivals), old(faults)) ==> result.Failed? ==> !result.error.Cancelled?
      ensures peak <= Longer(old(peak), maxSize)
    {
      result := Stream(upload, key, maxSize);
      if result.Failed? && !result.error.Cancelled? {
        Unlink(key);
      }
    }

    /**
     Under a new key, an unfinished upload leaves a file behind exactly if it was cancelled once the
     file was open.
     */
    method SaveNew(upload: UploadFile, key: string, maxSize: nat) returns (result: Result)
      requires key !in files
      modifies this, upload
      ensures result.Failed? ==> (key in files <==> result.error == Cancelled(true))
    {
      result := Save(upload, key, maxSize);
    }

    /** Deleting a missing file is not an error. */
    method Delete(key: string)
      modifies this`files
      ensures files == old(files) - {key}
    {
      Unlink(key);
    }
  }

  class S3Storage {
    var objects: map<string, Bytes>

    constructor ()
      ensures objects == map[]
    {
      objects := map[];
    }

    /**
     One read of at most one byte more than allowed, from a stream that is spooled in full. The read
     or the upload to the bucket may fail; an object appears whole or not at all.
     */
    method Save(data: Bytes, readable: bool, accepted: bool, key: string, maxSize: nat) returns (result: Result)
      modifies this
      ensures result == if !readable || (|data| <= maxSize && !accepted) then Failed(BackendFailure)
                        else OneShot(data, key, maxSize)
      ensures objects == if result.Stored? then old(objects)[key := data] else old(objects)
      ensures result.Stored? <==> readable && accepted && |data| <= maxSize
      ensures result.Stored? ==> result.key == key && result.sizeBytes == |objects[key]|
    {
      if !readable {
        return Failed(BackendFailure);
      }
      var body := if |data| <= maxSize + 1 then data else data[..maxSize + 1];
      if |body| > maxSize {
        return Failed(FileTooLarge);
      }
      if !accepted {
        return Failed(BackendFailure);
      }
      objects := objects[key := body];
      return Stored(key, |body|);
    }
  }
}
