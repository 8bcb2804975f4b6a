/** The local file system the pipeline writes to: the downloaded artifact, each rank's
    segment, the concat manifest and the merged output.

    A file holds one of three kinds of content: raw bytes (what `fwrite` puts in the
    downloaded artifact), a sequence of encoded frames (what a `VideoWriter` leaves in
    a segment), or text lines (the concat manifest). `free` is the number of bytes the
    disk still accepts, so that `fwrite` can come up short; `unwritable` holds the
    paths that cannot be created (a missing directory, no permission). */
module Storage {
  import opened Common

  datatype Content =
    | Bytes(data: seq<Byte>)
    | Frames(frames: seq<seq<Byte>>)
    | Lines(lines: seq<string>)

  class FileSystem {
    var files: map<string, Content>
    var free: nat
    var unwritable: set<string>

    constructor (files0: map<string, Content>, free0: nat, unwritable0: set<string>)
      ensures files == files0 && free == free0 && unwritable == unwritable0
    {
      files, free, unwritable := files0, free0, unwritable0;
    }

    /** `fopen(path, "wb")`: creates the file or truncates it to empty. */
    method CreateBytes(path: string) returns (ok: bool)
      modifies this
      ensures ok == (path !in old(unwritable))
      ensures files == if ok then old(files)[path := Bytes([])] else old(files)
      ensures free == old(free) && unwritable == old(unwritable)
    {
      ok := path !in unwritable;
      if ok {
        files := files[path := Bytes([])];
      }
    }

    /** `fwrite(data, 1, |data|, fp)`: appends as many bytes as the disk takes and
        returns how many that was. */
    method WriteBytes(path: string, data: seq<Byte>) returns (written: nat)
      requires path in files && files[path].Bytes?
      modifies this
      ensures written == Min(|data|, old(free))
      ensures files == old(files)[path := Bytes(old(files[path].data) + data[..written])]
      ensures free == old(free) - written && unwritable == old(unwritable)
    {
      written := Min(|data|, free);
      files := files[path := Bytes(files[path].data + data[..written])];
      free := free - written;
    }

    /** Opening a `VideoWriter`: an empty video at `path`, unless it cannot be created. */
    method CreateVideo(path: string) returns (ok: bool)
      modifies this
      ensures ok == (path !in old(unwritable))
      ensures files == if ok then old(files)[path := Frames([])] else old(files)
      ensures free == old(free) && unwritable == old(unwritable)
    {
      ok := path !in unwritable;
      if ok {
        files := files[path := Frames([])];
      }
    }

    /** `writer.release()`: the frames written through the writer are in the file. */
    method StoreFrames(path: string, frames: seq<seq<Byte>>)
      modifies this
      ensures files == old(files)[path := Frames(frames)]
      ensures free == old(free) && unwritable == old(unwritable)
    {
      files := files[path := Frames(frames)];
    }

    /** `fopen(path, "w")` for a text file. */
    method CreateText(path: string)
      modifies this
      ensures files == old(files)[path := Lines([])]
      ensures free == old(free) && unwritable == old(unwritable)
    {
      files := files[path := Lines([])];
    }

    /** `fprintf(f, "...\n")`: one more line at the end of a text file. */
    method AppendLine(path: string, line: string)
      requires path in files && files[path].Lines?
      modifies this
      ensures files == old(files)[path := Lines(old(files[path].lines) + [line])]
      ensures free == old(free) && unwritable == old(unwritable)
    {
      files := files[path := Lines(files[path].lines + [line])];
    }

    /** `remove(path)`: a missing file is left missing. */
    method Remove(path: string)
      modifies this
      ensures files == old(files) - {path}
      ensures free == old(free) && unwritable == old(unwritable)
    {
      files := files - {path};
    }

    /** What the other processes wrote to the shared directory becomes visible, as it
        is once every process has passed an `MPI_Barrier`. */
    method ShareFiles(written: map<string, Content>)
      modifies this
      ensures files == old(files) + written
      ensures free == old(free) && unwritable == old(unwritable)
    {
      files := files + written;
    }

    /** `rename(from, to)`: fails, changing nothing, when `from` does not exist. */
    method Rename(from: string, to: string) returns (ok: bool)
      modifies this
      ensures ok == (from in old(files))
      ensures files == if ok then (old(files) - {from})[to := old(files)[from]] else old(files)
      ensures free == old(free) && unwritable == old(unwritable)
    {
      ok := from in files;
      if ok {
        files := (files - {from})[to := files[from]];
      }
    }
  }
}
