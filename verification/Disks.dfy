/** A directory of files, each a byte string, and every state it has been in. */
module Disks {
  import opened ByteStrings

  type Files = map<string, Bytes>

  predicate Wrote(a: Files, b: Files, path: string, bytes: Bytes) {
    b == a[path := bytes]
  }

  predicate Removed(a: Files, b: Files, path: string) {
    b == a - {path}
  }

  predicate Renamed(a: Files, b: Files, from: string, to: string) {
    from in a && from != to && b == a[to := a[from]] - {from}
  }

  /** One operation on one file, which happens as a whole. */
  ghost predicate FileStep(a: Files, b: Files) {
    || (exists path, bytes :: Wrote(a, b, path, bytes))
    || (exists path :: Removed(a, b, path))
    || (exists from, to :: Renamed(a, b, from, to))
  }

  class Disk {
    var files: Files
    /** The directory after every operation: what a crash may leave. */
    ghost var history: seq<Files>

    ghost predicate Valid()
      reads this
    {
      && history != [] && history[|history| - 1] == files
      && forall i :: 0 <= i < |history| - 1 ==> FileStep(history[i], history[i + 1])
    }

    constructor ()
      ensures Valid() && files == map[] && history == [files]
    {
      files := map[];
      history := [map[]];
    }

    ghost method Log(before: Files)
      requires history != [] && history[|history| - 1] == before && FileStep(before, files)
      requires forall i :: 0 <= i < |history| - 1 ==> FileStep(history[i], history[i + 1])
      modifies this`history
      ensures Valid() && history == old(history) + [files]
    {
      hide FileStep;
      history := history + [files];
    }

    /** Give a file its content: all of it, or what a failing write got to. */
    method Write(path: string, bytes: Bytes)
      requires Valid()
      modifies this
      ensures Valid() && files == old(files)[path := bytes] && history == old(history) + [files]
    {
      ghost var before := files;
      files := files[path := bytes];
      assert Wrote(before, files, path, bytes);
      Log(before);
    }

    method Remove(path: string)
      requires Valid()
      modifies this
      ensures Valid() && files == old(files) - {path} && history == old(history) + [files]
    {
      ghost var before := files;
      files := files - {path};
      assert Removed(before, files, path);
      Log(before);
    }

    method Rename(from: string, to: string)
      requires Valid() && from in files && from != to
      modifies this
      ensures Valid() && files == old(files)[to := old(files)[from]] - {from} && history == old(history) + [files]
    {
      ghost var before := files;
      files := files[to := files[from]] - {from};
      assert Renamed(before, files, from, to);
      Log(before);
    }
  }
}
