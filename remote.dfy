/**
 * The remote backup directory as the versioning loop sees it after `cwd`:
 * a set of named objects, each with a byte size.  The four FTP calls the
 * loop makes (`nlst`, `size`, `storbinary`, `delete`) are methods that read
 * or update that map.  A ghost log records every change, in order, so that
 * callers can state which uploads and deletions a run issued.
 */
module Remote {
  import opened NameOrder

  /** A change made to the remote directory: `STOR name` or `DELE name`. */
  datatype Op = Stor(name: string, size: nat) | Dele(name: string)

  class RemoteDir {
    /** Object name to size in bytes (as `SIZE` reports it in binary mode). */
    var objects: map<string, nat>
    /** Every change made through this session, oldest first. */
    ghost var log: seq<Op>

    constructor (initial: map<string, nat>)
      ensures objects == initial && log == []
    {
      objects := initial;
      log := [];
    }

    /** `ftp.nlst()`: every object name, once each, in the server's order. */
    method Nlst() returns (names: seq<string>)
      ensures Elems(names) == objects.Keys
      ensures Distinct(names)
    {
      names := [];
      var rest := objects.Keys;
      while rest != {}
        invariant rest <= objects.Keys
        invariant Elems(names) == objects.Keys - rest
        invariant Distinct(names)
        decreases |rest|
      {
        var x :| x in rest;
        assert x !in names by {
          assert x !in Elems(names);
        }
        ElemsAppend(names, x);
        names := names + [x];
        rest := rest - {x};
      }
    }

    /** `ftp.size(name)` on a name that the same session has just listed. */
    method Size(name: string) returns (size: nat)
      requires name in objects
      ensures size == objects[name]
    {
      size := objects[name];
    }

    /** `ftp.storbinary("STOR " + name, f)`: creates or replaces `name` with the file's bytes. */
    method Store(name: string, size: nat)
      modifies this
      ensures objects == old(objects)[name := size]
      ensures log == old(log) + [Stor(name, size)]
    {
      objects := objects[name := size];
      log := log + [Stor(name, size)];
    }

    /** `ftp.delete(name)` on a name that the same session has just listed. */
    method Delete(name: string)
      requires name in objects
      modifies this
      ensures objects == old(objects) - {name}
      ensures log == old(log) + [Dele(name)]
    {
      objects := objects - {name};
      log := log + [Dele(name)];
    }
  }
}
