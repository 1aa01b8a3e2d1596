/**
 * The storage disk the handler writes to (Laravel's filesystem disk), as one sequential store
 * of files keyed by path together with the directories made on it.
 */
module Storage {

  newtype byte = x: int | 0 <= x < 256

  class Disk {
    var files: map<string, seq<byte>>
    var dirs: set<string>

    constructor (files0: map<string, seq<byte>>, dirs0: set<string>)
      ensures files == files0 && dirs == dirs0
    {
      files := files0;
      dirs := dirs0;
    }

    /** Every path that `exists` answers true for: stored files and made directories. */
    function Paths(): set<string>
      reads this
    {
      files.Keys + dirs
    }

    /** `$disk->exists($path)`. */
    predicate Exists(path: string)
      reads this
    {
      path in Paths()
    }

    /** `$disk->size($path)`, in bytes. */
    function Size(path: string): nat
      reads this
      requires path in files
    {
      |files[path]|
    }

    /** `$disk->put($path, $contents)`: creates or overwrites one file. */
    method Put(path: string, contents: seq<byte>)
      modifies this
      ensures files == old(files)[path := contents]
      ensures dirs == old(dirs)
      ensures Paths() == old(Paths()) + {path}
    {
      files := files[path := contents];
    }

    /** `$disk->makeDirectory($path)`. */
    method MakeDirectory(path: string)
      modifies this
      ensures dirs == old(dirs) + {path}
      ensures files == old(files)
      ensures Paths() == old(Paths()) + {path}
    {
      dirs := dirs + {path};
    }
  }
}
