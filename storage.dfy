/**
  The working directory the service writes into: a map from relative path
  to file content.  Creating truncates, appending extends, removing drops
  the entry and reports whether there was one.
*/
module Storage {
  import opened Types

  class WorkDir {
    var files: map<string, seq<Byte>>

    constructor (initial: map<string, seq<Byte>>)
      ensures files == initial
    {
      files := initial;
    }

    /** `File::create` that succeeded: the file exists and is empty. */
    method Create(path: string)
      modifies this
      ensures files == old(files)[path := []]
    {
      files := files[path := []];
    }

    /** `write_all` that succeeded: the bytes go at the end of the file. */
    method Append(path: string, data: seq<Byte>)
      requires path in files
      modifies this
      ensures files == old(files)[path := old(files)[path] + data]
    {
      files := files[path := files[path] + data];
    }

    /** `remove_file`: fails, changing nothing, when the file is absent. */
    method Remove(path: string) returns (ok: bool)
      modifies this
      ensures ok == (path in old(files))
      ensures files == old(files) - {path}
    {
      ok := path in files;
      files := files - {path};
    }
  }
}
