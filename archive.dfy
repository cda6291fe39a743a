/**
  The shape of what `archive_file` puts in the container: one entry, named
  after the source path's file name, holding the whole content of the
  source file.  Compression and the container layout belong to the zip
  library and are not modelled.  `file_name().unwrap()` panics inside the
  blocking task when the source path has no file name; the task's failure
  is mapped to an I/O error, so the step then fails.
*/
module Archive {
  import opened Types
  import opened PathNames
  import opened Naming

  datatype Entry = Entry(name: string, data: seq<Byte>)

  /** The single entry written for `sourcePath` with content `content`, or `None` when the step fails. */
  function ArchiveEntry(sourcePath: string, content: seq<Byte>): (r: Option<Entry>)
    ensures r.None? <==> FileName(sourcePath).None?
    ensures r.Some? ==> NormalName(r.value.name) && r.value.data == content
  {
    match FileName(sourcePath)
    case None => None
    case Some(n) => Some(Entry(n, content))
  }

  /**
    For a resolved target whose source is one normal component, the archive
    holds one entry named exactly like the source file, with all its bytes.
  */
  lemma EntryNamedAfterSource(t: Target, content: seq<Byte>)
    requires NormalName(t.source)
    ensures ArchiveEntry(t.source, content) == Some(Entry(t.source, content))
  {
    FileNameOfName(t.source);
  }

  /** A source path the sanitiser emptied has no file name, so archiving fails. */
  lemma EmptySourceCannotBeArchived(content: seq<Byte>)
    ensures ArchiveEntry("", content) == None
  {
    NoFileName("");
  }
}
