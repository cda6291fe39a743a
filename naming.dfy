/**
  Target-name resolution of `download_file`: the local file is named after the
  last component of the final (post-redirect) URL path, or `downloaded_file`
  when there is none; that name is sanitised, and the archive is the sanitised
  name with `.zip` appended.

  The sanitiser is a foreign crate; it enters the model as a parameter of type
  `string -> string`.  Two things are ever assumed of it, each only in a
  `requires`: `SingleSegment` (its output has no separator), and, in the
  worked example of the handler, that it keeps the name `q1.csv` as it is.
*/
module Naming {
  import opened Types
  import opened PathNames

  const Fallback: string := "downloaded_file"
  const ArchiveSuffix: string := ".zip"

  /** A source path and the archive path derived from it. */
  datatype Paths = Paths(source: string, archive: string)

  /** A resolved target: the archive path is always the source path plus the suffix. */
  type Target = t: Paths | t.archive == t.source + ArchiveSuffix witness Paths("", ".zip")

  /** ASSUMPTION about the sanitiser: its output never contains a separator. */
  ghost predicate SingleSegment(sanitize: string -> string) {
    forall s :: '/' !in sanitize(s)
  }

  /** The name before sanitising: the path's file name, or the fallback. */
  function LocalName(finalPath: string): (name: string)
    ensures FileName(finalPath).Some? ==> name == FileName(finalPath).value
    ensures FileName(finalPath).None? ==> name == Fallback
    ensures NormalName(name)
  {
    match FileName(finalPath)
    case Some(n) => n
    case None => Fallback
  }

  /** Source and archive paths for a download whose final URL path is `finalPath`. */
  function Resolve(finalPath: string, sanitize: string -> string): (t: Target)
    ensures FileName(finalPath).Some? ==> t.source == sanitize(FileName(finalPath).value)
    ensures FileName(finalPath).None? ==> t.source == sanitize(Fallback)
    ensures SingleSegment(sanitize) ==> '/' !in t.source && '/' !in t.archive
  {
    var name := sanitize(LocalName(finalPath));
    Paths(name, name + ArchiveSuffix)
  }

  /**
    The fallback is chosen before sanitising: when the sanitiser empties a
    name, the source path stays empty and the archive path is bare `.zip`.
  */
  lemma FallbackNotReapplied(finalPath: string, sanitize: string -> string)
    requires sanitize(LocalName(finalPath)) == ""
    ensures Resolve(finalPath, sanitize) == Paths("", ".zip")
  {
  }

  /** Two downloads share an archive path exactly when they share a source path. */
  lemma ArchiveDeterminesSource(t1: Target, t2: Target)
    ensures t1.archive == t2.archive <==> t1.source == t2.source
  {
    if t1.archive == t2.archive {
      assert t1.source == t1.archive[..|t1.archive| - 4];
      assert t2.source == t2.archive[..|t2.archive| - 4];
    }
  }

  /**
    `archive_path.file_name()`: always present, because the archive path ends
    in `.zip`; it is the archive path itself when the source has no separator.
  */
  function ArchiveFileName(t: Target): (name: string)
    ensures FileName(t.archive) == Some(name)
    ensures '/' !in t.source ==> name == t.archive
    ensures |name| >= 4 && name[|name| - 4..] == ".zip"
  {
    var s := Split(t.source);
    ArchiveLastSegment(t);
    assert '/' !in t.source ==> s == [t.source] by {
      if '/' !in t.source {
        OneSegment(t.source);
      }
    }
    s[|s| - 1] + ArchiveSuffix
  }

  /** The archive path's last segment is the source's last segment with the suffix, and it is its file name. */
  lemma ArchiveLastSegment(t: Target)
    ensures var s := Split(t.source); FileName(t.archive) == Some(s[|s| - 1] + ArchiveSuffix)
  {
    var s := Split(t.source);
    var last := s[|s| - 1] + ArchiveSuffix;
    SplitExtend(t.source, ArchiveSuffix);
    NormalizeSnoc(s[..|s| - 1], last);
    assert s[..|s| - 1] + [last] == Split(t.archive);
  }

  /** A path without a separator is a single segment. */
  lemma OneSegment(p: string)
    requires '/' !in p
    ensures Split(p) == [p]
  {
    SplitExtend("", p);
    assert "" + p == p;
    assert [""][..0] == [];
  }

  /** Under the sanitiser assumption the archive's file name is the whole archive path. */
  lemma ArchiveNameIsArchivePath(finalPath: string, sanitize: string -> string)
    requires SingleSegment(sanitize)
    ensures ArchiveFileName(Resolve(finalPath, sanitize)) == Resolve(finalPath, sanitize).archive
  {
    assert '/' !in sanitize(LocalName(finalPath));
  }
}
