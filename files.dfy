/**
 * The filesystem as the installer sees it: a map from path to file content,
 * `shutil.copy2` as a copy between two keys of that map, and
 * `backup_and_copy` (claude-init.py:73-78).
 */
module Files {
  import opened Wrappers

  /** A path as its list of components; the last one is `Path.name`. */
  type Path = seq<string>

  /** The contents of every regular file, by path. */
  type Files = map<Path, string>

  /** pathlib's `p.name`: the last component, or "" for the root. */
  function Name(p: Path): string
  {
    if p == [] then "" else p[|p| - 1]
  }

  /** pathlib's `base / name`; pathlib drops an empty component. */
  function Child(base: Path, name: string): (r: Path)
    ensures name != "" ==> |r| == |base| + 1 && Name(r) == name && r[..|base|] == base
    ensures name == "" ==> r == base
  {
    if name == "" then base else base + [name]
  }

  /**
   * Where `backup_and_copy` saves the old content of `dest`: directly under
   * `backupBase`, by file name only (claude-init.py:76).
   */
  function BackupPath(backupBase: Path, dest: Path): Path
  {
    Child(backupBase, Name(dest))
  }

  /** The exceptions `shutil.copy2` raises in this model. */
  datatype IoError =
    | NotFound(path: Path)   // FileNotFoundError: the source does not exist
    | SameFile(path: Path)   // shutil.SameFileError: source and destination coincide

  /** The state of the filesystem after a write, and the error if one was raised. */
  datatype Written = Done(files: Files) | Raised(files: Files, error: IoError)

  /** Content of a file, "" when it does not exist. */
  function Content(files: Files, p: Path): string
  {
    if p in files then files[p] else ""
  }

  /** `shutil.copy2(src, dest)`: dest gets src's content; nothing else changes. */
  function CopyFile(files: Files, src: Path, dest: Path): (w: Written)
    ensures w.Done? <==> src in files && src != dest
    ensures w.Raised? ==> w.files == files
    ensures w.Done? ==> w.files.Keys == files.Keys + {dest} && w.files[dest] == files[src]
    ensures w.Done? ==> forall q :: q in files && q != dest ==> w.files[q] == files[q]
  {
    if src !in files then Raised(files, NotFound(src))
    else if src == dest then Raised(files, SameFile(src))
    else Done(files[dest := files[src]])
  }

  /**
   * `backup_and_copy(src, dest, backupBase)`: copy dest to its backup path,
   * then src over dest. If the second copy raises, the backup stays written.
   */
  function BackupAndCopyFile(files: Files, src: Path, dest: Path, backupBase: Path): Written
  {
    match CopyFile(files, dest, BackupPath(backupBase, dest))
    case Raised(f, e) => Raised(f, e)
    case Done(f) => CopyFile(f, src, dest)
  }

  /**
   * Backup before overwrite: whatever the outcome, once dest's content has
   * changed the backup path holds dest's old content, and nothing but dest
   * and the backup path has changed.
   */
  lemma BackupBeforeOverwrite(files: Files, src: Path, dest: Path, backupBase: Path)
    ensures var w := BackupAndCopyFile(files, src, dest, backupBase);
            var bak := BackupPath(backupBase, dest);
            && (dest in w.files && (dest !in files || w.files[dest] != files[dest]) ==>
                  bak in w.files && dest in files && w.files[bak] == files[dest])
            && (w.Done? ==> bak in w.files && w.files[bak] == files[dest])
            && (w.Done? && src != bak ==> w.files[dest] == files[src])
            && (forall q :: q != dest && q != bak ==>
                  (q in w.files <==> q in files) && (q in files ==> w.files[q] == files[q]))
  {
  }

  /** The live filesystem that `shutil` and `open` act on. */
  class FileSystem {
    var files: Files

    constructor (initial: Files)
      ensures files == initial
    {
      files := initial;
    }

    /** `shutil.copy2(src, dest)`. */
    method Copy(src: Path, dest: Path) returns (err: Option<IoError>)
      modifies this
      ensures match CopyFile(old(files), src, dest)
              case Done(f) => err == None && files == f
              case Raised(f, e) => err == Some(e) && files == f
    {
      if src !in files {
        err := Some(NotFound(src));
      } else if src == dest {
        err := Some(SameFile(src));
      } else {
        files := files[dest := files[src]];
        err := None;
      }
    }

    /** Writing `text` to a file opened in append mode (created when missing). */
    method Append(p: Path, text: string)
      modifies this
      ensures files == old(files)[p := Content(old(files), p) + text]
    {
      files := files[p := Content(files, p) + text];
    }
  }

  /** `backup_and_copy` on the live filesystem (claude-init.py:73-78). */
  method BackupAndCopy(fs: FileSystem, src: Path, dest: Path, backupBase: Path) returns (err: Option<IoError>)
    modifies fs
    ensures match BackupAndCopyFile(old(fs.files), src, dest, backupBase)
            case Done(f) => err == None && fs.files == f
            case Raised(f, e) => err == Some(e) && fs.files == f
  {
    var backupDest := BackupPath(backupBase, dest);
    err := fs.Copy(dest, backupDest);
    if err.None? {
      err := fs.Copy(src, dest);
    }
  }
}
