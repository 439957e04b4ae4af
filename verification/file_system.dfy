/** The host's file operations (`IOUtils.makeDirectory`, `IOUtils.write`,
    `IOUtils.remove`) over an abstract file system: a map from file paths to
    their contents and a set of directory paths.

    Each operation takes a `denied` flag standing for a refusal by the
    operating system (permissions, a full disk); a refused operation changes
    nothing. */
module FileSystems {

  import opened Wrappers
  import opened Paths

  /** What a file holds: descriptor text, or a PNG image of a given size
      made from an icon source. */
  datatype Content = Text(text: string) | Png(width: nat, height: nat, source: string)

  datatype FileSystem = FileSystem(files: map<Path, Content>, dirs: set<Path>)

  datatype IOError =
    | NotADirectory(path: Path)
    | IsADirectory(path: Path)
    | DirectoryNotEmpty(path: Path)
    | PermissionDenied(path: Path)

  /** A path names a file or a directory, never both. */
  predicate WellFormed(fs: FileSystem) {
    fs.files.Keys !! fs.dirs
  }

  predicate Exists(fs: FileSystem, p: Path) {
    p in fs.files || p in fs.dirs
  }

  /** Something exists strictly inside `p`. */
  predicate HasEntriesBelow(fs: FileSystem, p: Path) {
    exists q :: q in fs.files.Keys + fs.dirs && Below(q, p)
  }

  /** `a` and `b` agree at path `q`: the same kind of entry, the same content. */
  predicate SameAt(a: FileSystem, b: FileSystem, q: Path) {
    && (q in a.files <==> q in b.files)
    && (q in a.files ==> a.files[q] == b.files[q])
    && (q in a.dirs <==> q in b.dirs)
  }

  /** `IOUtils.makeDirectory(path)` creating its missing `ancestors` too, with
      `ignoreExisting`: a directory already there is no error and is kept with
      everything in it; a regular file in the way is an error. */
  function MakeDirectory(fs: FileSystem, ancestors: set<Path>, path: Path, denied: bool): (r: Result<FileSystem, IOError>)
    ensures r.Failure? <==> denied || exists q :: q in ancestors + {path} && q in fs.files
    ensures r.Success? ==> r.value.files == fs.files && r.value.dirs == fs.dirs + ancestors + {path}
    ensures !denied && ancestors + {path} <= fs.dirs && WellFormed(fs) ==> r == Success(fs)
    ensures r.Success? && WellFormed(fs) ==> WellFormed(r.value)
  {
    if denied then Failure(PermissionDenied(path))
    else if (ancestors + {path}) !! fs.files.Keys then
      var grown := fs.dirs + ancestors + {path};
      assert ancestors + {path} <= fs.dirs ==> grown == fs.dirs;
      Success(FileSystem(fs.files, grown))
    else Failure(NotADirectory(path))
  }

  /** `IOUtils.write(path, content)`: creates or overwrites a file; writing
      over a directory is an error. */
  function Write(fs: FileSystem, path: Path, content: Content, denied: bool): (r: Result<FileSystem, IOError>)
    ensures r.Success? <==> !denied && path !in fs.dirs
    ensures r.Success? ==> r.value.files == fs.files[path := content] && r.value.dirs == fs.dirs
    ensures r.Success? ==> forall q :: q != path ==> SameAt(fs, r.value, q)
    ensures r.Success? && WellFormed(fs) ==> WellFormed(r.value)
  {
    if denied then Failure(PermissionDenied(path))
    else if path in fs.dirs then Failure(IsADirectory(path))
    else Success(FileSystem(fs.files[path := content], fs.dirs))
  }

  /** Everything at or below `p` taken away. */
  function Prune(fs: FileSystem, p: Path): (r: FileSystem)
    ensures forall q :: Under(q, p) ==> !Exists(r, q)
    ensures forall q :: !Under(q, p) ==> SameAt(fs, r, q)
    ensures WellFormed(fs) ==> WellFormed(r)
  {
    FileSystem(map q | q in fs.files && !Under(q, p) :: fs.files[q], set q | q in fs.dirs && !Under(q, p))
  }

  /** `IOUtils.remove(path, {recursive})`. An absent path is no error (the
      host ignores absent paths by default). Without `recursive`, a directory
      that still holds entries is an error and is left as it was. */
  function Remove(fs: FileSystem, path: Path, recursive: bool, denied: bool): (r: Result<FileSystem, IOError>)
    ensures r.Failure? <==> denied || (!recursive && path in fs.dirs && HasEntriesBelow(fs, path))
    ensures r.Success? ==> !Exists(r.value, path)
    ensures r.Success? && recursive ==> forall q :: Under(q, path) ==> !Exists(r.value, q)
    ensures r.Success? && recursive ==> forall q :: !Under(q, path) ==> SameAt(fs, r.value, q)
    ensures r.Success? && !recursive ==> forall q :: q != path ==> SameAt(fs, r.value, q)
    ensures r.Success? && WellFormed(fs) ==> WellFormed(r.value)
  {
    if denied then Failure(PermissionDenied(path))
    else if recursive then Success(Prune(fs, path))
    else if !Exists(fs, path) then Success(fs)
    else if path in fs.dirs && HasEntriesBelow(fs, path) then Failure(DirectoryNotEmpty(path))
    else Success(FileSystem(fs.files - {path}, fs.dirs - {path}))
  }
}
