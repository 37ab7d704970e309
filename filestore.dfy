/** The part of the filesystem the handlers touch: regular files holding text,
    and directories. Every operation that can fail for reasons outside the model
    (permissions, a full disk, an I/O error) takes a `fault` flag that makes it
    fail. */
module FileStore {
  import opened Wrappers
  import opened Strings
  import opened Paths

  /** What `lstat` reports about a path. */
  datatype Kind = RegularFile | Directory

  /** Files by path, and the set of directory paths. */
  datatype FsState = FsState(files: map<string, string>, dirs: set<string>)

  /** No path is both a file and a directory, and no file path ends with '/'. */
  predicate Valid(s: FsState) {
    && s.files.Keys !! s.dirs
    && forall p :: p in s.files ==> !EndsWith(p, "/")
  }

  /** `mkdir -p dir` succeeds unless a file stands where one of the directories
      should be. */
  predicate CanMakeDirs(s: FsState, dir: string, fault: bool)
    ensures CanMakeDirs(s, dir, fault) ==> dir !in s.files && Dirname(dir) !in s.files
  {
    LineageHasParent(dir);
    !fault && Lineage(dir) !! s.files.Keys
  }

  /** The state after a successful `mkdir -p dir`. */
  function WithDirs(s: FsState, dir: string): (t: FsState)
    ensures t.files == s.files
    ensures dir in t.dirs && Dirname(dir) in t.dirs
    ensures forall q :: q in t.dirs <==> q in s.dirs || q in Lineage(dir)
  {
    LineageHasParent(dir);
    FsState(s.files, s.dirs + Lineage(dir))
  }

  lemma LineageHasParent(d: string)
    ensures Dirname(d) in Lineage(d)
  {
  }

  /** `writeFile(p, ...)` succeeds when the parent directory exists and p is not a
      directory; a path ending with '/' names a directory and cannot be written. */
  predicate CanWrite(s: FsState, p: string, fault: bool)
    ensures CanWrite(s, p, fault) ==> p != Dirname(p)
  {
    && !fault
    && p !in s.dirs
    && !EndsWith(p, "/")
    && Dirname(p) in s.dirs
  }

  /** The state after a successful write of content to p. */
  function WithFile(s: FsState, p: string, content: string): (t: FsState)
    ensures t.dirs == s.dirs
    ensures p in t.files && t.files[p] == content
    ensures forall q :: q != p ==> (q in t.files <==> q in s.files)
    ensures forall q :: q != p && q in s.files ==> t.files[q] == s.files[q]
  {
    FsState(s.files[p := content], s.dirs)
  }

  /** `readFile(p)`: the text of a regular file, or None when p is missing, is a
      directory, or the read fails. */
  function Read(s: FsState, p: string, fault: bool): (r: Option<string>)
    ensures r.Some? <==> !fault && p in s.files
    ensures r.Some? ==> r.value == s.files[p]
  {
    if !fault && p in s.files then Some(s.files[p]) else None
  }

  /** `lstat(p)`: the kind of p, or None when nothing is at p (lstat rejects). */
  function KindOf(s: FsState, p: string): (r: Option<Kind>)
    ensures r == Some(RegularFile) <==> p in s.files
    ensures r == Some(Directory) <==> p !in s.files && p in s.dirs
    ensures r == None <==> p !in s.files && p !in s.dirs
  {
    if p in s.files then Some(RegularFile) else if p in s.dirs then Some(Directory) else None
  }

  lemma MakeDirsKeepsValid(s: FsState, dir: string, fault: bool)
    requires Valid(s) && CanMakeDirs(s, dir, fault)
    ensures Valid(WithDirs(s, dir))
  {
  }

  lemma WriteKeepsValid(s: FsState, p: string, content: string, fault: bool)
    requires Valid(s) && CanWrite(s, p, fault)
    ensures Valid(WithFile(s, p, content))
  {
  }

  /** Creating directories that already exist changes nothing. */
  lemma MakeDirsIdempotent(s: FsState, dir: string)
    ensures WithDirs(WithDirs(s, dir), dir) == WithDirs(s, dir)
  {
  }

  /** What was written is what is read back. */
  lemma ReadAfterWrite(s: FsState, p: string, content: string)
    ensures Read(WithFile(s, p, content), p, false) == Some(content)
  {
  }

  /** A write to one path leaves what every other path reads. */
  lemma WriteLeavesOthers(s: FsState, p: string, q: string, content: string, fault: bool)
    requires q != p
    ensures Read(WithFile(s, p, content), q, fault) == Read(s, q, fault)
  {
  }

  /** Of two writes to the same path, the second wins. */
  lemma LastWriteWins(s: FsState, p: string, first: string, second: string)
    ensures WithFile(WithFile(s, p, first), p, second) == WithFile(s, p, second)
  {
  }

  /** After `mkdir -p` on its parent, a path that is not a directory and does not end
      with '/' can be written. */
  lemma WritableAfterMakeDirs(s: FsState, p: string)
    requires p !in s.dirs && !EndsWith(p, "/") && |p| >= 2
    ensures CanWrite(WithDirs(s, Dirname(p)), p, false)
  {
    LineageBelow(Dirname(p), p);
  }

  /** A path at least two characters long is none of the directories `mkdir -p`
      creates for its parent. */
  lemma LineageBelow(d: string, p: string)
    requires d == Dirname(p) && |p| >= 2
    ensures p !in Lineage(d)
  {
  }

  /** The filesystem as the handlers see it: an object whose files and directories
      `mkdir` and `writeFile` update in place. */
  class FileSystem {
    var files: map<string, string>
    var dirs: set<string>

    function State(): FsState
      reads this
    {
      FsState(files, dirs)
    }

    constructor(files: map<string, string>, dirs: set<string>)
      ensures State() == FsState(files, dirs)
    {
      this.files := files;
      this.dirs := dirs;
    }

    /** `shell.mkdir('-p', dir)`, then `shell.error()`: true when it failed, in
        which case nothing changed. */
    method MakeDirectories(dir: string, fault: bool) returns (failed: bool)
      modifies this
      ensures failed <==> !CanMakeDirs(old(State()), dir, fault)
      ensures State() == if failed then old(State()) else WithDirs(old(State()), dir)
    {
      failed := !CanMakeDirs(State(), dir, fault);
      if !failed {
        dirs := dirs + Lineage(dir);
      }
    }

    /** `writeFile(p, content)`: false when it rejected, in which case nothing
        changed. */
    method WriteFile(p: string, content: string, fault: bool) returns (written: bool)
      modifies this
      ensures written <==> CanWrite(old(State()), p, fault)
      ensures State() == if written then WithFile(old(State()), p, content) else old(State())
    {
      written := CanWrite(State(), p, fault);
      if written {
        files := files[p := content];
      }
    }

    /** `readFile(p)`: None when it rejected. */
    method ReadFile(p: string, fault: bool) returns (r: Option<string>)
      ensures r == Read(State(), p, fault)
    {
      if !fault && p in files {
        r := Some(files[p]);
      } else {
        r := None;
      }
    }

    /** `lstat(p)`: None when it rejected. */
    method Lstat(p: string) returns (r: Option<Kind>)
      ensures r == KindOf(State(), p)
    {
      if p in files {
        r := Some(RegularFile);
      } else if p in dirs {
        r := Some(Directory);
      } else {
        r := None;
      }
    }
  }
}
