/** The device's file system: absolute paths to directories, files and symbolic links.

    A call succeeds when the environment lets it (`ok`) and POSIX does; a failed call changes nothing. */
module FileSystem {
  import opened Bytes
  import opened Paths

  datatype Node = Dir | File(ino: nat) | Symlink

  datatype Inode = Inode(content: bytes, mode: nat)

  /** Names and file contents are apart, so that an open file survives renaming and unlinking. */
  datatype FS = FS(nodes: map<bytes, Node>, inodes: map<nat, Inode>, nextIno: nat)

  const CREATE_MODE: nat := 0x1A4

  predicate IsFile(fs: FS, path: bytes)
  {
    path in fs.nodes && fs.nodes[path].File?
  }

  predicate IsDir(fs: FS, path: bytes)
  {
    path in fs.nodes && fs.nodes[path].Dir?
  }

  /** Every directory on the way to `path` exists. */
  predicate ParentDirs(fs: FS, path: bytes)
  {
    forall i :: 0 < i < |path| && path[i] == SLASH ==> IsDir(fs, path[..i])
  }

  /** File names denote known inodes, and no two names share one. */
  ghost predicate Valid(fs: FS)
  {
    && (forall p :: IsFile(fs, p) ==> fs.nodes[p].ino in fs.inodes)
    && (forall i :: i in fs.inodes ==> i < fs.nextIno)
    && (forall p, q :: IsFile(fs, p) && IsFile(fs, q) && fs.nodes[p].ino == fs.nodes[q].ino ==> p == q)
  }

  /** The content that a reader of `path` finds. */
  function Content(fs: FS, path: bytes): Option<bytes>
  {
    if IsFile(fs, path) && fs.nodes[path].ino in fs.inodes then Some(fs.inodes[fs.nodes[path].ino].content) else None
  }

  datatype Opened = Opened(fs: FS, ino: nat)

  /** `fopen(path, "wb")`: truncates an existing file, creates a missing one. */
  function OpenWrite(fs: FS, path: bytes, ok: bool): Option<Opened>
  {
    if !ok || !ParentDirs(fs, path) then None
    else if path !in fs.nodes then
      var ino := fs.nextIno;
      Some(Opened(FS(fs.nodes[path := File(ino)], fs.inodes[ino := Inode([], CREATE_MODE)], ino + 1), ino))
    else if IsFile(fs, path) && fs.nodes[path].ino in fs.inodes then
      var ino := fs.nodes[path].ino;
      Some(Opened(fs.(inodes := fs.inodes[ino := fs.inodes[ino].(content := [])]), ino))
    else None
  }

  /** Bytes written at an offset; a gap behind the end reads as zeros. */
  function Splice(content: bytes, off: nat, data: bytes): bytes
  {
    var head := if off <= |content| then content[..off] else content + seq(off - |content|, _ => 0);
    head + data + (if off + |data| < |content| then content[off + |data|..] else [])
  }

  function WriteAt(fs: FS, ino: nat, off: nat, data: bytes): FS
  {
    if ino in fs.inodes then
      fs.(inodes := fs.inodes[ino := fs.inodes[ino].(content := Splice(fs.inodes[ino].content, off, data))])
    else fs
  }

  function Rename(fs: FS, from: bytes, to: bytes, ok: bool): (FS, bool)
  {
    if ok && IsFile(fs, from) && !IsDir(fs, to) && ParentDirs(fs, to) then
      (fs.(nodes := (fs.nodes - {from})[to := fs.nodes[from]]), true)
    else (fs, false)
  }

  function Unlink(fs: FS, path: bytes, ok: bool): (FS, bool)
  {
    if ok && path in fs.nodes && !fs.nodes[path].Dir? then (fs.(nodes := fs.nodes - {path}), true) else (fs, false)
  }

  function Chmod(fs: FS, path: bytes, mode: nat, ok: bool): (FS, bool)
  {
    if ok && IsFile(fs, path) && fs.nodes[path].ino in fs.inodes then
      var ino := fs.nodes[path].ino;
      (fs.(inodes := fs.inodes[ino := fs.inodes[ino].(mode := mode)]), true)
    else (fs, false)
  }
}
