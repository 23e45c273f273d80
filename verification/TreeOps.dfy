/** Operations that walk the directory tree: recursive delete and parent-creating mkdir. */
module TreeOps {
  import opened Bytes
  import opened Paths
  import opened FileSystem
  import opened Uploads

  predicate Beneath(p: bytes, k: bytes)
  {
    |p| < |k| && k[..|p|] == p && k[|p|] == SLASH
  }

  predicate AtOrBeneath(p: bytes, k: bytes)
  {
    p == k || Beneath(p, k)
  }

  /** `k` would be an entry called `.` or `..`. */
  predicate DotEntry(k: bytes)
  {
    (|k| >= 2 && k[|k| - 2..] == [SLASH] + DOT) || (|k| >= 3 && k[|k| - 3..] == [SLASH] + DOTDOT)
  }

  /** Every entry's ancestors are directories; no entry is called `.` or `..`. */
  ghost predicate TreeValid(fs: FS)
  {
    forall k :: k in fs.nodes ==> ParentDirs(fs, k) && !DotEntry(k)
  }

  /** The names in directory `p`. */
  function Children(fs: FS, p: bytes): set<bytes>
  {
    set k | k in fs.nodes && Beneath(p, k) && SLASH !in k[|p| + 1..] :: k[|p| + 1..]
  }

  function Child(p: bytes, name: bytes): bytes
  {
    p + [SLASH] + name
  }

  lemma BeneathChild(p: bytes, name: bytes, k: bytes)
    requires AtOrBeneath(Child(p, name), k)
    ensures Beneath(p, k)
  {
    assert Child(p, name)[..|p|] == p && Child(p, name)[|p|] == SLASH;
    if k != Child(p, name) {
      assert k[..|Child(p, name)|] == Child(p, name);
      assert k[..|p|] == Child(p, name)[..|p|];
    }
  }

  /** Whatever is beneath a directory is at or beneath one of its children. */
  lemma UnderSomeChild(fs: FS, p: bytes, k: bytes)
    requires TreeValid(fs) && k in fs.nodes && Beneath(p, k)
    ensures Children(fs, p) != {}
  {
    var tail := k[|p| + 1..];
    var n := FirstSlash(tail);
    var top := k[..|p| + 1 + n];
    TopOfPath(p, k, n);
    hide FirstSlash;
    assert top in fs.nodes by {
      if n < |tail| {
        hide Beneath, DotEntry;
        assert k[|p| + 1 + n] == tail[n] == SLASH;
        assert ParentDirs(fs, k);
        assert IsDir(fs, k[..|p| + 1 + n]);
      } else {
        assert top == k;
      }
    }
    hide TreeValid, Beneath;
    TopIsChild(fs, p, top);
  }

  lemma TopIsChild(fs: FS, p: bytes, top: bytes)
    requires top in fs.nodes && Beneath(p, top) && SLASH !in top[|p| + 1..]
    ensures Children(fs, p) != {}
  {
    assert top[|p| + 1..] in Children(fs, p);
  }

  lemma TopOfPath(p: bytes, k: bytes, n: nat)
    requires Beneath(p, k) && n == FirstSlash(k[|p| + 1..])
    ensures var top := k[..|p| + 1 + n];
            Beneath(p, top) && SLASH !in top[|p| + 1..]
  {
    var top := k[..|p| + 1 + n];
    assert top[..|p|] == k[..|p|] == p;
    assert top[|p| + 1..] == k[|p| + 1..][..n];
  }

  // ---- What a removal may do to the tree -----------------------------------------------------

  /** `after` is `before` without some entries at or beneath `path`. */
  ghost predicate Pruned(before: FS, after: FS, path: bytes)
  {
    && after.inodes == before.inodes && after.nextIno == before.nextIno && TreeValid(after)
    && (forall k :: k in after.nodes ==> k in before.nodes && after.nodes[k] == before.nodes[k])
    && (forall k :: k in before.nodes && k !in after.nodes ==> AtOrBeneath(path, k))
  }

  ghost predicate PrunedBeneath(before: FS, after: FS, path: bytes)
  {
    Pruned(before, after, path) && (path in before.nodes ==> path in after.nodes)
  }

  /** Nothing at or beneath `path` is left. */
  ghost predicate Cleared(fs: FS, path: bytes)
  {
    forall k :: k in fs.nodes ==> !AtOrBeneath(path, k)
  }

  lemma PruneChild(a: FS, b: FS, c: FS, path: bytes, name: bytes)
    requires PrunedBeneath(a, b, path) && Pruned(b, c, Child(path, name))
    ensures PrunedBeneath(a, c, path)
    ensures Children(c, path) <= Children(b, path)
    ensures Cleared(c, Child(path, name)) ==> name !in Children(c, path)
  {
    hide Child, Beneath, AtOrBeneath, TreeValid;
    RemovedBeneath(b, c, path, name);
    PruneMore(a, b, c, path, Child(path, name));
    FewerChildren(b, c, path);
    if Cleared(c, Child(path, name)) {
      hide Cleared, Children;
      ClearedChild(c, path, name);
    }
  }

  lemma RemovedBeneath(b: FS, c: FS, path: bytes, name: bytes)
    requires forall k :: k in b.nodes && k !in c.nodes ==> AtOrBeneath(Child(path, name), k)
    ensures forall k :: k in b.nodes && k !in c.nodes ==> Beneath(path, k)
  {
    forall k | k in b.nodes && k !in c.nodes ensures Beneath(path, k) {
      BeneathChild(path, name, k);
    }
  }

  lemma PruneMore(a: FS, b: FS, c: FS, path: bytes, child: bytes)
    requires PrunedBeneath(a, b, path) && Pruned(b, c, child)
    requires forall k :: k in b.nodes && k !in c.nodes ==> Beneath(path, k)
    ensures PrunedBeneath(a, c, path)
  {
    assert !Beneath(path, path);
    hide TreeValid, Beneath;
  }

  lemma FewerChildren(b: FS, c: FS, path: bytes)
    requires forall k :: k in c.nodes ==> k in b.nodes
    ensures Children(c, path) <= Children(b, path)
  {
    hide Beneath;
  }

  lemma ClearedChild(fs: FS, path: bytes, name: bytes)
    requires Cleared(fs, Child(path, name))
    ensures name !in Children(fs, path)
  {
    forall k | k in fs.nodes && Beneath(path, k) ensures k[|path| + 1..] != name {
      RejoinChild(path, k);
    }
  }

  lemma RejoinChild(path: bytes, k: bytes)
    requires Beneath(path, k)
    ensures k == Child(path, k[|path| + 1..])
  {
    assert k == k[..|path|] + [k[|path|]] + k[|path| + 1..];
  }

  lemma EntryName(path: bytes, k: bytes)
    requires Beneath(path, k)
    ensures k[|path| + 1..] == DOT || k[|path| + 1..] == DOTDOT ==> DotEntry(k)
  {
    var name := k[|path| + 1..];
    assert k[|path|..] == [SLASH] + name;
    if name == DOT {
      assert |k| == |path| + 2;
    } else if name == DOTDOT {
      assert |k| == |path| + 3;
    }
  }

  lemma NoDotChildren(fs: FS, path: bytes)
    requires TreeValid(fs)
    ensures DOT !in Children(fs, path) && DOTDOT !in Children(fs, path)
  {
    hide DotEntry, ParentDirs;
    forall k | k in fs.nodes && Beneath(path, k) ensures k[|path| + 1..] != DOT && k[|path| + 1..] != DOTDOT {
      assert !DotEntry(k);
      EntryName(path, k);
    }
  }

  /** Removing an entry with nothing beneath it. */
  lemma PruneLeaf(a: FS, b: FS, path: bytes)
    requires PrunedBeneath(a, b, path) && forall k :: k in b.nodes ==> !Beneath(path, k)
    ensures Pruned(a, b.(nodes := b.nodes - {path}), path) && Cleared(b.(nodes := b.nodes - {path}), path)
  {
    var c := b.(nodes := b.nodes - {path});
    forall k | k in c.nodes ensures ParentDirs(c, k) {
      assert ParentDirs(b, k) && !Beneath(path, k);
      forall i | 0 < i < |k| && k[i] == SLASH ensures IsDir(c, k[..i]) {
        assert IsDir(b, k[..i]);
        assert k[..i] == path ==> Beneath(path, k);
      }
    }
  }

  lemma NothingBeneathLeaf(fs: FS, path: bytes)
    requires TreeValid(fs) && path in fs.nodes && !fs.nodes[path].Dir? && path != []
    ensures forall k :: k in fs.nodes ==> !Beneath(path, k)
  {
    forall k | k in fs.nodes ensures !Beneath(path, k) {
      assert ParentDirs(fs, k);
      assert Beneath(path, k) ==> IsDir(fs, k[..|path|]);
    }
  }

  lemma EmptyDirectory(fs: FS, path: bytes)
    requires TreeValid(fs) && Children(fs, path) == {}
    ensures forall k :: k in fs.nodes ==> !Beneath(path, k)
  {
    forall k | k in fs.nodes ensures !Beneath(path, k) {
      if Beneath(path, k) {
        UnderSomeChild(fs, path, k);
      }
    }
  }

  // ---- How far the walk gets -----------------------------------------------------------------

  /** Every path that a walk over what is beneath `path` forms fits its buffer. */
  ghost predicate ShortBeneath(fs: FS, path: bytes)
  {
    forall k :: k in fs.nodes && Beneath(path, k) ==> |k| < PATH_MAX
  }

  /** What has been removed beneath `path` had such paths. */
  ghost predicate ShortGone(before: FS, after: FS, path: bytes)
  {
    forall k :: k in before.nodes && k !in after.nodes && Beneath(path, k) ==> |k| < PATH_MAX
  }

  lemma NothingGone(fs: FS, path: bytes)
    ensures ShortGone(fs, fs, path)
  {
  }

  lemma MoreGone(start: FS, b: FS, c: FS, path: bytes, child: bytes)
    requires ShortGone(start, b, path) && Pruned(b, c, child) && ShortBeneath(b, child) && |child| < PATH_MAX
    ensures ShortGone(start, c, path)
  {
    hide TreeValid, Beneath;
    forall k | k in start.nodes && k !in c.nodes && Beneath(path, k) ensures |k| < PATH_MAX {
      if k in b.nodes {
        assert AtOrBeneath(child, k);
      }
    }
  }

  lemma AllGone(start: FS, fs: FS, path: bytes)
    requires ShortGone(start, fs, path) && forall k :: k in fs.nodes ==> !Beneath(path, k)
    ensures ShortBeneath(start, path)
  {
    hide Beneath;
  }

  /** The entry of a directory, as a path. */
  lemma ChildThere(fs: FS, path: bytes, name: bytes)
    requires name in Children(fs, path)
    ensures Child(path, name) in fs.nodes && Beneath(path, Child(path, name)) && SLASH !in name
  {
    var k :| k in fs.nodes && Beneath(path, k) && SLASH !in k[|path| + 1..] && name == k[|path| + 1..];
    RejoinChild(path, k);
  }

  lemma ChildName(fs: FS, path: bytes, name: bytes)
    requires Child(path, name) in fs.nodes && SLASH !in name
    ensures name in Children(fs, path)
  {
    var k := Child(path, name);
    assert k[..|path|] == path && k[|path|] == SLASH && k[|path| + 1..] == name;
  }

  lemma OtherChild(path: bytes, name: bytes, other: bytes)
    requires name != other && SLASH !in other
    ensures !AtOrBeneath(Child(path, name), Child(path, other))
  {
    var p, k := Child(path, name), Child(path, other);
    assert p[|path| + 1..] == name && k[|path| + 1..] == other;
    assert |k| > |p| ==> k[|p|] == other[|name|];
  }

  /** Removing one child leaves the others where they are. */
  lemma OthersThere(b: FS, c: FS, path: bytes, name: bytes, entries: set<bytes>)
    requires Pruned(b, c, Child(path, name)) && entries <= Children(b, path) + {DOT, DOTDOT} && name !in entries
    ensures entries <= Children(c, path) + {DOT, DOTDOT}
  {
    hide Children, Child, TreeValid, AtOrBeneath;
    forall other | other in entries && other != DOT && other != DOTDOT ensures other in Children(c, path) {
      ChildThere(b, path, other);
      OtherChild(path, name, other);
      ChildName(c, path, other);
    }
  }

  /** A child of a tree in which all paths are short has a short path itself. */
  lemma ShortChild(start: FS, fs: FS, path: bytes, name: bytes)
    requires ShortBeneath(start, path) && PrunedBeneath(start, fs, path) && name in Children(fs, path)
    ensures |Child(path, name)| < PATH_MAX && ShortBeneath(fs, Child(path, name))
  {
    hide Child, TreeValid, Children, Beneath, AtOrBeneath;
    ChildThere(fs, path, name);
    forall k | k in fs.nodes && Beneath(Child(path, name), k) ensures |k| < PATH_MAX {
      BeneathMeans(Child(path, name), k);
      BeneathChild(path, name, k);
    }
  }

  lemma BeneathMeans(p: bytes, k: bytes)
    requires Beneath(p, k)
    ensures AtOrBeneath(p, k)
  {
  }

  lemma ShortLeaf(fs: FS, path: bytes)
    requires forall k :: k in fs.nodes ==> !Beneath(path, k)
    ensures ShortBeneath(fs, path)
  {
    hide Beneath;
  }

  /** Where the walk over the entries of `path` stands when `entries` are still to be read. */
  ghost predicate WalkAt(start: FS, fs: FS, path: bytes, entries: set<bytes>)
  {
    && TreeValid(fs) && PrunedBeneath(start, fs, path) && ShortGone(start, fs, path)
    && Children(fs, path) <= entries <= Children(fs, path) + {DOT, DOTDOT}
  }

  lemma WalkStarts(fs: FS, path: bytes)
    requires TreeValid(fs)
    ensures WalkAt(fs, fs, path, Children(fs, path) + {DOT, DOTDOT})
  {
    PruneNothing(fs, path);
    NothingGone(fs, path);
    hide Pruned, PrunedBeneath, Children, ShortGone, TreeValid;
  }

  lemma WalkSkips(start: FS, fs: FS, path: bytes, entries: set<bytes>, name: bytes)
    requires WalkAt(start, fs, path, entries) && (name == DOT || name == DOTDOT)
    ensures WalkAt(start, fs, path, entries - {name})
  {
    NoDotChildren(fs, path);
    hide PrunedBeneath, Children, ShortGone, TreeValid;
  }

  /** The next entry is there, and its path is short when all are. */
  lemma WalkFinds(start: FS, fs: FS, path: bytes, entries: set<bytes>, name: bytes)
    requires WalkAt(start, fs, path, entries) && name in entries && name != DOT && name != DOTDOT
    ensures TreeValid(fs) && |Child(path, name)| > |path| && Child(path, name) in fs.nodes
    ensures ShortBeneath(start, path) ==> |Child(path, name)| < PATH_MAX && ShortBeneath(fs, Child(path, name))
  {
    hide PrunedBeneath, Children, ShortGone, TreeValid, Child, ShortBeneath, Beneath;
    ChildIsLonger(path, name);
    ChildThere(fs, path, name);
    if ShortBeneath(start, path) {
      ShortChild(start, fs, path, name);
    }
  }

  lemma WalkSteps(start: FS, b: FS, c: FS, path: bytes, entries: set<bytes>, name: bytes)
    requires WalkAt(start, b, path, entries) && name in entries && name != DOT && name != DOTDOT
    requires Pruned(b, c, Child(path, name))
    ensures PrunedBeneath(start, c, path) && TreeValid(c)
    ensures |Child(path, name)| < PATH_MAX && ShortBeneath(b, Child(path, name)) && Cleared(c, Child(path, name)) ==>
              WalkAt(start, c, path, entries - {name})
  {
    hide Pruned, PrunedBeneath, Children, ShortGone, TreeValid, Child, ShortBeneath, Beneath, Cleared;
    var child := Child(path, name);
    PruneChild(start, b, c, path, name);
    PrunedTree(b, c, child);
    if |child| < PATH_MAX && ShortBeneath(b, child) && Cleared(c, child) {
      MoreGone(start, b, c, path, child);
      OthersThere(b, c, path, name, entries - {name});
    }
  }

  lemma WalkEnds(start: FS, fs: FS, path: bytes)
    requires WalkAt(start, fs, path, {})
    ensures Children(fs, path) == {} && ShortBeneath(start, path)
  {
    hide PrunedBeneath, ShortGone, ShortBeneath, Beneath;
    EmptyDirectory(fs, path);
    AllGone(start, fs, path);
  }

  lemma WalkMeans(start: FS, fs: FS, path: bytes, entries: set<bytes>)
    requires WalkAt(start, fs, path, entries)
    ensures PrunedBeneath(start, fs, path) && TreeValid(fs)
  {
    hide PrunedBeneath, ShortGone, TreeValid, Children;
  }

  // ---- System calls on one path --------------------------------------------------------------

  predicate AllPermitted(calls: seq<bool>)
  {
    forall i :: 0 <= i < |calls| ==> calls[i]
  }

  /** A file system, and which of the coming system calls the kernel permits; behind the list it permits
      all of them. */
  class Disk {
    var fs: FS
    var calls: seq<bool>

    constructor (fs: FS, calls: seq<bool>)
      ensures this.fs == fs && this.calls == calls
    {
      this.fs, this.calls := fs, calls;
    }

    /** Whether the kernel permits the next call. */
    method Permit() returns (ok: bool)
      modifies this`calls
      ensures AllPermitted(old(calls)) ==> ok && AllPermitted(calls)
    {
      ok := calls == [] || calls[0];
      if calls != [] {
        calls := calls[1..];
      }
    }

    /** `lstat`. */
    method LStat(path: bytes) returns (node: Option<Node>)
      modifies this`calls
      ensures node.Some? ==> path in fs.nodes && node.value == fs.nodes[path]
      ensures AllPermitted(old(calls)) ==> AllPermitted(calls) && (node.Some? <==> path in fs.nodes)
    {
      var ok := Permit();
      node := if ok && path in fs.nodes then Some(fs.nodes[path]) else None;
    }

    /** `unlink`. */
    method Remove(path: bytes) returns (ok: bool)
      modifies this
      ensures fs == if ok then old(fs).(nodes := old(fs).nodes - {path}) else old(fs)
      ensures ok ==> path in old(fs).nodes && !old(fs).nodes[path].Dir?
      ensures AllPermitted(old(calls)) ==>
                AllPermitted(calls) && (path in old(fs).nodes && !old(fs).nodes[path].Dir? ==> ok)
    {
      var permitted := Permit();
      var (next, done) := Unlink(fs, path, permitted);
      fs, ok := next, done;
    }

    /** `rmdir`: only an empty directory goes. */
    method RemoveDir(path: bytes) returns (ok: bool)
      modifies this
      ensures fs == if ok then old(fs).(nodes := old(fs).nodes - {path}) else old(fs)
      ensures ok ==> IsDir(old(fs), path) && forall k :: k in old(fs).nodes ==> !Beneath(path, k)
      ensures AllPermitted(old(calls)) ==>
                && AllPermitted(calls)
                && (IsDir(old(fs), path) && (forall k :: k in old(fs).nodes ==> !Beneath(path, k)) ==> ok)
    {
      ok := Permit();
      ok := ok && IsDir(fs, path) && forall k :: k in fs.nodes ==> !Beneath(path, k);
      if ok {
        fs := fs.(nodes := fs.nodes - {path});
      }
    }

    /** `mkdir`; the root is always there. */
    method MakeDir(path: bytes) returns (r: Made)
      modifies this
      ensures r.Created? ==> path !in old(fs).nodes && path != [SLASH] && ParentDirs(old(fs), path)
                             && fs == old(fs).(nodes := old(fs).nodes[path := Dir])
      ensures r.Exists? ==> path in old(fs).nodes || path == [SLASH]
      ensures !r.Created? ==> fs == old(fs)
      ensures AllPermitted(old(calls)) ==>
                && AllPermitted(calls)
                && (r.Exists? <==> path in old(fs).nodes || path == [SLASH])
                && (r.Created? <==> path !in old(fs).nodes && path != [SLASH] && ParentDirs(old(fs), path))
    {
      var permitted := Permit();
      if permitted && (path in fs.nodes || path == [SLASH]) {
        r := Exists;
      } else if permitted && ParentDirs(fs, path) {
        fs := fs.(nodes := fs.nodes[path := Dir]);
        r := Created;
      } else {
        r := Refused;
      }
    }

    // ---- Recursive delete --------------------------------------------------------------------

    /** `remove_path_recursive`.  Only entries at or beneath the target go, and every surviving entry
        keeps its ancestors; on success the target was there and nothing at or beneath it is left.  When
        the kernel permits all calls it succeeds exactly when the target is there and every path that the
        walk forms fits its buffer. */
    method RemoveRecursive(path: bytes) returns (ok: bool)
      requires TreeValid(fs) && path != []
      modifies this
      ensures Pruned(old(fs), fs, path)
      ensures ok ==> path in old(fs).nodes && Cleared(fs, path) && ShortBeneath(old(fs), path)
      ensures AllPermitted(old(calls)) ==>
                AllPermitted(calls) && (ok <==> path in old(fs).nodes && ShortBeneath(old(fs), path))
      decreases PATH_MAX - |path|
    {
      hide Pruned, Cleared, Children, TreeValid, Child, ShortBeneath, Beneath, AllPermitted;
      ghost var start := fs;
      PruneNothing(fs, path);
      var node := LStat(path);
      if node.None? {
        return false;
      }
      if node.value.Dir? {
        var opens := Permit();
        if !opens {
          return false;
        }
        ok := RemoveEntries(path);
        if !ok {
          return false;
        }
        ghost var emptied := fs;
        EmptyDirectory(emptied, path);
        PruneLeaf(start, emptied, path);
        StillDirectory(start, emptied, path);
        ok := RemoveDir(path);
        return;
      }
      NothingBeneathLeaf(fs, path);
      ShortLeaf(fs, path);
      PruneLeaf(start, fs, path);
      ok := Remove(path);
    }

    /** The `readdir` loop, in any order of the entries. */
    method RemoveEntries(path: bytes) returns (ok: bool)
      requires TreeValid(fs) && path in fs.nodes
      modifies this
      ensures PrunedBeneath(old(fs), fs, path) && TreeValid(fs)
      ensures ok ==> Children(fs, path) == {} && ShortBeneath(old(fs), path)
      ensures AllPermitted(old(calls)) ==> AllPermitted(calls) && (ShortBeneath(old(fs), path) ==> ok)
      decreases PATH_MAX - |path|, 0
    {
      hide *;
      ghost var start := fs;
      ghost var permitted := AllPermitted(calls);
      var entries := Children(fs, path) + {DOT, DOTDOT};
      WalkStarts(fs, path);
      while entries != {}
        invariant WalkAt(start, fs, path, entries)
        invariant permitted ==> AllPermitted(calls)
        decreases entries
      {
        var name :| name in entries;
        WalkMeans(start, fs, path, entries);
        if name == DOT || name == DOTDOT {
          WalkSkips(start, fs, path, entries, name);
          entries := entries - {name};
          continue;
        }
        var child := Child(path, name);
        WalkFinds(start, fs, path, entries, name);
        if |child| >= PATH_MAX {
          return false;
        }
        ghost var before := fs;
        var removed := RemoveRecursive(child);
        WalkSteps(start, before, fs, path, entries, name);
        if !removed {
          return false;
        }
        entries := entries - {name};
      }
      ok := true;
      WalkEnds(start, fs, path);
      WalkMeans(start, fs, path, {});
    }

    /** `usb_responder_file_delete`: resolves the path, refuses the two storage roots, then removes. */
    method DeletePath(relative: bytes, desire: Option<bytes>, sdMounted: bool) returns (ok: bool)
      requires TreeValid(fs)
      modifies this
      ensures var target := Resolve(relative, desire, sdMounted);
              if target.None? || StorageRoot(target.value) then !ok && fs == old(fs)
              else Pruned(old(fs), fs, target.value)
                   && (ok ==> target.value in old(fs).nodes && Cleared(fs, target.value))
      ensures var target := Resolve(relative, desire, sdMounted);
              target == Some([0x2F]) || target == Some([0x2F, 0x73, 0x64]) ==> !ok && fs == old(fs)
      ensures var target := Resolve(relative, desire, sdMounted);
              AllPermitted(old(calls)) && target.Some? && target.value != [0x2F] && target.value != [0x2F, 0x73, 0x64]
              ==> (ok <==> target.value in old(fs).nodes && ShortBeneath(old(fs), target.value))
    {
      hide BuildPath, ShortBeneath, AllPermitted;
      var buffer := new byte[PATH_MAX];
      var built, storage, length := BuildPathInPlace(relative, buffer, PATH_MAX);
      if !built || !StorageMatches(storage, desire) || (storage.Sd? && !sdMounted) {
        return false;
      }
      var path := buffer[..length];
      if path == [SLASH] || path == [SLASH] + SD {
        return false;
      }
      ResolvedNotEmpty(relative, desire, sdMounted);
      ok := RemoveRecursive(path);
    }

    // ---- Parent-creating mkdir ---------------------------------------------------------------

    /** `usb_responder_dir_mkdir`. */
    method MakeDirectory(relative: bytes, parents: bool, desire: Option<bytes>, sdMounted: bool) returns (ok: bool)
      modifies this
      ensures Resolve(relative, desire, sdMounted).None? ==> !ok && fs == old(fs)
      ensures Resolve(relative, desire, sdMounted).Some? && !parents ==>
                var path := Resolve(relative, desire, sdMounted).value;
                && fs == (if ok then old(fs).(nodes := old(fs).nodes[path := Dir]) else old(fs))
                && (AllPermitted(old(calls)) ==>
                      (ok <==> path !in old(fs).nodes && path != [0x2F] && ParentDirs(old(fs), path)))
      ensures Resolve(relative, desire, sdMounted).Some? && parents ==>
                var cs := Kept(relative);
                && (exists n :: 0 <= n <= |cs| && (ok <==> n == |cs|) && MadeUpTo(old(fs), fs, cs, n))
                && (AllPermitted(old(calls)) ==> (ok <==> Unblocked(old(fs), cs)))
    {
      hide MadeUpTo, Unblocked, AllPermitted, ParentDirs;
      var buffer := new byte[PATH_MAX];
      var built, storage, length := BuildPathInPlace(relative, buffer, PATH_MAX);
      if !built || !StorageMatches(storage, desire) || (storage.Sd? && !sdMounted) {
        return false;
      }
      var path := buffer[..length];
      if !parents {
        var made := MakeDir(path);
        return made.Created?;
      }
      KeptPlain(relative);
      ghost var reached: nat;
      ghost var visited: seq<bytes>;
      ok, reached, visited := MakeDirs(path, Kept(relative));
    }

    /** The `parents` branch: re-tokenises the canonical path and calls `mkdir` on one prefix after the
        other.  Exactly the `reached` first prefixes are made sure of, and nothing else changes.  When the
        kernel permits all calls, nothing but an entry that is no directory stands in the way. */
    method MakeDirs(path: bytes, ghost cs: seq<bytes>) returns (ok: bool, ghost reached: nat, ghost visited: seq<bytes>)
      requires AllPlain(cs) && path == Join(cs) && |path| < PATH_MAX
      modifies this
      ensures reached <= |cs| && (ok <==> reached == |cs|)
      ensures MadeUpTo(old(fs), fs, cs, reached)
      ensures |visited| == if ok then reached else reached + 1
      ensures forall i :: 0 <= i < |visited| ==> visited[i] == Prefix(cs, i + 1)
      ensures AllPermitted(old(calls)) ==> AllPermitted(calls) && (ok <==> Unblocked(old(fs), cs))
    {
      hide Slashed, Join, FirstSlash, MadeUpTo, AllPlain, Unblocked, AllPermitted, ParentDirs, Offset, IsDir, Prefix;
      var work := [SLASH];
      var r := 1;
      ok, reached, visited := true, 0, [];
      StartOfPath(fs, cs);
      while r < |path|
        invariant reached <= |cs| && MadeUpTo(old(fs), fs, cs, reached)
        invariant work == Prefix(cs, reached)
        invariant r == Offset(cs, reached)
        invariant |visited| == reached && forall i :: 0 <= i < |visited| ==> visited[i] == Prefix(cs, i + 1)
        invariant AllPermitted(old(calls)) ==> AllPermitted(calls)
      {
        EndOfPath(cs);
        while r < |path| && path[r] == SLASH
          invariant Offset(cs, reached) <= r <= |path|
          invariant r > Offset(cs, reached) ==> path[Offset(cs, reached)] == SLASH
        {
          r := r + 1;
        }
        RestOfPath(cs, reached);
        var seglen := FirstSlash(path[r..]);
        var seg := path[r..r + seglen];
        work := work + (if work == [SLASH] then [] else [SLASH]) + seg;
        // The `path too long` branch of the source is never taken: `work` is a prefix of `path`.
        PrefixFits(cs, reached + 1);
        assert |work| < PATH_MAX;
        ghost var before := fs;
        visited := visited + [work];
        NextPrefix(old(fs), before, cs, reached);
        var made := MakeDir(work);
        if made.Refused? {
          return false, reached, visited;
        }
        if made.Exists? {
          var answered := Permit();
          if !answered || !IsDir(fs, work) {
            return false, reached, visited;
          }
        }
        OneMade(before, fs, cs, reached, made);
        OneMore(old(fs), before, fs, cs, reached);
        reached := reached + 1;
        r := if r + seglen < |path| then r + seglen + 1 else |path|;
      }
      EndOfPath(cs);
      if reached < |cs| {
        RestOfPath(cs, reached);
      }
      AllMade(old(fs), fs, cs);
    }
  }

  /** No prefix of the path is taken by something else than a directory. */
  ghost predicate Unblocked(fs: FS, cs: seq<bytes>)
  {
    forall i :: 1 <= i <= |cs| && Prefix(cs, i) in fs.nodes ==> IsDir(fs, Prefix(cs, i))
  }

  lemma {:induction false} PrefixParents(fs: FS, cs: seq<bytes>, n: nat)
    requires AllPlain(cs) && n < |cs| && forall i :: 1 <= i <= n ==> IsDir(fs, Prefix(cs, i))
    ensures ParentDirs(fs, Prefix(cs, n + 1))
  {
    hide Slashed;
    var head, c := Slashed(cs[..n]), cs[n];
    ExtendPath(cs, n);
    assert PlainName(c);
    var work := Prefix(cs, n + 1);
    assert work == head + ([SLASH] + c);
    if n == 0 {
      EmptySlashed();
      assert cs[..0] == [];
    } else {
      PrefixParents(fs, cs, n - 1);
      assert Prefix(cs, n) == head;
    }
    assert forall i :: |head| < i < |work| ==> work[i] == c[i - |head| - 1] && work[i] in c;
    forall i | 0 < i < |work| && work[i] == SLASH ensures IsDir(fs, work[..i]) {
      if i == |head| {
        assert work[..i] == head;
      } else {
        assert head[i] == SLASH && head[..i] == work[..i];
      }
    }
  }

  /** What the next `mkdir` finds. */
  lemma NextPrefix(start: FS, fs: FS, cs: seq<bytes>, n: nat)
    requires AllPlain(cs) && n < |cs| && MadeUpTo(start, fs, cs, n)
    ensures Prefix(cs, n + 1) != [SLASH] && ParentDirs(fs, Prefix(cs, n + 1))
    ensures Unblocked(start, cs) && Prefix(cs, n + 1) in fs.nodes ==> IsDir(fs, Prefix(cs, n + 1))
  {
    PrefixParents(fs, cs, n);
    hide ParentDirs, Slashed;
    ExtendPath(cs, n);
    assert PlainName(cs[n]);
    if Prefix(cs, n + 1) in fs.nodes && Prefix(cs, n + 1) !in start.nodes {
      var i :| 1 <= i <= n && Prefix(cs, n + 1) == Prefix(cs, i);
    }
  }

  lemma OneMade(before: FS, after: FS, cs: seq<bytes>, n: nat, made: Made)
    requires n < |cs| && (IsDir(after, Prefix(cs, n + 1)) || made.Created?)
    requires made.Created? ==> after == before.(nodes := before.nodes[Prefix(cs, n + 1) := Dir])
    ensures IsDir(after, Prefix(cs, n + 1))
  {
    hide Prefix;
  }

  lemma AllMade(before: FS, after: FS, cs: seq<bytes>)
    requires MadeUpTo(before, after, cs, |cs|)
    ensures Unblocked(before, cs)
  {
    hide Prefix;
  }

  lemma ResolvedNotEmpty(relative: bytes, desire: Option<bytes>, sdMounted: bool)
    ensures Resolve(relative, desire, sdMounted).Some? ==> Resolve(relative, desire, sdMounted).value != []
  {
  }

  /** `path_is_storage_root`. */
  predicate StorageRoot(path: bytes)
  {
    path == [SLASH] || path == [SLASH] + SD
  }

  /** The path of the first `n` components. */
  function Prefix(cs: seq<bytes>, n: nat): bytes
    requires n <= |cs|
  {
    Join(cs[..n])
  }

  /** The first `n` prefixes are directories, and are the only names that may be new. */
  ghost predicate MadeUpTo(before: FS, after: FS, cs: seq<bytes>, n: nat)
    requires n <= |cs|
  {
    && after.inodes == before.inodes && after.nextIno == before.nextIno
    && (forall i :: 1 <= i <= n ==> IsDir(after, Prefix(cs, i)))
    && (forall k :: k in before.nodes ==> k in after.nodes && after.nodes[k] == before.nodes[k])
    && (forall k :: k in after.nodes && k !in before.nodes ==> exists i :: 1 <= i <= n && k == Prefix(cs, i))
  }

  /** Where the tokeniser stands after `n` components: behind the slash in front of the next one. */
  function Offset(cs: seq<bytes>, n: nat): nat
    requires n <= |cs|
  {
    if n == |cs| then |Join(cs)| else 1 + |Slashed(cs[..n])|
  }

  lemma StartOfPath(fs: FS, cs: seq<bytes>)
    ensures Offset(cs, 0) == 1 && Prefix(cs, 0) == [SLASH] && MadeUpTo(fs, fs, cs, 0)
  {
    assert cs[..0] == [];
  }

  lemma EndOfPath(cs: seq<bytes>)
    ensures Offset(cs, |cs|) == |Join(cs)|
  {
  }

  lemma SlashedCons(c: bytes, cs: seq<bytes>)
    ensures Slashed([c] + cs) == [SLASH] + (c + Slashed(cs))
  {
    assert ([c] + cs)[1..] == cs;
  }

  /** The canonical path, cut behind its first `n` components. */
  lemma CutPath(cs: seq<bytes>, n: nat)
    requires n < |cs|
    ensures Slashed(cs) == Slashed(cs[..n]) + ([SLASH] + (cs[n] + Slashed(cs[n + 1..])))
  {
    hide Slashed;
    assert cs == cs[..n] + ([cs[n]] + cs[n + 1..]);
    SlashedAppend(cs[..n], [cs[n]] + cs[n + 1..]);
    SlashedCons(cs[n], cs[n + 1..]);
  }

  lemma ExtendPath(cs: seq<bytes>, n: nat)
    requires n < |cs|
    ensures Slashed(cs[..n + 1]) == Slashed(cs[..n]) + ([SLASH] + cs[n])
  {
    hide Slashed;
    assert cs[..n + 1] == cs[..n] + [cs[n]];
    SlashedAppend(cs[..n], [cs[n]]);
    OneSlashed(cs[n]);
  }

  lemma OneSlashed(c: bytes)
    ensures Slashed([c]) == [SLASH] + c
  {
  }

  lemma SlashedGrows(cs: seq<bytes>)
    requires AllPlain(cs) && cs != []
    ensures |Slashed(cs)| >= 2 && Slashed(cs)[0] == SLASH
  {
    assert PlainName(cs[0]);
  }

  lemma ReadAt(path: bytes, head: bytes, c: bytes, rest: bytes)
    requires path == head + ([SLASH] + (c + rest)) && PlainName(c) && (rest == [] || rest[0] == SLASH)
    ensures var r := |head| + 1;
            && r + |c| + |rest| == |path| && path[r] != SLASH
            && FirstSlash(path[r..]) == |c| && path[r..r + |c|] == c
  {
    var r := |head| + 1;
    FirstSlashAfter(c, rest);
    hide FirstSlash;
    assert path[r..] == c + rest;
    assert path[r..r + |c|] == path[r..][..|c|] == c;
    assert path[r] == c[0];
  }

  /** One component of the canonical path, read at its offset. */
  lemma RestOfPath(cs: seq<bytes>, n: nat)
    requires AllPlain(cs) && n < |cs|
    ensures var path, r, c := Join(cs), Offset(cs, n), cs[n];
            && r < |path| && path[r] != SLASH
            && FirstSlash(path[r..]) == |c| && r + |c| <= |path| && path[r..r + |c|] == c
            && Offset(cs, n + 1) == (if r + |c| < |path| then r + |c| + 1 else |path|)
            && Prefix(cs, n + 1) == Prefix(cs, n) + (if Prefix(cs, n) == [SLASH] then [] else [SLASH]) + c
  {
    hide Slashed, FirstSlash;
    var head, c, rest := Slashed(cs[..n]), cs[n], Slashed(cs[n + 1..]);
    CutPath(cs, n);
    ExtendPath(cs, n);
    NextComponent(cs, n);
    if n + 1 == |cs| {
      assert cs[n + 1..] == [] && cs[..n + 1] == cs;
      EmptySlashed();
    } else {
      SlashedGrows(cs[n + 1..]);
    }
    assert PlainName(c);
    ReadAt(Join(cs), head, c, rest);
  }

  /** One component more. */
  lemma NextComponent(cs: seq<bytes>, n: nat)
    requires AllPlain(cs) && n < |cs|
    ensures Prefix(cs, n + 1) == Prefix(cs, n) + (if Prefix(cs, n) == [SLASH] then [] else [SLASH]) + cs[n]
  {
    hide Slashed, FirstSlash;
    var head, c := Slashed(cs[..n]), cs[n];
    ExtendPath(cs, n);
    if n == 0 {
      assert cs[..n] == [];
      EmptySlashed();
      assert [] + ([SLASH] + c) == [SLASH] + [] + c;
    } else {
      assert AllPlain(cs[..n]);
      SlashedGrows(cs[..n]);
      assert head + ([SLASH] + c) == head + [SLASH] + c;
    }
  }

  lemma EmptySlashed()
    ensures Slashed([]) == []
  {
  }

  lemma PrefixFits(cs: seq<bytes>, n: nat)
    requires n <= |cs|
    ensures |Prefix(cs, n)| <= |Join(cs)|
  {
    assert cs == cs[..n] + cs[n..];
    SlashedAppend(cs[..n], cs[n..]);
    if n == 0 {
      assert cs[..n] == [];
    }
  }

  lemma OneMore(start: FS, before: FS, after: FS, cs: seq<bytes>, n: nat)
    requires n < |cs| && MadeUpTo(start, before, cs, n)
    requires IsDir(after, Prefix(cs, n + 1))
    requires after == before
             || (Prefix(cs, n + 1) !in before.nodes
                 && after == before.(nodes := before.nodes[Prefix(cs, n + 1) := Dir]))
    ensures MadeUpTo(start, after, cs, n + 1)
  {
    forall k | k in after.nodes && k !in start.nodes ensures exists i :: 1 <= i <= n + 1 && k == Prefix(cs, i) {
      if k in before.nodes {
        var i :| 1 <= i <= n && k == Prefix(cs, i);
      } else {
        assert k == Prefix(cs, n + 1);
      }
    }
  }

  lemma PruneNothing(fs: FS, path: bytes)
    requires TreeValid(fs)
    ensures Pruned(fs, fs, path) && PrunedBeneath(fs, fs, path)
  {
  }

  lemma StillDirectory(before: FS, after: FS, path: bytes)
    requires PrunedBeneath(before, after, path) && IsDir(before, path)
    ensures IsDir(after, path)
  {
    hide TreeValid, AtOrBeneath;
  }

  lemma PrunedTree(before: FS, after: FS, path: bytes)
    requires Pruned(before, after, path)
    ensures TreeValid(after)
  {
  }

  lemma ChildIsLonger(path: bytes, name: bytes)
    ensures |Child(path, name)| > |path|
  {
  }

  datatype Made = Created | Exists | Refused
}
