/**
 * The filesystem as the package manager sees it: a map from path text to the kind of
 * entry there, and the std::fs calls it makes (`exists`, `is_dir`, `remove_file`,
 * `remove_dir_all`, `create_dir_all`, `rename`, `os::unix::fs::symlink`) as functions
 * from one map to the next. A directory's contents are the entries whose path lies
 * under it (`dir/...`). Paths are compared as text; no `.`/`..`/`//` normalisation.
 */
module Files {
  import opened Wrappers

  datatype Node = File | Dir | Symlink(target: string)

  type FileSystem = map<string, Node>

  datatype IoError =
    | NotFound(path: string)
    | AlreadyExists(path: string)
    | IsADirectory(path: string)
    | NotADirectory(path: string)
    | DirectoryNotEmpty(path: string)
    | InvalidInput(path: string)

  /** Linux gives up resolving after this many symbolic links (ELOOP). */
  const MAX_SYMLINK_HOPS: nat := 40

  /** `p` is `root` itself or lies somewhere below it. */
  predicate Within(root: string, p: string) {
    p == root || root + "/" <= p
  }

  /** What `p` denotes once symbolic links are followed; None when dangling or looping. */
  function Resolve(fs: FileSystem, p: string, hops: nat): Option<Node>
    decreases hops
  {
    if p !in fs then None
    else if fs[p].Symlink? then (if hops == 0 then None else Resolve(fs, fs[p].target, hops - 1))
    else Some(fs[p])
  }

  /** `Path::exists`: the path resolves to a file or a directory. */
  predicate Exists(fs: FileSystem, p: string) {
    Resolve(fs, p, MAX_SYMLINK_HOPS).Some?
  }

  /** `Path::is_dir`: the path resolves to a directory. */
  predicate IsDir(fs: FileSystem, p: string) {
    Resolve(fs, p, MAX_SYMLINK_HOPS) == Some(Dir)
  }

  /** Every entry of `small` is in `big` with the same kind. */
  predicate SubMap(small: FileSystem, big: FileSystem) {
    forall q | q in small :: q in big && big[q] == small[q]
  }

  /** Following links in a map that lost some entries never finds more than before. */
  lemma {:induction false} ResolveSubMap(small: FileSystem, big: FileSystem, p: string, hops: nat)
    requires SubMap(small, big)
    ensures Resolve(small, p, hops).Some? ==> Resolve(big, p, hops) == Resolve(small, p, hops)
    decreases hops
  {
    if p in small && small[p].Symlink? && hops > 0 {
      ResolveSubMap(small, big, small[p].target, hops - 1);
    }
  }

  /** Removing entries never makes a path exist. */
  lemma ExistsSubMap(small: FileSystem, big: FileSystem, p: string)
    requires SubMap(small, big)
    ensures Exists(small, p) ==> Exists(big, p)
  {
    ResolveSubMap(small, big, p, MAX_SYMLINK_HOPS);
  }

  /** `std::fs::remove_file`: removes a file or a symbolic link itself, never a directory. */
  function RemoveFile(fs: FileSystem, p: string): (r: Result<FileSystem, IoError>)
    ensures r.Ok? <==> p in fs && fs[p] != Dir
    ensures r.Ok? ==> p !in r.value && SubMap(r.value, fs)
    ensures r.Ok? ==> forall q | q in fs && q != p :: q in r.value
  {
    if p !in fs then Err(NotFound(p))
    else if fs[p] == Dir then Err(IsADirectory(p))
    else Ok(fs - {p})
  }

  /**
   * `std::fs::remove_dir_all`: a symbolic link is removed itself (not followed), a
   * directory together with everything below it, and a plain file is refused.
   */
  function RemoveDirAll(fs: FileSystem, p: string): (r: Result<FileSystem, IoError>)
    ensures r.Ok? <==> p in fs && fs[p] != File
    ensures r.Ok? ==> p !in r.value && SubMap(r.value, fs)
    ensures r.Ok? && fs[p] == Dir ==> forall q | q in r.value :: !Within(p, q)
    ensures r.Ok? ==> forall q | q in fs && !Within(p, q) :: q in r.value
  {
    if p !in fs then Err(NotFound(p))
    else if fs[p].Symlink? then Ok(fs - {p})
    else if fs[p] == File then Err(NotADirectory(p))
    else Ok(map q | q in fs && !Within(p, q) :: fs[q])
  }

  /**
   * `std::fs::create_dir_all`: nothing to do for a directory, refused when something
   * else is there, otherwise the directory is made. Missing ancestors are not tracked.
   */
  function CreateDirAll(fs: FileSystem, p: string): (r: Result<FileSystem, IoError>)
    ensures r.Ok? <==> IsDir(fs, p) || p !in fs
    ensures r.Ok? ==> IsDir(r.value, p) && SubMap(fs, r.value)
    ensures r.Ok? ==> forall q | q in r.value && q != p :: q in fs
  {
    if IsDir(fs, p) then Ok(fs)
    else if p in fs then Err(AlreadyExists(p))
    else Ok(fs[p := Dir])
  }

  /** `dir` has an entry somewhere below it. */
  predicate HasChildren(fs: FileSystem, dir: string) {
    exists q | q in fs :: dir + "/" <= q
  }

  /** Where the entry `q` below `src` lands when `src` is renamed to `dst`. */
  function Rebased(src: string, dst: string, q: string): string
    requires Within(src, q)
  {
    dst + q[|src|..]
  }

  lemma RebasedWithin(src: string, dst: string, q: string)
    requires Within(src, q)
    ensures Within(dst, Rebased(src, dst, q))
    ensures q == src ==> Rebased(src, dst, q) == dst
  {
    if q == src {
      assert q[|src|..] == [];
      assert dst + [] == dst;
    } else {
      assert q[|src|..][0] == '/';
      assert (dst + q[|src|..])[..|dst| + 1] == dst + "/";
    }
  }

  lemma RebasedInjective(src: string, dst: string, q1: string, q2: string)
    requires Within(src, q1) && Within(src, q2)
    requires Rebased(src, dst, q1) == Rebased(src, dst, q2)
    ensures q1 == q2
  {
    assert (dst + q1[|src|..])[|dst|..] == q1[|src|..];
    assert (dst + q2[|src|..])[|dst|..] == q2[|src|..];
    assert q1 == src + q1[|src|..];
    assert q2 == src + q2[|src|..];
  }

  /** The entries moved by a rename, under their new paths. */
  function Carried(fs: FileSystem, src: string, dst: string): FileSystem {
    assert forall q1, q2 | q1 in fs && Within(src, q1) && q2 in fs && Within(src, q2) &&
      Rebased(src, dst, q1) == Rebased(src, dst, q2) :: q1 == q2 by {
      forall q1, q2 | q1 in fs && Within(src, q1) && q2 in fs && Within(src, q2) &&
        Rebased(src, dst, q1) == Rebased(src, dst, q2)
        ensures q1 == q2
      {
        RebasedInjective(src, dst, q1, q2);
      }
    }
    map q | q in fs && Within(src, q) :: Rebased(src, dst, q) := fs[q]
  }

  /** The filesystem after `src` (and what lies below it) has become `dst`. */
  function Move(fs: FileSystem, src: string, dst: string): FileSystem {
    (map q | q in fs && !Within(src, q) && !Within(dst, q) :: fs[q]) + Carried(fs, src, dst)
  }

  /**
   * `std::fs::rename`: refused when the source is missing, when one path lies below the
   * other, when a directory would replace a non-directory or the reverse, and when the
   * destination is a directory that is not empty; an existing destination is replaced.
   */
  function Rename(fs: FileSystem, src: string, dst: string): (r: Result<FileSystem, IoError>)
    ensures r.Ok? ==> src in fs
  {
    if src !in fs then Err(NotFound(src))
    else if src == dst then Ok(fs)
    else if Within(src, dst) || Within(dst, src) then Err(InvalidInput(dst))
    else if dst in fs && fs[dst] == Dir && fs[src] != Dir then Err(IsADirectory(dst))
    else if dst in fs && fs[dst] == Dir && HasChildren(fs, dst) then Err(DirectoryNotEmpty(dst))
    else if dst in fs && fs[dst] != Dir && fs[src] == Dir then Err(NotADirectory(dst))
    else Ok(Move(fs, src, dst))
  }

  /**
   * A successful rename puts what was at `src` at `dst`, and (unless the two are the
   * same path) leaves nothing at `src`; entries away from both paths are untouched.
   */
  lemma RenameMoves(fs: FileSystem, src: string, dst: string)
    requires Rename(fs, src, dst).Ok?
    ensures dst in Rename(fs, src, dst).value
    ensures Rename(fs, src, dst).value[dst] == fs[src]
    ensures src != dst ==> src !in Rename(fs, src, dst).value
    ensures forall q | q in fs && !Within(src, q) && !Within(dst, q) ::
      q in Rename(fs, src, dst).value && Rename(fs, src, dst).value[q] == fs[q]
  {
    if src != dst {
      var moved := Move(fs, src, dst);
      var carried := Carried(fs, src, dst);
      RebasedWithin(src, dst, src);
      assert Rebased(src, dst, src) in carried;
      assert moved[dst] == fs[src];
      if src in carried {
        var q :| q in fs && Within(src, q) && Rebased(src, dst, q) == src;
        RebasedWithin(src, dst, q);
        assert false;
      }
    }
  }

  /** `std::os::unix::fs::symlink(original, link)`: refused when anything is at `link`. */
  function MakeSymlink(fs: FileSystem, original: string, link: string): (r: Result<FileSystem, IoError>)
    ensures r.Ok? <==> link !in fs
    ensures r.Ok? ==> link in r.value && r.value[link] == Symlink(original)
    ensures r.Ok? ==> forall q | q in fs :: q in r.value && r.value[q] == fs[q]
  {
    if link in fs then Err(AlreadyExists(link)) else Ok(fs[link := Symlink(original)])
  }
}
