/** The static-import closure of a bundle entry: a recursive walk that shares one visited set. */
module ModuleClosure {

  type File = string

  /** What an import specifier resolves to: a file, or a package that is not followed. */
  datatype Specifier = Relative(target: File) | Bare(name: string)

  /** The files on disk and the specifiers each imports or re-exports, in order. */
  type Disk = map<File, seq<Specifier>>

  predicate Imports(disk: Disk, from: File, to: File) {
    from in disk && Relative(to) in disk[from]
  }

  ghost predicate IsPath(disk: Disk, path: seq<File>, from: File, to: File) {
    && path != [] && path[0] == from && path[|path| - 1] == to
    && forall k :: 0 <= k < |path| - 1 ==> Imports(disk, path[k], path[k + 1])
  }

  ghost predicate Reaches(disk: Disk, from: File, to: File) {
    exists path :: IsPath(disk, path, from, to)
  }

  lemma ReachesItself(disk: Disk, f: File)
    ensures Reaches(disk, f, f)
  {
    assert IsPath(disk, [f], f, f);
  }

  lemma ImportThenReach(disk: Disk, from: File, via: File, to: File)
    requires Imports(disk, from, via) && Reaches(disk, via, to)
    ensures Reaches(disk, from, to)
  {
    var path :| IsPath(disk, path, via, to);
    var longer := [from] + path;
    forall k | 0 <= k < |longer| - 1 ensures Imports(disk, longer[k], longer[k + 1]) {
      assert k > 0 ==> longer[k] == path[k - 1];
    }
    assert IsPath(disk, longer, from, to);
  }

  /** A set that contains a file and the imports of all its members contains all it reaches. */
  lemma {:induction false} ClosedContainsReachable(disk: Disk, s: set<File>, path: seq<File>, from: File, to: File)
    requires from in s && IsPath(disk, path, from, to)
    requires forall f, g :: f in s && Imports(disk, f, g) ==> g in s
    ensures to in s
    decreases |path|
  {
    if |path| > 1 {
      assert Imports(disk, path[0], path[0 + 1]);
      var rest := path[1..];
      forall k | 0 <= k < |rest| - 1 ensures Imports(disk, rest[k], rest[k + 1]) {
        assert Imports(disk, path[k + 1], path[k + 1 + 1]);
      }
      ClosedContainsReachable(disk, s, rest, path[1], to);
    }
  }

  class Walker {
    const disk: Disk
    var seen: set<File>

    constructor (disk: Disk)
      ensures this.disk == disk && seen == {}
    {
      this.disk := disk;
      seen := {};
    }

    /**
     The walk from `entry`.  Reading a file that is not on disk throws, and what had been seen
     stays.  Files that an enclosing call is still walking are in `seen` already; their own loops
     take care of their imports.
     */
    method Collect(entry: File) returns (found: bool)
      modifies this
      ensures old(seen) <= seen && entry in seen
      ensures forall f :: f in seen - old(seen) ==> Reaches(disk, entry, f)
      ensures found ==> forall f :: f in seen - old(seen) ==> f in disk
      ensures found ==> forall f, g :: f in seen - old(seen) && Imports(disk, f, g) ==> g in seen
      ensures !found ==> exists f :: Reaches(disk, entry, f) && f !in disk
      decreases disk.Keys - seen, 1
    {
      ReachesItself(disk, entry);
      if entry in seen {
        return true;
      }
      seen := seen + {entry};
      if entry !in disk {
        return false;
      }
      assert old(seen) + {entry} <= seen;
      found := CollectImports(entry, old(seen));
    }

    /** The loop over the specifiers of a file that has just been added. */
    method CollectImports(entry: File, ghost before: set<File>) returns (found: bool)
      requires entry in disk
      requires seen == before + {entry} && entry !in before
      modifies this
      ensures old(seen) <= seen
      ensures forall f :: f in seen - before ==> Reaches(disk, entry, f)
      ensures found ==> forall f :: f in seen - before ==> f in disk
      ensures found ==> forall f, g :: f in seen - before && Imports(disk, f, g) ==> g in seen
      ensures !found ==> exists f :: Reaches(disk, entry, f) && f !in disk
      decreases disk.Keys - seen, 2
    {
      ReachesItself(disk, entry);
      var specifiers := disk[entry];
      for i := 0 to |specifiers|
        invariant before + {entry} <= seen
        invariant forall f :: f in seen - before ==> Reaches(disk, entry, f) && f in disk
        invariant forall f, g :: f in seen - before - {entry} && Imports(disk, f, g) ==> g in seen
        invariant forall k :: 0 <= k < i && specifiers[k].Relative? ==> specifiers[k].target in seen
      {
        if specifiers[i].Bare? {
          continue;
        }
        var target := specifiers[i].target;
        assert Imports(disk, entry, target);
        ghost var earlier := seen;
        var ok := Collect(target);
        forall f | f in seen - earlier ensures Reaches(disk, entry, f) {
          ImportThenReach(disk, entry, target, f);
        }
        if !ok {
          ghost var f :| Reaches(disk, target, f) && f !in disk;
          ImportThenReach(disk, entry, target, f);
          return false;
        }
      }
      return true;
    }
  }

  ghost predicate AllOnDisk(disk: Disk, entry: File) {
    forall f :: Reaches(disk, entry, f) ==> f in disk
  }

  /** From an empty set, the walk ends with exactly the reachable files, or throws if one is missing. */
  method Closure(disk: Disk, entry: File) returns (found: bool, files: set<File>)
    ensures found <==> AllOnDisk(disk, entry)
    ensures found ==> forall f :: f in files <==> Reaches(disk, entry, f)
  {
    var walker := new Walker(disk);
    found := walker.Collect(entry);
    files := walker.seen;
    if found {
      forall f | Reaches(disk, entry, f) ensures f in files && f in disk {
        var path :| IsPath(disk, path, entry, f);
        ClosedContainsReachable(disk, files, path, entry, f);
      }
    }
  }
}
