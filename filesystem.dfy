/**
  The directory tree the scanner walks, as a finite value. Each entry carries what
  the scanner asks of it: its name, `is_dir()`, `is_symlink()`, the outcome of the
  macOS package probe, and, for a directory, what listing it yields.
*/
module FileSystem {
  import opened Paths
  import opened Visibility

  /**
    What the macOS metadata lookup in `fileIsMacosPackage` gives for an entry:
    an answer, or an `OSError`.
  */
  datatype Probe = Package(isPackage: bool) | ProbeFails

  /**
    One directory entry. `listing` is what `os.scandir` on the entry yields;
    it is read only when the entry is a directory that is not a symbolic link.
  */
  datatype FsEntry = FsEntry(
    name: string,
    isDir: bool,
    isSymlink: bool,
    macProbe: Probe,
    listing: Listing)

  /**
    The entries a directory listing yields, in order, up to the point where it stops;
    `fails` records that the listing raised an `OSError` (on opening or part way through).
  */
  datatype Listing = Listing(entries: seq<FsEntry>, fails: bool)

  /**
    `fileIsMacosPackage`: off macOS the answer is `False` without a lookup; on macOS
    it is whatever the metadata lookup gives.
  */
  function PackageProbe(e: FsEntry, platform: Platform): (p: Probe)
    ensures !platform.isDarwin ==> p == Package(false)
    ensures platform.isDarwin ==> p == e.macProbe
  {
    if !platform.isDarwin then Package(false) else e.macProbe
  }

  /** The number of entries in the tree rooted at `e`, itself included. */
  function Size(e: FsEntry): nat
    decreases e
  {
    1 + SizeAll(e.listing.entries)
  }

  function SizeAll(es: seq<FsEntry>): nat
    decreases es
  {
    if es == [] then 0 else SizeAll(es[..|es| - 1]) + Size(es[|es| - 1])
  }

  /** The names in one listing: valid entry names, no two the same. */
  predicate DistinctNames(es: seq<FsEntry>)
  {
    (forall i :: 0 <= i < |es| ==> Segment(es[i].name)) &&
    (forall i, j :: 0 <= i < j < |es| ==> es[i].name != es[j].name)
  }

  /** What a real file system guarantees of every listing in the tree below `e`. */
  predicate WellFormed(e: FsEntry)
    decreases e
  {
    DistinctNames(e.listing.entries) &&
    forall x :: x in e.listing.entries ==> WellFormed(x)
  }

  /** The same guarantee for the listing of the scanned directory itself. */
  predicate WellFormedListing(l: Listing)
  {
    DistinctNames(l.entries) && forall x :: x in l.entries ==> WellFormed(x)
  }
}
