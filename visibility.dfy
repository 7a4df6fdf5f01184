/**
  The visibility filter applied to every directory entry before it is scanned:
  on a POSIX system a name whose only '.' is its first symbol is hidden, and on
  macOS the Finder's `.DS_Store` is hidden as well.
*/
module Visibility {
  import opened Paths

  /**
    The two platform facts the filter reads: running on macOS, and running on a POSIX
    system. Real systems never give `isDarwin` without `isPosix` (macOS is POSIX); the
    filter's contract holds for every combination, so none is excluded here.
  */
  datatype Platform = Platform(isDarwin: bool, isPosix: bool)

  /** A name whose first symbol is '.' and which has no other '.'. */
  ghost predicate LoneLeadingDot(name: string)
  {
    |name| > 0 && name[0] == '.' && forall j :: 0 < j < |name| ==> name[j] != '.'
  }

  /**
    `fileVisible`: an entry is hidden exactly when it is `.DS_Store` on macOS, or
    when, on a POSIX system, its only '.' is its first symbol.
  */
  function FileVisible(name: string, platform: Platform): (visible: bool)
    ensures !visible <==>
      (platform.isDarwin && name == ".DS_Store") || (platform.isPosix && LoneLeadingDot(name))
  {
    if platform.isDarwin && name == ".DS_Store" then false
    else if platform.isPosix && RFind(name, '.') == 0 then false
    else true
  }

  /** On POSIX, `.a.b` stays visible (its last '.' is not the first symbol) while `.a` is hidden. */
  lemma DotNames()
    ensures FileVisible(".a.b", Platform(false, true))
    ensures !FileVisible(".a", Platform(false, true))
    ensures FileVisible("a.b", Platform(false, true))
    ensures !FileVisible(".DS_Store", Platform(true, true))
  {
    assert !LoneLeadingDot(".a.b") by {
      assert ".a.b"[2] == '.';
    }
  }
}
