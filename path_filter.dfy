/** The path filter `shouldCheck`: which file paths are scanned. */
module PathFilter {
  import opened Regex

  /** Some pattern of `ps` matches `s`; the early-return loops of `shouldCheck`. */
  function AnyMatch(ps: seq<Regexp>, s: string): (r: bool)
    ensures r <==> exists k :: 0 <= k < |ps| && ps[k].matches(s)
  {
    if ps == [] then false
    else if ps[0].matches(s) then true
    else AnyMatch(ps[1..], s)
  }

  /** Exclusions are checked first and win; otherwise a path is scanned only
      when some inclusion matches it (default deny). */
  function ShouldCheck(includes: seq<Regexp>, excludes: seq<Regexp>, path: string): (r: bool)
    ensures r <==>
      (forall k :: 0 <= k < |excludes| ==> !excludes[k].matches(path)) &&
      (exists k :: 0 <= k < |includes| && includes[k].matches(path))
  {
    if AnyMatch(excludes, path) then false
    else AnyMatch(includes, path)
  }

  /** A path matched by both an exclude and an include pattern is not scanned. */
  lemma ExcludeWins(includes: seq<Regexp>, excludes: seq<Regexp>, path: string, i: nat, e: nat)
    requires i < |includes| && includes[i].matches(path)
    requires e < |excludes| && excludes[e].matches(path)
    ensures !ShouldCheck(includes, excludes, path)
  {
  }

  /** A path that no include pattern matches is never scanned, whatever the
      excludes patterns; in particular an empty include list scans nothing. */
  lemma DefaultDeny(includes: seq<Regexp>, excludes: seq<Regexp>, path: string)
    requires forall k :: 0 <= k < |includes| ==> !includes[k].matches(path)
    ensures !ShouldCheck(includes, excludes, path)
  {
  }
}
