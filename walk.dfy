/** The directory walk of `exploreDir` and the read loop of `matchAgainstFile`
    as pure functions over an in-memory file tree. A walk produces a `Trace`:
    the (file path, line) pairs handed to the line matcher, in order, and the
    error that stopped the walk, if any. */
module Walk {
  import opened Wrappers
  import opened Regex
  import opened PathFilter
  import opened LineSplit

  /** An I/O error message (from `ioutil.ReadDir`, `os.Open` or a read). */
  type IoError = string

  /** How the byte stream of an opened file ends once its data is read. */
  datatype StreamEnd = Eof | Fault(err: IoError)

  datatype Stream = Stream(data: string, end: StreamEnd)

  /** The result of `os.Open` on a regular file. */
  datatype Opened = Opened(stream: Stream) | OpenFailed(err: IoError)

  /** The result of `ioutil.ReadDir` on a directory. */
  datatype Listing = Listed(entries: seq<Entry>) | ListFailed(err: IoError)

  /** A directory entry: a directory, a regular file, or anything else
      (symbolic link, device, socket), which the walk skips. */
  datatype Entry =
    | Dir(name: string, listing: Listing)
    | Regular(name: string, file: Opened)
    | Special(name: string)

  datatype Trace = Trace(log: seq<(string, string)>, err: Option<IoError>)

  /** `filepath.Join(dir, name)` for a clean directory path reached from "."
      and an entry name read from that directory. */
  function Join(dir: string, name: string): string {
    if dir == "." then name else dir + "/" + name
  }

  /** Pairs each line with the file it was read from. */
  function Tagged(path: string, lines: seq<string>): seq<(string, string)> {
    seq(|lines|, k requires 0 <= k < |lines| => (path, lines[k]))
  }

  /** `matchAgainstFile`: an open failure stops before any line; otherwise the
      terminated lines are scanned and the stream's end decides the error. */
  function FileTrace(path: string, file: Opened): Trace {
    match file
    case OpenFailed(e) => Trace([], Some(e))
    case Opened(s) =>
      Trace(Tagged(path, Lines(s.data)), if s.end.Fault? then Some(s.end.err) else None)
  }

  /** Appends the trace of a later step to one that ended without error. */
  function Then(t: Trace, u: Trace): Trace
    requires t.err.None?
  {
    Trace(t.log + u.log, u.err)
  }

  /** `exploreDir`: a listing error stops the walk; otherwise the entries are
      visited in order. */
  function WalkDir(includes: seq<Regexp>, excludes: seq<Regexp>, dir: string, listing: Listing): Trace
    decreases listing
  {
    match listing
    case ListFailed(e) => Trace([], Some(e))
    case Listed(entries) => WalkEntries(includes, excludes, dir, entries)
  }

  /** Visits `entries` in order; the first error stops the walk. */
  function WalkEntries(includes: seq<Regexp>, excludes: seq<Regexp>, dir: string, entries: seq<Entry>): Trace
    decreases entries
  {
    if entries == [] then Trace([], None)
    else
      var t := WalkEntries(includes, excludes, dir, entries[..|entries| - 1]);
      if t.err.Some? then t
      else Then(t, WalkEntry(includes, excludes, dir, entries[|entries| - 1]))
  }

  /** Directories are always entered; regular files are scanned when the path
      filter admits them; other entries are skipped. */
  function WalkEntry(includes: seq<Regexp>, excludes: seq<Regexp>, dir: string, e: Entry): Trace
    decreases e
  {
    match e
    case Dir(name, listing) => WalkDir(includes, excludes, Join(dir, name), listing)
    case Regular(name, file) =>
      var path := Join(dir, name);
      if ShouldCheck(includes, excludes, path) then FileTrace(path, file) else Trace([], None)
    case Special(_) => Trace([], None)
  }

  /** Visiting one more entry after an error-free prefix. */
  lemma WalkEntriesSnoc(includes: seq<Regexp>, excludes: seq<Regexp>, dir: string, entries: seq<Entry>, i: nat)
    requires i < |entries| && WalkEntries(includes, excludes, dir, entries[..i]).err.None?
    ensures WalkEntries(includes, excludes, dir, entries[..i + 1]) ==
      Then(WalkEntries(includes, excludes, dir, entries[..i]), WalkEntry(includes, excludes, dir, entries[i]))
  {
    assert entries[..i + 1][..i] == entries[..i];
    assert entries[..i + 1][i] == entries[i];
  }

  /** After an error the remaining entries are not visited. */
  lemma {:induction false} WalkEntriesStops(includes: seq<Regexp>, excludes: seq<Regexp>, dir: string, entries: seq<Entry>, n: nat)
    requires n <= |entries| && WalkEntries(includes, excludes, dir, entries[..n]).err.Some?
    ensures WalkEntries(includes, excludes, dir, entries) == WalkEntries(includes, excludes, dir, entries[..n])
    decreases |entries| - n
  {
    if n < |entries| {
      assert entries[..n + 1][..n] == entries[..n];
      WalkEntriesStops(includes, excludes, dir, entries, n + 1);
    } else {
      assert entries[..n] == entries;
    }
  }

  /** Every path the walk hands to the line matcher is admitted by the path
      filter: directories are only entered, and regular files are scanned
      only after `shouldCheck`. */
  lemma {:induction false} WalkDirAdmitted(includes: seq<Regexp>, excludes: seq<Regexp>, dir: string, listing: Listing)
    ensures forall x :: x in WalkDir(includes, excludes, dir, listing).log ==> ShouldCheck(includes, excludes, x.0)
    decreases listing
  {
    match listing
    case ListFailed(_) =>
    case Listed(entries) => WalkEntriesAdmitted(includes, excludes, dir, entries);
  }

  lemma {:induction false} WalkEntriesAdmitted(includes: seq<Regexp>, excludes: seq<Regexp>, dir: string, entries: seq<Entry>)
    ensures forall x :: x in WalkEntries(includes, excludes, dir, entries).log ==> ShouldCheck(includes, excludes, x.0)
    decreases entries
  {
    if entries != [] {
      WalkEntriesAdmitted(includes, excludes, dir, entries[..|entries| - 1]);
      WalkEntryAdmitted(includes, excludes, dir, entries[|entries| - 1]);
    }
  }

  lemma {:induction false} WalkEntryAdmitted(includes: seq<Regexp>, excludes: seq<Regexp>, dir: string, e: Entry)
    ensures forall x :: x in WalkEntry(includes, excludes, dir, e).log ==> ShouldCheck(includes, excludes, x.0)
    decreases e
  {
    match e
    case Dir(name, listing) => WalkDirAdmitted(includes, excludes, Join(dir, name), listing);
    case Regular(name, file) =>
      var path := Join(dir, name);
      if ShouldCheck(includes, excludes, path) && file.Opened? {
        var log := Tagged(path, Lines(file.stream.data));
        assert forall x :: x in log ==> x.0 == path;
      }
    case Special(_) =>
  }

  /** A directory's walk ends without error exactly when no entry's walk
      fails, and then it logs exactly the pairs its entries log. */
  lemma {:induction false} WalkEntriesContents(includes: seq<Regexp>, excludes: seq<Regexp>, dir: string, entries: seq<Entry>)
    ensures WalkEntries(includes, excludes, dir, entries).err.None? <==>
      forall e :: e in entries ==> WalkEntry(includes, excludes, dir, e).err.None?
    ensures WalkEntries(includes, excludes, dir, entries).err.None? ==>
      forall x :: x in WalkEntries(includes, excludes, dir, entries).log <==>
        exists e :: e in entries && x in WalkEntry(includes, excludes, dir, e).log
    decreases |entries|
  {
    if entries != [] {
      var n := |entries| - 1;
      var init, last := entries[..n], entries[n];
      WalkEntriesContents(includes, excludes, dir, init);
      assert entries == init + [last];
      assert forall e :: e in entries <==> e in init || e == last;
      var t, u := WalkEntries(includes, excludes, dir, init), WalkEntry(includes, excludes, dir, last);
      assert WalkEntries(includes, excludes, dir, entries) == if t.err.Some? then t else Then(t, u);
      if forall e :: e in entries ==> WalkEntry(includes, excludes, dir, e).err.None? {
        assert u.err.None?;
      }
      if t.err.None? && u.err.None? {
        forall x ensures x in t.log + u.log <==>
          exists e :: e in entries && x in WalkEntry(includes, excludes, dir, e).log
        {
          if x in u.log {
            assert last in entries;
          }
        }
      }
    }
  }

  /** The order in which a directory's entries are listed does not matter:
      listings with the same entries fail alike, and otherwise give every
      pattern the same actual set. */
  lemma WalkOrderIndependent(includes: seq<Regexp>, excludes: seq<Regexp>, dir: string, a: seq<Entry>, b: seq<Entry>)
    requires forall e :: e in a <==> e in b
    ensures WalkEntries(includes, excludes, dir, a).err.None? <==> WalkEntries(includes, excludes, dir, b).err.None?
    ensures WalkEntries(includes, excludes, dir, a).err.None? ==>
      forall p :: HitFiles(p, WalkEntries(includes, excludes, dir, a).log) == HitFiles(p, WalkEntries(includes, excludes, dir, b).log)
  {
    WalkEntriesContents(includes, excludes, dir, a);
    WalkEntriesContents(includes, excludes, dir, b);
    if WalkEntries(includes, excludes, dir, a).err.None? {
      var la, lb := WalkEntries(includes, excludes, dir, a).log, WalkEntries(includes, excludes, dir, b).log;
      assert forall x :: x in la <==> x in lb;
      forall p {
        HitFilesOrderIndependent(p, la, lb);
      }
    }
  }

  /** Files where pattern `p` matched a logged line: the actual set of a rule. */
  function HitFiles(p: Regexp, log: seq<(string, string)>): set<string>
  {
    if log == [] then {}
    else
      HitFiles(p, log[..|log| - 1]) +
      (if p.matches(log[|log| - 1].1) then {log[|log| - 1].0} else {})
  }

  /** A file is in the actual set exactly when one of its logged lines matched. */
  lemma {:induction false} HitFilesMembers(p: Regexp, log: seq<(string, string)>, f: string)
    ensures f in HitFiles(p, log) <==> exists k :: 0 <= k < |log| && log[k].0 == f && p.matches(log[k].1)
  {
    if log != [] {
      var init := log[..|log| - 1];
      HitFilesMembers(p, init, f);
      if f in HitFiles(p, init) {
        var k :| 0 <= k < |init| && init[k].0 == f && p.matches(init[k].1);
        assert log[k] == init[k];
      }
      if exists k :: 0 <= k < |log| && log[k].0 == f && p.matches(log[k].1) {
        var k :| 0 <= k < |log| && log[k].0 == f && p.matches(log[k].1);
        if k < |init| {
          assert init[k] == log[k];
        }
      }
    }
  }

  /** Appending to the log only adds the files of the appended lines. */
  lemma {:induction false} HitFilesAppend(p: Regexp, a: seq<(string, string)>, b: seq<(string, string)>)
    ensures HitFiles(p, a + b) == HitFiles(p, a) + HitFiles(p, b)
    decreases |b|
  {
    if b == [] {
      assert a + b == a;
    } else {
      var b' := b[..|b| - 1];
      assert (a + b)[..|a + b| - 1] == a + b';
      assert (a + b)[|a + b| - 1] == b[|b| - 1];
      HitFilesAppend(p, a, b');
    }
  }

  /** Scanning order does not matter: logs with the same entries give the
      same actual set, whatever their order or repetitions. */
  lemma HitFilesOrderIndependent(p: Regexp, a: seq<(string, string)>, b: seq<(string, string)>)
    requires forall x :: x in a <==> x in b
    ensures HitFiles(p, a) == HitFiles(p, b)
  {
    forall f ensures f in HitFiles(p, a) <==> f in HitFiles(p, b) {
      HitFilesMembers(p, a, f);
      HitFilesMembers(p, b, f);
      if exists k :: 0 <= k < |a| && a[k].0 == f && p.matches(a[k].1) {
        var k :| 0 <= k < |a| && a[k].0 == f && p.matches(a[k].1);
        assert a[k] in b;
      }
      if exists k :: 0 <= k < |b| && b[k].0 == f && p.matches(b[k].1) {
        var k :| 0 <= k < |b| && b[k].0 == f && p.matches(b[k].1);
        assert b[k] in a;
      }
    }
  }

  /** Scanning the same tree a second time adds nothing to any actual set. */
  lemma RescanAddsNothing(p: Regexp, log: seq<(string, string)>)
    ensures HitFiles(p, log + log) == HitFiles(p, log)
  {
    HitFilesAppend(p, log, log);
  }

  /** Scanning one file can only put that file into an actual set. */
  lemma {:induction false} HitFilesOfOneFile(p: Regexp, path: string, lines: seq<string>)
    ensures HitFiles(p, Tagged(path, lines)) <= {path}
    ensures path in HitFiles(p, Tagged(path, lines)) <==> exists k :: 0 <= k < |lines| && p.matches(lines[k])
  {
    var log := Tagged(path, lines);
    forall f | f in HitFiles(p, log) ensures f == path {
      HitFilesMembers(p, log, f);
    }
    HitFilesMembers(p, log, path);
    if exists k :: 0 <= k < |lines| && p.matches(lines[k]) {
      var k :| 0 <= k < |lines| && p.matches(lines[k]);
      assert log[k] == (path, lines[k]);
    }
  }
}
