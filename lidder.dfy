/** The lidder engine: compiled definitions, per-rule expected and actual file
    sets, the line matcher and read loop, the directory walk, reconciliation
    and the pass/fail verdict of a run. */
module Lidder {
  import opened Wrappers
  import opened Regex
  import opened PathFilter
  import opened LineSplit
  import opened Walk
  import opened Reconcile

  /** A rule as the configuration deserializer delivers it. */
  datatype RawRule = RawRule(pattern: string, expected: seq<string>)

  /** The configuration as the deserializer delivers it. */
  datatype RawDefs = RawDefs(includes: seq<string>, excludes: seq<string>, rules: seq<RawRule>)

  function Elements(s: seq<string>): set<string> {
    set x | x in s
  }

  predicate Distinct(s: seq<string>) {
    forall i, j :: 0 <= i < j < |s| ==> s[i] != s[j]
  }

  /** Appending a new element keeps a list duplicate-free and adds that element. */
  lemma AppendFresh(s: seq<string>, x: string)
    requires Distinct(s) && x !in Elements(s)
    ensures Distinct(s + [x]) && Elements(s + [x]) == Elements(s) + {x}
  {
    forall i, j | 0 <= i < j < |s + [x]| ensures (s + [x])[i] != (s + [x])[j] {
      if j == |s| {
        assert s[i] in Elements(s);
      }
    }
  }

  lemma ElementsEmpty(s: seq<string>)
    ensures Elements(s) == {} <==> |s| == 0
  {
    if |s| != 0 {
      assert s[0] in Elements(s);
    }
  }

  function RuleSources(rules: seq<RawRule>): seq<string> {
    seq(|rules|, k requires 0 <= k < |rules| => rules[k].pattern)
  }

  /** Every pattern `parse` compiles, in the order it compiles them. */
  function Sources(raw: RawDefs): seq<string> {
    raw.includes + raw.excludes + RuleSources(raw.rules)
  }

  /** `parse` compiles the include list, then the exclude list, then the
      rule patterns: the first failure, in that order, is the failure of the
      whole. */
  lemma SourcesInOrder(compile: Compiler, raw: RawDefs)
    ensures var inc, exc, pats :=
        CompileAll(compile, raw.includes), CompileAll(compile, raw.excludes),
        CompileAll(compile, RuleSources(raw.rules));
      CompileAll(compile, Sources(raw)) ==
        if inc.Failure? then Failure(inc.error)
        else if exc.Failure? then Failure(exc.error)
        else if pats.Failure? then Failure(pats.error)
        else Success(inc.value + exc.value + pats.value)
  {
    CompileAllAppend(compile, raw.includes, raw.excludes);
    CompileAllAppend(compile, raw.includes + raw.excludes, RuleSources(raw.rules));
  }

  /** One step of the read loop: the next line runs up to and including the
      first '\n' after `pos`. */
  lemma ReadStringStep(data: string, pos: nat, j: nat)
    requires pos <= |data| && FirstNewline(data[pos..]) == Some(j)
    ensures pos + j + 1 <= |data|
    ensures Lines(data[pos..]) == [data[pos..][..j + 1]] + Lines(data[pos + j + 1..])
  {
    var t := data[pos..];
    assert t[j + 1..] == data[pos + j + 1..];
  }

  /** Regrouping a concatenation, kept apart to keep the read loop's proof small. */
  lemma AppendAssoc<T>(a: seq<T>, b: seq<T>, c: seq<T>)
    ensures a + (b + c) == (a + b) + c
  {
  }

  /** The read loop stops when no '\n' is left: every line has been scanned. */
  lemma ReadStringAtEnd(data: string, done: seq<string>, pos: nat)
    requires pos <= |data| && Lines(data) == done + Lines(data[pos..])
    requires FirstNewline(data[pos..]).None?
    ensures Lines(data) == done
  {
    assert Lines(data[pos..]) == [];
  }

  /** One pass of the read loop as a whole: after the next line is handed
      on, the scanned prefix grows by that line, and so does the log. */
  lemma ReadLoopAdvance(path: string, data: string, pos: nat, j: nat,
                        done: seq<string>, base: seq<(string, string)>)
    requires pos <= |data| && FirstNewline(data[pos..]) == Some(j)
    requires Lines(data) == done + Lines(data[pos..])
    ensures pos + j + 1 <= |data|
    ensures Lines(data) == (done + [data[pos..][..j + 1]]) + Lines(data[pos + j + 1..])
    ensures base + Tagged(path, done + [data[pos..][..j + 1]])
         == (base + Tagged(path, done)) + [(path, data[pos..][..j + 1])]
  {
    var line := data[pos..][..j + 1];
    ReadStringStep(data, pos, j);
    AppendAssoc(done, [line], Lines(data[pos + j + 1..]));
    LogStep(path, done, line, base);
  }

  /** Logging one more line of a file extends the log by exactly that line. */
  lemma LogStep(path: string, done: seq<string>, line: string, base: seq<(string, string)>)
    ensures base + Tagged(path, done + [line]) == (base + Tagged(path, done)) + [(path, line)]
  {
    assert Tagged(path, done + [line]) == Tagged(path, done) + [(path, line)];
    AppendAssoc(base, Tagged(path, done), [(path, line)]);
  }

  /** One lidded pattern with the files it may occur in and the files it was
      found in. */
  class Rule {
    const source: string
    const expectedList: seq<string>
    const pattern: Regexp
    var expected: set<string>
    var actual: set<string>

    /** The map-initialising loop of `parse` for one rule. */
    constructor (source: string, expectedList: seq<string>, pattern: Regexp)
      ensures this.source == source && this.expectedList == expectedList && this.pattern == pattern
      ensures expected == Elements(expectedList) && actual == {}
    {
      var exp: set<string> := {};
      for i := 0 to |expectedList|
        invariant exp == Elements(expectedList[..i])
      {
        assert expectedList[..i + 1] == expectedList[..i] + [expectedList[i]];
        exp := exp + {expectedList[i]};
      }
      assert expectedList[..|expectedList|] == expectedList;
      this.source := source;
      this.expectedList := expectedList;
      this.pattern := pattern;
      expected := exp;
      actual := {};
    }

    /** The files where the pattern was found but not expected, and the files
        where it was expected but not found, each listed once, in no
        particular order (the source iterates over Go maps). */
    method Mismatches() returns (shouldNotBeThere: seq<string>, shouldBeThere: seq<string>)
      ensures Elements(shouldNotBeThere) == actual - expected && Distinct(shouldNotBeThere)
      ensures Elements(shouldBeThere) == expected - actual && Distinct(shouldBeThere)
      ensures Elements(shouldNotBeThere) !! Elements(shouldBeThere)
    {
      shouldNotBeThere, shouldBeThere := [], [];
      var left := actual;
      while left != {}
        invariant left <= actual
        invariant Elements(shouldNotBeThere) == actual - left - expected
        invariant Distinct(shouldNotBeThere)
        decreases left
      {
        var f :| f in left;
        if f !in expected {
          AppendFresh(shouldNotBeThere, f);
          shouldNotBeThere := shouldNotBeThere + [f];
        }
        left := left - {f};
      }
      left := expected;
      while left != {}
        invariant left <= expected
        invariant Elements(shouldBeThere) == expected - left - actual
        invariant Distinct(shouldBeThere)
        decreases left
      {
        var f :| f in left;
        if f !in actual {
          AppendFresh(shouldBeThere, f);
          shouldBeThere := shouldBeThere + [f];
        }
        left := left - {f};
      }
    }
  }

  /** The compiled definitions of a run. `log` records every (file, line)
      pair handed to the line matcher, in call order. */
  class Defs {
    const includes: seq<Regexp>
    const excludes: seq<Regexp>
    const rules: seq<Rule>
    ghost var log: seq<(string, string)>

    /** Rules are distinct objects, and each rule's actual set holds exactly
        the files one of whose scanned lines its pattern matched. */
    ghost predicate Valid()
      reads this, rules
    {
      (forall i, j :: 0 <= i < j < |rules| ==> rules[i] != rules[j]) &&
      (forall i :: 0 <= i < |rules| ==> rules[i].actual == HitFiles(rules[i].pattern, log))
    }

    constructor (includes: seq<Regexp>, excludes: seq<Regexp>, rules: seq<Rule>)
      requires forall i, j :: 0 <= i < j < |rules| ==> rules[i] != rules[j]
      requires forall i :: 0 <= i < |rules| ==> rules[i].actual == {}
      ensures this.includes == includes && this.excludes == excludes && this.rules == rules
      ensures log == [] && Valid()
    {
      this.includes := includes;
      this.excludes := excludes;
      this.rules := rules;
      log := [];
    }

    /** Single-file mode: each rule expects only the target, and only if it
        expected it before. */
    method AdjustExpectedFilenames(filename: string)
      requires Valid()
      modifies rules
      ensures Valid() && log == old(log)
      ensures forall i :: 0 <= i < |rules| ==>
        rules[i].expected == Narrowed(old(rules[i].expected), filename) &&
        rules[i].actual == old(rules[i].actual)
    {
      for i := 0 to |rules|
        invariant forall k :: 0 <= k < i ==> rules[k].expected == Narrowed(old(rules[k].expected), filename)
        invariant forall k :: i <= k < |rules| ==> rules[k].expected == old(rules[k].expected)
        invariant forall k :: 0 <= k < |rules| ==> rules[k].actual == old(rules[k].actual)
      {
        var r := rules[i];
        var newExpected := {};
        if filename in r.expected {
          newExpected := {filename};
        }
        r.expected := newExpected;
      }
    }

    /** Tests every rule against the line, with no short-circuit; each match
        adds the file to that rule's actual set. */
    method MatchAgainstLine(filename: string, line: string)
      requires Valid()
      modifies this, rules
      ensures Valid() && log == old(log) + [(filename, line)]
      ensures forall i :: 0 <= i < |rules| ==>
        rules[i].expected == old(rules[i].expected) &&
        rules[i].actual == old(rules[i].actual) + (if rules[i].pattern.matches(line) then {filename} else {})
    {
      for i := 0 to |rules|
        invariant forall k :: 0 <= k < i ==>
          rules[k].actual == old(rules[k].actual) + (if rules[k].pattern.matches(line) then {filename} else {})
        invariant forall k :: i <= k < |rules| ==> rules[k].actual == old(rules[k].actual)
        invariant forall k :: 0 <= k < |rules| ==> rules[k].expected == old(rules[k].expected)
        invariant log == old(log)
      {
        var r := rules[i];
        if r.pattern.matches(line) {
          r.actual := r.actual + {filename};
        }
      }
      log := log + [(filename, line)];
      forall i | 0 <= i < |rules|
        ensures rules[i].actual == HitFiles(rules[i].pattern, log)
      {
        HitFilesAppend(rules[i].pattern, old(log), [(filename, line)]);
        assert [(filename, line)][..0] == [];
      }
    }

    /** The read loop: hands every '\n'-terminated line of the file to the
        line matcher in order, and returns when the reader reports the end
        of input or an error, without scanning the unterminated remainder. */
    method MatchAgainstFile(filename: string, file: Opened) returns (err: Option<IoError>)
      requires Valid()
      modifies this, rules
      ensures Valid()
      ensures log == old(log) + FileTrace(filename, file).log
      ensures err == FileTrace(filename, file).err
      ensures forall i :: 0 <= i < |rules| ==> rules[i].expected == old(rules[i].expected)
    {
      match file
      case OpenFailed(e) =>
        return Some(e);
      case Opened(s) =>
        var pos := 0;
        ghost var done: seq<string> := [];
        while true
          invariant 0 <= pos <= |s.data|
          invariant Valid()
          invariant Lines(s.data) == done + Lines(s.data[pos..])
          invariant log == old(log) + Tagged(filename, done)
          invariant forall i :: 0 <= i < |rules| ==> rules[i].expected == old(rules[i].expected)
          decreases |s.data| - pos
        {
          var rest := s.data[pos..];
          match FirstNewline(rest)
          case None =>
            ReadStringAtEnd(s.data, done, pos);
            if s.end.Eof? {
              return None;
            } else {
              return Some(s.end.err);
            }
          case Some(j) =>
            var line := rest[..j + 1];
            ReadLoopAdvance(filename, s.data, pos, j, done, old(log));
            MatchAgainstLine(filename, line);
            done := done + [line];
            pos := pos + j + 1;
        }
    }

    /** The recursive directory walk: directories are always entered, regular
        files are scanned when the path filter admits them, and the first
        error stops the walk. */
    method ExploreDir(dirname: string, listing: Listing) returns (err: Option<IoError>)
      requires Valid()
      modifies this, rules
      ensures Valid()
      ensures log == old(log) + WalkDir(includes, excludes, dirname, listing).log
      ensures err == WalkDir(includes, excludes, dirname, listing).err
      ensures forall i :: 0 <= i < |rules| ==> rules[i].expected == old(rules[i].expected)
      decreases listing
    {
      match listing
      case ListFailed(e) =>
        return Some(e);
      case Listed(entries) =>
        var i := 0;
        while i < |entries|
          invariant 0 <= i <= |entries|
          invariant Valid()
          invariant WalkEntries(includes, excludes, dirname, entries[..i]).err.None?
          invariant log == old(log) + WalkEntries(includes, excludes, dirname, entries[..i]).log
          invariant forall k :: 0 <= k < |rules| ==> rules[k].expected == old(rules[k].expected)
        {
          var e := entries[i];
          var stepErr := VisitEntry(dirname, e);
          ghost var step := WalkEntry(includes, excludes, dirname, e);
          WalkEntriesSnoc(includes, excludes, dirname, entries, i);
          AppendAssoc(old(log), WalkEntries(includes, excludes, dirname, entries[..i]).log, step.log);
          if stepErr.Some? {
            WalkEntriesStops(includes, excludes, dirname, entries, i + 1);
            return stepErr;
          }
          i := i + 1;
        }
        assert entries[..i] == entries;
        return None;
    }

    /** One entry of the walk: a directory is always entered, a regular file
        is scanned when the path filter admits it, anything else is skipped. */
    method VisitEntry(dirname: string, e: Entry) returns (err: Option<IoError>)
      requires Valid()
      modifies this, rules
      ensures Valid()
      ensures log == old(log) + WalkEntry(includes, excludes, dirname, e).log
      ensures err == WalkEntry(includes, excludes, dirname, e).err
      ensures forall i :: 0 <= i < |rules| ==> rules[i].expected == old(rules[i].expected)
      decreases e
    {
      var filename := Join(dirname, e.name);
      err := None;
      match e {
        case Dir(_, sub) =>
          err := ExploreDir(filename, sub);
        case Regular(_, f) =>
          if ShouldCheck(includes, excludes, filename) {
            err := MatchAgainstFile(filename, f);
          }
        case Special(_) =>
      }
    }

    /** The run fails when some rule found its pattern where it was not
        expected or did not find it where it was expected. */
    method Verdict() returns (failed: bool)
      ensures failed <==> exists i :: 0 <= i < |rules| && !Passes(rules[i].expected, rules[i].actual)
    {
      failed := false;
      for i := 0 to |rules|
        invariant failed <==> exists k :: 0 <= k < i && !Passes(rules[k].expected, rules[k].actual)
      {
        var shouldNotBeThere, shouldBeThere := rules[i].Mismatches();
        ElementsEmpty(shouldNotBeThere);
        ElementsEmpty(shouldBeThere);
        if |shouldNotBeThere| != 0 || |shouldBeThere| != 0 {
          failed := true;
        }
      }
    }

    /** `main` once the definitions are parsed: single-file mode when a
        target is given and admitted by the path filter, the tree walk
        otherwise; an I/O error is fatal; then the verdict over all rules. */
    method Check(inv: Invocation, root: Listing) returns (code: ExitCode)
      requires Valid() && log == []
      modifies this, rules
      ensures var trace := Scan(includes, excludes, inv, root);
        code == if trace.err.Some? then Fatal
          else if (exists k :: 0 <= k < |rules| &&
                     !Passes(Expectation(old(rules[k].expected), Target(includes, excludes, inv)),
                             HitFiles(rules[k].pattern, trace.log)))
          then LidFailed
          else Ok
    {
      var err: Option<IoError>;
      if inv.SingleFile? && ShouldCheck(includes, excludes, inv.path) {
        AdjustExpectedFilenames(inv.path);
        err := MatchAgainstFile(inv.path, inv.file);
      } else {
        err := ExploreDir(".", root);
      }
      ghost var trace := Scan(includes, excludes, inv, root);
      assert log == trace.log && err == trace.err;
      if err.Some? {
        return Fatal;
      }
      assert forall k :: 0 <= k < |rules| ==>
        rules[k].expected == Expectation(old(rules[k].expected), Target(includes, excludes, inv)) &&
        rules[k].actual == HitFiles(rules[k].pattern, trace.log);
      var failed := Verdict();
      code := if failed then LidFailed else Ok;
    }
  }

  /** One compile loop of `parse`: compiles `srcs` in order and returns the
      first error. */
  method CompileList(compile: Compiler, srcs: seq<string>) returns (r: Result<seq<Regexp>, string>)
    ensures r == CompileAll(compile, srcs)
  {
    var compiled := [];
    var i := 0;
    while i < |srcs|
      invariant 0 <= i <= |srcs|
      invariant CompileAll(compile, srcs[..i]) == Success(compiled)
    {
      assert srcs[..i + 1][..i] == srcs[..i];
      var c := compile(srcs[i]);
      if c.Failure? {
        CompileAllPrefixFailure(compile, srcs, i + 1);
        return Failure(c.error);
      }
      compiled := compiled + [c.value];
      i := i + 1;
    }
    assert srcs[..i] == srcs;
    return Success(compiled);
  }

  /** A rule as `parse` builds it from its raw form and compiled pattern:
      expected set from the list, empty actual set. */
  ghost predicate BuiltFrom(rule: Rule, raw: RawRule, pattern: Regexp)
    reads rule
  {
    && rule.source == raw.pattern
    && rule.expectedList == raw.expected
    && rule.pattern == pattern
    && rule.expected == Elements(raw.expected)
    && rule.actual == {}
  }

  /** The map-initialising loop of `parse`: one rule per raw rule, with its
      compiled pattern, its expected set and an empty actual set. */
  method NewRules(raws: seq<RawRule>, patterns: seq<Regexp>) returns (rules: seq<Rule>)
    requires |patterns| == |raws|
    ensures |rules| == |raws|
    ensures forall a, b :: 0 <= a < b < |rules| ==> rules[a] != rules[b]
    ensures forall k :: 0 <= k < |raws| ==>
      fresh(rules[k]) && BuiltFrom(rules[k], raws[k], patterns[k])
  {
    rules := [];
    for i := 0 to |raws|
      invariant |rules| == i
      invariant forall a, b :: 0 <= a < b < i ==> rules[a] != rules[b]
      invariant forall k :: 0 <= k < i ==>
        fresh(rules[k]) && BuiltFrom(rules[k], raws[k], patterns[k])
    {
      var rule := new Rule(raws[i].pattern, raws[i].expected, patterns[i]);
      rules := rules + [rule];
    }
  }

  /** `parse` after deserialisation: compiles the include patterns, then the
      exclude patterns, then every rule's pattern, stopping at the first that
      does not compile; then gives every rule its expected set and an empty
      actual set. */
  method Parse(raw: RawDefs, compile: Compiler) returns (r: Result<Defs, string>)
    ensures r.Failure? <==> CompileAll(compile, Sources(raw)).Failure?
    ensures r.Failure? ==> r.error == CompileAll(compile, Sources(raw)).error
    ensures r.Success? ==>
      var d := r.value;
      && fresh(d) && d.Valid() && d.log == []
      && CompileAll(compile, raw.includes) == Success(d.includes)
      && CompileAll(compile, raw.excludes) == Success(d.excludes)
      && CompileAll(compile, RuleSources(raw.rules)).Success?
      && |d.rules| == |raw.rules|
      && forall k :: 0 <= k < |raw.rules| ==>
           fresh(d.rules[k])
           && BuiltFrom(d.rules[k], raw.rules[k], CompileAll(compile, RuleSources(raw.rules)).value[k])
  {
    SourcesInOrder(compile, raw);
    var includes := CompileList(compile, raw.includes);
    if includes.Failure? {
      return Failure(includes.error);
    }
    var excludes := CompileList(compile, raw.excludes);
    if excludes.Failure? {
      return Failure(excludes.error);
    }
    var patterns := CompileList(compile, RuleSources(raw.rules));
    if patterns.Failure? {
      return Failure(patterns.error);
    }
    var rules := NewRules(raw.rules, patterns.value);
    var d := new Defs(includes.value, excludes.value, rules);
    return Success(d);
  }

  /** How `main` was invoked: with the configuration alone (scan the tree
      under ".") or with a target file as well. */
  datatype Invocation = FullTree | SingleFile(path: string, file: Opened)

  /** Exit status 0 (`ok`), 1 (usage or `oops`) and 2 (lid test failed). */
  datatype ExitCode = Ok | Fatal | LidFailed

  function Status(c: ExitCode): int {
    match c
    case Ok => 0
    case Fatal => 1
    case LidFailed => 2
  }

  /** What a rule expects after `parse` and, in single-file mode on `target`,
      `adjustExpectedFilenames`. */
  function Expectation(expected: set<string>, target: Option<string>): set<string> {
    if target.Some? then Narrowed(expected, target.value) else expected
  }

  /** The target of single-file mode: given, and admitted by the path filter;
      otherwise the whole tree is scanned. */
  function Target(includes: seq<Regexp>, excludes: seq<Regexp>, inv: Invocation): Option<string> {
    if inv.SingleFile? && ShouldCheck(includes, excludes, inv.path) then Some(inv.path) else None
  }

  /** Some rule whose expected set, narrowed to `target` if any, disagrees
      with the files where its compiled pattern matched a logged line. */
  predicate SomeRuleFails(rules: seq<RawRule>, patterns: seq<Regexp>, target: Option<string>, log: seq<(string, string)>)
  {
    exists k :: 0 <= k < |rules| && k < |patterns| &&
      !Passes(Expectation(Elements(rules[k].expected), target), HitFiles(patterns[k], log))
  }

  /** The lines `main` hands to the line matcher, and the error that stops it. */
  function Scan(includes: seq<Regexp>, excludes: seq<Regexp>, inv: Invocation, root: Listing): Trace {
    if Target(includes, excludes, inv).Some? then FileTrace(inv.path, inv.file)
    else WalkDir(includes, excludes, ".", root)
  }

  /** The exit status of `main`, given the configuration file as decoded (or
      the error reading or decoding it), the regular expression compiler, the
      invocation and the listing of the current directory. */
  function Outcome(config: Result<RawDefs, string>, compile: Compiler, inv: Invocation, root: Listing): ExitCode {
    if config.Failure? then Fatal
    else
      var raw := config.value;
      var inc := CompileAll(compile, raw.includes);
      var exc := CompileAll(compile, raw.excludes);
      var pats := CompileAll(compile, RuleSources(raw.rules));
      if inc.Failure? || exc.Failure? || pats.Failure? then Fatal
      else
        var trace := Scan(inc.value, exc.value, inv, root);
        if trace.err.Some? then Fatal
        else if SomeRuleFails(raw.rules, pats.value, Target(inc.value, exc.value, inv), trace.log) then LidFailed
        else Ok
  }

  /** `main` after argument handling: parse, then scan and reconcile. */
  method Run(config: Result<RawDefs, string>, compile: Compiler, inv: Invocation, root: Listing)
    returns (code: ExitCode)
    ensures code == Outcome(config, compile, inv, root)
  {
    if config.Failure? {
      return Fatal;
    }
    var raw := config.value;
    var parsed := Parse(raw, compile);
    SourcesInOrder(compile, raw);
    if parsed.Failure? {
      return Fatal;
    }
    var d := parsed.value;
    code := d.Check(inv, root);
  }

  /** Once the configuration compiles and the scan ends without error, the
      run succeeds exactly when every rule's expected set, narrowed in
      single-file mode, equals the set of files where its pattern was found;
      and it never exits with the fatal status. */
  lemma OkIffEveryRuleAgrees(raw: RawDefs, compile: Compiler, inv: Invocation, root: Listing)
    requires CompileAll(compile, raw.includes).Success?
    requires CompileAll(compile, raw.excludes).Success?
    requires CompileAll(compile, RuleSources(raw.rules)).Success?
    requires Scan(CompileAll(compile, raw.includes).value, CompileAll(compile, raw.excludes).value, inv, root).err.None?
    ensures var inc, exc := CompileAll(compile, raw.includes).value, CompileAll(compile, raw.excludes).value;
      var pats := CompileAll(compile, RuleSources(raw.rules)).value;
      var target, log := Target(inc, exc, inv), Scan(inc, exc, inv, root).log;
      && Outcome(Success(raw), compile, inv, root) != Fatal
      && (Outcome(Success(raw), compile, inv, root) == Ok <==>
          forall k :: 0 <= k < |raw.rules| ==>
            Expectation(Elements(raw.rules[k].expected), target) == HitFiles(pats[k], log))
  {
    var inc, exc := CompileAll(compile, raw.includes).value, CompileAll(compile, raw.excludes).value;
    var pats := CompileAll(compile, RuleSources(raw.rules)).value;
    var target, log := Target(inc, exc, inv), Scan(inc, exc, inv, root).log;
    forall k | 0 <= k < |raw.rules|
      ensures Passes(Expectation(Elements(raw.rules[k].expected), target), HitFiles(pats[k], log)) <==>
        Expectation(Elements(raw.rules[k].expected), target) == HitFiles(pats[k], log)
    {
      PassesIffEqual(Expectation(Elements(raw.rules[k].expected), target), HitFiles(pats[k], log));
    }
  }

  /** The configuration decodes, every pattern compiles, and the scan ends
      without an I/O error. */
  ghost predicate Clean(config: Result<RawDefs, string>, compile: Compiler, inv: Invocation, root: Listing) {
    && config.Success?
    && CompileAll(compile, config.value.includes).Success?
    && CompileAll(compile, config.value.excludes).Success?
    && CompileAll(compile, RuleSources(config.value.rules)).Success?
    && Scan(CompileAll(compile, config.value.includes).value,
            CompileAll(compile, config.value.excludes).value, inv, root).err.None?
  }

  /** `main` exits with 1 exactly on a configuration, compile or I/O error
      (`oops`), and with 2 exactly when the run is clean and some rule has a
      file found where not expected or an expected file not found. */
  lemma ExitStatus(config: Result<RawDefs, string>, compile: Compiler, inv: Invocation, root: Listing)
    ensures Status(Outcome(config, compile, inv, root)) == 1 <==> !Clean(config, compile, inv, root)
    ensures Clean(config, compile, inv, root) ==>
      var raw := config.value;
      var inc, exc := CompileAll(compile, raw.includes).value, CompileAll(compile, raw.excludes).value;
      var pats := CompileAll(compile, RuleSources(raw.rules)).value;
      var target, log := Target(inc, exc, inv), Scan(inc, exc, inv, root).log;
      (Status(Outcome(config, compile, inv, root)) == 2 <==>
        exists k :: 0 <= k < |raw.rules| &&
          (HitFiles(pats[k], log) - Expectation(Elements(raw.rules[k].expected), target) != {} ||
           Expectation(Elements(raw.rules[k].expected), target) - HitFiles(pats[k], log) != {}))
  {
  }

  /** A target that the path filter rejects is ignored: the run scans the
      whole tree as if no target had been given. */
  lemma ExcludedTargetScansTree(config: Result<RawDefs, string>, compile: Compiler, path: string, file: Opened, root: Listing)
    requires config.Success?
    requires CompileAll(compile, config.value.includes).Success?
    requires CompileAll(compile, config.value.excludes).Success?
    requires !ShouldCheck(CompileAll(compile, config.value.includes).value,
                          CompileAll(compile, config.value.excludes).value, path)
    ensures Outcome(config, compile, SingleFile(path, file), root) == Outcome(config, compile, FullTree, root)
  {
  }

  /** In single-file mode both the narrowed expected set and the actual set
      of a rule lie within the target, so a failing rule is reported either
      as found where not expected or as expected but missing, never both. */
  lemma SingleFileReportOneSided(raw: RawDefs, compile: Compiler, path: string, file: Opened, root: Listing, k: nat)
    requires CompileAll(compile, raw.includes).Success?
    requires CompileAll(compile, raw.excludes).Success?
    requires CompileAll(compile, RuleSources(raw.rules)).Success?
    requires ShouldCheck(CompileAll(compile, raw.includes).value, CompileAll(compile, raw.excludes).value, path)
    requires k < |raw.rules|
    ensures var inc, exc := CompileAll(compile, raw.includes).value, CompileAll(compile, raw.excludes).value;
      var inv := SingleFile(path, file);
      var expected := Expectation(Elements(raw.rules[k].expected), Target(inc, exc, inv));
      var actual := HitFiles(CompileAll(compile, RuleSources(raw.rules)).value[k], Scan(inc, exc, inv, root).log);
      && expected <= {path} && actual <= {path}
      && (actual - expected == {} || expected - actual == {})
  {
    var inc, exc := CompileAll(compile, raw.includes).value, CompileAll(compile, raw.excludes).value;
    var inv := SingleFile(path, file);
    var expected := Expectation(Elements(raw.rules[k].expected), Target(inc, exc, inv));
    var p := CompileAll(compile, RuleSources(raw.rules)).value[k];
    var actual := HitFiles(p, Scan(inc, exc, inv, root).log);
    if file.Opened? {
      HitFilesOfOneFile(p, path, Lines(file.stream.data));
    } else {
      assert actual == {};
    }
    SingleFileOneSided(expected, actual, path);
  }
}
