/** The worked examples of a lid on `TODO`: one rule whose pattern may occur
    only in `legacy.go`, every path included, nothing excluded. */
module Scenarios {
  import opened Wrappers
  import opened Regex
  import opened LineSplit
  import opened Walk
  import opened Reconcile
  import opened Lidder

  /** `s` occurs somewhere in `line`, which is what an unanchored literal
      pattern matches. */
  ghost predicate Contains(line: string, s: string) {
    exists i :: 0 <= i && OccursAt(line, s, i)
  }

  ghost predicate OccursAt(line: string, s: string, i: nat) {
    i + |s| <= |line| && line[i..i + |s|] == s
  }

  ghost function Todo(): Regexp {
    Regexp("TODO", line => Contains(line, "TODO"))
  }

  ghost function Everything(): Regexp {
    Regexp(".*", line => true)
  }

  /** A compiler that knows the two patterns of the configuration. */
  ghost function Compile(): Compiler {
    src => if src == "TODO" then Success(Todo())
           else if src == ".*" then Success(Everything())
           else Failure("error parsing regexp")
  }

  ghost function Config(): RawDefs {
    RawDefs([".*"], [], [RawRule("TODO", ["legacy.go"])])
  }

  function File(contents: string): Opened {
    Opened(Stream(contents, Eof))
  }

  lemma CompiledConfig()
    ensures CompileAll(Compile(), Config().includes) == Success([Everything()])
    ensures CompileAll(Compile(), Config().excludes) == Success([])
    ensures CompileAll(Compile(), RuleSources(Config().rules)) == Success([Todo()])
  {
    assert Compile()(".*") == Success(Everything());
    assert Compile()("TODO") == Success(Todo());
    assert RuleSources(Config().rules) == ["TODO"];
    assert [".*"][..0] == [] && ["TODO"][..0] == [];
    var empty: seq<Regexp> := [];
    assert CompileAll(Compile(), []) == Success(empty);
    assert empty + [Everything()] == [Everything()];
    assert empty + [Todo()] == [Todo()];
    assert CompileAll(Compile(), [".*"]) == Success([Everything()]);
    assert CompileAll(Compile(), ["TODO"]) == Success([Todo()]);
  }

  /** A file of one terminated line is scanned as that line. */
  lemma OneLine(l: string)
    requires Terminated(l)
    ensures Lines(l) == [l]
  {
    assert Concat([l]) == l + Concat([]);
    LinesOfTerminated([l], "");
    assert Concat([l]) + "" == l;
  }

  lemma ScannedLines()
    ensures Terminated("TODO\n") && Terminated("x\n")
    ensures Contains("TODO\n", "TODO") && !Contains("x\n", "TODO")
  {
    assert "TODO\n"[..4] == "TODO";
    assert "x\n"[..1] == "x";
    assert OccursAt("TODO\n", "TODO", 0);
  }

  /** With this configuration the exit status depends only on the scan and
      on the one rule's reconciliation. */
  lemma ConfigOutcome(inv: Invocation, root: Listing)
    ensures var trace := Scan([Everything()], [], inv, root);
      Outcome(Success(Config()), Compile(), inv, root) ==
        if trace.err.Some? then Fatal
        else if !Passes(Expectation({"legacy.go"}, Target([Everything()], [], inv)), HitFiles(Todo(), trace.log))
        then LidFailed
        else Ok
  {
    CompiledConfig();
    assert Elements(Config().rules[0].expected) == {"legacy.go"};
  }

  /** A top-level file of one terminated line is scanned as that line. */
  lemma FileEntry(name: string, line: string)
    requires Terminated(line)
    ensures WalkEntry([Everything()], [], ".", Regular(name, File(line))) == Trace([(name, line)], None)
  {
    OneLine(line);
    assert Everything().matches(name);
    assert Tagged(name, [line]) == [(name, line)];
  }

  /** The files where the `TODO` rule's pattern is found in a full-tree scan. */
  ghost function Found(tree: seq<Entry>): set<string> {
    HitFiles(Todo(), WalkDir([Everything()], [], ".", Listed(tree)).log)
  }

  /** A tree of one file holding one line. */
  lemma OneFileTree(name: string, line: string)
    requires Terminated(line)
    ensures WalkDir([Everything()], [], ".", Listed([Regular(name, File(line))])) == Trace([(name, line)], None)
  {
    var tree := [Regular(name, File(line))];
    FileEntry(name, line);
    assert tree[..0] == [] && tree[..1] == tree;
    WalkEntriesSnoc([Everything()], [], ".", tree, 0);
  }

  /** A full-tree scan visits the entries in order. */
  lemma TwoFileTree(name1: string, line1: string, name2: string, line2: string)
    requires Terminated(line1) && Terminated(line2)
    ensures WalkDir([Everything()], [], ".", Listed([Regular(name1, File(line1)), Regular(name2, File(line2))]))
      == Trace([(name1, line1), (name2, line2)], None)
  {
    var tree := [Regular(name1, File(line1)), Regular(name2, File(line2))];
    FileEntry(name1, line1);
    FileEntry(name2, line2);
    assert tree[..0] == [] && tree[..2] == tree;
    WalkEntriesSnoc([Everything()], [], ".", tree, 0);
    WalkEntriesSnoc([Everything()], [], ".", tree, 1);
  }

  /** `legacy.go` and `new.go` both hold a TODO: `new.go` is reported as
      found where not expected, nothing is missing, and the run fails. */
  lemma NewOccurrenceFails()
    ensures var tree := [Regular("legacy.go", File("TODO\n")), Regular("new.go", File("TODO\n"))];
      && Found(tree) - {"legacy.go"} == {"new.go"}
      && {"legacy.go"} - Found(tree) == {}
      && Outcome(Success(Config()), Compile(), FullTree, Listed(tree)) == LidFailed
  {
    var tree := [Regular("legacy.go", File("TODO\n")), Regular("new.go", File("TODO\n"))];
    var log := [("legacy.go", "TODO\n"), ("new.go", "TODO\n")];
    ScannedLines();
    TwoFileTree("legacy.go", "TODO\n", "new.go", "TODO\n");
    assert HitFiles(Todo(), log) == {"legacy.go", "new.go"} by {
      assert log[..1][..0] == [] && log[..2][..1] == log[..1];
    }
    ConfigOutcome(FullTree, Listed(tree));
  }

  /** Only `legacy.go`, with its TODO: the sets agree and the run passes. */
  lemma ExpectedOccurrencePasses()
    ensures var tree := [Regular("legacy.go", File("TODO\n"))];
      && Found(tree) == {"legacy.go"}
      && Outcome(Success(Config()), Compile(), FullTree, Listed(tree)) == Ok
  {
    var tree := [Regular("legacy.go", File("TODO\n"))];
    var log := [("legacy.go", "TODO\n")];
    ScannedLines();
    OneFileTree("legacy.go", "TODO\n");
    assert log[..0] == [];
    assert Found(tree) == {"legacy.go"};
    ConfigOutcome(FullTree, Listed(tree));
  }

  /** Only `other.go`, without a TODO: `legacy.go` is reported missing and
      the run fails. */
  lemma MissingOccurrenceFails()
    ensures var tree := [Regular("other.go", File("x\n"))];
      && Found(tree) == {}
      && {"legacy.go"} - Found(tree) == {"legacy.go"}
      && Outcome(Success(Config()), Compile(), FullTree, Listed(tree)) == LidFailed
  {
    var tree := [Regular("other.go", File("x\n"))];
    var log := [("other.go", "x\n")];
    ScannedLines();
    OneFileTree("other.go", "x\n");
    assert log[..0] == [];
    assert Found(tree) == {};
    ConfigOutcome(FullTree, Listed(tree));
  }

  /** Single-file mode on `legacy.go`, which holds a TODO: the expectation
      narrows to `legacy.go`, the pattern is found there, and the run passes
      whatever the rest of the tree holds. */
  lemma SingleFilePasses(root: Listing)
    ensures Outcome(Success(Config()), Compile(), SingleFile("legacy.go", File("TODO\n")), root) == Ok
  {
    var log := [("legacy.go", "TODO\n")];
    ScannedLines();
    assert FileTrace("legacy.go", File("TODO\n")) == Trace(log, None) by {
      OneLine("TODO\n");
      assert Tagged("legacy.go", ["TODO\n"]) == log;
    }
    assert HitFiles(Todo(), log) == {"legacy.go"} by {
      assert log[..0] == [];
    }
    assert Everything().matches("legacy.go");
    ConfigOutcome(SingleFile("legacy.go", File("TODO\n")), root);
  }
}
