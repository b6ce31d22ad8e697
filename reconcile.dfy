/** Reconciliation of a rule's expected files against the files where its
    pattern was found. */
module Reconcile {

  /** The expectations of single-file mode: only the target file, and only if
      it was expected (`adjustExpectedFilenames`). */
  function Narrowed(expected: set<string>, target: string): (r: set<string>)
    ensures r <= {target}
    ensures target in r <==> target in expected
  {
    if target in expected then {target} else {}
  }

  /** Narrowing keeps exactly the expected files equal to the target. */
  lemma NarrowedIsIntersection(expected: set<string>, target: string)
    ensures Narrowed(expected, target) == expected * {target}
  {
  }

  /** A rule passes when nothing was found where it was not expected and
      nothing expected went unfound, that is when the two sets agree. */
  predicate Passes(expected: set<string>, actual: set<string>) {
    actual - expected == {} && expected - actual == {}
  }

  lemma PassesIffEqual(expected: set<string>, actual: set<string>)
    ensures Passes(expected, actual) <==> expected == actual
  {
    if Passes(expected, actual) {
      assert forall f :: f in actual ==> f in expected by {
        forall f | f in actual ensures f in expected {
          assert f !in actual - expected;
        }
      }
      assert forall f :: f in expected ==> f in actual by {
        forall f | f in expected ensures f in actual {
          assert f !in expected - actual;
        }
      }
    }
  }

  /** In single-file mode both sets lie within the target, so a failing rule
      has either an unexpected occurrence or a missing one, never both. */
  lemma SingleFileOneSided(expected: set<string>, actual: set<string>, target: string)
    requires expected <= {target} && actual <= {target}
    ensures actual - expected == {} || expected - actual == {}
  {
    if actual - expected != {} {
      var f :| f in actual - expected;
      assert f == target;
    }
  }
}
