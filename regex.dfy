/** Compiled regular expressions. The regular-expression engine (Go's
    `regexp` package) is foreign code: a compiled pattern is represented by
    its source text and by the predicate `matches`, which says whether the
    pattern finds a match somewhere in a string (`Regexp.Match`). Compiling
    (`regexp.Compile`) is a parameter of type `Compiler`. */
module Regex {
  import opened Wrappers

  datatype Regexp = Regexp(source: string, matches: string -> bool)

  /** `regexp.Compile`: a compiled pattern, or the compiler's error message. */
  type Compiler = string -> Result<Regexp, string>

  /** Compiles `srcs` in order and stops at the first source that does not
      compile, as each of the three compile loops of `parse` does. */
  function CompileAll(compile: Compiler, srcs: seq<string>): (r: Result<seq<Regexp>, string>)
    ensures r.Success? <==> forall k :: 0 <= k < |srcs| ==> compile(srcs[k]).Success?
    ensures r.Success? ==>
      |r.value| == |srcs| && forall k :: 0 <= k < |srcs| ==> r.value[k] == compile(srcs[k]).value
    ensures r.Failure? ==>
      exists k :: 0 <= k < |srcs| && compile(srcs[k]).Failure? && compile(srcs[k]).error == r.error
        && forall j :: 0 <= j < k ==> compile(srcs[j]).Success?
  {
    if srcs == [] then Success([])
    else
      match CompileAll(compile, srcs[..|srcs| - 1])
      case Failure(e) => Failure(e)
      case Success(ps) =>
        match compile(srcs[|srcs| - 1])
        case Failure(e) => Failure(e)
        case Success(p) => Success(ps + [p])
  }

  /** Once a prefix fails to compile, the whole sequence fails with the same error. */
  lemma {:induction false} CompileAllPrefixFailure(compile: Compiler, srcs: seq<string>, n: nat)
    requires n <= |srcs| && CompileAll(compile, srcs[..n]).Failure?
    ensures CompileAll(compile, srcs) == CompileAll(compile, srcs[..n])
    decreases |srcs| - n
  {
    if n < |srcs| {
      assert srcs[..n + 1][..n] == srcs[..n];
      CompileAllPrefixFailure(compile, srcs, n + 1);
    } else {
      assert srcs[..n] == srcs;
    }
  }

  /** Compiling a concatenation: the first list's failure wins, then the
      second's; on success the compiled patterns are concatenated. */
  lemma {:induction false} CompileAllAppend(compile: Compiler, a: seq<string>, b: seq<string>)
    ensures CompileAll(compile, a + b) ==
      match CompileAll(compile, a)
      case Failure(e) => Failure(e)
      case Success(pa) =>
        match CompileAll(compile, b)
        case Failure(e) => Failure(e)
        case Success(pb) => Success(pa + pb)
    decreases |b|
  {
    if b == [] {
      assert a + b == a;
      match CompileAll(compile, a)
      case Failure(e) =>
      case Success(pa) => assert pa + [] == pa;
    } else {
      var b' := b[..|b| - 1];
      assert (a + b)[..|a + b| - 1] == a + b';
      assert (a + b)[|a + b| - 1] == b[|b| - 1];
      CompileAllAppend(compile, a, b');
      match CompileAll(compile, a)
      case Failure(e) =>
      case Success(pa) =>
        match CompileAll(compile, b')
        case Failure(e) =>
        case Success(pb) =>
          match compile(b[|b| - 1])
          case Failure(e) =>
          case Success(p) => assert pa + pb + [p] == pa + (pb + [p]);
    }
  }
}
