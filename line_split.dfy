/** How `matchAgainstFile` cuts a file into lines: `bufio.Reader.ReadString('\n')`
    is called until it reports an error, and every line it returns before that
    is scanned with its '\n' kept. When the input ends, ReadString returns the
    unterminated remainder together with `io.EOF`, and the loop returns without
    scanning it: a final line with no '\n' is never scanned. */
module LineSplit {
  import opened Wrappers

  /** Index of the first '\n' in `s`, the delimiter search inside ReadString. */
  function FirstNewline(s: string): (r: Option<nat>)
    ensures r.Some? ==> r.value < |s|
  {
    if s == [] then None
    else if s[0] == '\n' then Some(0)
    else
      match FirstNewline(s[1..])
      case None => None
      case Some(j) => Some(j + 1)
  }

  /** The delimiter search finds the first '\n', and finds none only when
      there is none. */
  lemma {:induction false} FirstNewlineSpec(s: string)
    ensures FirstNewline(s).Some? ==>
      s[FirstNewline(s).value] == '\n' && NoNewlineBefore(s, FirstNewline(s).value)
    ensures FirstNewline(s).None? ==> NoNewlineBefore(s, |s|)
  {
    if s != [] && s[0] != '\n' {
      FirstNewlineSpec(s[1..]);
    }
  }

  /** No '\n' among the first `n` characters of `s`. */
  predicate NoNewlineBefore(s: string, n: nat)
    requires n <= |s|
  {
    forall i :: 0 <= i < n ==> s[i] != '\n'
  }

  /** A line as ReadString hands it out: ends with its one and only '\n'. */
  predicate Terminated(line: string) {
    |line| > 0 && line[|line| - 1] == '\n' && NoNewlineBefore(line, |line| - 1)
  }

  /** The lines the read loop scans, in order: every '\n'-terminated line of
      `s`, each keeping its '\n'; an unterminated remainder is dropped. */
  function Lines(s: string): (ls: seq<string>)
    decreases |s|
  {
    match FirstNewline(s)
    case None => []
    case Some(j) => [s[..j + 1]] + Lines(s[j + 1..])
  }

  /** Every line handed out keeps its '\n' and holds no other. */
  lemma {:induction false} LinesTerminated(s: string)
    ensures forall k :: 0 <= k < |Lines(s)| ==> Terminated(Lines(s)[k])
    decreases |s|
  {
    match FirstNewline(s)
    case None =>
    case Some(j) =>
      LinesTerminated(s[j + 1..]);
      FirstNewlineSpec(s);
      assert Terminated(s[..j + 1]);
  }

  function Concat(ls: seq<string>): string {
    if ls == [] then [] else ls[0] + Concat(ls[1..])
  }

  /** The trailing segment that the read loop returns on without scanning. */
  function Unscanned(s: string): string
    decreases |s|
  {
    match FirstNewline(s)
    case None => s
    case Some(j) => Unscanned(s[j + 1..])
  }

  lemma {:induction false} UnscannedHasNoNewline(s: string)
    ensures NoNewlineBefore(Unscanned(s), |Unscanned(s)|)
    decreases |s|
  {
    match FirstNewline(s)
    case None => FirstNewlineSpec(s);
    case Some(j) => UnscannedHasNoNewline(s[j + 1..]);
  }

  /** The scanned lines followed by the unscanned remainder give back the
      whole file: nothing is scanned twice and nothing but the remainder is skipped. */
  lemma {:induction false} LinesCover(s: string)
    ensures s == Concat(Lines(s)) + Unscanned(s)
    decreases |s|
  {
    match FirstNewline(s)
    case None =>
    case Some(j) =>
      var line, rest := s[..j + 1], s[j + 1..];
      LinesCover(rest);
      ConcatCons(line, Lines(rest));
      Reassociate(s, line, rest, Concat(Lines(rest)), Unscanned(rest));
  }

  lemma ConcatCons(l: string, ls: seq<string>)
    ensures Concat([l] + ls) == l + Concat(ls)
  {
    assert ([l] + ls)[1..] == ls;
  }

  /** Regrouping `s == a + (c + d)`, kept apart to keep `LinesCover` small. */
  lemma Reassociate(s: string, a: string, b: string, c: string, d: string)
    requires s == a + b && b == c + d
    ensures s == (a + c) + d
  {
  }

  /** Splitting terminated lines followed by a segment without '\n' gives back
      exactly those lines: the lines scanned are exactly the '\n'-terminated
      lines of the file, in order. */
  lemma {:induction false} LinesOfTerminated(ls: seq<string>, tail: string)
    requires forall k :: 0 <= k < |ls| ==> Terminated(ls[k])
    requires NoNewlineBefore(tail, |tail|)
    ensures Lines(Concat(ls) + tail) == ls
    ensures Unscanned(Concat(ls) + tail) == tail
  {
    if ls == [] {
      assert Concat(ls) + tail == tail;
      FirstNewlineSpec(tail);
    } else {
      var s := Concat(ls) + tail;
      var l := ls[0];
      var rest := Concat(ls[1..]) + tail;
      assert s == l + rest;
      assert Terminated(l);
      FirstNewlineOfTerminated(l, rest);
      assert s[..|l|] == l;
      assert s[|l|..] == rest;
      LinesOfTerminated(ls[1..], tail);
      assert [l] + ls[1..] == ls;
    }
  }

  lemma {:induction false} FirstNewlineOfTerminated(l: string, rest: string)
    requires Terminated(l)
    ensures FirstNewline(l + rest) == Some(|l| - 1)
  {
    if l[0] != '\n' {
      assert (l + rest)[1..] == l[1..] + rest;
      FirstNewlineOfTerminated(l[1..], rest);
    }
  }

  /** Text after the last '\n' never reaches the line matcher: appending a
      segment without '\n' to a file does not change what is scanned. */
  lemma UnterminatedTailIgnored(s: string, t: string)
    requires NoNewlineBefore(t, |t|)
    ensures Lines(s + t) == Lines(s)
  {
    var c, u := Concat(Lines(s)), Unscanned(s);
    LinesCover(s);
    assert s + t == c + (u + t) by {
      assert (c + u) + t == c + (u + t);
    }
    UnscannedHasNoNewline(s);
    NoNewlineJoin(u, t);
    LinesTerminated(s);
    LinesOfTerminated(Lines(s), u + t);
  }

  lemma NoNewlineJoin(a: string, b: string)
    requires NoNewlineBefore(a, |a|) && NoNewlineBefore(b, |b|)
    ensures NoNewlineBefore(a + b, |a + b|)
  {
    forall i | 0 <= i < |a + b| ensures (a + b)[i] != '\n' {
      if i >= |a| {
        assert (a + b)[i] == b[i - |a|];
      }
    }
  }

  /** A file whose last line lacks '\n': only the terminated first line is scanned. */
  lemma LastLineWithoutNewline()
    ensures Lines("a\nTODO") == ["a\n"]
  {
    var l := "a\n";
    assert l[..|l| - 1] == "a";
    assert Terminated(l);
    assert Concat([l]) == l + Concat([]);
    LinesOfTerminated([l], "TODO");
    assert Concat([l]) + "TODO" == "a\nTODO";
  }
}
