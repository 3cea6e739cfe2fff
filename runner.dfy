/**
 * The `run` service: it prepares a snippet for the execution backend and
 * watches the events the backend streams back.
 *
 * A snippet is a txtar archive: `-- name --` lines start its file sections.
 * When it has no `go.mod` section, a minimal one (and an empty `go.sum`) is
 * appended so that the snippet builds in module mode.
 *
 * Every streamed event passes through an interceptor. On error output it
 * highlights each line of the editor that the compiler reports as
 * `<file>.go:<line>: <message>`. It then forwards the event to the output
 * sink and, on the end-of-stream event, calls the completion callback.
 */
module Runner {
  import opened Options

  // ---------------------------------------------------------------------
  // The go.mod suffix
  // ---------------------------------------------------------------------

  /** A go.mod delimiter line that follows another line. */
  const GoModMarker := "\n-- go.mod --\n"
  /** A go.mod delimiter line that opens the archive. */
  const GoModHeader := "-- go.mod --\n"
  /** The default manifest: module `example`, Go 1.24.0, and an empty go.sum. */
  const GoModManifest := "module example\n\ngo 1.24.0\n-- go.sum --\n"
  /** What is appended to a snippet without a go.mod section. */
  const GoModSuffix := GoModMarker + GoModManifest

  ghost predicate OccursAt(s: string, pat: string, i: int) {
    0 <= i && i + |pat| <= |s| && s[i..i + |pat|] == pat
  }

  predicate StartsWith(s: string, prefix: string) {
    |prefix| <= |s| && s[..|prefix|] == prefix
  }

  /** `String.prototype.indexOf`: the first position where `pat` occurs in
      `s`, or -1. */
  function Find(s: string, pat: string): (r: int)
    ensures -1 <= r <= |s|
    ensures r == -1 <==> forall i :: !OccursAt(s, pat, i)
    ensures r != -1 ==> OccursAt(s, pat, r)
    ensures forall i :: 0 <= i < r ==> !OccursAt(s, pat, i)
    decreases |s|
  {
    if |s| < |pat| then -1
    else if s[..|pat|] == pat then
      assert OccursAt(s, pat, 0);
      0
    else
      var k := Find(s[1..], pat);
      assert forall i :: 0 <= i ==> (OccursAt(s[1..], pat, i) <==> OccursAt(s, pat, i + 1)) by {
        forall i | 0 <= i ensures OccursAt(s[1..], pat, i) <==> OccursAt(s, pat, i + 1) {
          if i + |pat| <= |s| - 1 {
            assert s[1..][i..i + |pat|] == s[i + 1..i + 1 + |pat|];
          }
        }
      }
      assert !OccursAt(s, pat, 0);
      assert forall i :: i < 0 ==> !OccursAt(s, pat, i);
      if k < 0 then
        assert forall i :: !OccursAt(s, pat, i) by {
          forall i ensures !OccursAt(s, pat, i) {
            if i > 0 { assert !OccursAt(s[1..], pat, i - 1); }
          }
        }
        -1
      else
        assert forall i :: 0 <= i < k + 1 ==> !OccursAt(s, pat, i) by {
          forall i | 0 < i < k + 1 ensures !OccursAt(s, pat, i) {
            assert !OccursAt(s[1..], pat, i - 1);
          }
        }
        k + 1
  }

  /** The archive already has a go.mod section: the delimiter occurs after a
      line break, or opens the archive. */
  function HasGoMod(code: string): (r: bool)
    ensures r <==> (exists i :: OccursAt(code, GoModMarker, i)) || StartsWith(code, GoModHeader)
  {
    Find(code, GoModMarker) != -1 || StartsWith(code, GoModHeader)
  }

  /** The code that is sent to the backend. */
  function WithGoMod(code: string): (r: string)
    ensures HasGoMod(code) ==> r == code
    ensures !HasGoMod(code) ==> r == code + GoModSuffix
  {
    if HasGoMod(code) then code else code + GoModSuffix
  }

  lemma OccursBetween(a: string, pat: string, b: string)
    ensures OccursAt(a + pat + b, pat, |a|)
  {
    assert (a + pat + b)[|a|..|a| + |pat|] == pat;
  }

  /** The code is kept unchanged as a prefix, and the result always has a
      go.mod section. */
  lemma WithGoModExtends(code: string)
    ensures |code| <= |WithGoMod(code)| && WithGoMod(code)[..|code|] == code
    ensures HasGoMod(WithGoMod(code))
  {
    if !HasGoMod(code) {
      OccursBetween(code, GoModMarker, GoModManifest);
      assert code + GoModSuffix == code + GoModMarker + GoModManifest;
    }
  }

  /** Preparing a snippet twice gives what preparing it once gives. */
  lemma WithGoModIdempotent(code: string)
    ensures WithGoMod(WithGoMod(code)) == WithGoMod(code)
  {
    WithGoModExtends(code);
  }

  // ---------------------------------------------------------------------
  // Splitting an event body into lines
  // ---------------------------------------------------------------------

  /** Lines joined with "\n" between them. */
  function Join(lines: seq<string>): string
    requires |lines| >= 1
  {
    if |lines| == 1 then lines[0] else lines[0] + "\n" + Join(lines[1..])
  }

  /** `split('\n')`: the pieces between line breaks. There is always at
      least one piece, and a trailing line break leaves an empty last one. */
  function Split(s: string): (r: seq<string>)
    ensures |r| >= 1
    ensures forall k :: 0 <= k < |r| ==> '\n' !in r[k]
    ensures Join(r) == s
    decreases |s|
  {
    if |s| == 0 then [""]
    else
      var rest := Split(s[1..]);
      if s[0] == '\n' then
        assert ([""] + rest)[1..] == rest;
        [""] + rest
      else
        var r := [[s[0]] + rest[0]] + rest[1..];
        assert r[1..] == rest[1..];
        assert s == [s[0]] + s[1..];
        r
  }

  lemma {:induction false} SplitLine(a: string)
    requires '\n' !in a
    ensures Split(a) == [a]
    decreases |a|
  {
    if |a| > 0 {
      assert '\n' !in a[1..] by {
        forall c | c in a[1..] ensures c != '\n' { assert c in a; }
      }
      SplitLine(a[1..]);
      assert [a[0]] + a[1..] == a;
    }
  }

  lemma {:induction false} SplitCons(a: string, rest: string)
    requires '\n' !in a
    ensures Split(a + "\n" + rest) == [a] + Split(rest)
    decreases |a|
  {
    var s := a + "\n" + rest;
    if |a| == 0 {
      assert s[1..] == rest;
    } else {
      assert s[1..] == a[1..] + "\n" + rest;
      assert '\n' !in a[1..] by {
        forall c | c in a[1..] ensures c != '\n' { assert c in a; }
      }
      SplitCons(a[1..], rest);
      assert [a[0]] + a[1..] == a;
    }
  }

  /** Splitting undoes joining: the pieces of a body are exactly its lines. */
  lemma {:induction false} SplitJoin(lines: seq<string>)
    requires |lines| >= 1
    requires forall k :: 0 <= k < |lines| ==> '\n' !in lines[k]
    ensures Split(Join(lines)) == lines
    decreases |lines|
  {
    if |lines| == 1 {
      SplitLine(lines[0]);
    } else {
      SplitJoin(lines[1..]);
      SplitCons(lines[0], Join(lines[1..]));
      assert [lines[0]] + lines[1..] == lines;
    }
  }

  // ---------------------------------------------------------------------
  // Matching a compiler error line
  // ---------------------------------------------------------------------

  predicate IsDigit(c: char) {
    '0' <= c <= '9'
  }

  ghost predicate AllDigits(d: string) {
    forall k :: 0 <= k < |d| ==> IsDigit(d[k])
  }

  /** From position `p` on, the line reads `.go:`, a run of digits, `: ` and
      the message. */
  ghost predicate MatchesAt(line: string, p: int, lineNo: string, msg: string) {
    0 <= p <= |line| && line[p..] == ".go:" + lineNo + ": " + msg &&
    |lineNo| > 0 && AllDigits(lineNo)
  }

  /** The end of the run of digits that starts at `i`. */
  function DigitsEnd(s: string, i: nat): (r: nat)
    requires i <= |s|
    ensures i <= r <= |s|
    ensures forall k :: i <= k < r ==> IsDigit(s[k])
    ensures r == |s| || !IsDigit(s[r])
    decreases |s| - i
  {
    if i < |s| && IsDigit(s[i]) then DigitsEnd(s, i + 1) else i
  }

  /** `.go:` starts at position `p`. */
  predicate GoAt(line: string, p: nat) {
    p + 4 <= |line| && line[p] == '.' && line[p + 1] == 'g' && line[p + 2] == 'o' && line[p + 3] == ':'
  }

  /** `: ` starts at position `q`. */
  predicate ColonSpaceAt(line: string, q: nat) {
    q + 2 <= |line| && line[q] == ':' && line[q + 1] == ' '
  }

  /** The match whose `.go:` starts at position `p`, if there is one. */
  function MatchAt(line: string, p: nat): Option<(string, string)>
    requires p <= |line|
  {
    if GoAt(line, p) then
      var q := DigitsEnd(line, p + 4);
      if q > p + 4 && ColonSpaceAt(line, q) then Some((line[p + 4..q], line[q + 2..]))
      else None
    else
      None
  }

  /** What `MatchAt` reports is a match. */
  lemma MatchAtSound(line: string, p: nat)
    requires p <= |line|
    ensures MatchAt(line, p).Some? ==> MatchesAt(line, p, MatchAt(line, p).value.0, MatchAt(line, p).value.1)
  {
    if MatchAt(line, p).Some? {
      var q := DigitsEnd(line, p + 4);
      assert line[q..q + 2] == ": ";
      assert line[p..] == line[p..p + 4] + line[p + 4..q] + line[q..q + 2] + line[q + 2..];
    }
  }

  /** Every match at `p` is the one `MatchAt` reports: its digits are the
      whole run of digits after `.go:` and its message is everything after
      `: `. */
  lemma MatchAtComplete(line: string, p: nat, d: string, m: string)
    requires MatchesAt(line, p, d, m)
    ensures MatchAt(line, p) == Some((d, m))
  {
    var w := ".go:" + d + ": " + m;
    var e := p + 4 + |d|;
    var tail := line[p..];
    forall k | p + 4 <= k < e ensures IsDigit(line[k]) {
      assert tail[k - p] == line[k] && w[k - p] == d[k - p - 4];
    }
    assert tail[4 + |d|] == line[e];
    assert line[p + 4..e] == d by {
      forall k | 0 <= k < |d| ensures line[p + 4..e][k] == d[k] {
        assert tail[4 + k] == w[4 + k];
      }
    }
    assert line[e + 2..] == m by {
      assert |line| - (e + 2) == |m|;
      forall k | 0 <= k < |m| ensures line[e + 2..][k] == m[k] {
        assert tail[6 + |d| + k] == w[6 + |d| + k];
      }
    }
  }

  /** A highlighted error: where its `.go:` starts, the line number and the
      message. */
  datatype Hit = Hit(pos: nat, lineNo: string, msg: string)

  /** The last position before `k` that holds a value. */
  function LastSome<T>(ms: seq<Option<T>>, k: nat): (r: Option<nat>)
    requires k <= |ms|
    ensures r.Some? ==> r.value < k && ms[r.value].Some? && forall p :: r.value < p < k ==> ms[p].None?
    ensures r.None? ==> forall p :: 0 <= p < k ==> ms[p].None?
    decreases k
  {
    if k == 0 then None
    else if ms[k - 1].Some? then Some(k - 1)
    else LastSome(ms, k - 1)
  }

  /** The match at every position of the line, the end included. */
  function Matches(line: string): seq<Option<(string, string)>> {
    seq(|line| + 1, p requires 0 <= p <= |line| => MatchAt(line, p))
  }

  /** The capture groups of `/.*\.go:([0-9]+): ([^\n]*)/` on one line. The
      leading `.*` is greedy, so the match the expression reports is the one
      whose `.go:` starts furthest to the right. */
  function MatchLine(line: string): Option<Hit> {
    var ms := Matches(line);
    var last := LastSome(ms, |ms|);
    if last.Some? then Some(Hit(last.value, ms[last.value].value.0, ms[last.value].value.1))
    else None
  }

  /** A line matches exactly when some position of it reads
      `.go:<digits>: <message>`; the reported match is the rightmost one. */
  lemma MatchLineSpec(line: string)
    ensures MatchLine(line).Some? ==>
      MatchesAt(line, MatchLine(line).value.pos, MatchLine(line).value.lineNo, MatchLine(line).value.msg)
    ensures MatchLine(line).Some? ==>
      forall p, d, m :: MatchesAt(line, p, d, m) ==> p <= MatchLine(line).value.pos
    ensures MatchLine(line).None? ==> forall p, d, m :: !MatchesAt(line, p, d, m)
  {
    var ms := Matches(line);
    var last := LastSome(ms, |ms|);
    if last.Some? {
      assert ms[last.value] == MatchAt(line, last.value);
      MatchAtSound(line, last.value);
    }
    forall p, d, m | MatchesAt(line, p, d, m)
      ensures last.Some? && p <= last.value
    {
      MatchAtComplete(line, p, d, m);
      assert ms[p] == MatchAt(line, p);
    }
  }

  // ---------------------------------------------------------------------
  // The interceptor
  // ---------------------------------------------------------------------

  /** One streamed event of a run: its `Kind` ("stdout", "stderr", "end",
      ...) and its `Body`. */
  datatype Event = Event(kind: string, body: string)

  /** What the interceptor does, in order: highlight an editor line, forward
      an event to the output sink, or call the completion callback. */
  datatype Action = Highlight(lineNo: string, msg: string) | Forward(ev: Event) | Done

  /** The highlights for a sequence of lines, one per matching line. */
  function Highlights(lines: seq<string>): seq<Action> {
    if |lines| == 0 then []
    else
      Highlights(lines[..|lines| - 1]) +
      match MatchLine(lines[|lines| - 1])
      case Some(h) => [Highlight(h.lineNo, h.msg)]
      case None => []
  }

  /** The actions the interceptor takes for one event. */
  function Intercepted(ev: Event): seq<Action> {
    (if ev.kind == "stderr" then Highlights(Split(ev.body)) else []) +
    [Forward(ev)] +
    (if ev.kind == "end" then [Done] else [])
  }

  /** One more line scanned adds that line's highlight, if any. */
  lemma HighlightsStep(lines: seq<string>, i: nat)
    requires i < |lines|
    ensures Highlights(lines[..i + 1]) == Highlights(lines[..i]) +
      if MatchLine(lines[i]).Some? then [Highlight(MatchLine(lines[i]).value.lineNo, MatchLine(lines[i]).value.msg)]
      else []
  {
    assert lines[..i + 1][..i] == lines[..i];
  }

  /** The interceptor: for error output, scan the lines of the body and
      highlight each match; then forward the event; then, at the end of the
      stream, signal completion. */
  method Intercept(ev: Event) returns (trace: seq<Action>)
    ensures trace == Intercepted(ev)
  {
    trace := [];
    if ev.kind == "stderr" {
      var lines := Split(ev.body);
      var i := 0;
      while i < |lines|
        invariant 0 <= i <= |lines|
        invariant trace == Highlights(lines[..i])
      {
        HighlightsStep(lines, i);
        var hit := MatchLine(lines[i]);
        if hit.Some? {
          trace := trace + [Highlight(hit.value.lineNo, hit.value.msg)];
        }
        i := i + 1;
      }
      assert lines[..|lines|] == lines;
    }
    trace := trace + [Forward(ev)];
    if ev.kind == "end" {
      trace := trace + [Done];
    }
  }

  /** Highlights of consecutive blocks of lines come block after block, so
      they follow line order. */
  lemma {:induction false} HighlightsAppend(a: seq<string>, b: seq<string>)
    ensures Highlights(a + b) == Highlights(a) + Highlights(b)
    decreases |b|
  {
    if |b| == 0 {
      assert a + b == a;
    } else {
      var b' := b[..|b| - 1];
      assert (a + b)[..|a + b| - 1] == a + b';
      HighlightsAppend(a, b');
    }
  }

  /** Each line yields at most one highlight, and it is the line's match. */
  lemma HighlightsOfLine(line: string)
    ensures Highlights([line]) ==
      if MatchLine(line).Some? then [Highlight(MatchLine(line).value.lineNo, MatchLine(line).value.msg)]
      else []
  {
    assert [line][..0] == [];
  }

  /** The scan of the lines produces nothing but highlights. */
  lemma {:induction false} OnlyHighlights(lines: seq<string>)
    ensures forall k :: 0 <= k < |Highlights(lines)| ==> Highlights(lines)[k].Highlight?
    decreases |lines|
  {
    if |lines| > 0 {
      OnlyHighlights(lines[..|lines| - 1]);
    }
  }

  /** The event is forwarded exactly once, unmodified, after every highlight
      it caused; completion is signalled exactly for the end-of-stream event,
      once and last, right after its forward. */
  lemma InterceptedOrder(ev: Event)
    ensures var t := Intercepted(ev);
      var f := |t| - 1 - (if ev.kind == "end" then 1 else 0);
      0 <= f < |t| && t[f] == Forward(ev) &&
      (forall k :: 0 <= k < |t| && k != f ==> !t[k].Forward?) &&
      (forall k :: 0 <= k < f ==> t[k].Highlight?) &&
      (forall k :: 0 <= k < |t| ==> (t[k] == Done <==> ev.kind == "end" && k == |t| - 1))
  {
    var hs := if ev.kind == "stderr" then Highlights(Split(ev.body)) else [];
    if ev.kind == "stderr" {
      OnlyHighlights(Split(ev.body));
    }
    assert forall k :: 0 <= k < |hs| ==> hs[k].Highlight?;
  }

  /** Only error output leads to highlights. */
  lemma NoHighlightUnlessStderr(ev: Event)
    requires ev.kind != "stderr"
    ensures forall k :: 0 <= k < |Intercepted(ev)| ==> !Intercepted(ev)[k].Highlight?
  {
  }

  /** A one-line error report yields that line's highlight, if any, and then
      the forward. */
  lemma InterceptedErrorLine(ev: Event, line: string)
    requires ev.kind == "stderr" && ev.body == line + "\n" && '\n' !in line
    ensures Intercepted(ev) == Highlights([line]) + [Forward(ev)]
  {
    assert ev.body == Join([line, ""]);
    SplitJoin([line, ""]);
    HighlightsAppend([line], [""]);
    assert [line] + [""] == [line, ""];
    HighlightsOfLine("");
  }

  /** The compiler's report `prog.go:12: undefined: foo` highlights line 12
      with the message `undefined: foo`, and the event is then forwarded. */
  lemma InterceptedExample(ev: Event)
    requires ev == Event("stderr", "prog.go:12: undefined: foo\n")
    ensures Intercepted(ev) == [Highlight("12", "undefined: foo"), Forward(ev)]
  {
    var line := "prog.go:12: undefined: foo";
    ExampleOneLine(line);
    assert ev.body == line + "\n";
    InterceptedErrorLine(ev, line);
    ExampleHighlights(line);
  }

  /** The example line yields exactly one highlight. */
  lemma ExampleHighlights(line: string)
    requires line == "prog.go:12: undefined: foo"
    ensures Highlights([line]) == [Highlight("12", "undefined: foo")]
  {
    ExampleMatch(line);
    ExampleNoDot(line);
    OnlyMatch(line, 4, "12", "undefined: foo");
    HighlightsOfLine(line);
  }

  /** The example's `.go:` starts at position 4. */
  lemma ExampleMatch(line: string)
    requires line == "prog.go:12: undefined: foo"
    ensures MatchesAt(line, 4, "12", "undefined: foo")
  {
    assert line[4..] == ".go:" + "12" + ": " + "undefined: foo";
  }

  /** No `.` follows it, so no match lies further right. */
  lemma ExampleNoDot(line: string)
    requires line == "prog.go:12: undefined: foo"
    ensures '.' !in line[5..]
  {
    assert line[5..] == "go:12: undefined: foo";
  }

  /** The example is a single line. */
  lemma ExampleOneLine(line: string)
    requires line == "prog.go:12: undefined: foo"
    ensures '\n' !in line
  {
  }

  /** A line with a match at `p` and no `.` after it reports that match. */
  lemma OnlyMatch(line: string, p: nat, lineNo: string, msg: string)
    requires MatchesAt(line, p, lineNo, msg)
    requires '.' !in line[p + 1..]
    ensures MatchLine(line) == Some(Hit(p, lineNo, msg))
  {
    MatchLineSpec(line);
    var r := MatchLine(line);
    MatchAtComplete(line, p, lineNo, msg);
    assert forall k :: p < k < |line| ==> line[k] != '.' by {
      forall k | p < k < |line| ensures line[k] != '.' {
        assert line[p + 1..][k - p - 1] == line[k];
      }
    }
    var q := r.value.pos;
    assert line[q..][0] == '.';
  }

  /** The empty piece after a trailing line break highlights nothing. */
  lemma NoMatchOnEmptyLine()
    ensures MatchLine("").None?
  {
  }
}
