/** Second pass of `patch()`: copy the disassembly line by line, and at every
    header of the method whose name is the found constant keep the header
    and the `.attribute` line, drop the next two lines (`aload_0`,
    `getfield`) and put `iconst_1` in their place. */
module MethodRewrite {
  import opened Wrappers
  import opened IrText

  /** The input as the second pass walks through it: a line it tests and
      copies, or a header that passed the test together with the (at most
      three) lines read after it without being tested. */
  datatype Segment =
    | Copied(line: Line)
    | Target(header: Line, following: seq<Line>)

  /** The header test of the second pass for constant `index`. */
  function HeaderOf(index: string): string -> bool
  {
    line => IsTargetHeader(line, index)
  }

  /** How the second pass cuts `lines` into segments, given its header test.
      The segment lemmas below hold for any test. */
  function Segments(lines: seq<Line>, isHeader: string -> bool): (r: seq<Segment>)
    decreases |lines|
    ensures r == [] <==> lines == []
    ensures lines != [] ==> (r[0].Target? <==> isHeader(lines[0]))
  {
    if lines == [] then []
    else if isHeader(lines[0]) then
      var k := if |lines| < 4 then |lines| else 4;
      [Target(lines[0], lines[1..k])] + Segments(lines[k..], isHeader)
    else
      [Copied(lines[0])] + Segments(lines[1..], isHeader)
  }

  /** The input lines a segment stands for. */
  function Original(s: Segment): seq<Line>
  {
    match s
    case Copied(l) => [l]
    case Target(h, f) => [h] + f
  }

  function Serialize(segs: seq<Segment>): seq<Line>
  {
    if segs == [] then [] else Original(segs[0]) + Serialize(segs[1..])
  }

  /** What the second pass writes for a segment: a copied line, or the
      header, the line after it (the `.attribute` line; nothing when the
      file has ended) and `iconst_1`. */
  function Patched(s: Segment): (r: seq<Line>)
    ensures s.Copied? ==> r == Original(s)
    ensures s.Target? ==> 2 <= |r| <= 3 && r[0] == s.header && r[|r| - 1] == PushTrue
    ensures |r| <= |Original(s)| + (if s.Target? then 1 else 0)
  {
    match s
    case Copied(l) => [l]
    case Target(h, f) => [h] + (if f == [] then [] else [f[0]]) + [PushTrue]
  }

  function TargetCount(segs: seq<Segment>): nat
  {
    if segs == [] then 0 else (if segs[0].Target? then 1 else 0) + TargetCount(segs[1..])
  }

  /** What the second pass writes for all segments, in order. */
  function PatchAll(segs: seq<Segment>): (r: seq<Line>)
    ensures segs != [] ==> r != [] && r[0] == Original(segs[0])[0]
  {
    if segs == [] then [] else Patched(segs[0]) + PatchAll(segs[1..])
  }

  /** Without a target the output is the input itself. */
  lemma {:induction false} NoTargetCopies(segs: seq<Segment>)
    requires TargetCount(segs) == 0
    ensures PatchAll(segs) == Serialize(segs)
  {
    if segs != [] {
      NoTargetCopies(segs[1..]);
    }
  }

  /** Each target adds at most one line to the output. */
  lemma {:induction false} PatchAllBound(segs: seq<Segment>)
    ensures |PatchAll(segs)| <= |Serialize(segs)| + TargetCount(segs)
  {
    if segs != [] {
      PatchAllBound(segs[1..]);
    }
  }

  /** A segmentation the second pass could have produced: copied lines fail
      the header test, targets pass it, and only the last target can have
      fewer than three lines after it (the end of the file). */
  ghost predicate WellSegmented(segs: seq<Segment>, isHeader: string -> bool)
  {
    forall i :: 0 <= i < |segs| ==>
      match segs[i]
      case Copied(l) => !isHeader(l)
      case Target(h, f) => isHeader(h) && |f| <= 3 && (i < |segs| - 1 ==> |f| == 3)
  }

  /** One step of the pass at a line that passes the header test. */
  lemma TargetStep(lines: seq<Line>, isHeader: string -> bool)
    requires lines != [] && isHeader(lines[0])
    ensures var k := if |lines| < 4 then |lines| else 4;
      Segments(lines, isHeader)[0] == Target(lines[0], lines[1..k]) &&
      Segments(lines, isHeader)[1..] == Segments(lines[k..], isHeader)
  {
  }

  /** One step of the pass at a line that fails the header test. */
  lemma CopyStep(lines: seq<Line>, isHeader: string -> bool)
    requires lines != [] && !isHeader(lines[0])
    ensures Segments(lines, isHeader)[0] == Copied(lines[0])
    ensures Segments(lines, isHeader)[1..] == Segments(lines[1..], isHeader)
  {
  }

  /** One step of the pass, whichever the first line is: the first segment
      stands for the first `k` lines, and the rest of the output comes from
      the lines after them. */
  lemma Step(lines: seq<Line>, isHeader: string -> bool) returns (k: nat)
    requires lines != []
    ensures 1 <= k <= |lines|
    ensures k == if isHeader(lines[0]) then (if |lines| < 4 then |lines| else 4) else 1
    ensures Serialize(Segments(lines, isHeader)) == lines[..k] + Serialize(Segments(lines[k..], isHeader))
    ensures PatchAll(Segments(lines, isHeader)) == Patched(Segments(lines, isHeader)[0]) + PatchAll(Segments(lines[k..], isHeader))
  {
    var segs := Segments(lines, isHeader);
    if isHeader(lines[0]) {
      k := if |lines| < 4 then |lines| else 4;
      TargetStep(lines, isHeader);
      assert Original(segs[0]) == lines[..k];
    } else {
      k := 1;
      CopyStep(lines, isHeader);
      assert Original(segs[0]) == lines[..k];
    }
  }

  /** The segments put back together are the input. */
  lemma {:induction false} SegmentsRoundTrip(lines: seq<Line>, isHeader: string -> bool)
    ensures Serialize(Segments(lines, isHeader)) == lines
    decreases |lines|
  {
    if lines != [] {
      var k := Step(lines, isHeader);
      SegmentsRoundTrip(lines[k..], isHeader);
      SplitAt(lines, k);
    }
  }

  /** The segments are a segmentation the pass could have produced. */
  lemma {:induction false} SegmentsWellFormed(lines: seq<Line>, isHeader: string -> bool)
    ensures WellSegmented(Segments(lines, isHeader), isHeader)
    decreases |lines|
  {
    if lines != [] {
      var segs := Segments(lines, isHeader);
      var k := if isHeader(lines[0]) then (if |lines| < 4 then |lines| else 4) else 1;
      if isHeader(lines[0]) {
        TargetStep(lines, isHeader);
      } else {
        CopyStep(lines, isHeader);
      }
      SegmentsWellFormed(lines[k..], isHeader);
      forall i | 1 <= i < |segs|
        ensures segs[i] == segs[1..][i - 1]
      {
      }
      if segs[0].Target? && |segs| > 1 {
        assert lines[k..] != [];
      }
    }
  }

  /** There is only one such segmentation: any well-formed segmentation of
      the input is the one the pass makes. */
  lemma {:induction false} SegmentationUnique(segs: seq<Segment>, lines: seq<Line>, isHeader: string -> bool)
    requires WellSegmented(segs, isHeader) && Serialize(segs) == lines
    ensures segs == Segments(lines, isHeader)
    decreases |segs|
  {
    if segs != [] {
      var tail := segs[1..];
      assert WellSegmented(tail, isHeader) by {
        forall i | 0 <= i < |tail|
          ensures tail[i] == segs[i + 1]
        {
        }
      }
      SegmentationUnique(tail, Serialize(tail), isHeader);
      match segs[0]
      case Copied(l) =>
        assert lines == [l] + Serialize(tail);
        CopyStep(lines, isHeader);
        assert lines[1..] == Serialize(tail);
      case Target(h, f) =>
        assert lines == [h] + f + Serialize(tail);
        var k := if |lines| < 4 then |lines| else 4;
        if tail != [] {
          assert |f| == 3;
          assert Original(tail[0]) != [];
        }
        assert k == 1 + |f|;
        assert lines[1..k] == f && lines[k..] == Serialize(tail);
        TargetStep(lines, isHeader);
    }
  }

  /** With no line passing the header test, the output is the input. */
  lemma {:induction false} NoHeaderCopies(lines: seq<Line>, isHeader: string -> bool)
    requires forall j :: 0 <= j < |lines| ==> !isHeader(lines[j])
    ensures PatchAll(Segments(lines, isHeader)) == lines
    ensures TargetCount(Segments(lines, isHeader)) == 0
    decreases |lines|
  {
    if lines != [] {
      var tail := lines[1..];
      CopyStep(lines, isHeader);
      assert forall j :: 0 <= j < |tail| ==> !isHeader(tail[j]) by {
        forall j | 0 <= j < |tail| ensures !isHeader(tail[j]) {
          assert tail[j] == lines[j + 1];
        }
      }
      NoHeaderCopies(tail, isHeader);
      FirstAndRest(lines);
    }
  }

  /** Some method is rewritten exactly when some input line passes the
      header test: a header among the lines read after an earlier header is
      only missed when that earlier one was rewritten. */
  lemma {:induction false} TargetIffHeader(lines: seq<Line>, isHeader: string -> bool)
    ensures TargetCount(Segments(lines, isHeader)) > 0 <==>
      exists j :: 0 <= j < |lines| && isHeader(lines[j])
    decreases |lines|
  {
    if lines != [] {
      if isHeader(lines[0]) {
        TargetStep(lines, isHeader);
      } else {
        CopyStep(lines, isHeader);
        TargetIffHeader(lines[1..], isHeader);
        if exists j :: 0 <= j < |lines| && isHeader(lines[j]) {
          var j :| 0 <= j < |lines| && isHeader(lines[j]);
          assert lines[1..][j - 1] == lines[j];
        }
      }
    }
  }

  /** When every rewritten header has three lines after it, the output is
      one line shorter per rewritten method. */
  /** Every rewritten header has its three lines after it. */
  predicate FullTargets(segs: seq<Segment>)
  {
    forall i :: 0 <= i < |segs| && segs[i].Target? ==> |segs[i].following| == 3
  }

  lemma {:induction false} PatchLength(segs: seq<Segment>)
    requires FullTargets(segs)
    ensures |PatchAll(segs)| + TargetCount(segs) == |Serialize(segs)|
    decreases |segs|
  {
    if segs != [] {
      assert forall i :: 0 <= i < |segs| - 1 ==> segs[1..][i] == segs[i + 1];
      PatchLength(segs[1..]);
    }
  }

  /** When every line that passes the header test has three lines after
      it, the output is one line shorter per rewritten method. */
  lemma {:induction false} RewriteLength(lines: seq<Line>, isHeader: string -> bool)
    requires forall j :: 0 <= j < |lines| && isHeader(lines[j]) ==> j + 3 < |lines|
    ensures |PatchAll(Segments(lines, isHeader))| == |lines| - TargetCount(Segments(lines, isHeader))
    decreases |lines|
  {
    if lines != [] {
      var k := if isHeader(lines[0]) then 4 else 1;
      if isHeader(lines[0]) {
        TargetStep(lines, isHeader);
      } else {
        CopyStep(lines, isHeader);
      }
      forall j | 0 <= j < |lines[k..]| && isHeader(lines[k..][j])
        ensures j + 3 < |lines[k..]|
      {
        assert lines[k..][j] == lines[j + k];
      }
      RewriteLength(lines[k..], isHeader);
    }
  }

  /** When every rewritten header has three lines after it, the output is
      one line shorter per rewritten method. */
  lemma TargetsLength(lines: seq<Line>, isHeader: string -> bool)
    requires FullTargets(Segments(lines, isHeader))
    ensures |PatchAll(Segments(lines, isHeader))| == |lines| - TargetCount(Segments(lines, isHeader))
  {
    PatchLength(Segments(lines, isHeader));
    SegmentsRoundTrip(lines, isHeader);
  }

  /** Lines before the first one that passes the header test are copied
      unchanged and in order. */
  lemma {:induction false} CopiedPrefix(lines: seq<Line>, q: nat, isHeader: string -> bool)
    requires q <= |lines|
    requires forall j :: 0 <= j < q ==> !isHeader(lines[j])
    ensures PatchAll(Segments(lines, isHeader)) == lines[..q] + PatchAll(Segments(lines[q..], isHeader))
    decreases q
  {
    if q > 0 {
      var tail := lines[1..];
      CopyStep(lines, isHeader);
      assert forall j :: 0 <= j < q - 1 ==> !isHeader(tail[j]) by {
        forall j | 0 <= j < q - 1 ensures !isHeader(tail[j]) {
          assert tail[j] == lines[j + 1];
        }
      }
      CopiedPrefix(tail, q - 1, isHeader);
      PrefixShift(lines, q);
      Associative([lines[0]], tail[..q - 1], PatchAll(Segments(lines[q..], isHeader)));
    } else {
      assert lines[q..] == lines;
    }
  }

  /** Lines that fail the header test, put before any input, are copied
      in front of its output and add no target. */
  lemma {:induction false} CopiedBefore(before: seq<Line>, rest: seq<Line>, isHeader: string -> bool)
    requires forall j :: 0 <= j < |before| ==> !isHeader(before[j])
    ensures PatchAll(Segments(before + rest, isHeader)) == before + PatchAll(Segments(rest, isHeader))
    ensures TargetCount(Segments(before + rest, isHeader)) == TargetCount(Segments(rest, isHeader))
    decreases |before|
  {
    if before == [] {
      assert before + rest == rest;
    } else {
      var lines := before + rest;
      var tail := before[1..];
      assert lines[0] == before[0] && lines[1..] == tail + rest;
      CopyStep(lines, isHeader);
      assert forall j :: 0 <= j < |tail| ==> !isHeader(tail[j]) by {
        forall j | 0 <= j < |tail| ensures !isHeader(tail[j]) {
          assert tail[j] == before[j + 1];
        }
      }
      CopiedBefore(tail, rest, isHeader);
      assert before == [before[0]] + tail;
      Associative([before[0]], tail, PatchAll(Segments(rest, isHeader)));
    }
  }

  /** A header followed by three lines, then `after`. */
  lemma TargetFour(header: Line, attribute: Line, first: Line, second: Line, after: seq<Line>, isHeader: string -> bool)
    requires isHeader(header)
    ensures var lines := [header, attribute, first, second] + after;
      PatchAll(Segments(lines, isHeader)) == [header, attribute, PushTrue] + PatchAll(Segments(after, isHeader)) &&
      TargetCount(Segments(lines, isHeader)) == 1 + TargetCount(Segments(after, isHeader))
  {
    var lines := [header, attribute, first, second] + after;
    TargetStep(lines, isHeader);
    assert lines[1..4] == [attribute, first, second] && lines[4..] == after;
  }

  /** A single header with three lines after it, amid lines that are not
      headers: the two lines after the `.attribute` line become `iconst_1`
      and every other line is kept in order. */
  lemma SingleHeader(before: seq<Line>, header: Line, attribute: Line, first: Line, second: Line,
                     after: seq<Line>, isHeader: string -> bool)
    requires forall j :: 0 <= j < |before| ==> !isHeader(before[j])
    requires isHeader(header)
    requires forall j :: 0 <= j < |after| ==> !isHeader(after[j])
    ensures var lines := before + [header, attribute, first, second] + after;
      PatchAll(Segments(lines, isHeader)) == before + [header, attribute, PushTrue] + after
  {
    var mid := [header, attribute, first, second] + after;
    Associative(before, [header, attribute, first, second], after);
    CopiedBefore(before, mid, isHeader);
    TargetFour(header, attribute, first, second, after, isHeader);
    NoHeaderCopies(after, isHeader);
    Associative(before, [header, attribute, PushTrue], after);
  }

  /** The same input has exactly one rewritten method. */
  lemma SingleHeaderCount(before: seq<Line>, header: Line, attribute: Line, first: Line, second: Line,
                          after: seq<Line>, isHeader: string -> bool)
    requires forall j :: 0 <= j < |before| ==> !isHeader(before[j])
    requires isHeader(header)
    requires forall j :: 0 <= j < |after| ==> !isHeader(after[j])
    ensures TargetCount(Segments(before + [header, attribute, first, second] + after, isHeader)) == 1
  {
    var mid := [header, attribute, first, second] + after;
    Associative(before, [header, attribute, first, second], after);
    CopiedBefore(before, mid, isHeader);
    TargetFour(header, attribute, first, second, after, isHeader);
    NoHeaderCopies(after, isHeader);
  }

  /** Patching the output of `SingleHeader` again meets the same header
      again: `iconst_1` is kept after the `.attribute` line and the line
      after it is lost. */
  lemma SingleHeaderAgain(before: seq<Line>, header: Line, attribute: Line, first: Line, second: Line,
                          next: Line, after: seq<Line>, isHeader: string -> bool)
    requires forall j :: 0 <= j < |before| ==> !isHeader(before[j])
    requires isHeader(header) && !isHeader(next)
    requires forall j :: 0 <= j < |after| ==> !isHeader(after[j])
    ensures var once := PatchAll(Segments(before + [header, attribute, first, second] + ([next] + after), isHeader));
      once == before + [header, attribute, PushTrue] + ([next] + after) &&
      PatchAll(Segments(once, isHeader)) == before + [header, attribute, PushTrue] + after
  {
    var tail := [next] + after;
    assert forall j :: 0 <= j < |tail| ==> !isHeader(tail[j]) by {
      forall j | 0 <= j < |tail| ensures !isHeader(tail[j]) {
        if j > 0 {
          assert tail[j] == after[j - 1];
        }
      }
    }
    SingleHeader(before, header, attribute, first, second, tail, isHeader);
    Shift(before, header, attribute, PushTrue, next, after);
    SingleHeader(before, header, attribute, PushTrue, next, after, isHeader);
  }

  /** The lines read after a header are not tested: here the header is
      repeated right after itself and only the third copy, met after the
      three consumed lines, is rewritten. */
  lemma ConsumedLinesNotTested(h: Line, x: Line, isHeader: string -> bool)
    requires isHeader(h) && !isHeader(x)
    ensures PatchAll(Segments([h, h, x, x, h, x, x, x], isHeader)) == [h, h, PushTrue, h, x, PushTrue]
  {
    var second := [h, x, x, x];
    TargetFour(h, x, x, x, [], isHeader);
    assert second + [] == second;
    TargetFour(h, h, x, x, second, isHeader);
    assert [h, h, x, x] + second == [h, h, x, x, h, x, x, x];
    assert [h, h, PushTrue] + [h, x, PushTrue] == [h, h, PushTrue, h, x, PushTrue];
  }

  /** The content of a file written as the chunks `out`, in order. */
  function Flatten(out: seq<string>): string
  {
    if out == [] then [] else Flatten(out[..|out| - 1]) + out[|out| - 1]
  }

  /** `outf.write(s)`: the file's content grows by exactly `s`; writing
      `""` adds no chunk. */
  function Write(out: seq<string>, s: string): (r: seq<string>)
    ensures Flatten(r) == Flatten(out) + s
    ensures s == [] ==> r == out
    ensures s != [] ==> r == out + [s]
  {
    if s == [] then
      assert Flatten(out) + s == Flatten(out);
      out
    else
      assert (out + [s])[..|out|] == out;
      out + [s]
  }

  /** What the pass writes at a header found at `pos`, then the rest: the
      header, the line after it if there is one, `iconst_1`, and the
      output for what follows the three lines read after the header. */
  lemma TargetWrites(lines: seq<Line>, pos: nat, isHeader: string -> bool)
    requires pos < |lines| && isHeader(lines[pos])
    ensures var next := if |lines| < pos + 4 then |lines| else pos + 4;
      PatchAll(Segments(lines[pos..], isHeader)) ==
        [lines[pos]] + (if pos + 1 < |lines| then [lines[pos + 1]] else []) + [PushTrue] +
        PatchAll(Segments(lines[next..], isHeader))
    ensures TargetCount(Segments(lines[pos..], isHeader)) > 0
  {
    var rest := lines[pos..];
    var k := if |rest| < 4 then |rest| else 4;
    TargetStep(rest, isHeader);
    assert rest[k..] == lines[pos + k..];
  }

  /** What the pass writes at a line at `pos` that is not a header, then
      the rest. */
  lemma CopyWrites(lines: seq<Line>, pos: nat, isHeader: string -> bool)
    requires pos < |lines| && !isHeader(lines[pos])
    ensures PatchAll(Segments(lines[pos..], isHeader)) == [lines[pos]] + PatchAll(Segments(lines[pos + 1..], isHeader))
    ensures TargetCount(Segments(lines[pos..], isHeader)) == TargetCount(Segments(lines[pos + 1..], isHeader))
  {
    var rest := lines[pos..];
    CopyStep(rest, isHeader);
    assert rest[1..] == lines[pos + 1..];
  }

  /** The three writes at a header, with `attribute` the line read after it. */
  lemma HeaderOutput(out0: seq<string>, line: string, attribute: string)
    requires line != []
    ensures Write(Write(Write(out0, line), attribute), PushTrue) ==
      out0 + ([line] + (if attribute == [] then [] else [attribute]) + [PushTrue])
  {
    var first := Write(out0, line);
    assert first == out0 + [line];
    if attribute == [] {
      assert Write(first, attribute) == first;
      assert first + [PushTrue] == out0 + ([line] + [] + [PushTrue]);
    } else {
      assert Write(first, attribute) == first + [attribute];
      assert first + [attribute] + [PushTrue] == out0 + ([line] + [attribute] + [PushTrue]);
    }
  }

  /** Moving one line from the unread rest to the lines before it. */
  lemma Shift(before: seq<Line>, a: Line, b: Line, c: Line, d: Line, after: seq<Line>)
    ensures before + [a, b, c] + ([d] + after) == before + [a, b, c, d] + after
  {
  }

  lemma PrefixShift<T>(s: seq<T>, q: nat)
    requires 0 < q <= |s|
    ensures s[1..][q - 1..] == s[q..]
    ensures s[..q] == [s[0]] + s[1..][..q - 1]
  {
  }

  lemma SplitAt<T>(s: seq<T>, k: nat)
    requires k <= |s|
    ensures s[..k] + s[k..] == s
  {
  }

  lemma FirstAndRest<T>(s: seq<T>)
    requires s != []
    ensures s == [s[0]] + s[1..]
  {
  }

  lemma Associative<T>(a: seq<T>, b: seq<T>, c: seq<T>)
    ensures (a + b) + c == a + (b + c)
  {
  }

  /** The loop of the second pass. Without a constant index nothing is
      read or written. */
  method RewriteLines(lines: seq<Line>, methodIndex: Option<string>) returns (out: seq<string>, successful: bool)
    ensures methodIndex.None? ==> out == [] && !successful
    ensures methodIndex.Some? ==> out == PatchAll(Segments(lines, HeaderOf(methodIndex.value)))
    ensures methodIndex.Some? ==> (successful <==> TargetCount(Segments(lines, HeaderOf(methodIndex.value))) > 0)
  {
    out := [];
    successful := false;
    if methodIndex.Some? {
      var index := methodIndex.value;
      ghost var isHeader := HeaderOf(index);
      ghost var all := Segments(lines, isHeader);
      var pos := 0;
      assert lines[pos..] == lines;
      while true
        invariant pos <= |lines|
        invariant out + PatchAll(Segments(lines[pos..], isHeader)) == PatchAll(all)
        invariant (successful || TargetCount(Segments(lines[pos..], isHeader)) > 0) <==> TargetCount(all) > 0
        decreases |lines| - pos
      {
        var read := ReadLine(lines, pos);
        var line := read.0;
        if line == [] {
          break;
        }
        ghost var here := pos;
        ghost var out0 := out;
        pos := read.1;
        if IsTargetHeader(line, index) {
          TargetWrites(lines, here, isHeader);
          successful := true;
          out := Write(out, line);
          read := ReadLine(lines, pos);
          out := Write(out, read.0);
          pos := read.1;
          read := ReadLine(lines, pos);
          pos := read.1;
          read := ReadLine(lines, pos);
          pos := read.1;
          out := Write(out, PushTrue);
          ghost var written := [lines[here]] + (if here + 1 < |lines| then [lines[here + 1]] else []) + [PushTrue];
          HeaderOutput(out0, line, if here + 1 < |lines| then lines[here + 1] else []);
          assert pos == if |lines| < here + 4 then |lines| else here + 4;
          Associative(out0, written, PatchAll(Segments(lines[pos..], isHeader)));
          continue;
        }
        CopyWrites(lines, here, isHeader);
        out := Write(out, line);
        Associative(out0, [line], PatchAll(Segments(lines[pos..], isHeader)));
      }
    }
  }
}
