/** `patch()`: the constant scan, then the rewrite of every header of the
    method named by the constant, into a fresh output file. */
module PatchDriver {
  import opened Wrappers
  import opened IrText
  import opened ConstantScan
  import opened MethodRewrite

  /** What `patch()` leaves behind: the written lines (empty when the
      constant is missing, since the output file is opened but never
      written) and the `successful` flag. */
  function PatchResult(lines: seq<Line>): (r: (seq<Line>, bool))
    ensures r.1 ==> ScannedIndex(lines).Some?
    ensures !r.1 ==> r.0 == [] || r.0 == lines
  {
    match ScannedIndex(lines)
    case None => ([], false)
    case Some(index) =>
      var segs := Segments(lines, HeaderOf(index));
      SegmentsRoundTrip(lines, HeaderOf(index));
      if TargetCount(segs) == 0 then
        NoTargetCopies(segs);
        (PatchAll(segs), false)
      else
        (PatchAll(segs), true)
  }

  method Patch(lines: seq<Line>) returns (out: seq<string>, successful: bool)
    ensures (out, successful) == PatchResult(lines)
  {
    var methodIndex := ScanConstant(lines);
    out, successful := RewriteLines(lines, methodIndex);
  }

  /** Without the constant nothing is written and the patch fails. */
  lemma ConstantMissing(lines: seq<Line>)
    requires forall j :: 0 <= j < |lines| ==> MatchConst(lines[j]).None?
    ensures PatchResult(lines) == ([], false)
  {
    assert FirstConstLine(lines, 0).None?;
  }

  /** The patch succeeds exactly when the constant is found and some line
      is a header of the method it names. */
  lemma SuccessIffHeader(lines: seq<Line>)
    ensures PatchResult(lines).1 <==>
      ScannedIndex(lines).Some? &&
      exists j :: 0 <= j < |lines| && IsTargetHeader(lines[j], ScannedIndex(lines).value)
  {
    if ScannedIndex(lines).Some? {
      var index := ScannedIndex(lines).value;
      TargetIffHeader(lines, HeaderOf(index));
      assert forall j :: 0 <= j < |lines| ==> (HeaderOf(index)(lines[j]) <==> IsTargetHeader(lines[j], index));
    }
  }

  /** With the constant found but no header of its method, the output is
      a copy of the input and the patch fails. */
  lemma MethodMissing(lines: seq<Line>)
    requires ScannedIndex(lines).Some?
    requires forall j :: 0 <= j < |lines| ==> !IsTargetHeader(lines[j], ScannedIndex(lines).value)
    ensures PatchResult(lines) == (lines, false)
  {
    var index := ScannedIndex(lines).value;
    NoHeaderCopies(lines, HeaderOf(index));
  }

  /** Every header of the method (outside the lines consumed after an
      earlier one) is rewritten, and when each has three lines after it the
      output is one line shorter per rewritten method. */
  lemma OutputLength(lines: seq<Line>)
    requires ScannedIndex(lines).Some?
    requires forall j :: 0 <= j < |lines| && IsTargetHeader(lines[j], ScannedIndex(lines).value) ==> j + 3 < |lines|
    ensures |PatchResult(lines).0| == |lines| - TargetCount(Segments(lines, HeaderOf(ScannedIndex(lines).value)))
  {
    var index := ScannedIndex(lines).value;
    RewriteLength(lines, HeaderOf(index));
  }

  /** When every rewritten header had three lines after it, the output is
      one line shorter per rewritten method. Header-shaped lines among the
      lines read after an earlier header are not rewritten and need not
      have three lines after them. */
  lemma RewrittenLength(lines: seq<Line>)
    requires ScannedIndex(lines).Some?
    requires FullTargets(Segments(lines, HeaderOf(ScannedIndex(lines).value)))
    ensures var segs := Segments(lines, HeaderOf(ScannedIndex(lines).value));
      |PatchResult(lines).0| == |lines| - TargetCount(segs)
  {
    TargetsLength(lines, HeaderOf(ScannedIndex(lines).value));
  }

  /* The disassembly of a getter `boolean isPremiumAccount() { return this.premium; }`. */
  /** `.const [12] = Utf8 isPremiumAccount \n` */
  const ExampleConst: Line := ConstPrefix + "12" + ConstSuffix
  /** `.method public [12] : [13] \n` */
  const ExampleHeader: Line := MethodPrefix + "12" + MethodMiddle + "13" + MethodSuffix
  const ExampleAttribute: Line := "    .attribute [14] " + ".code stack 1 locals 1 \n"
  const ExampleLoad: Line := "L0:     aload_0 \n"
  const ExampleGetField: Line := "L1:     getfield [7] \n"
  const ExampleReturn: Line := "L2:     ireturn \n"
  const ExampleEndCode: Line := "    .end code \n"
  const ExampleEndMethod: Line := ".end method \n"

  function ExampleInput(): seq<Line>
  {
    [ExampleConst, ExampleHeader, ExampleAttribute, ExampleLoad, ExampleGetField,
     ExampleReturn, ExampleEndCode, ExampleEndMethod]
  }

  /** A line whose second character is neither `c` (`.const`) nor `m`
      (`.method`) is neither the constant nor a method header. */
  lemma PlainLine(l: Line)
    requires |l| >= 2 && l[1] != 'c' && l[1] != 'm'
    ensures MatchConst(l).None? && MatchMethod(l).None?
  {
    DiffersFrom(l, ConstPrefix, 1);
    DiffersFrom(l, MethodPrefix, 1);
  }

  /** The example's constant line names index 12. */
  lemma ExampleConstLine()
    ensures MatchConst(ExampleConst) == Some("12")
    ensures !IsTargetHeader(ExampleConst, "12")
  {
    assert IsConstLine(ExampleConst, "12");
    ConstNotHeader(ExampleConst, "12");
  }

  /** The example's header is the header of method 12. */
  lemma ExampleHeaderLine()
    ensures IsTargetHeader(ExampleHeader, "12")
  {
    assert IsMethodLine(ExampleHeader, MethodRef("12", "13"));
  }

  /** The example's last three lines are not headers. */
  lemma ExampleTail()
    ensures !IsTargetHeader(ExampleReturn, "12")
    ensures !IsTargetHeader(ExampleEndCode, "12")
    ensures !IsTargetHeader(ExampleEndMethod, "12")
  {
    PlainLine(ExampleReturn);
    PlainLine(ExampleEndCode);
    PlainLine(ExampleEndMethod);
  }

  /** Once the scan names `index` and some line is its header, the output
      is the rewrite pass's and the patch succeeds. */
  lemma Rewritten(lines: seq<Line>, index: string)
    requires ScannedIndex(lines) == Some(index)
    requires TargetCount(Segments(lines, HeaderOf(index))) > 0
    ensures PatchResult(lines) == (PatchAll(Segments(lines, HeaderOf(index))), true)
  {
  }

  /** Once the scan names `index`, the output is the rewrite pass's. */
  lemma RewrittenOutput(lines: seq<Line>, index: string)
    requires ScannedIndex(lines) == Some(index)
    ensures PatchResult(lines).0 == PatchAll(Segments(lines, HeaderOf(index)))
  {
  }

  /** The constant line first, then one header of its method followed by
      the attribute line and two instructions: the two instructions become
      `iconst_1`, everything else is kept, and the patch succeeds. */
  lemma OneMethod(c: Line, header: Line, attribute: Line, first: Line, second: Line, body: seq<Line>, index: string)
    requires MatchConst(c) == Some(index) && IsTargetHeader(header, index)
    requires forall j :: 0 <= j < |body| ==> !IsTargetHeader(body[j], index)
    ensures PatchResult([c] + [header, attribute, first, second] + body) == ([c] + [header, attribute, PushTrue] + body, true)
  {
    var lines := [c] + [header, attribute, first, second] + body;
    var h := HeaderOf(index);
    assert ScannedIndex(lines) == Some(index) by {
      assert lines[0] == c;
      ScanFirstLine(lines);
    }
    assert forall j :: 0 <= j < |[c]| ==> !h([c][j]) by {
      ConstNotHeader(c, index);
    }
    assert PatchAll(Segments(lines, h)) == [c] + [header, attribute, PushTrue] + body by {
      SingleHeader([c], header, attribute, first, second, body, h);
    }
    assert TargetCount(Segments(lines, h)) == 1 by {
      SingleHeaderCount([c], header, attribute, first, second, body, h);
    }
    Rewritten(lines, index);
  }

  /** Patching the patched output again rewrites the same header again:
      `iconst_1` is now kept after the `.attribute` line and the line after
      it is lost, so patching twice is not patching once. */
  lemma Repatch(c: Line, header: Line, attribute: Line, first: Line, second: Line, next: Line, body: seq<Line>, index: string)
    requires MatchConst(c) == Some(index) && IsTargetHeader(header, index)
    requires !IsTargetHeader(next, index)
    requires forall j :: 0 <= j < |body| ==> !IsTargetHeader(body[j], index)
    ensures var once := PatchResult([c] + [header, attribute, first, second] + ([next] + body)).0;
      once == [c] + [header, attribute, PushTrue] + ([next] + body) &&
      PatchResult(once) == ([c] + [header, attribute, PushTrue] + body, true)
  {
    var lines := [c] + [header, attribute, first, second] + ([next] + body);
    var once := [c] + [header, attribute, PushTrue] + ([next] + body);
    var h := HeaderOf(index);
    assert ScannedIndex(lines) == Some(index) && ScannedIndex(once) == Some(index) by {
      assert lines[0] == c && once[0] == c;
      ScanFirstLine(lines);
      ScanFirstLine(once);
    }
    assert forall j :: 0 <= j < |[c]| ==> !h([c][j]) by {
      ConstNotHeader(c, index);
    }
    assert PatchAll(Segments(lines, h)) == once &&
      PatchAll(Segments(once, h)) == [c] + [header, attribute, PushTrue] + body by {
      SingleHeaderAgain([c], header, attribute, first, second, next, body, h);
    }
    assert TargetCount(Segments(once, h)) == 1 by {
      Shift([c], header, attribute, PushTrue, next, body);
      SingleHeaderCount([c], header, attribute, PushTrue, next, body, h);
    }
    RewrittenOutput(lines, index);
    Rewritten(once, index);
  }

  lemma NoHeaderAmong(a: Line, b: Line, c: Line, index: string)
    requires !IsTargetHeader(a, index) && !IsTargetHeader(b, index) && !IsTargetHeader(c, index)
    ensures forall j :: 0 <= j < |[a, b, c]| ==> !IsTargetHeader([a, b, c][j], index)
  {
  }

  lemma ExampleInputShape()
    ensures ExampleInput() ==
      [ExampleConst] + [ExampleHeader, ExampleAttribute, ExampleLoad, ExampleGetField] +
      [ExampleReturn, ExampleEndCode, ExampleEndMethod]
  {
  }

  /** The getter's `aload_0; getfield` becomes `iconst_1`, so it returns
      true; everything else is kept. */
  lemma ExamplePatch()
    ensures PatchResult(ExampleInput()) ==
      ([ExampleConst] + [ExampleHeader, ExampleAttribute, PushTrue] + [ExampleReturn, ExampleEndCode, ExampleEndMethod], true)
  {
    ExampleConstLine();
    ExampleHeaderLine();
    ExampleTail();
    var tail := [ExampleReturn, ExampleEndCode, ExampleEndMethod];
    NoHeaderAmong(ExampleReturn, ExampleEndCode, ExampleEndMethod, "12");
    ExampleInputShape();
    OneMethod(ExampleConst, ExampleHeader, ExampleAttribute, ExampleLoad, ExampleGetField, tail, "12");
  }
}
