/** First pass of `patch()`: read the disassembly line by line until the
    constant-pool entry `Utf8 isPremiumAccount` is found, and keep its index. */
module ConstantScan {
  import opened Wrappers
  import opened IrText

  /** Position of the first line at or after `from` that matches the
      constant pattern. */
  function FirstConstLine(lines: seq<Line>, from: nat): (k: Option<nat>)
    requires from <= |lines|
    decreases |lines| - from
    ensures k.Some? ==> from <= k.value < |lines| && MatchConst(lines[k.value]).Some?
    ensures k.Some? ==> forall j :: from <= j < k.value ==> MatchConst(lines[j]).None?
    ensures k.None? <==> forall j :: from <= j < |lines| ==> MatchConst(lines[j]).None?
  {
    if from == |lines| then None
    else if MatchConst(lines[from]).Some? then Some(from)
    else FirstConstLine(lines, from + 1)
  }

  /** The value `method_index` has after the first pass: the digits of
      the first matching line, or `None`. */
  function ScannedIndex(lines: seq<Line>): (r: Option<string>)
    ensures r.None? <==> forall j :: 0 <= j < |lines| ==> MatchConst(lines[j]).None?
    ensures r.Some? ==> IsDigits(r.value)
  {
    match FirstConstLine(lines, 0)
    case None => None
    case Some(k) => MatchConst(lines[k])
  }

  /** The loop of the first pass, reading with `readline()` until the end
      of the file or the first match. */
  method ScanConstant(lines: seq<Line>) returns (methodIndex: Option<string>)
    ensures methodIndex == ScannedIndex(lines)
  {
    methodIndex := None;
    var pos := 0;
    while true
      invariant pos <= |lines|
      invariant FirstConstLine(lines, pos) == FirstConstLine(lines, 0)
      decreases |lines| - pos
    {
      var read := ReadLine(lines, pos);
      var line := read.0;
      if line == [] {
        break;
      }
      var m := MatchConst(line);
      if m.Some? {
        assert FirstConstLine(lines, pos) == Some(pos);
        methodIndex := m;
        break;
      }
      assert FirstConstLine(lines, pos) == FirstConstLine(lines, pos + 1);
      pos := read.1;
    }
  }

  /** A found index is the one of the first line that matches the pattern;
      a later duplicate entry is never seen. */
  lemma ScanFindsFirst(lines: seq<Line>, k: nat, index: string)
    requires k < |lines| && IsConstLine(lines[k], index)
    requires forall j :: 0 <= j < k ==> MatchConst(lines[j]).None?
    ensures ScannedIndex(lines) == Some(index)
  {
    var f := FirstConstLine(lines, 0);
    assert f == Some(k);
  }

  /** A constant on the first line is the one the scan keeps. */
  lemma ScanFirstLine(lines: seq<Line>)
    requires lines != [] && MatchConst(lines[0]).Some?
    ensures ScannedIndex(lines) == MatchConst(lines[0])
  {
    assert FirstConstLine(lines, 0) == Some(0);
  }

  /** The scan stops at the first match: what follows it is never read. */
  lemma ScanStopsAtMatch(lines: seq<Line>, rest: seq<Line>)
    requires ScannedIndex(lines).Some?
    ensures ScannedIndex(lines + rest) == ScannedIndex(lines)
  {
    var k := FirstConstLine(lines, 0).value;
    assert forall j :: 0 <= j <= k ==> (lines + rest)[j] == lines[j];
    ScanFindsFirst(lines + rest, k, ScannedIndex(lines).value);
  }
}
