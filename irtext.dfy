/** The disassembled class file as the patcher sees it: a sequence of lines
    as `readline()` returns them, and the two fixed line patterns it looks for. */
module IrText {
  import opened Wrappers

  /** One result of `readline()` before the end of the file: never empty. */
  type Line = s: string | s != [] witness "\n"

  /** `readline()` on a cursor `pos` into `lines`: the next line and the
      advanced cursor, or `""` and the same cursor at the end of the file. */
  function ReadLine(lines: seq<Line>, pos: nat): (r: (string, nat))
    requires pos <= |lines|
    ensures r.0 == [] <==> pos == |lines|
    ensures r.0 != [] ==> r.0 == lines[pos] && r.1 == pos + 1
    ensures r.0 == [] ==> r.1 == pos
  {
    if pos < |lines| then (lines[pos], pos + 1) else ([], pos)
  }

  predicate IsDigit(c: char)
  {
    '0' <= c <= '9'
  }

  /** Every character of `s` is a decimal digit. */
  predicate AllDigits(s: string)
  {
    s == [] || (IsDigit(s[0]) && AllDigits(s[1..]))
  }

  /** `\d+`: a non-empty run of decimal digits. */
  predicate IsDigits(s: string)
  {
    s != [] && AllDigits(s)
  }

  /** Length of the longest run of digits at the start of `s`. */
  function DigitRun(s: string): (k: nat)
    ensures k <= |s| && AllDigits(s[..k])
    ensures k < |s| ==> !IsDigit(s[k])
  {
    if s != [] && IsDigit(s[0]) then
      var k := 1 + DigitRun(s[1..]);
      assert s[..k][1..] == s[1..][..k - 1];
      k
    else
      0
  }

  /** A run of digits followed by a non-digit (or nothing) is read whole. */
  lemma {:induction false} DigitRunOf(n: string, t: string)
    requires AllDigits(n)
    requires NotDigitStart(t)
    ensures DigitRun(n + t) == |n|
  {
    if n == [] {
      assert n + t == t;
    } else {
      assert (n + t)[1..] == n[1..] + t;
      DigitRunOf(n[1..], t);
    }
  }

  predicate NotDigitStart(t: string)
  {
    t == [] || !IsDigit(t[0])
  }

  /** `line` is `p`, then the digits `n`, then `t`, which does not go on
      with a digit. */
  predicate SplitsAt(line: string, p: string, n: string, t: string)
  {
    IsDigits(n) && NotDigitStart(t) && line == p + n + t
  }

  /** `p(\d+)` at the start of `line`: the digits and what follows them.
      The run is greedy, so what follows never starts with a digit. */
  function MatchDigits(line: string, p: string): (r: Option<(string, string)>)
    ensures r.Some? ==> IsDigits(r.value.0) && NotDigitStart(r.value.1) && line == p + r.value.0 + r.value.1
    ensures forall n, t :: SplitsAt(line, p, n, t) ==> r == Some((n, t))
  {
    if |p| <= |line| && line[..|p|] == p then
      var rest := line[|p|..];
      var k := DigitRun(rest);
      DigitsOnlyAt(line, p, rest, k);
      if k > 0 then
        assert rest == rest[..k] + rest[k..] && line == p + rest;
        Some((rest[..k], rest[k..]))
      else
        None
    else
      None
  }

  lemma DigitsOnlyAt(line: string, p: string, rest: string, k: nat)
    requires |p| <= |line| && rest == line[|p|..] && k == DigitRun(rest)
    ensures forall n, t :: SplitsAt(line, p, n, t) ==> k == |n| && rest[..k] == n && rest[k..] == t
  {
    forall n, t | SplitsAt(line, p, n, t)
      ensures k == |n| && rest[..k] == n && rest[k..] == t
    {
      assert rest == n + t;
      DigitRunOf(n, t);
    }
  }

  /** A line that differs from `p` at some position within both does not
      start with `p`. */
  lemma DiffersFrom(line: string, p: string, i: nat)
    requires i < |p| && i < |line| && line[i] != p[i]
    ensures MatchDigits(line, p).None?
  {
    if |p| <= |line| {
      assert line[..|p|][i] != p[i];
    }
  }

  /** Python's `$` without MULTILINE: the end of the string, or just before
      a newline that ends it. So `... \n$` accepts one extra `\n`. */
  predicate EndsAt(rest: string, suffix: string)
  {
    rest == suffix || rest == suffix + "\n"
  }

  /* `^\.const \[(\d+)\] = Utf8 isPremiumAccount \n$` */
  const ConstPrefix: string := ".const ["
  const ConstSuffix: string := "] = Utf8 isPremiumAccount \n"

  /** `line` matches the constant pattern with `index` as its group. */
  predicate IsConstLine(line: string, index: string)
  {
    IsDigits(index) && EndsAt(line, ConstPrefix + index + ConstSuffix)
  }

  /** `re.match` of the constant pattern: the captured index, if any. */
  function MatchConst(line: string): (r: Option<string>)
    ensures r.Some? ==> IsConstLine(line, r.value)
    ensures forall index :: IsConstLine(line, index) ==> r == Some(index)
  {
    var d := MatchDigits(line, ConstPrefix);
    forall index | IsConstLine(line, index) ensures d == Some((index, d.value.1)) && EndsAt(d.value.1, ConstSuffix) {
      var tail := if line == ConstPrefix + index + ConstSuffix then ConstSuffix else ConstSuffix + "\n";
      assert line == ConstPrefix + index + tail && NotDigitStart(tail);
      assert d == Some((index, tail));
    }
    if d.Some? && EndsAt(d.value.1, ConstSuffix) then
      Some(d.value.0)
    else
      None
  }

  /* `^\.method public \[(\d+)\] : \[(\d+)\] \n$` */
  const MethodPrefix: string := ".method public ["
  const MethodMiddle: string := "] : ["
  const MethodSuffix: string := "] \n"

  /** The two groups of the method pattern: the constant-pool index of the
      method's name and that of its descriptor, as digit strings. */
  datatype MethodRef = MethodRef(nameIndex: string, descriptorIndex: string)

  predicate IsMethodLine(line: string, m: MethodRef)
  {
    IsDigits(m.nameIndex) && IsDigits(m.descriptorIndex) &&
    EndsAt(line, MethodPrefix + m.nameIndex + MethodMiddle + m.descriptorIndex + MethodSuffix)
  }

  /** `re.match` of the method pattern: both groups, if it matches. */
  function MatchMethod(line: string): (r: Option<MethodRef>)
    ensures r.Some? ==> IsMethodLine(line, r.value)
    ensures forall m :: IsMethodLine(line, m) ==> r == Some(m)
  {
    var d1 := MatchDigits(line, MethodPrefix);
    var d2 := if d1.Some? then MatchDigits(d1.value.1, MethodMiddle) else None;
    MethodOnlyAt(line, d1, d2);
    if d2.Some? && EndsAt(d2.value.1, MethodSuffix) then
      var m := MethodRef(d1.value.0, d2.value.0);
      Concat3(line, MethodPrefix, m.nameIndex, d1.value.1, MethodMiddle, m.descriptorIndex, d2.value.1);
      Some(m)
    else
      None
  }

  /** A line of the form `p a q b tail` is split by two greedy digit matches
      into exactly its parts. */
  lemma TwoGroups(line: string, p: string, a: string, q: string, b: string, tail: string)
    requires IsDigits(a) && IsDigits(b) && q != [] && !IsDigit(q[0]) && NotDigitStart(tail)
    requires line == p + a + q + b + tail
    ensures MatchDigits(line, p) == Some((a, q + b + tail))
    ensures MatchDigits(q + b + tail, q) == Some((b, tail))
  {
    var rest := q + b + tail;
    assert line == (p + a) + ((q + b) + tail);
    assert line == p + a + rest;
    assert rest[0] == q[0];
  }

  lemma MethodOnlyAt(line: string, d1: Option<(string, string)>, d2: Option<(string, string)>)
    requires d1 == MatchDigits(line, MethodPrefix)
    requires d2 == if d1.Some? then MatchDigits(d1.value.1, MethodMiddle) else None
    ensures forall m :: IsMethodLine(line, m) ==>
      d1.Some? && d1.value.0 == m.nameIndex && d2.Some? && d2.value.0 == m.descriptorIndex &&
      EndsAt(d2.value.1, MethodSuffix)
  {
    forall m | IsMethodLine(line, m)
      ensures d1.Some? && d1.value.0 == m.nameIndex && d2.Some? && d2.value.0 == m.descriptorIndex &&
        EndsAt(d2.value.1, MethodSuffix)
    {
      var tail := if line == MethodPrefix + m.nameIndex + MethodMiddle + m.descriptorIndex + MethodSuffix
        then MethodSuffix else MethodSuffix + "\n";
      MethodGroups(line, m, tail);
    }
  }

  /** Two concatenations joined into one; stated on its own so that
      `MatchMethod` does not carry the sequence reasoning. */
  lemma Concat3(line: string, p: string, a: string, rest: string, q: string, b: string, tail: string)
    requires line == p + a + rest && rest == q + b + tail
    ensures line == p + a + q + b + tail
  {
  }

  /** A method line, with `tail` the part after the second group, is read
      by the two digit matches as its two groups and `tail`. */
  lemma MethodGroups(line: string, m: MethodRef, tail: string)
    requires IsDigits(m.nameIndex) && IsDigits(m.descriptorIndex)
    requires tail == MethodSuffix || tail == MethodSuffix + "\n"
    requires line == MethodPrefix + m.nameIndex + MethodMiddle + m.descriptorIndex + tail
    ensures MatchDigits(line, MethodPrefix) == Some((m.nameIndex, MethodMiddle + m.descriptorIndex + tail))
    ensures MatchDigits(MethodMiddle + m.descriptorIndex + tail, MethodMiddle) == Some((m.descriptorIndex, tail))
  {
    assert tail[0] == ']';
    TwoGroups(line, MethodPrefix, m.nameIndex, MethodMiddle, m.descriptorIndex, tail);
  }

  /** A header of the method whose name is the constant `index`:
      `match and match.group(1) == method_index`. */
  predicate IsTargetHeader(line: string, index: string)
    ensures IsTargetHeader(line, index) <==>
      exists descriptor :: IsMethodLine(line, MethodRef(index, descriptor))
  {
    var m := MatchMethod(line);
    m.Some? && m.value.nameIndex == index
  }

  /** The constant line never passes the header test, whatever the index:
      `.const` and `.method` differ at their second character. */
  lemma ConstNotHeader(c: string, index: string)
    requires MatchConst(c).Some?
    ensures !IsTargetHeader(c, index)
  {
    forall d: string ensures !IsMethodLine(c, MethodRef(index, d)) {
      ConstNotMethod(c, MatchConst(c).value, MethodRef(index, d));
    }
  }

  /** No line matches both patterns. */
  lemma ConstNotMethod(c: string, k: string, m: MethodRef)
    requires IsConstLine(c, k)
    ensures !IsMethodLine(c, m)
  {
    SecondChar(c, ConstPrefix + k + ConstSuffix, ConstPrefix);
    if IsMethodLine(c, m) {
      var x := MethodPrefix + m.nameIndex + MethodMiddle + m.descriptorIndex + MethodSuffix;
      assert x[1] == MethodPrefix[1];
      SecondChar(c, x, MethodPrefix);
    }
  }

  /** A line that `$` ends after `x`, where `x` has `p` in front, has the
      second character of `p`. */
  lemma SecondChar(line: string, x: string, p: string)
    requires |p| >= 2 && |p| <= |x| && x[..|p|] == p && EndsAt(line, x)
    ensures line[1] == p[1]
  {
    assert line[1] == x[1] == x[..|p|][1];
  }

  /** The instruction that replaces the method's first two. */
  const PushTrue: Line := "L0:     iconst_1 \n"
}
