/** Quoting of a string as one POSIX shell word: every `'` becomes `'\''`
    and the whole is wrapped in single quotes. */
module ShellQuote {
  import opened Wrappers

  /** The four characters that stand for one `'` inside the quoted word:
      close the quote, a backslash-escaped quote, reopen the quote. */
  const EscapedQuote: string := "'\\''"

  /** Number of occurrences of `c` in `s`. */
  function Count(s: string, c: char): nat
  {
    if s == [] then 0 else (if s[0] == c then 1 else 0) + Count(s[1..], c)
  }

  /** `s.replace("'", "'\\''")`: each quote replaced, left to right. Every
      quote adds three characters, and a string without quotes is unchanged. */
  function Escape(s: string): (r: string)
    ensures |r| == |s| + 3 * Count(s, '\'')
    ensures Count(s, '\'') == 0 ==> r == s
  {
    if s == [] then []
    else
      var r := (if s[0] == '\'' then EscapedQuote else [s[0]]) + Escape(s[1..]);
      assert Count(s, '\'') == 0 ==> r == [s[0]] + s[1..];
      r
  }

  /** `shellquote(s)`. */
  function Quote(s: string): (r: string)
    ensures |r| >= 2 && r[0] == '\'' && r[|r| - 1] == '\''
    ensures r[1..|r| - 1] == Escape(s)
  {
    "'" + Escape(s) + "'"
  }

  lemma QuoteLength(s: string)
    ensures |Quote(s)| == |s| + 2 + 3 * Count(s, '\'')
  {
  }

  lemma QuoteWithoutQuote(s: string)
    requires Count(s, '\'') == 0
    ensures Quote(s) == "'" + s + "'"
  {
  }

  /** Undoes the substitution: every `'\''` in `t` becomes `'` again. */
  function Unescape(t: string): string
  {
    if t == [] then []
    else if |t| >= 4 && t[..4] == EscapedQuote then "'" + Unescape(t[4..])
    else [t[0]] + Unescape(t[1..])
  }

  lemma {:induction false} UnescapeEscape(s: string)
    ensures Unescape(Escape(s)) == s
  {
    if s != [] {
      var t := Escape(s);
      assert t == (if s[0] == '\'' then EscapedQuote else [s[0]]) + Escape(s[1..]);
      UnescapeEscape(s[1..]);
      if s[0] == '\'' {
        assert t[..4] == EscapedQuote && t[4..] == Escape(s[1..]);
      } else {
        assert t[0] == s[0] != '\'' && t[1..] == Escape(s[1..]);
      }
    }
  }

  /** Removing the outer quotes and undoing the substitution gives `s` back. */
  lemma QuoteRoundTrip(s: string)
    ensures var r := Quote(s); Unescape(r[1..|r| - 1]) == s
  {
    UnescapeEscape(s);
  }

  /* A POSIX shell word made of single-quoted runs and backslash-escaped
     characters (section 2.2 of the POSIX Shell Command Language): inside
     single quotes every character but `'` is literal; outside, `\c` stands
     for `c`, except that a backslash before a newline continues the line
     and is not accepted here. Any other unquoted character (blank,
     operator, expansion) is not accepted, so a word that evaluates is
     exactly one literal word. */

  function Prepend(c: char, o: Option<string>): Option<string>
  {
    if o.Some? then Some([c] + o.value) else None
  }

  /** The value of the rest of a word, read outside single quotes. */
  function Unquoted(t: string): Option<string>
    decreases |t|
  {
    if t == [] then Some([])
    else if t[0] == '\'' then Quoted(t[1..])
    else if t[0] == '\\' && |t| >= 2 && t[1] != '\n' then Prepend(t[1], Unquoted(t[2..]))
    else None
  }

  /** The value of the rest of a word, read inside single quotes. */
  function Quoted(t: string): Option<string>
    decreases |t|
  {
    if t == [] then None
    else if t[0] == '\'' then Unquoted(t[1..])
    else Prepend(t[0], Quoted(t[1..]))
  }

  lemma PrependStep(c: char, s: string, o: Option<string>)
    ensures Prepend(c, PrependAll(s, o)) == PrependAll([c] + s, o)
  {
    if o.Some? {
      assert [c] + (s + o.value) == ([c] + s) + o.value;
    }
  }

  lemma {:induction false} QuotedEscape(s: string, tail: string)
    ensures Quoted(Escape(s) + "'" + tail) == PrependAll(s, Unquoted(tail))
  {
    if s == [] {
      QuotedClose(tail);
    } else {
      var piece := if s[0] == '\'' then EscapedQuote else [s[0]];
      var rest := Escape(s[1..]) + "'" + tail;
      QuotedEscape(s[1..], tail);
      assert Escape(s) + "'" + tail == piece + rest by {
        assert Escape(s) == piece + Escape(s[1..]);
        assert piece + Escape(s[1..]) + "'" + tail == piece + (Escape(s[1..]) + "'" + tail);
      }
      QuotedStep(s[0], rest);
      PrependStep(s[0], s[1..], Unquoted(tail));
      assert [s[0]] + s[1..] == s;
    }
  }

  /** The closing quote of a word ends the quoted run. */
  lemma QuotedClose(tail: string)
    ensures Quoted([] + "'" + tail) == PrependAll([], Unquoted(tail))
  {
    var t := [] + "'" + tail;
    assert t[0] == '\'' && t[1..] == tail;
    var u := Unquoted(tail);
    if u.Some? {
      assert [] + u.value == u.value;
    }
  }

  /** Reading one escaped character inside single quotes. */
  lemma QuotedStep(c: char, rest: string)
    ensures Quoted((if c == '\'' then EscapedQuote else [c]) + rest) == Prepend(c, Quoted(rest))
  {
    if c == '\'' {
      var t := EscapedQuote + rest;
      var t1 := t[1..];
      assert t1 == "\\''" + rest;
      assert Quoted(t) == Unquoted(t1);
      var t3 := t1[2..];
      assert t3 == "'" + rest && t3[1..] == rest;
      assert Unquoted(t1) == Prepend('\'', Unquoted(t3));
      assert Unquoted(t3) == Quoted(rest);
    } else {
      var t := [c] + rest;
      assert t[1..] == rest;
    }
  }

  /** `Prepend` of a whole string. */
  function PrependAll(s: string, o: Option<string>): Option<string>
  {
    if o.Some? then Some(s + o.value) else None
  }

  /** The shell reads `Quote(s)` back as the single word `s`. */
  lemma QuoteIsOneWord(s: string)
    ensures Unquoted(Quote(s)) == Some(s)
  {
    QuotedEscape(s, []);
    assert Quote(s)[1..] == Escape(s) + "'" + [];
    assert Unquoted(Quote(s)) == Quoted(Escape(s) + "'" + []);
    assert s + [] == s;
  }

  lemma QuoteExample()
    ensures Quote("it's") == "'it'\\''s'"
  {
    assert Escape("it's") == "it" + EscapedQuote + "s";
  }
}
