/**
 * The download name of the exported certificate:
 * `Certificado_${studentName.replace(/\s+/g, '_')}.pdf`.
 * Every maximal run of whitespace becomes one underscore; nothing is trimmed.
 */
module FileName {

  /**
   * The characters JavaScript's `\s` class matches: the ECMAScript WhiteSpace and
   * LineTerminator code points.
   */
  predicate IsWhitespace(c: char) {
    || c == ' ' || c == '\t' || c == '\n' || c == '\r' || c == '\U{000B}' || c == '\U{000C}'
    || c == '\U{00A0}' || c == '\U{1680}' || ('\U{2000}' <= c <= '\U{200A}')
    || c == '\U{2028}' || c == '\U{2029}' || c == '\U{202F}' || c == '\U{205F}'
    || c == '\U{3000}' || c == '\U{FEFF}'
  }

  predicate NoWhitespace(s: string) {
    forall k :: 0 <= k < |s| ==> !IsWhitespace(s[k])
  }

  predicate AllWhitespace(s: string) {
    forall k :: 0 <= k < |s| ==> IsWhitespace(s[k])
  }

  /** What is left of `s` once its leading whitespace run is consumed. */
  function SkipRun(s: string): (r: string)
    ensures |r| <= |s|
    ensures r == [] || !IsWhitespace(r[0])
  {
    if s != [] && IsWhitespace(s[0]) then SkipRun(s[1..]) else s
  }

  /** The consumed part is all whitespace and the rest follows it unchanged. */
  lemma {:induction false} SkipRunSplits(s: string)
    ensures var n := |s| - |SkipRun(s)|;
      s == s[..n] + SkipRun(s) && AllWhitespace(s[..n])
    decreases |s|
  {
    if s != [] && IsWhitespace(s[0]) {
      var tail := s[1..];
      SkipRunSplits(tail);
      var m := |tail| - |SkipRun(tail)|;
      var run := s[..m + 1];
      assert run == [s[0]] + tail[..m];
      forall k | 0 <= k < |run|
        ensures IsWhitespace(run[k])
      {
        if k > 0 {
          assert run[k] == tail[..m][k - 1];
        }
      }
    }
  }

  /** `s.replace(/\s+/g, '_')`. */
  function Underscored(s: string): (r: string)
    ensures NoWhitespace(r)
    ensures |r| <= |s|
    decreases |s|
  {
    if s == [] then []
    else if IsWhitespace(s[0]) then "_" + Underscored(SkipRun(s[1..]))
    else [s[0]] + Underscored(s[1..])
  }

  function FileName(studentName: string): (r: string)
    ensures NoWhitespace(r)
    ensures |r| == |Underscored(studentName)| + 16
    ensures r[..12] == "Certificado_" && r[|r| - 4..] == ".pdf"
    ensures r[12..|r| - 4] == Underscored(studentName)
  {
    "Certificado_" + Underscored(studentName) + ".pdf"
  }

  /** The characters that are neither whitespace nor an underscore, in order. */
  function Visible(s: string): (r: string)
  {
    if s == [] then []
    else (if IsWhitespace(s[0]) || s[0] == '_' then [] else [s[0]]) + Visible(s[1..])
  }

  lemma {:induction false} VisibleOfRun(s: string)
    requires AllWhitespace(s)
    ensures Visible(s) == []
  {
    if s != [] {
      VisibleOfRun(s[1..]);
    }
  }

  lemma {:induction false} VisibleAppend(a: string, b: string)
    ensures Visible(a + b) == Visible(a) + Visible(b)
  {
    if a == [] {
      assert a + b == b;
    } else {
      assert (a + b)[1..] == a[1..] + b;
      VisibleAppend(a[1..], b);
    }
  }

  /** Every character other than whitespace and `_` is kept, in its original order. */
  lemma {:induction false} UnderscoredKeepsVisible(s: string)
    ensures Visible(Underscored(s)) == Visible(s)
    decreases |s|
  {
    if s != [] {
      if IsWhitespace(s[0]) {
        var rest := SkipRun(s[1..]);
        var run := s[1..][..|s[1..]| - |rest|];
        SkipRunSplits(s[1..]);
        VisibleOfRun(run);
        VisibleAppend(run, rest);
        UnderscoredKeepsVisible(rest);
        VisibleAppend("_", Underscored(rest));
      } else {
        UnderscoredKeepsVisible(s[1..]);
        VisibleAppend([s[0]], Underscored(s[1..]));
      }
    }
  }

  /** A name without whitespace is left as it is. */
  lemma {:induction false} UnderscoredIdentity(s: string)
    requires NoWhitespace(s)
    ensures Underscored(s) == s
    decreases |s|
  {
    if s != [] {
      UnderscoredIdentity(s[1..]);
    }
  }

  /** Applying the rewrite a second time changes nothing. */
  lemma UnderscoredIdempotent(s: string)
    ensures Underscored(Underscored(s)) == Underscored(s)
  {
    UnderscoredIdentity(Underscored(s));
  }

  /** No trimming at the front: a name that begins with whitespace gives a leading `_`. */
  lemma UnderscoredKeepsLeading(s: string)
    requires s != [] && IsWhitespace(s[0])
    ensures Underscored(s) != [] && Underscored(s)[0] == '_'
  {
  }

  /** No trimming at the back: a name that ends with whitespace gives a trailing `_`. */
  lemma {:induction false} UnderscoredKeepsTrailing(s: string)
    requires s != [] && IsWhitespace(s[|s| - 1])
    ensures var r := Underscored(s); r != [] && r[|r| - 1] == '_'
    decreases |s|
  {
    var tail := s[1..];
    if IsWhitespace(s[0]) {
      var rest := SkipRun(tail);
      if rest != [] {
        SkipRunLast(tail);
        UnderscoredKeepsTrailing(rest);
        LastOfPrepend("_", Underscored(rest));
      }
    } else {
      assert tail[|tail| - 1] == s[|s| - 1];
      UnderscoredKeepsTrailing(tail);
      LastOfPrepend([s[0]], Underscored(tail));
    }
  }

  lemma LastOfPrepend(a: string, b: string)
    requires b != []
    ensures a + b != [] && (a + b)[|a + b| - 1] == b[|b| - 1]
  {
  }


  /**
   * The rewrite works piece by piece: it distributes over a concatenation whose seam
   * does not fall inside a whitespace run.
   */
  lemma {:induction false} UnderscoredAppend(a: string, b: string)
    requires a == [] || b == [] || !IsWhitespace(a[|a| - 1]) || !IsWhitespace(b[0])
    ensures Underscored(a + b) == Underscored(a) + Underscored(b)
    decreases |a|, 1
  {
    if a == [] {
      assert a + b == b;
    } else if IsWhitespace(a[0]) {
      UnderscoredAppendRun(a, b);
    } else {
      assert (a + b)[0] == a[0];
      assert (a + b)[1..] == a[1..] + b;
      UnderscoredAppend(a[1..], b);
    }
  }

  /** The case of `UnderscoredAppend` where `a` starts with a whitespace run. */
  lemma {:induction false} UnderscoredAppendRun(a: string, b: string)
    requires a != [] && IsWhitespace(a[0])
    requires b == [] || !IsWhitespace(a[|a| - 1]) || !IsWhitespace(b[0])
    ensures Underscored(a + b) == Underscored(a) + Underscored(b)
    decreases |a|, 0
  {
    var tail := a[1..];
    assert (a + b)[0] == a[0];
    assert (a + b)[1..] == tail + b;
    assert tail != [] ==> tail[|tail| - 1] == a[|a| - 1];
    SkipRunAppend(tail, b);
    var rest := SkipRun(tail);
    if rest != [] {
      SkipRunLast(tail);
      UnderscoredAppend(rest, b);
    }
  }

  lemma {:induction false} SkipRunLast(s: string)
    requires SkipRun(s) != []
    ensures SkipRun(s)[|SkipRun(s)| - 1] == s[|s| - 1]
    decreases |s|
  {
    if s != [] && IsWhitespace(s[0]) {
      SkipRunLast(s[1..]);
    }
  }

  lemma {:induction false} SkipRunAppend(a: string, b: string)
    requires b == [] || !IsWhitespace(b[0]) || (a != [] && !IsWhitespace(a[|a| - 1]))
    ensures SkipRun(a) != [] ==> SkipRun(a + b) == SkipRun(a) + b
    ensures SkipRun(a) == [] ==> SkipRun(a + b) == b
    decreases |a|
  {
    if a == [] {
      assert a + b == b;
    } else {
      assert (a + b)[0] == a[0];
      assert (a + b)[1..] == a[1..] + b;
      if IsWhitespace(a[0]) {
        assert a[1..] != [] ==> a[1..][|a[1..]| - 1] == a[|a| - 1];
        SkipRunAppend(a[1..], b);
      }
    }
  }

  /** A non-empty run of whitespace alone becomes a single underscore. */
  lemma UnderscoredRun(s: string)
    requires s != [] && AllWhitespace(s)
    ensures Underscored(s) == "_"
  {
    SkipRunOfRun(s[1..]);
  }

  lemma {:induction false} SkipRunOfRun(s: string)
    requires AllWhitespace(s)
    ensures SkipRun(s) == []
    decreases |s|
  {
    if s != [] {
      SkipRunOfRun(s[1..]);
    }
  }

  /**
   * A whitespace run between a word and the rest of the name becomes exactly one
   * underscore, however long the run is.
   */
  lemma UnderscoredSeparates(word: string, run: string, rest: string)
    requires NoWhitespace(word)
    requires run != [] && AllWhitespace(run)
    requires rest == [] || !IsWhitespace(rest[0])
    ensures Underscored(word + run + rest) == word + "_" + Underscored(rest)
  {
    var tail := run + rest;
    assert word + run + rest == word + tail;
    UnderscoredWordThen(word, tail);
    assert Underscored(word + run + rest) == word + Underscored(tail);
    UnderscoredRunThen(run, rest);
    assert Underscored(tail) == "_" + Underscored(rest);
    assert word + ("_" + Underscored(rest)) == word + "_" + Underscored(rest);
  }

  lemma UnderscoredRunThen(run: string, rest: string)
    requires run != [] && AllWhitespace(run)
    requires rest == [] || !IsWhitespace(rest[0])
    ensures Underscored(run + rest) == "_" + Underscored(rest)
  {
    UnderscoredRun(run);
    UnderscoredAppend(run, rest);
  }

  lemma UnderscoredWordThen(word: string, rest: string)
    requires NoWhitespace(word)
    ensures Underscored(word + rest) == word + Underscored(rest)
  {
    UnderscoredIdentity(word);
    UnderscoredAppend(word, rest);
  }

  /**
   * A name made of two words separated by a whitespace run of any length (say
   * "Ana  Silva") gives `Certificado_<first>_<last>.pdf`; with `last` empty, a name
   * ending in whitespace (say "Ana ") gives `Certificado_Ana_.pdf`.
   */
  lemma FileNameOfTwoWords(first: string, run: string, last: string)
    requires NoWhitespace(first) && NoWhitespace(last)
    requires run != [] && AllWhitespace(run)
    ensures FileName(first + run + last) == "Certificado_" + first + "_" + last + ".pdf"
  {
    UnderscoredSeparates(first, run, last);
    UnderscoredIdentity(last);
  }
}
