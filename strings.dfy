/**
 * The three Python 2 string builtins the report script relies on:
 * `str.split(sep)`, `str.replace(old, new)` and `int(s)` in base 10.
 * Each is stated against an independent characterisation (`Join` for
 * `Split`, occurrences for `Replace`, a literal grammar for `ParseInt`).
 */
module Strings {
  import opened Wrappers

  // ---------------------------------------------------------------------
  // str.split(sep) with a one-character separator
  // ---------------------------------------------------------------------

  /** Glues `parts` back together with `sep` between neighbours. */
  function Join(parts: seq<string>, sep: char): string
    requires |parts| >= 1
  {
    if |parts| == 1 then parts[0] else parts[0] + [sep] + Join(parts[1..], sep)
  }

  /** Python's `s.split(sep)`: always at least one part, none holding `sep`. */
  function Split(s: string, sep: char): (parts: seq<string>)
    ensures |parts| >= 1
    ensures forall i :: 0 <= i < |parts| ==> sep !in parts[i]
    ensures Join(parts, sep) == s
  {
    if s == [] then [[]]
    else
      var rest := Split(s[1..], sep);
      if s[0] == sep then
        assert s == [sep] + Join(rest, sep);
        [[]] + rest
      else
        var parts := [[s[0]] + rest[0]] + rest[1..];
        assert parts[1..] == rest[1..];
        assert s == [s[0]] + Join(rest, sep);
        parts
  }

  /** Splitting undoes joining when no part holds the separator. */
  lemma {:induction false} SplitJoin(parts: seq<string>, sep: char)
    requires |parts| >= 1
    requires forall i :: 0 <= i < |parts| ==> sep !in parts[i]
    ensures Split(Join(parts, sep), sep) == parts
  {
    if |parts| == 1 {
      SplitNoSeparator(parts[0], sep);
    } else {
      var tail := Join(parts[1..], sep);
      SplitJoin(parts[1..], sep);
      SplitPrepend(parts[0], tail, sep);
    }
  }

  lemma {:induction false} SplitNoSeparator(s: string, sep: char)
    requires sep !in s
    ensures Split(s, sep) == [s]
  {
    if s != [] {
      SplitNoSeparator(s[1..], sep);
    }
  }

  lemma {:induction false} SplitPrepend(p: string, t: string, sep: char)
    requires sep !in p
    ensures Split(p + [sep] + t, sep) == [p] + Split(t, sep)
  {
    if p == [] {
      assert ([sep] + t)[1..] == t;
    } else {
      assert (p + [sep] + t)[1..] == p[1..] + [sep] + t;
      SplitPrepend(p[1..], t, sep);
      var rest := Split(p[1..] + [sep] + t, sep);
      assert rest[0] == p[1..] && rest[1..] == Split(t, sep);
      assert [p[0]] + p[1..] == p;
    }
  }

  lemma {:induction false} JoinAppend(parts: seq<string>, q: string, sep: char)
    requires |parts| >= 1
    ensures Join(parts + [q], sep) == Join(parts, sep) + [sep] + q
  {
    if |parts| > 1 {
      assert (parts + [q])[1..] == parts[1..] + [q];
      JoinAppend(parts[1..], q, sep);
    }
  }

  /** The last part of a split is whatever follows the last separator. */
  lemma LastPartAfterLastSeparator(p: string, q: string, sep: char)
    requires sep !in q
    ensures var parts := Split(p + [sep] + q, sep); parts[|parts| - 1] == q
  {
    var ps := Split(p, sep);
    JoinAppend(ps, q, sep);
    SplitJoin(ps + [q], sep);
  }

  // ---------------------------------------------------------------------
  // str.replace(old, new)
  // ---------------------------------------------------------------------

  /** `pat` occurs in `s` starting at index `i`. */
  predicate OccursAt(s: string, pat: string, i: int)
  {
    0 <= i && i + |pat| <= |s| && s[i..i + |pat|] == pat
  }

  ghost predicate Contains(s: string, pat: string)
  {
    exists i :: OccursAt(s, pat, i)
  }

  /**
   * Python's `s.replace(pat, rep)`: scans left to right and replaces each
   * occurrence that does not overlap an earlier replaced one.
   */
  function Replace(s: string, pat: string, rep: string): (r: string)
    requires pat != []
    ensures !Contains(s, pat) ==> r == s
    ensures forall c :: c in r ==> c in s || c in rep
  {
    if |s| < |pat| then s
    else if s[..|pat|] == pat then
      assert OccursAt(s, pat, 0);
      rep + Replace(s[|pat|..], pat, rep)
    else
      OccursShift(s, pat);
      [s[0]] + Replace(s[1..], pat, rep)
  }

  /** An occurrence in `s[1..]` is one in `s`, one place later. */
  lemma OccursShift(s: string, pat: string)
    requires s != []
    ensures Contains(s[1..], pat) ==> Contains(s, pat)
  {
    if Contains(s[1..], pat) {
      var i :| OccursAt(s[1..], pat, i);
      assert s[1..][i..i + |pat|] == s[i + 1..i + 1 + |pat|];
      assert OccursAt(s, pat, i + 1);
    }
  }

  /**
   * The first occurrence of `pat` is replaced whenever no earlier one
   * overlaps it, and the scan goes on from just after it. Together with the
   * first postcondition of `Replace`, this determines `Replace` on every input.
   */
  lemma {:induction false} ReplaceLeftmost(p: string, pat: string, q: string, rep: string)
    requires pat != []
    requires !Contains(p + pat[..|pat| - 1], pat)
    ensures Replace(p + pat + q, pat, rep) == p + rep + Replace(q, pat, rep)
  {
    if p == [] {
      ReplaceAtHead(pat, q, rep);
    } else {
      NoOccurrenceInTail(p, pat);
      ReplaceLeftmost(p[1..], pat, q, rep);
      ReplacePastHead(p, pat, q, rep);
    }
  }

  lemma ReplaceAtHead(pat: string, q: string, rep: string)
    requires pat != []
    ensures Replace(pat + q, pat, rep) == rep + Replace(q, pat, rep)
  {
    var s := pat + q;
    assert s[..|pat|] == pat;
    assert s[|pat|..] == q;
  }

  lemma NoOccurrenceInTail(p: string, pat: string)
    requires pat != [] && p != []
    requires !Contains(p + pat[..|pat| - 1], pat)
    ensures !OccursAt(p + pat[..|pat| - 1], pat, 0)
    ensures !Contains(p[1..] + pat[..|pat| - 1], pat)
  {
    var w := p + pat[..|pat| - 1];
    assert w[1..] == p[1..] + pat[..|pat| - 1];
    OccursShift(w, pat);
  }

  /** One step of the scan past the first character of `p`. */
  lemma ReplacePastHead(p: string, pat: string, q: string, rep: string)
    requires pat != [] && p != []
    requires !OccursAt(p + pat[..|pat| - 1], pat, 0)
    requires Replace(p[1..] + pat + q, pat, rep) == p[1..] + rep + Replace(q, pat, rep)
    ensures Replace(p + pat + q, pat, rep) == p + rep + Replace(q, pat, rep)
  {
    var s := p + pat + q;
    HeadIsNotPattern(p, pat, q);
    ReplaceSkip(s, pat, rep);
    Concat3(p, pat, q);
    Concat3(p[1..], pat, q);
    ConcatTail(p, pat + q);
    ConsRegroup(p, rep, Replace(q, pat, rep));
  }

  lemma HeadIsNotPattern(p: string, pat: string, q: string)
    requires pat != [] && p != []
    requires !OccursAt(p + pat[..|pat| - 1], pat, 0)
    ensures |p + pat + q| >= |pat| && (p + pat + q)[..|pat|] != pat
  {
    assert (p + pat + q)[..|pat|] == (p + pat[..|pat| - 1])[..|pat|];
  }

  /** Where `pat` does not start `s`, the scan keeps `s[0]` and moves on. */
  lemma ReplaceSkip(s: string, pat: string, rep: string)
    requires pat != [] && |s| >= |pat| && s[..|pat|] != pat
    ensures Replace(s, pat, rep) == [s[0]] + Replace(s[1..], pat, rep)
  {
  }

  lemma ConcatTail(p: string, r: string)
    requires p != []
    ensures (p + r)[0] == p[0] && (p + r)[1..] == p[1..] + r
  {
  }

  lemma ConsRegroup(p: string, b: string, c: string)
    requires p != []
    ensures [p[0]] + (p[1..] + b + c) == p + b + c
  {
    assert [p[0]] + p[1..] == p;
  }

  /** Deleting occurrences never lengthens a string. */
  lemma {:induction false} DeleteShortens(s: string, pat: string)
    requires pat != []
    ensures |Replace(s, pat, [])| <= |s|
    ensures Contains(s, pat) ==> |Replace(s, pat, [])| < |s|
  {
    if |s| < |pat| {
      assert forall i :: !OccursAt(s, pat, i);
    } else if s[..|pat|] == pat {
      DeleteShortens(s[|pat|..], pat);
    } else {
      DeleteShortens(s[1..], pat);
      if Contains(s, pat) {
        var i :| OccursAt(s, pat, i);
        assert i != 0;
        assert s[1..][i - 1..i - 1 + |pat|] == s[i..i + |pat|];
        assert OccursAt(s[1..], pat, i - 1);
      }
    }
  }

  /** Deleting a pattern leaves `s` as it was exactly when `pat` does not occur in it. */
  lemma {:induction false} DeleteUnchangedIff(s: string, pat: string)
    requires pat != []
    ensures Replace(s, pat, []) == s <==> !Contains(s, pat)
  {
    DeleteShortens(s, pat);
  }

  // ---------------------------------------------------------------------
  // int(s), base 10
  // ---------------------------------------------------------------------

  /** The characters C's isspace accepts in the "C" locale. */
  predicate IsSpace(c: char)
  {
    c == ' ' || c == '\t' || c == '\n' || c == '\r' || c == '\U{000B}' || c == '\U{000C}'
  }

  predicate IsDigit(c: char)
  {
    '0' <= c <= '9'
  }

  predicate AllSpace(s: string)
  {
    forall i :: 0 <= i < |s| ==> IsSpace(s[i])
  }

  predicate AllDigits(s: string)
  {
    forall i :: 0 <= i < |s| ==> IsDigit(s[i])
  }

  /** The value of a run of decimal digits, most significant first. */
  function DigitsValue(d: string): nat
    requires AllDigits(d)
  {
    if d == [] then 0
    else 10 * DigitsValue(d[..|d| - 1]) + (d[|d| - 1] as int - '0' as int)
  }

  function SignedValue(sign: string, d: string): int
    requires AllDigits(d)
  {
    if sign == "-" then -(DigitsValue(d) as int) else DigitsValue(d)
  }

  /** Drops leading white space. */
  function TrimStart(s: string): string
  {
    if s != [] && IsSpace(s[0]) then TrimStart(s[1..]) else s
  }

  /** Drops trailing white space. */
  function TrimEnd(s: string): string
  {
    if s != [] && IsSpace(s[|s| - 1]) then TrimEnd(s[..|s| - 1]) else s
  }

  /** `TrimStart` removes a prefix of white space, and all of it. */
  lemma {:induction false} TrimStartRemovesLeadingSpace(s: string)
    ensures var r := TrimStart(s);
      |r| <= |s| && r == s[|s| - |r|..] && AllSpace(s[..|s| - |r|]) && (r == [] || !IsSpace(r[0]))
  {
    if s != [] && IsSpace(s[0]) {
      TrimStartRemovesLeadingSpace(s[1..]);
      var r := TrimStart(s[1..]);
      assert s[..|s| - |r|] == [s[0]] + s[1..][..|s| - 1 - |r|];
    }
  }

  /** `TrimEnd` removes a suffix of white space, and all of it. */
  lemma {:induction false} TrimEndRemovesTrailingSpace(s: string)
    ensures var r := TrimEnd(s);
      |r| <= |s| && r == s[..|r|] && AllSpace(s[|r|..]) && (r == [] || !IsSpace(r[|r| - 1]))
  {
    if s != [] && IsSpace(s[|s| - 1]) {
      TrimEndRemovesTrailingSpace(s[..|s| - 1]);
      var r := TrimEnd(s[..|s| - 1]);
      assert s[|r|..] == s[..|s| - 1][|r|..] + [s[|s| - 1]];
    }
  }

  /** The sign `int` accepts at the head of its stripped argument, if any. */
  function SignOf(t: string): (sign: string)
  {
    if t != [] && (t[0] == '+' || t[0] == '-') then t[..1] else []
  }

  /** `int` applied to a string with no white space at either end. */
  function ParseStripped(t: string): Option<int>
  {
    var sign := SignOf(t);
    var d := t[|sign|..];
    if d != [] && AllDigits(d) then Some(SignedValue(sign, d)) else None
  }

  /**
   * Python 2's `int(s)` on a string: optional surrounding white space, an
   * optional sign, then at least one decimal digit. `None` stands for the
   * `ValueError` it raises on anything else.
   */
  function ParseInt(s: string): (r: Option<int>)
    ensures r.Some? ==>
      exists lead, sign, d, trail :: IsIntLiteral(lead, sign, d, trail) &&
        s == lead + sign + d + trail && r == Some(SignedValue(sign, d))
  {
    StrippedParseIsLiteral(s);
    ParseStripped(TrimEnd(TrimStart(s)))
  }

  /** The literals `int` accepts, cut into their four pieces. */
  ghost predicate IsIntLiteral(lead: string, sign: string, d: string, trail: string)
  {
    AllSpace(lead) && (sign == "" || sign == "+" || sign == "-") &&
    d != [] && AllDigits(d) && AllSpace(trail)
  }

  lemma {:induction false} TrimStartOfSpaces(a: string, m: string)
    requires AllSpace(a)
    requires m != [] && !IsSpace(m[0])
    ensures TrimStart(a + m) == m
  {
    if a != [] {
      assert (a + m)[1..] == a[1..] + m;
      TrimStartOfSpaces(a[1..], m);
    }
  }

  lemma {:induction false} TrimEndOfSpaces(m: string, b: string)
    requires AllSpace(b)
    requires m != [] && !IsSpace(m[|m| - 1])
    ensures TrimEnd(m + b) == m
  {
    if b != [] {
      assert (m + b)[..|m + b| - 1] == m + b[..|b| - 1];
      TrimEndOfSpaces(m, b[..|b| - 1]);
    } else {
      assert m + b == m;
    }
  }

  /** Every literal of the grammar parses, to the value its digits and sign denote. */
  lemma ParseIntAcceptsLiteral(lead: string, sign: string, d: string, trail: string)
    requires IsIntLiteral(lead, sign, d, trail)
    ensures ParseInt(lead + sign + d + trail) == Some(SignedValue(sign, d))
  {
    ParseStrippedLiteral(sign, d);
    Concat4(lead, sign, d, trail);
    StripLiteral(lead, sign + d, trail);
  }

  lemma StripLiteral(lead: string, core: string, trail: string)
    requires AllSpace(lead) && AllSpace(trail)
    requires core != [] && !IsSpace(core[0]) && !IsSpace(core[|core| - 1])
    ensures TrimEnd(TrimStart(lead + core + trail)) == core
  {
    TrimEndOfSpaces(core, trail);
    assert lead + core + trail == lead + (core + trail);
    TrimStartOfSpaces(lead, core + trail);
  }

  lemma ParseStrippedLiteral(sign: string, d: string)
    requires sign == "" || sign == "+" || sign == "-"
    requires d != [] && AllDigits(d)
    ensures var core := sign + d; !IsSpace(core[0]) && !IsSpace(core[|core| - 1])
    ensures ParseStripped(sign + d) == Some(SignedValue(sign, d))
  {
    var core := sign + d;
    assert core[|core| - 1] == d[|d| - 1];
    assert IsDigit(d[|d| - 1]);
    if sign == "" {
      assert core == d;
      assert IsDigit(d[0]);
      assert SignOf(core) == [];
    } else {
      assert core[0] == sign[0];
      assert SignOf(core) == sign;
      assert core[1..] == d;
    }
  }

  lemma SliceJoin(x: string, k: nat)
    requires k <= |x|
    ensures x == x[..k] + x[k..]
  {
  }

  /** A stripped text that parses is a sign followed by digits. */
  lemma StrippedIsSignedDigits(t: string)
    requires ParseStripped(t).Some?
    ensures var sign := SignOf(t);
      && (sign == "" || sign == "+" || sign == "-")
      && t[|sign|..] != [] && AllDigits(t[|sign|..])
      && t == sign + t[|sign|..]
      && ParseStripped(t) == Some(SignedValue(sign, t[|sign|..]))
  {
    var sign := SignOf(t);
    SliceJoin(t, |sign|);
    if sign != [] {
      assert sign == [t[0]];
    }
  }

  /** Trimming cuts a text into leading white space, the trimmed core and trailing white space. */
  lemma TrimSplits(s: string)
    ensures var u := TrimStart(s); var t := TrimEnd(u);
      && |u| <= |s| && |t| <= |u|
      && AllSpace(s[..|s| - |u|]) && AllSpace(u[|t|..])
      && s == s[..|s| - |u|] + t + u[|t|..]
  {
    var u := TrimStart(s);
    var t := TrimEnd(u);
    TrimStartRemovesLeadingSpace(s);
    TrimEndRemovesTrailingSpace(u);
    SliceJoin(s, |s| - |u|);
    SliceJoin(u, |t|);
    Concat3(s[..|s| - |u|], t, u[|t|..]);
  }

  lemma Concat3(a: string, b: string, c: string)
    ensures a + b + c == a + (b + c)
  {
  }

  lemma Concat4(a: string, b: string, c: string, d: string)
    ensures a + b + c + d == a + (b + c) + d
  {
  }

  /** Whatever survives trimming and parses is a literal of the grammar, with the value it denotes. */
  lemma StrippedParseIsLiteral(s: string)
    ensures var r := ParseStripped(TrimEnd(TrimStart(s)));
      r.Some? ==> exists lead, sign, d, trail :: IsIntLiteral(lead, sign, d, trail) &&
                    s == lead + sign + d + trail && r == Some(SignedValue(sign, d))
  {
    var u := TrimStart(s);
    var t := TrimEnd(u);
    if ParseStripped(t).Some? {
      TrimSplits(s);
      StrippedIsSignedDigits(t);
      var lead, trail := s[..|s| - |u|], u[|t|..];
      var sign := SignOf(t);
      var d := t[|sign|..];
      Concat4(lead, sign, d, trail);
      assert IsIntLiteral(lead, sign, d, trail);
    }
  }

  /** Without a minus sign in the text, whatever parses is not negative. */
  lemma ParseIntWithoutMinus(s: string)
    requires '-' !in s
    ensures ParseInt(s).Some? ==> ParseInt(s).value >= 0
  {
  }

  /** A string that starts with anything but white space, a sign or a digit is rejected. */
  lemma ParseIntRejectsLeadingOther(s: string)
    requires s != [] && !IsSpace(s[0]) && !IsDigit(s[0]) && s[0] != '+' && s[0] != '-'
    ensures ParseInt(s) == None
  {
    var t := TrimEnd(TrimStart(s));
    assert TrimStart(s) == s;
    TrimEndRemovesTrailingSpace(s);
    if t != [] {
      assert t[0] == s[0];
    }
  }

  /** A plain run of digits parses to the number it spells. */
  lemma ParseIntOfPlainDigits(d: string)
    requires d != [] && AllDigits(d)
    ensures ParseInt(d) == Some(DigitsValue(d))
  {
    ParseIntAcceptsLiteral("", "", d, "");
    assert "" + "" + d + "" == d;
  }

  // The literal comes in through `s` so that the verifier does not unfold it everywhere.
  lemma ParseIntOfDigits(s: string)
    requires s == "12"
    ensures ParseInt(s) == Some(12)
  {
    ParseIntOfPlainDigits(s);
    assert DigitsValue(s) == 12 by {
      assert s[..1] == "1";
      assert "1"[..0] == "";
    }
  }
}
