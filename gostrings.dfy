/** The pieces of Go's `strings` package that the install handler relies on,
    over strings of Unicode code points. */
module GoStrings {

  /** unicode.IsSpace: the Latin-1 white space characters and the rest of
      Unicode's White_Space property. Both strings.Fields and strings.TrimSpace
      split or trim on exactly these. */
  predicate IsSpace(c: char) {
    || c == '\t' || c == '\n' || c == '\U{000B}' || c == '\U{000C}' || c == '\r' || c == ' '
    || c == '\U{0085}' || c == '\U{00A0}' || c == '\U{1680}'
    || ('\U{2000}' <= c <= '\U{200A}')
    || c == '\U{2028}' || c == '\U{2029}' || c == '\U{202F}' || c == '\U{205F}' || c == '\U{3000}'
  }

  predicate NoSpace(s: string) {
    forall i :: 0 <= i < |s| ==> !IsSpace(s[i])
  }

  predicate AllSpace(s: string) {
    forall i :: 0 <= i < |s| ==> IsSpace(s[i])
  }

  /** `pat` occurs in `s` starting at index i. */
  predicate MatchAt(s: string, pat: string, i: nat) {
    i + |pat| <= |s| && s[i..i + |pat|] == pat
  }

  predicate Occurs(s: string, pat: string) {
    exists i: nat | i <= |s| :: MatchAt(s, pat, i)
  }

  /** strings.ReplaceAll: scans left to right and replaces non-overlapping
      occurrences of `pat`; an empty `pat` matches before every character and
      at the end. */
  function ReplaceAll(s: string, pat: string, rep: string): string
    decreases |s|
  {
    if |pat| == 0 then
      if |s| == 0 then rep else rep + [s[0]] + ReplaceAll(s[1..], pat, rep)
    else if |s| < |pat| then s
    else if s[..|pat|] == pat then rep + ReplaceAll(s[|pat|..], pat, rep)
    else [s[0]] + ReplaceAll(s[1..], pat, rep)
  }

  /** Every character of the result comes from the input or from the replacement. */
  lemma {:induction false} ReplaceAllChars(s: string, pat: string, rep: string, c: char)
    requires |pat| > 0
    requires c in ReplaceAll(s, pat, rep)
    ensures c in s || c in rep
  {
    if |s| < |pat| {
    } else if s[..|pat|] == pat {
      if c !in rep {
        ReplaceAllChars(s[|pat|..], pat, rep, c);
      }
    } else if c != s[0] {
      ReplaceAllChars(s[1..], pat, rep, c);
    }
  }

  /** Deleting a one-character pattern leaves no copy of that character. */
  lemma {:induction false} ReplaceAllRemovesChar(s: string, c: char)
    ensures c !in ReplaceAll(s, [c], "")
  {
    if |s| == 0 {
    } else if s[..1] == [c] {
      ReplaceAllRemovesChar(s[1..], c);
    } else {
      assert s[0] != c;
      ReplaceAllRemovesChar(s[1..], c);
    }
  }

  /** Where `pat` does not occur, ReplaceAll changes nothing. */
  lemma {:induction false} ReplaceAllAbsent(s: string, pat: string, rep: string)
    requires |pat| > 0 && !Occurs(s, pat)
    ensures ReplaceAll(s, pat, rep) == s
  {
    if |s| >= |pat| {
      assert !MatchAt(s, pat, 0);
      forall i: nat | MatchAt(s[1..], pat, i) ensures false {
        assert s[1..][i..i + |pat|] == s[i + 1..i + 1 + |pat|];
        assert MatchAt(s, pat, i + 1);
      }
      ReplaceAllAbsent(s[1..], pat, rep);
      assert s == [s[0]] + s[1..];
    }
  }

  /** A pattern holding a character the string lacks cannot occur in it. */
  lemma AbsentWhenCharMissing(s: string, pat: string, c: char)
    requires c in pat && c !in s
    ensures !Occurs(s, pat)
  {
    var k :| 0 <= k < |pat| && pat[k] == c;
  }

  /** With a one-character pattern no match straddles a cut, so ReplaceAll
      works piecewise. */
  lemma {:induction false} ReplaceAllCharConcat(u: string, v: string, c: char, rep: string)
    ensures ReplaceAll(u + v, [c], rep) == ReplaceAll(u, [c], rep) + ReplaceAll(v, [c], rep)
    decreases |u|
  {
    if |u| > 0 {
      assert (u + v)[..1] == u[..1];
      assert (u + v)[1..] == u[1..] + v;
      ReplaceAllCharConcat(u[1..], v, c, rep);
    } else {
      assert u + v == v;
    }
  }

  /** Deleting a character that occurs once removes just that occurrence. */
  lemma ReplaceAllDropsSingle(u: string, v: string, c: char)
    requires c !in u && c !in v
    ensures ReplaceAll(u + [c] + v, [c], "") == u + v
  {
    assert ReplaceAll(u, [c], "") == u by {
      AbsentWhenCharMissing(u, [c], c);
      ReplaceAllAbsent(u, [c], "");
    }
    assert ReplaceAll(v, [c], "") == v by {
      AbsentWhenCharMissing(v, [c], c);
      ReplaceAllAbsent(v, [c], "");
    }
    assert ReplaceAll([c], [c], "") == "" by {
      assert [c][..1] == [c];
      assert [c][1..] == [];
    }
    assert ReplaceAll(u + [c], [c], "") == u by {
      ReplaceAllCharConcat(u, [c], c, "");
    }
    ReplaceAllCharConcat(u + [c], v, c, "");
  }

  /** A match at the very start is replaced and the scan resumes after it. */
  lemma ReplaceAllLeadingMatch(pat: string, u: string, rep: string)
    requires |pat| > 0
    ensures ReplaceAll(pat + u, pat, rep) == rep + ReplaceAll(u, pat, rep)
  {
    assert (pat + u)[..|pat|] == pat;
    assert (pat + u)[|pat|..] == u;
  }

  /** The index of the first non-white-space character at or after i
      (|s| when there is none). */
  function SkipSpace(s: string, i: nat): (j: nat)
    requires i <= |s|
    ensures i <= j <= |s|
    ensures forall k :: i <= k < j ==> IsSpace(s[k])
    ensures j < |s| ==> !IsSpace(s[j])
    decreases |s| - i
  {
    if i < |s| && IsSpace(s[i]) then SkipSpace(s, i + 1) else i
  }

  /** The index of the first white-space character at or after i
      (|s| when there is none). */
  function SkipWord(s: string, i: nat): (j: nat)
    requires i <= |s|
    ensures i <= j <= |s|
    ensures forall k :: i <= k < j ==> !IsSpace(s[k])
    ensures j < |s| ==> IsSpace(s[j])
    decreases |s| - i
  {
    if i < |s| && !IsSpace(s[i]) then SkipWord(s, i + 1) else i
  }

  /** The end of s[..j] once its trailing white space is dropped. */
  function SkipSpaceBack(s: string, j: nat): (i: nat)
    requires j <= |s|
    ensures i <= j
    ensures forall k :: i <= k < j ==> IsSpace(s[k])
    ensures i > 0 ==> !IsSpace(s[i - 1])
    decreases j
  {
    if j > 0 && IsSpace(s[j - 1]) then SkipSpaceBack(s, j - 1) else j
  }

  /** strings.TrimSpace: the leading white space is cut first, then the
      trailing white space of what is left. */
  function TrimSpace(s: string): string {
    var t := s[SkipSpace(s, 0)..];
    t[..SkipSpaceBack(t, |t|)]
  }

  /** Trimming only removes characters. */
  lemma TrimSpaceKeepsChars(s: string)
    ensures forall c :: c in TrimSpace(s) ==> c in s
  {
    var a := SkipSpace(s, 0);
    var t := s[a..];
    forall c | c in TrimSpace(s) ensures c in s {
      var k :| 0 <= k < |TrimSpace(s)| && TrimSpace(s)[k] == c;
      assert t[k] == c;
      assert s[a + k] == c;
    }
  }

  /** A string that already starts and ends with a non-white-space character
      is left as it is. */
  lemma TrimSpaceTrimmed(s: string)
    requires |s| > 0 && !IsSpace(s[0]) && !IsSpace(s[|s| - 1])
    ensures TrimSpace(s) == s
  {
    assert SkipSpace(s, 0) == 0;
    assert SkipSpaceBack(s, |s|) == |s|;
  }

  /** TrimSpace keeps the middle part s[a..b] of its input, with white space
      only outside it and a non-white-space character at each end of it; the
      result is empty exactly when the input is all white space. */
  lemma TrimSpaceSpec(s: string)
    ensures exists a: nat, b: nat ::
      && a <= b <= |s| && TrimSpace(s) == s[a..b]
      && AllSpace(s[..a]) && AllSpace(s[b..])
      && (a < b ==> !IsSpace(s[a]) && !IsSpace(s[b - 1]))
    ensures TrimSpace(s) == [] <==> AllSpace(s)
  {
    var a := SkipSpace(s, 0);
    var t := s[a..];
    var e := SkipSpaceBack(t, |t|);
    var b := a + e;
    assert TrimSpace(s) == s[a..b];
    assert AllSpace(s[..a]);
    assert AllSpace(s[b..]) by {
      forall k | 0 <= k < |s| - b ensures IsSpace(s[b..][k]) {
        assert s[b..][k] == t[e + k];
      }
    }
    if a < b {
      assert s[b - 1] == t[e - 1];
      assert !AllSpace(s) by { assert !IsSpace(s[a]); }
    } else {
      assert s[..a] == s;
    }
  }

  /** The fields of s that start at or after index i. */
  function FieldsFrom(s: string, i: nat): seq<string>
    requires i <= |s|
    decreases |s| - i
  {
    var a := SkipSpace(s, i);
    if a == |s| then []
    else
      var b := SkipWord(s, a);
      [s[a..b]] + FieldsFrom(s, b)
  }

  /** strings.Fields: the maximal runs of non-white-space characters, in order. */
  function Fields(s: string): seq<string> {
    FieldsFrom(s, 0)
  }

  /** Every field is non-empty and free of white space. */
  lemma {:induction false} FieldsAreWords(s: string, i: nat)
    requires i <= |s|
    ensures forall k :: 0 <= k < |FieldsFrom(s, i)| ==>
      |FieldsFrom(s, i)[k]| > 0 && NoSpace(FieldsFrom(s, i)[k])
    decreases |s| - i
  {
    var a := SkipSpace(s, i);
    if a < |s| {
      var b := SkipWord(s, a);
      FieldsAreWords(s, b);
      var fs := FieldsFrom(s, i);
      forall k | 0 <= k < |fs| ensures |fs[k]| > 0 && NoSpace(fs[k]) {
        if k == 0 {
          assert fs[0] == s[a..b];
        } else {
          assert fs[k] == FieldsFrom(s, b)[k - 1];
        }
      }
    }
  }

  /** The first entry of strings.Fields, or "" when there is none. */
  function FirstField(s: string): string {
    var parts := Fields(s);
    if |parts| > 0 then parts[0] else ""
  }

  /** FirstField holds no white space; it is empty exactly when the input is
      all white space; otherwise it is s[a..b] where s[..a] is all white space
      and b is the end of s or the index of a white-space character. */
  lemma FirstFieldSpec(s: string)
    ensures NoSpace(FirstField(s))
    ensures FirstField(s) == [] <==> AllSpace(s)
    ensures exists a: nat, b: nat ::
      && a <= b <= |s| && FirstField(s) == s[a..b]
      && AllSpace(s[..a]) && (b == |s| || IsSpace(s[b]))
  {
    var a := SkipSpace(s, 0);
    var b := SkipWord(s, a);
    if a == |s| {
      assert FirstField(s) == s[a..a];
      assert s[..a] == s;
    } else {
      assert FirstField(s) == s[a..b];
      assert !IsSpace(s[a]);
    }
  }

  /** The first field of a word followed by white space (or by nothing) is
      that word. */
  lemma FirstFieldOfWord(w: string, rest: string)
    requires |w| > 0 && NoSpace(w)
    requires rest == [] || IsSpace(rest[0])
    ensures FirstField(w + rest) == w
  {
    var s := w + rest;
    assert SkipSpace(s, 0) == 0 by { assert s[0] == w[0]; }
    var b := SkipWord(s, 0);
    assert b == |w| by {
      assert forall k :: 0 <= k < |w| ==> s[k] == w[k];
      assert |w| < |s| ==> s[|w|] == rest[0];
    }
    assert s[0..b] == w;
  }
}
