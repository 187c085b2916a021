/** sanitizePackageName: deletes the shell metacharacters from a custom
    package name and keeps its first white-space-delimited field. */
module Sanitizer {
  import opened GoStrings

  /** The forbidden substrings, in the order in which they are deleted. */
  const Disallowed: seq<string> :=
    [";", "&&", "||", "|", ">", "<", "$", "`", "\"", "'", "(", ")", "{", "}", "[", "]", "\n", "\r"]

  /** The one-character entries of Disallowed. */
  const ForbiddenChars: set<char> :=
    {';', '|', '>', '<', '$', '`', '"', '\'', '(', ')', '{', '}', '[', ']', '\n', '\r'}

  /** Deletes every occurrence of each token of `toks` in turn, the first
      token first: the value of `result` after the deletion loop has run over
      `toks`. */
  function Strip(s: string, toks: seq<string>): string
    decreases |toks|
  {
    if |toks| == 0 then s
    else ReplaceAll(Strip(s, toks[..|toks| - 1]), toks[|toks| - 1], "")
  }

  /** What sanitizePackageName returns. */
  function Sanitize(name: string): string {
    FirstField(Strip(name, Disallowed))
  }

  method SanitizePackageName(name: string) returns (r: string)
    ensures r == Sanitize(name)
    ensures NoSpace(r)
    ensures forall i :: 0 <= i < |r| ==> r[i] !in ForbiddenChars
  {
    var result := name;
    for i := 0 to |Disallowed|
      invariant result == Strip(name, Disallowed[..i])
    {
      assert Disallowed[..i + 1][..i] == Disallowed[..i];
      result := ReplaceAll(result, Disallowed[i], "");
    }
    assert Disallowed[..|Disallowed|] == Disallowed;
    var parts := Fields(result);
    if |parts| > 0 {
      r := parts[0];
    } else {
      r := "";
    }
    SanitizeExcludes(name);
  }

  lemma DisallowedNonEmpty()
    ensures forall k :: 0 <= k < |Disallowed| ==> |Disallowed[k]| > 0
  {
  }

  /** Each forbidden character is a token of its own. */
  lemma ForbiddenCharIsToken(c: char)
    requires c in ForbiddenChars
    ensures [c] in Disallowed
  {
    if      c == ';'  { assert Disallowed[0] == [c]; }
    else if c == '|'  { assert Disallowed[3] == [c]; }
    else if c == '>'  { assert Disallowed[4] == [c]; }
    else if c == '<'  { assert Disallowed[5] == [c]; }
    else if c == '$'  { assert Disallowed[6] == [c]; }
    else if c == '`'  { assert Disallowed[7] == [c]; }
    else if c == '"'  { assert Disallowed[8] == [c]; }
    else if c == '\'' { assert Disallowed[9] == [c]; }
    else if c == '('  { assert Disallowed[10] == [c]; }
    else if c == ')'  { assert Disallowed[11] == [c]; }
    else if c == '{'  { assert Disallowed[12] == [c]; }
    else if c == '}'  { assert Disallowed[13] == [c]; }
    else if c == '['  { assert Disallowed[14] == [c]; }
    else if c == ']'  { assert Disallowed[15] == [c]; }
    else if c == '\n' { assert Disallowed[16] == [c]; }
    else              { assert Disallowed[17] == [c]; }
  }

  /** Deleting tokens never introduces a character. */
  lemma {:induction false} StripKeepsChars(s: string, toks: seq<string>, c: char)
    requires forall k :: 0 <= k < |toks| ==> |toks[k]| > 0
    requires c in Strip(s, toks)
    ensures c in s
    decreases |toks|
  {
    if |toks| > 0 {
      var prev := Strip(s, toks[..|toks| - 1]);
      ReplaceAllChars(prev, toks[|toks| - 1], "", c);
      StripKeepsChars(s, toks[..|toks| - 1], c);
    }
  }

  /** A one-character token leaves no copy of its character, whatever is
      deleted after it. */
  lemma {:induction false} StripExcludes(s: string, toks: seq<string>, c: char)
    requires forall k :: 0 <= k < |toks| ==> |toks[k]| > 0
    requires [c] in toks
    ensures c !in Strip(s, toks)
    decreases |toks|
  {
    var last := toks[|toks| - 1];
    var front := toks[..|toks| - 1];
    var prev := Strip(s, front);
    if last == [c] {
      ReplaceAllRemovesChar(prev, c);
    } else {
      assert [c] in front by {
        var k :| 0 <= k < |toks| && toks[k] == [c];
        assert front[k] == [c];
      }
      StripExcludes(s, front, c);
      if c in ReplaceAll(prev, last, "") {
        ReplaceAllChars(prev, last, "", c);
      }
    }
  }

  /** Sanitizer exclusions: the result holds none of the one-character
      forbidden tokens, hence no "||", and no white space; every character it
      holds comes from the input. */
  lemma SanitizeExcludes(name: string)
    ensures forall c :: c in ForbiddenChars ==> c !in Sanitize(name)
    ensures !Occurs(Sanitize(name), "||")
    ensures NoSpace(Sanitize(name))
    ensures forall c :: c in Sanitize(name) ==> c in name
  {
    var stripped := Strip(name, Disallowed);
    var r := Sanitize(name);
    FirstFieldSpec(stripped);
    DisallowedNonEmpty();
    forall c | c in r ensures c in name && c !in ForbiddenChars {
      assert c in stripped;
      StripKeepsChars(name, Disallowed, c);
      if c in ForbiddenChars {
        ForbiddenCharIsToken(c);
        StripExcludes(name, Disallowed, c);
      }
    }
    AbsentWhenCharMissing(r, "||", '|');
  }

  /** Sanitizer shape: the result is empty exactly when nothing but white
      space survives the deletions, and otherwise it is the first field of
      what survives. */
  lemma SanitizeShape(name: string)
    ensures var stripped := Strip(name, Disallowed);
      && (Sanitize(name) == [] <==> AllSpace(stripped))
      && (Sanitize(name) != [] ==> Sanitize(name) == Fields(stripped)[0])
  {
    FirstFieldSpec(Strip(name, Disallowed));
  }

  /** An input made only of forbidden characters and white space sanitizes
      to the empty name. */
  lemma {:induction false} OnlyForbiddenGivesEmpty(name: string)
    requires forall i :: 0 <= i < |name| ==> name[i] in ForbiddenChars || IsSpace(name[i])
    ensures Sanitize(name) == ""
  {
    var stripped := Strip(name, Disallowed);
    DisallowedNonEmpty();
    forall i | 0 <= i < |stripped| ensures IsSpace(stripped[i]) {
      var c := stripped[i];
      StripKeepsChars(name, Disallowed, c);
      if c in ForbiddenChars {
        ForbiddenCharIsToken(c);
        StripExcludes(name, Disallowed, c);
      }
    }
    FirstFieldSpec(stripped);
  }

  /** The pieces of `parts` written one after another. */
  function Concat(parts: seq<string>): string
    decreases |parts|
  {
    if |parts| == 0 then "" else parts[0] + Concat(parts[1..])
  }

  /** Every '&' of `s` belongs to a pair "&&", reading left to right. */
  predicate PairedAmps(s: string)
    decreases |s|
  {
    if |s| == 0 then true
    else if s[0] != '&' then PairedAmps(s[1..])
    else |s| >= 2 && s[1] == '&' && PairedAmps(s[2..])
  }

  lemma {:induction false} NoAmpPaired(s: string)
    requires '&' !in s
    ensures PairedAmps(s)
    decreases |s|
  {
    if |s| > 0 {
      NoAmpPaired(s[1..]);
    }
  }

  lemma {:induction false} PairedAppend(u: string, v: string)
    requires PairedAmps(u) && PairedAmps(v)
    ensures PairedAmps(u + v)
    decreases |u|
  {
    if |u| == 0 {
      assert u + v == v;
    } else if u[0] != '&' {
      PairedAppend(u[1..], v);
      assert (u + v)[1..] == u[1..] + v;
    } else {
      PairedAppend(u[2..], v);
      assert (u + v)[2..] == u[2..] + v;
    }
  }

  /** Input built from whole tokens and white space pairs up its ampersands
      and holds nothing but forbidden characters, '&' and white space. */
  lemma {:induction false} ConcatOfTokens(parts: seq<string>)
    requires forall k :: 0 <= k < |parts| ==>
      parts[k] in Disallowed || (|parts[k]| == 1 && IsSpace(parts[k][0]))
    ensures PairedAmps(Concat(parts))
    ensures forall c :: c in Concat(parts) ==> c in ForbiddenChars || c == '&' || IsSpace(c)
    decreases |parts|
  {
    if |parts| > 0 {
      var p := parts[0];
      ConcatOfTokens(parts[1..]);
      assert forall c :: c in p ==> c in ForbiddenChars || c == '&' || IsSpace(c) by {
        if p in Disallowed {
          DisallowedChars();
          var k :| 0 <= k < |Disallowed| && Disallowed[k] == p;
        }
      }
      if p == "&&" {
        assert PairedAmps(p) by { assert p[2..] == ""; }
      } else {
        assert '&' !in p by {
          if p in Disallowed {
            DisallowedChars();
          }
        }
        NoAmpPaired(p);
      }
      PairedAppend(p, Concat(parts[1..]));
    }
  }

  /** '&' occurs only in the "&&" token. */
  lemma DisallowedChars()
    ensures forall k, c :: 0 <= k < |Disallowed| && c in Disallowed[k] ==> c in ForbiddenChars + {'&'}
    ensures forall k :: 0 <= k < |Disallowed| && Disallowed[k] != "&&" ==> '&' !in Disallowed[k]
  {
  }

  /** Deleting ';' keeps every ampersand paired. */
  lemma {:induction false} SemicolonKeepsPairs(s: string)
    requires PairedAmps(s)
    ensures PairedAmps(ReplaceAll(s, ";", ""))
    decreases |s|
  {
    if |s| > 0 {
      if s[0] == ';' {
        assert s[..1] == ";";
        var r := ReplaceAll(s[1..], ";", "");
        assert ReplaceAll(s, ";", "") == "" + r;
        assert "" + r == r;
        SemicolonKeepsPairs(s[1..]);
      } else if s[0] != '&' {
        assert s[..1] != ";";
        SemicolonKeepsPairs(s[1..]);
        var r := ReplaceAll(s[1..], ";", "");
        assert ([s[0]] + r)[1..] == r;
      } else {
        var t := s[1..];
        assert s[..1] != ";";
        assert t[..1] != ";";
        assert t[1..] == s[2..];
        SemicolonKeepsPairs(s[2..]);
        var r := ReplaceAll(s[2..], ";", "");
        assert ReplaceAll(s, ";", "") == [s[0]] + ([t[0]] + r);
        assert ([s[0]] + ([t[0]] + r))[2..] == r;
      }
    }
  }

  /** Deleting "&&" from a string whose ampersands are paired removes them all. */
  lemma {:induction false} PairsDeleted(s: string)
    requires PairedAmps(s)
    ensures '&' !in ReplaceAll(s, "&&", "")
    decreases |s|
  {
    if |s| == 1 {
    } else if |s| >= 2 {
      if s[0] == '&' {
        assert s[..2] == "&&";
        PairsDeleted(s[2..]);
      } else {
        assert s[..2] != "&&";
        PairsDeleted(s[1..]);
      }
    }
  }

  /** Fully disallowed input sanitizes to the empty name: any string made of
      whole tokens of the list and white space, "&&" included. */
  lemma FullyDisallowedGivesEmpty(parts: seq<string>)
    requires forall k :: 0 <= k < |parts| ==>
      parts[k] in Disallowed || (|parts[k]| == 1 && IsSpace(parts[k][0]))
    ensures Sanitize(Concat(parts)) == ""
  {
    var s := Concat(parts);
    ConcatOfTokens(parts);
    var r1 := ReplaceAll(s, ";", "");
    var t := ReplaceAll(r1, "&&", "");
    SemicolonKeepsPairs(s);
    PairsDeleted(r1);
    assert Strip(s, Disallowed[..2]) == t by {
      assert Disallowed[..2][..1] == [";"];
      assert [";"][..0] == [];
    }
    assert Disallowed == Disallowed[..2] + Disallowed[2..];
    StripSplit(s, Disallowed[..2], Disallowed[2..]);
    var stripped := Strip(s, Disallowed);
    DisallowedNonEmpty();
    forall i | 0 <= i < |stripped| ensures IsSpace(stripped[i]) {
      var c := stripped[i];
      StripKeepsChars(s, Disallowed, c);
      StripKeepsChars(t, Disallowed[2..], c);
      if c in ForbiddenChars {
        ForbiddenCharIsToken(c);
        StripExcludes(s, Disallowed, c);
      }
    }
    FirstFieldSpec(stripped);
  }

  /** The listed token "&&" on its own sanitizes to the empty name. */
  lemma DoubleAmpersandGivesEmpty()
    ensures Sanitize("&&") == ""
  {
    assert Concat(["&&"]) == "&&" by { assert Concat(["&&"][1..]) == ""; }
    FullyDisallowedGivesEmpty(["&&"]);
  }

  /** Deleting the tokens of a + b is deleting those of a, then those of b. */
  lemma {:induction false} StripSplit(s: string, a: seq<string>, b: seq<string>)
    ensures Strip(s, a + b) == Strip(Strip(s, a), b)
    decreases |b|
  {
    if |b| == 0 {
      assert a + b == a;
    } else {
      assert (a + b)[..|a + b| - 1] == a + b[..|b| - 1];
      StripSplit(s, a, b[..|b| - 1]);
    }
  }

  /** Tokens whose first character the string lacks leave it as it is. */
  lemma {:induction false} StripUntouched(s: string, toks: seq<string>)
    requires forall k :: 0 <= k < |toks| ==> |toks[k]| > 0 && toks[k][0] !in s
    ensures Strip(s, toks) == s
    decreases |toks|
  {
    if |toks| > 0 {
      var last := toks[|toks| - 1];
      StripUntouched(s, toks[..|toks| - 1]);
      AbsentWhenCharMissing(s, last, last[0]);
      ReplaceAllAbsent(s, last, "");
    }
  }

  /** Only characters of `avoid` start a token, and `s` holds none of them. */
  lemma StripAvoiding(s: string, toks: seq<string>, avoid: set<char>)
    requires forall k :: 0 <= k < |toks| ==> |toks[k]| > 0 && toks[k][0] in avoid
    requires forall i :: 0 <= i < |s| ==> s[i] !in avoid
    ensures Strip(s, toks) == s
  {
    StripUntouched(s, toks);
  }

  /** Every token starts with a forbidden character or with '&'. */
  lemma DisallowedHeads()
    ensures forall k :: 0 <= k < |Disallowed| ==>
      |Disallowed[k]| > 0 && Disallowed[k][0] in ForbiddenChars + {'&'}
  {
  }

  /** The injection in "foo; rm -rf /" is cut down to "foo". */
  lemma SanitizeDropsInjectedCommand()
    ensures Sanitize("foo; rm -rf /") == "foo"
  {
    var s := "foo; rm -rf /";
    assert Strip(s, Disallowed) == "foo rm -rf /" by {
      assert Disallowed == [";"] + Disallowed[1..];
      StripSplit(s, [";"], Disallowed[1..]);
      SemicolonDeleted();
      LaterTokensAbsent();
    }
    assert FirstField("foo rm -rf /") == "foo" by {
      assert "foo rm -rf /" == "foo" + " rm -rf /";
      FirstFieldOfWord("foo", " rm -rf /");
    }
  }

  lemma SemicolonDeleted()
    ensures Strip("foo; rm -rf /", [";"]) == "foo rm -rf /"
  {
    assert [";"][..0] == [];
    assert "foo; rm -rf /" == "foo" + [';'] + " rm -rf /";
    ReplaceAllDropsSingle("foo", " rm -rf /", ';');
    assert "foo" + " rm -rf /" == "foo rm -rf /";
  }

  lemma LaterTokensAbsent()
    ensures Strip("foo rm -rf /", Disallowed[1..]) == "foo rm -rf /"
  {
    DisallowedHeads();
    StripAvoiding("foo rm -rf /", Disallowed[1..], ForbiddenChars + {'&'});
  }

  /** An all-blank name sanitizes to the empty name. */
  lemma SanitizeBlank()
    ensures Sanitize("   ") == ""
  {
    OnlyForbiddenGivesEmpty("   ");
  }

  /** "&&" can survive: deleting "|" after "&&" joins the two ampersands of
      "&|&". */
  lemma AmpersandsCanSurvive()
    ensures Sanitize("&|&") == "&&"
  {
    var s := "&|&";
    assert Disallowed == Disallowed[..4] + Disallowed[4..];
    StripSplit(s, Disallowed[..4], Disallowed[4..]);
    assert Strip(s, Disallowed[..4]) == "&&" by {
      assert Disallowed[..4] == [";", "&&", "||", "|"];
      DeletionSteps();
      StripSteps(s, [";", "&&", "||", "|"]);
    }
    DisallowedHeads();
    StripAvoiding("&&", Disallowed[4..], ForbiddenChars);
    assert "&&" == "&&" + "";
    FirstFieldOfWord("&&", "");
  }

  /** The deletion order matters: deleting "|" before "&&" would also have
      removed the ampersands that the real order lets through. */
  lemma DeletionOrderMatters()
    ensures Strip("&|&", ["&&", "|"]) == "&&"
    ensures Strip("&|&", ["|", "&&"]) == ""
  {
    DeletionSteps();
  }

  /** Strip on a four-token list, one deletion at a time. */
  lemma StripSteps(s: string, toks: seq<string>)
    requires |toks| == 4
    ensures Strip(s, toks) ==
      ReplaceAll(ReplaceAll(ReplaceAll(ReplaceAll(s, toks[0], ""), toks[1], ""), toks[2], ""), toks[3], "")
  {
    var s1 := ReplaceAll(s, toks[0], "");
    var s2 := ReplaceAll(s1, toks[1], "");
    var s3 := ReplaceAll(s2, toks[2], "");
    assert toks[..1][..0] == [];
    assert Strip(s, toks[..1]) == s1;
    assert toks[..2][..1] == toks[..1];
    assert Strip(s, toks[..2]) == s2;
    assert toks[..3][..2] == toks[..2];
    assert Strip(s, toks[..3]) == s3;
  }

  /** The individual deletions that "&|&" goes through. */
  lemma DeletionSteps()
    ensures ReplaceAll("&|&", ";", "") == "&|&"
    ensures ReplaceAll("&|&", "&&", "") == "&|&"
    ensures ReplaceAll("&|&", "||", "") == "&|&"
    ensures ReplaceAll("&|&", "|", "") == "&&"
    ensures ReplaceAll("&&", "&&", "") == ""
  {
    var s, t, u := "&|&", "|&", "&";
    assert s[1..] == t && t[1..] == u && u[1..] == "";
    assert s[..2] != "&&" && s[..2] != "||" && s[..1] != "|" by {
      assert s[..2][1] == '|' && s[..2][0] == '&' && s[..1][0] == '&';
    }
    assert t[..2] != "&&" && t[..2] != "||" && t[..1] == "|" by {
      assert t[..2][0] == '|' && t[..2][1] == '&';
    }
    assert u[..1] != "|" by { assert u[..1][0] == '&'; }
    assert ReplaceAll(u, "&&", "") == u;
    assert ReplaceAll(t, "&&", "") == [t[0]] + u;
    assert ReplaceAll(u, "||", "") == u;
    assert ReplaceAll(t, "||", "") == [t[0]] + u;
    assert ReplaceAll(u, "|", "") == [u[0]] + ReplaceAll("", "|", "");
    assert ReplaceAll(t, "|", "") == "" + ReplaceAll(u, "|", "");
    assert "&&"[..2] == "&&" && "&&"[2..] == "";
    AbsentWhenCharMissing(s, ";", ';');
    ReplaceAllAbsent(s, ";", "");
  }
}
