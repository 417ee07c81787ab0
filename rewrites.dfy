/** The string rewrites behind the record normalizers of convertbibliography.py.
    Each `re.sub` of the script is written out here as an explicit string
    function, scanning left to right and replacing non-overlapping matches the
    way Python's `re.sub` does. */
module Rewrites {
  import opened Text

  // ---------------------------------------------------------------------------
  // braces (convertbibliography.py:29-43)

  /** Wraps `s` in braces, adding only the brace that is missing. */
  function Braces(s: string): (r: string)
    ensures |r| >= 2 && r[0] == '{' && r[|r| - 1] == '}'
    ensures r == s || r == "{" + s || r == s + "}" || r == "{" + s + "}"
    ensures |s| >= 2 && s[0] == '{' && s[|s| - 1] == '}' ==> r == s
  {
    var t := if StartsWith(s, "{") then s else "{" + s;
    if t[|t| - 1] == '}' then t else t + "}"
  }

  /** Braces already in place are kept, so wrapping twice is wrapping once. */
  lemma BracesIdempotent(s: string)
    ensures Braces(Braces(s)) == Braces(s)
  {
  }

  /** Wrapping keeps every substring of the original. */
  lemma BracesContains(s: string, p: string)
    requires Contains(s, p)
    ensures Contains(Braces(s), p)
  {
    var t := if StartsWith(s, "{") then s else "{" + s;
    if !StartsWith(s, "{") {
      ContainsPrepend("{", s, p);
    }
    if t[|t| - 1] != '}' {
      ContainsAppend(t, "}", p);
    }
  }

  // ---------------------------------------------------------------------------
  // title_name (convertbibliography.py:46-59)

  /** Python's `str.title()` over ASCII: a letter is upper-cased when it starts a
      run of letters and lower-cased otherwise; other characters are kept. */
  function TitleWord(x: string): (r: string)
    ensures |r| == |x|
  {
    seq(|x|, i requires 0 <= i < |x| =>
      if i == 0 || !IsLetter(x[i - 1]) then UpperChar(x[i]) else LowerChar(x[i]))
  }

  /** A token that begins with lower-case `and` (`re.match('and', x)`) is kept;
      every other token is title-cased. */
  function TitleToken(x: string): string
  {
    if StartsWith(x, "and") then x else TitleWord(x)
  }

  function TitleTokens(ws: seq<string>): (r: seq<string>)
    ensures |r| == |ws|
  {
    seq(|ws|, i requires 0 <= i < |ws| => TitleToken(ws[i]))
  }

  function TitleName(name: string): string
  {
    Join(TitleTokens(Words(name)), " ")
  }

  lemma TitleWordWord(x: string)
    requires IsWord(x)
    ensures IsWord(TitleWord(x))
  {
    var r := TitleWord(x);
    forall i | 0 <= i < |r| ensures !IsSpace(r[i]) {
      assert IsLetter(r[i]) == IsLetter(x[i]);
    }
  }

  lemma TitleTokensWords(ws: seq<string>)
    requires AllWords(ws)
    ensures AllWords(TitleTokens(ws))
  {
    forall i | 0 <= i < |ws| ensures IsWord(TitleTokens(ws)[i]) {
      TitleWordWord(ws[i]);
    }
  }

  /** `title_name` splits on whitespace, keeps each token that begins with
      `and`, title-cases the others, and joins them with single spaces: the
      tokens of its result are exactly the rewritten tokens of its input. */
  lemma TitleNameTokens(name: string)
    ensures Words(TitleName(name)) == TitleTokens(Words(name))
    ensures forall i :: 0 <= i < |Words(name)| && StartsWith(Words(name)[i], "and") ==>
      Words(TitleName(name))[i] == Words(name)[i]
  {
    TitleTokensWords(Words(name));
    WordsOfJoin(TitleTokens(Words(name)));
  }

  lemma TitleWordIdempotent(x: string)
    ensures TitleWord(TitleWord(x)) == TitleWord(x)
  {
    var r := TitleWord(x);
    forall i | 0 <= i < |x| ensures TitleWord(r)[i] == r[i] {
      TitleWordTwiceAt(x, i);
    }
  }

  lemma TitleWordTwiceAt(x: string, i: int)
    requires 0 <= i < |x|
    ensures TitleWord(TitleWord(x))[i] == TitleWord(x)[i]
  {
    var r := TitleWord(x);
    CaseChars(x[i]);
    if i == 0 || !IsLetter(x[i - 1]) {
      assert r[i] == UpperChar(x[i]);
      assert i == 0 || !IsLetter(r[i - 1]);
      assert TitleWord(r)[i] == UpperChar(r[i]);
    } else {
      assert r[i] == LowerChar(x[i]);
      assert IsLetter(r[i - 1]);
      assert TitleWord(r)[i] == LowerChar(r[i]);
    }
  }

  /** A title-cased token never begins with lower-case `and`, so title-casing
      settles a token after one pass. */
  lemma TitleTokenIdempotent(x: string)
    ensures TitleToken(TitleToken(x)) == TitleToken(x)
  {
    if !StartsWith(x, "and") {
      var r := TitleWord(x);
      TitleWordIdempotent(x);
      if |r| > 0 {
        assert !IsLower(r[0]);
        assert r[0] != 'a';
      }
      assert !StartsWith(r, "and");
    }
  }

  /** Applying `title_name` twice gives the same name as applying it once. */
  lemma TitleNameIdempotent(name: string)
    ensures TitleName(TitleName(name)) == TitleName(name)
  {
    TitleNameTokens(name);
    var ts := TitleTokens(Words(name));
    forall i | 0 <= i < |ts| ensures TitleTokens(ts)[i] == ts[i] {
      TitleTokenIdempotent(Words(name)[i]);
    }
    assert TitleTokens(ts) == ts;
  }

  lemma TitleTokenOther(x: string)
    requires |x| > 0 && x[0] != 'a'
    ensures TitleToken(x) == TitleWord(x)
  {
    assert |x| < 3 || x[..3][0] != 'a';
  }

  lemma TitleNameOfWords(ws: seq<string>)
    requires AllWords(ws)
    ensures TitleName(Join(ws, " ")) == Join(TitleTokens(ws), " ")
  {
    WordsOfJoin(ws);
  }

  lemma HodgsonThomasWords()
    ensures Join(["hodgson,", "thomas"], " ") == "hodgson, thomas"
    ensures AllWords(["hodgson,", "thomas"])
  {
  }

  lemma HodgsonThomasTokens()
    ensures TitleTokens(["hodgson,", "thomas"]) == ["Hodgson,", "Thomas"]
  {
    TitleTokenOther("hodgson,");
    TitleTokenOther("thomas");
    assert TitleWord("hodgson,") == "Hodgson,";
    assert TitleWord("thomas") == "Thomas";
  }

  /** The first doctest of `title_name`. */
  lemma TitleNameExample()
    ensures TitleName("hodgson, thomas") == "Hodgson, Thomas"
  {
    HodgsonThomasWords();
    TitleNameOfWords(["hodgson,", "thomas"]);
    HodgsonThomasTokens();
    assert Join(["Hodgson,", "Thomas"], " ") == "Hodgson, Thomas";
  }

  lemma FiveNamesWords()
    ensures Join(["hodgson,", "thomas", "and", "JANE,", "DOE"], " ") == "hodgson, thomas and JANE, DOE"
    ensures AllWords(["hodgson,", "thomas", "and", "JANE,", "DOE"])
  {
    JoinCons("JANE,", ["DOE"], " ");
    JoinCons("and", ["JANE,", "DOE"], " ");
    JoinCons("thomas", ["and", "JANE,", "DOE"], " ");
    JoinCons("hodgson,", ["thomas", "and", "JANE,", "DOE"], " ");
    FiveNamesAreWords();
  }

  lemma FiveNamesAreWords()
    ensures AllWords(["hodgson,", "thomas", "and", "JANE,", "DOE"])
  {
    var ws := ["hodgson,", "thomas", "and", "JANE,", "DOE"];
    forall i | 0 <= i < |ws| ensures IsWord(ws[i]) {
      if i == 0 { assert IsWord("hodgson,"); }
      else if i == 1 { assert IsWord("thomas"); }
      else if i == 2 { assert IsWord("and"); }
      else if i == 3 { assert IsWord("JANE,"); }
      else { assert IsWord("DOE"); }
    }
  }

  lemma FiveNamesJoined()
    ensures Join(["Hodgson,", "Thomas", "and", "Jane,", "Doe"], " ") == "Hodgson, Thomas and Jane, Doe"
  {
    JoinCons("Jane,", ["Doe"], " ");
    JoinCons("and", ["Jane,", "Doe"], " ");
    JoinCons("Thomas", ["and", "Jane,", "Doe"], " ");
    JoinCons("Hodgson,", ["Thomas", "and", "Jane,", "Doe"], " ");
  }

  lemma FiveNamesTokens()
    ensures TitleTokens(["hodgson,", "thomas", "and", "JANE,", "DOE"]) == ["Hodgson,", "Thomas", "and", "Jane,", "Doe"]
  {
    TitleTokenOther("hodgson,");
    TitleTokenOther("thomas");
    TitleTokenOther("JANE,");
    TitleTokenOther("DOE");
    assert TitleToken("and") == "and";
    assert TitleWord("hodgson,") == "Hodgson,";
    assert TitleWord("thomas") == "Thomas";
    assert TitleWord("JANE,") == "Jane,";
    assert TitleWord("DOE") == "Doe";
  }

  /** The second doctest claims the names are also reordered; the code only
      changes case, so this is what it returns. */
  lemma TitleNameNoReordering()
    ensures TitleName("hodgson, thomas and JANE, DOE") == "Hodgson, Thomas and Jane, Doe"
  {
    FiveNamesWords();
    TitleNameOfWords(["hodgson,", "thomas", "and", "JANE,", "DOE"]);
    FiveNamesTokens();
    FiveNamesJoined();
  }

  // ---------------------------------------------------------------------------
  // remove_resolver (convertbibliography.py:62-72)

  /** The pattern `http://dx.doi.org/`; its two dots are regular-expression
      wildcards that match any character except a newline. */
  const Resolver: string := "http://dx.doi.org/"

  predicate ResolverPrefix(s: string)
  {
    |s| >= |Resolver| &&
    forall j :: 0 <= j < |Resolver| ==> (Resolver[j] == '.' && s[j] != '\n') || s[j] == Resolver[j]
  }

  /** No position of `s` starts a match of the resolver pattern. */
  predicate NoResolver(s: string)
    decreases |s|
  {
    s == [] || (!ResolverPrefix(s) && NoResolver(s[1..]))
  }

  /** `re.sub('http://dx.doi.org/', '', doi)`. */
  function RemoveResolver(s: string): (r: string)
    ensures |r| <= |s|
    ensures NoResolver(s) ==> r == s
    decreases |s|
  {
    if s == [] then s
    else if ResolverPrefix(s) then RemoveResolver(s[|Resolver|..])
    else [s[0]] + RemoveResolver(s[1..])
  }

  /** The doctests: a resolver-prefixed DOI loses its prefix. */
  lemma RemoveResolverStripsPrefix(doi: string)
    requires NoResolver(doi)
    ensures RemoveResolver(Resolver + doi) == doi
  {
    assert (Resolver + doi)[|Resolver|..] == doi;
  }

  /** As written the dots of the pattern match any character but a newline. */
  lemma RemoveResolverDotsMatchAnything(a: char, b: char, doi: string)
    requires a != '\n' && b != '\n'
    requires NoResolver(doi)
    ensures RemoveResolver("http://dx" + [a] + "doi" + [b] + "org/" + doi) == doi
  {
    var s := "http://dx" + [a] + "doi" + [b] + "org/" + doi;
    assert ResolverPrefix(s);
    assert s[|Resolver|..] == doi;
  }

  /** A newline in the place of either dot is no match. */
  lemma ResolverPrefixNotNewline(s: string)
    requires |s| >= |Resolver| && (s[9] == '\n' || s[13] == '\n')
    ensures !ResolverPrefix(s)
  {
    assert Resolver[9] == '.' && Resolver[13] == '.';
  }

  // ---------------------------------------------------------------------------
  // the hyphen runs of non_page_hyphens (convertbibliography.py:84-88)

  /** Drops the leading run of hyphens. */
  function DropHyphens(s: string): (r: string)
    ensures |r| <= |s| && r == s[|s| - |r|..]
    ensures r == [] || r[0] != '-'
    ensures forall i :: 0 <= i < |s| - |r| ==> s[i] == '-'
  {
    if s != [] && s[0] == '-' then DropHyphens(s[1..]) else s
  }

  /** Every maximal run of hyphens in `s` has length exactly two. */
  predicate DoubledRuns(s: string)
    decreases |s|
  {
    s == []
    || (s[0] != '-' && DoubledRuns(s[1..]))
    || (|s| >= 2 && s[0] == '-' && s[1] == '-' && (|s| == 2 || s[2] != '-') && DoubledRuns(s[2..]))
  }

  /** `re.sub('-+', '--', s)`. */
  function CollapseHyphens(s: string): (r: string)
    ensures s == [] <==> r == []
    ensures s != [] ==> (r[0] == '-' <==> s[0] == '-')
    decreases |s|
  {
    if s == [] then s
    else if s[0] == '-' then "--" + CollapseHyphens(DropHyphens(s))
    else [s[0]] + CollapseHyphens(s[1..])
  }

  /** Afterwards every maximal run of hyphens is exactly `--`. */
  lemma {:induction false} CollapseHyphensDoubled(s: string)
    ensures DoubledRuns(CollapseHyphens(s))
    decreases |s|
  {
    if s == [] {
    } else if s[0] == '-' {
      var rest := DropHyphens(s);
      CollapseHyphensDoubled(rest);
      var r := "--" + CollapseHyphens(rest);
      assert r[2..] == CollapseHyphens(rest);
    } else {
      CollapseHyphensDoubled(s[1..]);
      var r := [s[0]] + CollapseHyphens(s[1..]);
      assert r[1..] == CollapseHyphens(s[1..]);
    }
  }

  /** Text whose hyphen runs are already doubled is left alone. */
  lemma {:induction false} CollapseHyphensFixpoint(s: string)
    requires DoubledRuns(s)
    ensures CollapseHyphens(s) == s
    decreases |s|
  {
    if s == [] {
    } else if s[0] != '-' {
      CollapseHyphensFixpoint(s[1..]);
    } else {
      assert s[1] == '-' && (|s| == 2 || s[2] != '-');
      assert DropHyphens(s[1..]) == DropHyphens(s[2..]);
      assert DropHyphens(s) == s[2..];
      CollapseHyphensFixpoint(s[2..]);
      assert s == "--" + s[2..];
    }
  }

  /** `CollapseHyphens` leaves `s` alone exactly when every run is already two
      hyphens long. */
  lemma CollapseHyphensUnchangedIff(s: string)
    ensures CollapseHyphens(s) == s <==> DoubledRuns(s)
  {
    if DoubledRuns(s) {
      CollapseHyphensFixpoint(s);
    } else {
      CollapseHyphensDoubled(s);
    }
  }

  lemma CollapseHyphensIdempotent(s: string)
    ensures CollapseHyphens(CollapseHyphens(s)) == CollapseHyphens(s)
  {
    CollapseHyphensDoubled(s);
    CollapseHyphensFixpoint(CollapseHyphens(s));
  }

  /** A run of hyphens, however long, becomes `--`. */
  lemma {:induction false} CollapseHyphensRun(h: string, t: string)
    requires |h| > 0 && forall i :: 0 <= i < |h| ==> h[i] == '-'
    requires t == [] || t[0] != '-'
    ensures CollapseHyphens(h + t) == "--" + CollapseHyphens(t)
  {
    DropHyphensRun(h, t);
  }

  lemma {:induction false} DropHyphensRun(h: string, t: string)
    requires forall i :: 0 <= i < |h| ==> h[i] == '-'
    requires t == [] || t[0] != '-'
    ensures DropHyphens(h + t) == t
    decreases |h|
  {
    if h == [] {
      assert h + t == t;
    } else {
      assert (h + t)[1..] == h[1..] + t;
      DropHyphensRun(h[1..], t);
    }
  }

  /** Text without hyphens passes through unchanged in front of the rest. */
  lemma {:induction false} CollapseHyphensPlain(p: string, t: string)
    requires forall i :: 0 <= i < |p| ==> p[i] != '-'
    ensures CollapseHyphens(p + t) == p + CollapseHyphens(t)
    decreases |p|
  {
    if p == [] {
      assert p + t == t;
    } else {
      var u := p + t;
      assert u[0] == p[0];
      assert u[1..] == p[1..] + t;
      CollapseHyphensPlain(p[1..], t);
      assert [p[0]] + p[1..] == p;
    }
  }

  /** Text without hyphens is left alone. */
  lemma CollapseHyphensNoHyphen(s: string)
    requires '-' !in s
    ensures CollapseHyphens(s) == s
  {
    CollapseHyphensPlain(s, "");
    assert s + "" == s;
  }

  /** The examples: `12---34` becomes `12--34` and a lone `-` becomes `--`. */
  lemma CollapseHyphensLone()
    ensures CollapseHyphens("-") == "--"
  {
    assert "-" + "" == "-";
    CollapseHyphensRun("-", "");
  }

  lemma CollapseHyphensExample()
    ensures CollapseHyphens("12---34") == "12--34"
  {
    assert "12---34" == "12" + ("---" + "34");
    CollapseHyphensRun("---", "34");
    CollapseHyphensNoHyphen("34");
    CollapseHyphensPlain("12", "---" + "34");
    assert "12" + ("--" + "34") == "12--34";
  }

  // ---------------------------------------------------------------------------
  // dashes (convertbibliography.py:100-102)

  const EnDash: char := '\U{2013}'
  const EmDash: char := '\U{2014}'

  /** `re.sub(c, rep, s)` for a single literal character `c`. */
  function ReplaceChar(s: string, c: char, rep: string): (r: string)
    ensures c !in rep ==> c !in r
    ensures forall d :: d in r ==> d in s || d in rep
    ensures c !in s ==> r == s
  {
    if s == [] then s
    else (if s[0] == c then rep else [s[0]]) + ReplaceChar(s[1..], c, rep)
  }

  /** An en-dash becomes `--`, then an em-dash becomes `---`. */
  function ReplaceDashes(s: string): (r: string)
    ensures EnDash !in r && EmDash !in r
    ensures EnDash !in s && EmDash !in s ==> r == s
  {
    ReplaceChar(ReplaceChar(s, EnDash, "--"), EmDash, "---")
  }

  // ---------------------------------------------------------------------------
  // escape_characters (convertbibliography.py:401-408)

  /** Every occurrence of `c` in `s` is directly preceded by a backslash. */
  predicate Escaped(s: string, c: char)
  {
    forall i :: 0 <= i < |s| && s[i] == c ==> i > 0 && s[i - 1] == '\\'
  }

  /** `re.sub('(?<!\\\\)' + c, '\\' + c, s)`: a backslash goes in front of each
      `c` that the original text does not already have a backslash in front of. */
  function EscapeChar(s: string, c: char): (r: string)
    requires c != '\\'
    ensures Escaped(r, c)
    ensures |s| > 0 ==> |r| > 0 && r[|r| - 1] == s[|s| - 1]
    decreases |s|
  {
    if s == [] then s
    else
      var init := s[..|s| - 1];
      var last := s[|s| - 1];
      var r0 := EscapeChar(init, c);
      var r := r0 + (if last == c && (init == [] || init[|init| - 1] != '\\') then ['\\', c] else [last]);
      assert forall i :: 0 <= i < |r0| ==> r[i] == r0[i];
      r
  }

  /** Text in which every `c` is already escaped is left alone. */
  lemma {:induction false} EscapeCharFixpoint(s: string, c: char)
    requires c != '\\' && Escaped(s, c)
    ensures EscapeChar(s, c) == s
    decreases |s|
  {
    if s != [] {
      var init := s[..|s| - 1];
      assert forall i :: 0 <= i < |init| ==> init[i] == s[i];
      EscapeCharFixpoint(init, c);
      assert s == init + [s[|s| - 1]];
    }
  }

  /** Escaping one character keeps every other character's escapes in place. */
  lemma {:induction false} EscapeCharKeepsEscaped(s: string, c: char, d: char)
    requires c != '\\' && d != '\\' && d != c && Escaped(s, d)
    ensures Escaped(EscapeChar(s, c), d)
    decreases |s|
  {
    if s != [] {
      var init := s[..|s| - 1];
      var last := s[|s| - 1];
      assert forall i :: 0 <= i < |init| ==> init[i] == s[i];
      EscapeCharKeepsEscaped(init, c, d);
      var r0 := EscapeChar(init, c);
      var tail := if last == c && (init == [] || init[|init| - 1] != '\\') then ['\\', c] else [last];
      var r := r0 + tail;
      assert r == EscapeChar(s, c);
      forall i | 0 <= i < |r| && r[i] == d ensures i > 0 && r[i - 1] == '\\' {
        if i < |r0| {
          assert r0[i] == d;
        } else {
          assert last == d && tail == [last] && i == |r0|;
          assert |s| - 1 > 0 && s[|s| - 2] == '\\';
        }
      }
    }
  }

  /** Backslashes before `&`, `%` and `_`, in that order. */
  function Escape(s: string): (r: string)
    ensures Escaped(r, '&') && Escaped(r, '%') && Escaped(r, '_')
  {
    var a := EscapeChar(s, '&');
    var b := EscapeChar(a, '%');
    EscapeCharKeepsEscaped(a, '%', '&');
    var r := EscapeChar(b, '_');
    EscapeCharKeepsEscaped(b, '_', '&');
    EscapeCharKeepsEscaped(b, '_', '%');
    r
  }

  /** Already-escaped characters are not escaped again. */
  lemma EscapeFixpoint(s: string)
    requires Escaped(s, '&') && Escaped(s, '%') && Escaped(s, '_')
    ensures Escape(s) == s
  {
    EscapeCharFixpoint(s, '&');
    EscapeCharFixpoint(s, '%');
    EscapeCharFixpoint(s, '_');
  }

  lemma EscapeIdempotent(s: string)
    ensures Escape(Escape(s)) == Escape(s)
  {
    EscapeFixpoint(Escape(s));
  }

  /** Text without `c` is appended unchanged after the escaped prefix. */
  lemma {:induction false} EscapeCharAppendPlain(s: string, t: string, c: char)
    requires c != '\\' && c !in t
    ensures EscapeChar(s + t, c) == EscapeChar(s, c) + t
    decreases |t|
  {
    if t == [] {
      assert s + t == s;
    } else {
      var u := s + t;
      var t0 := t[..|t| - 1];
      assert u[..|u| - 1] == s + t0;
      assert t0 + [t[|t| - 1]] == t;
      EscapeCharAppendPlain(s, t0, c);
    }
  }

  /** The example: `50% off` is escaped once, however often it is escaped. */
  lemma EscapeExample()
    ensures Escape("50% off") == "50\\% off"
    ensures Escape(Escape("50% off")) == Escape("50% off")
  {
    EscapeCharFixpoint("50% off", '&');
    EscapeCharFixpoint("50", '%');
    assert "50%"[..2] == "50";
    assert EscapeChar("50%", '%') == "50\\%";
    assert "50% off" == "50%" + " off";
    EscapeCharAppendPlain("50%", " off", '%');
    assert "50\\%" + " off" == "50\\% off";
    EscapeCharFixpoint("50\\% off", '_');
    EscapeIdempotent("50% off");
  }

  // ---------------------------------------------------------------------------
  // remove_ampersand (convertbibliography.py:382-389)

  /** `re.sub('\\\\&', 'and', s)`: each two-character sequence `\&` becomes
      `and`. */
  function RemoveEscapedAmpersand(s: string): (r: string)
    ensures '&' !in s ==> r == s
    decreases |s|
  {
    if s == [] then s
    else if |s| >= 2 && s[0] == '\\' && s[1] == '&' then "and" + RemoveEscapedAmpersand(s[2..])
    else [s[0]] + RemoveEscapedAmpersand(s[1..])
  }

  /** Once escaping has put a backslash before every `&`, the conversion leaves
      no `&` at all. */
  lemma {:induction false} RemoveEscapedAmpersandClears(s: string)
    requires Escaped(s, '&')
    ensures '&' !in RemoveEscapedAmpersand(s)
    decreases |s|
  {
    if s == [] {
    } else if |s| >= 2 && s[0] == '\\' && s[1] == '&' {
      var t := s[2..];
      forall i | 0 <= i < |t| && t[i] == '&' ensures i > 0 && t[i - 1] == '\\' {
        assert s[i + 2] == '&';
      }
      RemoveEscapedAmpersandClears(t);
    } else {
      var t := s[1..];
      assert s[0] != '&';
      forall i | 0 <= i < |t| && t[i] == '&' ensures i > 0 && t[i - 1] == '\\' {
        assert s[i + 1] == '&';
      }
      RemoveEscapedAmpersandClears(t);
    }
  }

  // ---------------------------------------------------------------------------
  // remove_pp (convertbibliography.py:437-438)

  predicate IsP(c: char) { c == 'p' || c == 'P' }

  /** `re.sub('[Pp]{1,2}\\.?', '', s)`: the pattern is not anchored, so every
      `p`/`P` goes, with a `.` that directly follows one or two of them. */
  function DeletePp(s: string): (r: string)
    ensures forall i :: 0 <= i < |r| ==> !IsP(r[i])
    ensures (forall i :: 0 <= i < |s| ==> !IsP(s[i])) ==> r == s
    decreases |s|
  {
    if s == [] then s
    else if IsP(s[0]) then
      var k := if |s| > 1 && IsP(s[1]) then 2 else 1;
      var k' := if |s| > k && s[k] == '.' then k + 1 else k;
      DeletePp(s[k'..])
    else [s[0]] + DeletePp(s[1..])
  }

  /** The `pages` rewrite: delete the page markers, then strip. */
  function RemovePp(s: string): (r: string)
    ensures forall i :: 0 <= i < |r| ==> !IsP(r[i])
    ensures r == [] || (!IsSpace(r[0]) && !IsSpace(r[|r| - 1]))
  {
    Strip(DeletePp(s))
  }

  lemma StripKeepsNoP(s: string)
    requires forall i :: 0 <= i < |s| ==> !IsP(s[i])
    ensures forall i :: 0 <= i < |Strip(s)| ==> !IsP(Strip(s)[i])
  {
    var rr := StripRight(s);
    assert forall i :: 0 <= i < |rr| ==> rr[i] == s[i];
    var ll := StripLeft(rr);
    assert forall i :: 0 <= i < |ll| ==> ll[i] == rr[|rr| - |ll| + i];
  }

  lemma RemovePpIdempotent(s: string)
    ensures RemovePp(RemovePp(s)) == RemovePp(s)
  {
    var r := RemovePp(s);
    assert DeletePp(r) == r;
    StripTrimmed(r);
  }

  // ---------------------------------------------------------------------------
  // edition and words_to_numerals (convertbibliography.py:14-26, 212-218)

  const WordsToNumerals: map<string, string> := map[
    "first" := "1", "second" := "2", "third" := "3", "fourth" := "4", "fifth" := "5",
    "sixth" := "6", "seventh" := "7", "eighth" := "8", "ninth" := "9", "tenth" := "10"]

  predicate IsOrdinalSuffix(s: string)
  {
    s == "st" || s == "nd" || s == "rd" || s == "th"
  }

  /** `re.search('\d+(st|nd|rd|th)', w)`: a digit directly followed by one of
      the four suffixes. */
  predicate HasNumberedOrdinal(w: string)
  {
    exists j :: 1 <= j <= |w| - 2 && NumberedOrdinalAt(w, j)
  }

  predicate NumberedOrdinalAt(w: string, j: int)
  {
    1 <= j <= |w| - 2 && IsDigit(w[j - 1]) && IsOrdinalSuffix(w[j..j + 2])
  }

  /** `re.sub('(st|nd|rd|th)', '', w)`: one left-to-right pass that deletes
      every occurrence of the four suffixes, wherever they stand. */
  function RemoveOrdinalSuffixes(w: string): (r: string)
    ensures |r| <= |w|
    decreases |w|
  {
    if |w| >= 2 && IsOrdinalSuffix(w[..2]) then RemoveOrdinalSuffixes(w[2..])
    else if w == [] then w
    else [w[0]] + RemoveOrdinalSuffixes(w[1..])
  }

  function EditionValue(v: string): string
  {
    var w := Strip(Lower(v));
    if w in WordsToNumerals then WordsToNumerals[w]
    else if HasNumberedOrdinal(w) then RemoveOrdinalSuffixes(w)
    else v
  }

  /** Every key of the ordinal table is a word of letters. */
  lemma WordsToNumeralsKeys()
    ensures forall w :: w in WordsToNumerals ==> |w| > 0 && IsLetter(w[0])
  {
  }

  predicate AllDigits(s: string)
  {
    forall i :: 0 <= i < |s| ==> IsDigit(s[i])
  }

  lemma {:induction false} RemoveOrdinalSuffixesOfNumber(n: string, suffix: string)
    requires AllDigits(n) && IsOrdinalSuffix(suffix)
    ensures RemoveOrdinalSuffixes(n + suffix) == n
    decreases |n|
  {
    if n == [] {
      assert (n + suffix)[..2] == suffix;
      assert (n + suffix)[2..] == [];
    } else {
      var w := n + suffix;
      assert w[0] == n[0];
      assert !IsOrdinalSuffix(w[..2]) by {
        assert IsDigit(w[0]);
      }
      assert RemoveOrdinalSuffixes(w) == [w[0]] + RemoveOrdinalSuffixes(w[1..]);
      assert w[1..] == n[1..] + suffix;
      RemoveOrdinalSuffixesOfNumber(n[1..], suffix);
      assert [n[0]] + n[1..] == n;
    }
  }

  /** A numbered edition loses its suffix: `3rd` becomes `3`, `21st` becomes
      `21`. */
  lemma EditionOfNumberedOrdinal(n: string, suffix: string)
    requires |n| > 0 && AllDigits(n) && IsOrdinalSuffix(suffix)
    ensures EditionValue(n + suffix) == n
  {
    var v := n + suffix;
    LowerOfNumberedOrdinal(n, suffix);
    StripTrimmed(v);
    NotOrdinalWord(v);
    NumberedOrdinalOf(n, suffix);
    RemoveOrdinalSuffixesOfNumber(n, suffix);
  }

  lemma LowerOfNumberedOrdinal(n: string, suffix: string)
    requires AllDigits(n) && IsOrdinalSuffix(suffix)
    ensures Lower(n + suffix) == n + suffix
  {
    var v := n + suffix;
    forall i | 0 <= i < |v| ensures LowerChar(v[i]) == v[i] {
      if i >= |n| {
        assert v[i] == suffix[i - |n|];
      }
    }
  }

  lemma NumberedOrdinalOf(n: string, suffix: string)
    requires |n| > 0 && AllDigits(n) && IsOrdinalSuffix(suffix)
    ensures HasNumberedOrdinal(n + suffix)
  {
    var v := n + suffix;
    assert v[|n|..|n| + 2] == suffix;
    assert NumberedOrdinalAt(v, |n|);
  }

  /** A text that does not start with a letter is not an ordinal word. */
  lemma NotOrdinalWord(w: string)
    requires w == [] || !IsLetter(w[0])
    ensures w !in WordsToNumerals
  {
    WordsToNumeralsKeys();
  }

  lemma EditionThird()
    ensures EditionValue("3rd") == "3"
  {
    assert "3" + "rd" == "3rd";
    assert AllDigits("3");
    EditionOfNumberedOrdinal("3", "rd");
  }

  lemma EditionTwentyFirst()
    ensures EditionValue("21st") == "21"
  {
    assert "21" + "st" == "21st";
    assert AllDigits("21");
    EditionOfNumberedOrdinal("21", "st");
  }

  /** An ordinal word, in any case and with any surrounding whitespace, becomes
      its numeral. */
  lemma EditionOfOrdinalWord(pre: string, word: string, post: string)
    requires Lower(word) in WordsToNumerals
    requires forall i :: 0 <= i < |pre| ==> IsSpace(pre[i])
    requires forall i :: 0 <= i < |post| ==> IsSpace(post[i])
    ensures EditionValue(pre + word + post) == WordsToNumerals[Lower(word)]
  {
    var lw := Lower(word);
    assert forall i :: 0 <= i < |lw| ==> IsLetter(lw[i]);
    assert forall i :: 0 <= i < |word| ==> IsLetter(word[i]) by {
      forall i | 0 <= i < |word| ensures IsLetter(word[i]) {
        assert IsLetter(LowerChar(word[i]));
      }
    }
    var lo := Lower(pre + word + post);
    assert lo == Lower(pre) + lw + Lower(post);
    forall i | 0 <= i < |pre| ensures IsSpace(Lower(pre)[i]) {
      assert !IsLetter(pre[i]);
    }
    forall i | 0 <= i < |post| ensures IsSpace(Lower(post)[i]) {
      assert !IsLetter(post[i]);
    }
    StripPadded(Lower(pre), lw, Lower(post));
  }

  /** An edition given as a number, with no letters at all, is left as it is. */
  lemma EditionOfPlainNumber(v: string)
    requires forall i :: 0 <= i < |v| ==> !IsLetter(v[i])
    ensures EditionValue(v) == v
  {
    assert Lower(v) == v;
    var w := Strip(v);
    var k := StripSlice(v);
    assert forall i :: 0 <= i < |w| ==> w[i] == v[k + i];
    NotOrdinalWord(w);
    NoLetterNoOrdinal(w);
  }

  lemma NoLetterNoOrdinal(w: string)
    requires forall i :: 0 <= i < |w| ==> !IsLetter(w[i])
    ensures !HasNumberedOrdinal(w)
  {
    forall j | 1 <= j <= |w| - 2 ensures !NumberedOrdinalAt(w, j) {
      assert w[j..j + 2][0] == w[j];
    }
  }

  // ---------------------------------------------------------------------------
  // protect (convertbibliography.py:442-453)

  /** A word whose first character is upper case goes inside braces. */
  function ProtectWord(x: string): string
    requires |x| > 0
  {
    if IsUpper(x[0]) then "{" + x + "}" else x
  }

  function ProtectWords(ws: seq<string>): (r: seq<string>)
    requires AllWords(ws)
    ensures |r| == |ws| && AllWords(r)
  {
    seq(|ws|, i requires 0 <= i < |ws| => ProtectWord(ws[i]))
  }

  /** `protect`: the source indexes the first word, so a text without words is
      an error there. */
  function Protect(s: string): string
    requires |Words(s)| >= 1
  {
    var ws := Words(s);
    ws[0] + " " + Join(ProtectWords(ws[1..]), " ")
  }

  /** The first word is kept; every later word is braced exactly when it starts
      with an upper-case letter. */
  lemma ProtectTokens(s: string)
    requires |Words(s)| >= 1
    ensures Words(Protect(s)) == [Words(s)[0]] + ProtectWords(Words(s)[1..])
  {
    WordsOfWordThenJoin(Words(s)[0], ProtectWords(Words(s)[1..]));
  }

  /** A text of one word comes back with a trailing space after it. */
  lemma ProtectSingleWord(s: string)
    requires |Words(s)| == 1
    ensures Protect(s) == Words(s)[0] + " "
  {
  }

  /** Protected words start with `{`, so protecting twice is protecting once. */
  lemma ProtectIdempotent(s: string)
    requires |Words(s)| >= 1
    ensures |Words(Protect(s))| >= 1
    ensures Protect(Protect(s)) == Protect(s)
  {
    ProtectTokens(s);
    var ps := ProtectWords(Words(s)[1..]);
    assert Words(Protect(s))[1..] == ps;
    forall i | 0 <= i < |ps| ensures ProtectWords(ps)[i] == ps[i] {
    }
    assert ProtectWords(ps) == ps;
  }
}
