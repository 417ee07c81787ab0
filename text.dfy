/** Character classes and the string primitives the scripts take from Python's
    `str`: `split()` without arguments, `' '.join`, `strip()`, `lower()`,
    `startswith`, substring search and `str(n)` for a natural number.
    Letters, digits and case are ASCII only; whitespace is what Python's
    `str.isspace` accepts. */
module Text {

  /** Python's `str.isspace`. */
  predicate IsSpace(c: char)
  {
    c == ' ' || ('\t' <= c <= '\r') || ('\U{1C}' <= c <= '\U{1F}')
    || c == '\U{85}' || c == '\U{A0}' || c == '\U{1680}'
    || ('\U{2000}' <= c <= '\U{200A}') || c == '\U{2028}' || c == '\U{2029}'
    || c == '\U{202F}' || c == '\U{205F}' || c == '\U{3000}'
  }

  predicate IsUpper(c: char) { 'A' <= c <= 'Z' }
  predicate IsLower(c: char) { 'a' <= c <= 'z' }
  predicate IsLetter(c: char) { IsUpper(c) || IsLower(c) }
  predicate IsDigit(c: char) { '0' <= c <= '9' }

  /** The characters of the regular-expression class `\w`. */
  predicate IsWordChar(c: char) { IsLetter(c) || IsDigit(c) || c == '_' }

  function UpperChar(c: char): (r: char)
    ensures IsLetter(r) == IsLetter(c) && !IsLower(r)
    ensures !IsLetter(c) ==> r == c
  {
    if IsLower(c) then (c as int - 32) as char else c
  }

  function LowerChar(c: char): (r: char)
    ensures IsLetter(r) == IsLetter(c) && !IsUpper(r)
    ensures !IsLetter(c) ==> r == c
  {
    if IsUpper(c) then (c as int + 32) as char else c
  }

  lemma CaseChars(c: char)
    ensures UpperChar(UpperChar(c)) == UpperChar(c) && UpperChar(LowerChar(c)) == UpperChar(c)
    ensures LowerChar(UpperChar(c)) == LowerChar(c) && LowerChar(LowerChar(c)) == LowerChar(c)
  {
  }

  /** `str.lower()`. */
  function Lower(s: string): (r: string)
    ensures |r| == |s|
    ensures forall i :: 0 <= i < |s| ==> r[i] == LowerChar(s[i])
  {
    seq(|s|, i requires 0 <= i < |s| => LowerChar(s[i]))
  }

  predicate StartsWith(s: string, p: string)
  {
    |p| <= |s| && s[..|p|] == p
  }

  /** `p` occurs somewhere in `s` (`re.search` with a literal pattern). */
  predicate Contains(s: string, p: string)
    decreases |s|
  {
    StartsWith(s, p) || (s != [] && Contains(s[1..], p))
  }

  lemma {:induction false} ContainsAppend(s: string, b: string, p: string)
    requires Contains(s, p)
    ensures Contains(s + b, p)
    decreases |s|
  {
    if StartsWith(s, p) {
      assert (s + b)[..|p|] == s[..|p|];
    } else {
      ContainsAppend(s[1..], b, p);
      assert (s + b)[1..] == s[1..] + b;
    }
  }

  lemma {:induction false} ContainsPrepend(a: string, s: string, p: string)
    requires Contains(s, p)
    ensures Contains(a + s, p)
    decreases |a|
  {
    if a == [] {
      assert a + s == s;
    } else {
      ContainsPrepend(a[1..], s, p);
      assert (a + s)[1..] == a[1..] + s;
    }
  }

  predicate NoSpace(s: string)
  {
    forall i :: 0 <= i < |s| ==> !IsSpace(s[i])
  }

  /** A token produced by `str.split()`. */
  predicate IsWord(w: string)
  {
    |w| > 0 && NoSpace(w)
  }

  predicate AllWords(ws: seq<string>)
  {
    forall i :: 0 <= i < |ws| ==> IsWord(ws[i])
  }

  /** `str.lstrip()`: drops the leading whitespace and nothing else. */
  function StripLeft(s: string): (r: string)
    ensures |r| <= |s| && r == s[|s| - |r|..]
    ensures r == [] || !IsSpace(r[0])
    ensures forall i :: 0 <= i < |s| - |r| ==> IsSpace(s[i])
  {
    if s != [] && IsSpace(s[0]) then StripLeft(s[1..]) else s
  }

  /** `str.rstrip()`: drops the trailing whitespace and nothing else. */
  function StripRight(s: string): (r: string)
    ensures |r| <= |s| && r == s[..|r|]
    ensures r == [] || !IsSpace(r[|r| - 1])
    ensures forall i :: |r| <= i < |s| ==> IsSpace(s[i])
  {
    if s != [] && IsSpace(s[|s| - 1]) then StripRight(s[..|s| - 1]) else s
  }

  /** `str.strip()`. */
  function Strip(s: string): (r: string)
    ensures r == [] || (!IsSpace(r[0]) && !IsSpace(r[|r| - 1]))
  {
    StripLeft(StripRight(s))
  }

  /** `strip()` returns a contiguous piece of its argument, with only
      whitespace around it. */
  lemma StripSlice(s: string) returns (k: nat)
    ensures k + |Strip(s)| <= |s| && Strip(s) == s[k..k + |Strip(s)|]
    ensures forall i :: 0 <= i < k ==> IsSpace(s[i])
    ensures forall i :: k + |Strip(s)| <= i < |s| ==> IsSpace(s[i])
  {
    var rr := StripRight(s);
    k := |rr| - |Strip(s)|;
    SliceOfPrefix(s, |rr|, k);
    assert forall i :: 0 <= i < k ==> rr[i] == s[i];
  }

  lemma SliceOfPrefix(s: string, n: nat, k: nat)
    requires k <= n <= |s|
    ensures s[..n][k..] == s[k..n]
  {
  }

  /** Any two cut points split a text in three. */
  lemma CutInThree(s: string, k: nat, e: nat)
    requires k <= e <= |s|
    ensures s == s[..k] + s[k..e] + s[e..]
  {
    assert s[..e] == s[..k] + s[k..e];
    assert s == s[..e] + s[e..];
  }

  /** A text is its stripped form with whitespace on either side. */
  lemma Around(s: string) returns (l: string, r: string)
    ensures s == l + Strip(s) + r
    ensures forall i :: 0 <= i < |l| ==> IsSpace(l[i])
    ensures forall i :: 0 <= i < |r| ==> IsSpace(r[i])
  {
    var k := StripSlice(s);
    var e := k + |Strip(s)|;
    CutInThree(s, k, e);
    l := s[..k];
    r := s[e..];
    assert forall i :: 0 <= i < |r| ==> r[i] == s[e + i];
  }

  /** Text that has no whitespace at either end is its own stripped form. */
  lemma StripTrimmed(s: string)
    requires s == [] || (!IsSpace(s[0]) && !IsSpace(s[|s| - 1]))
    ensures Strip(s) == s
  {
  }

  /** Whitespace around a trimmed text is exactly what `strip()` removes. */
  lemma {:induction false} StripPadded(p: string, s: string, q: string)
    requires |s| > 0 && !IsSpace(s[0]) && !IsSpace(s[|s| - 1])
    requires forall i :: 0 <= i < |p| ==> IsSpace(p[i])
    requires forall i :: 0 <= i < |q| ==> IsSpace(q[i])
    ensures Strip(p + s + q) == s
  {
    var x := p + s + q;
    var rr := StripRight(x);
    assert !IsSpace(x[|p| + |s| - 1]);
    assert forall i :: |p| + |s| <= i < |x| ==> x[i] == q[i - |p| - |s|];
    assert rr == p + s;
    var ll := StripLeft(rr);
    assert !IsSpace(rr[|p|]);
    assert forall i :: 0 <= i < |p| ==> rr[i] == p[i];
    assert ll == s;
  }

  /** `s.find(c)` for a character that occurs in `s`: its first index. */
  function Find(s: string, c: char): (i: nat)
    requires c in s
    ensures i < |s| && s[i] == c && c !in s[..i]
  {
    if s[0] == c then 0 else 1 + Find(s[1..], c)
  }

  /** Number of leading characters of `s` that are not whitespace. */
  function TokenLength(s: string): (n: nat)
    ensures n <= |s|
    ensures forall i :: 0 <= i < n ==> !IsSpace(s[i])
    ensures n < |s| ==> IsSpace(s[n])
  {
    if s == [] || IsSpace(s[0]) then 0 else 1 + TokenLength(s[1..])
  }

  /** `str.split()` without arguments: the maximal runs of non-whitespace. */
  function Words(s: string): (ws: seq<string>)
    ensures AllWords(ws)
    decreases |s|
  {
    if s == [] then []
    else if IsSpace(s[0]) then Words(s[1..])
    else
      var n := TokenLength(s);
      [s[..n]] + Words(s[n..])
  }

  /** `sep.join(ss)`. */
  function Join(ss: seq<string>, sep: string): (r: string)
  {
    if |ss| == 0 then ""
    else if |ss| == 1 then ss[0]
    else ss[0] + sep + Join(ss[1..], sep)
  }

  lemma JoinCons(w: string, ws: seq<string>, sep: string)
    requires |ws| >= 1
    ensures Join([w] + ws, sep) == w + sep + Join(ws, sep)
  {
    assert ([w] + ws)[1..] == ws;
  }

  lemma {:induction false} TokenLengthOfWord(w: string, t: string)
    requires NoSpace(w)
    requires t == [] || IsSpace(t[0])
    ensures TokenLength(w + t) == |w|
    decreases |w|
  {
    if w != [] {
      assert (w + t)[1..] == w[1..] + t;
      TokenLengthOfWord(w[1..], t);
    }
  }

  /** Leading whitespace does not change the word list. */
  lemma {:induction false} WordsSkipSpace(p: string, t: string)
    requires forall i :: 0 <= i < |p| ==> IsSpace(p[i])
    ensures Words(p + t) == Words(t)
    decreases |p|
  {
    if p != [] {
      assert (p + t)[1..] == p[1..] + t;
      WordsSkipSpace(p[1..], t);
    } else {
      assert p + t == t;
    }
  }

  /** A word followed by whitespace (or nothing) is split off first. */
  lemma WordsCons(w: string, t: string)
    requires IsWord(w)
    requires t == [] || IsSpace(t[0])
    ensures Words(w + t) == [w] + Words(t)
  {
    TokenLengthOfWord(w, t);
    assert (w + t)[..|w|] == w;
    assert (w + t)[|w|..] == t;
  }

  /** Splitting undoes joining with one space: the round trip behind the
      "split, rewrite each token, rejoin" helpers. */
  lemma {:induction false} WordsOfJoin(ws: seq<string>)
    requires AllWords(ws)
    ensures Words(Join(ws, " ")) == ws
  {
    if |ws| == 0 {
    } else if |ws| == 1 {
      WordsCons(ws[0], "");
      assert ws[0] + "" == ws[0];
    } else {
      var rest := Join(ws[1..], " ");
      assert ws[0] + " " + rest == ws[0] + (" " + rest);
      WordsCons(ws[0], " " + rest);
      WordsSkipSpace(" ", rest);
      WordsOfJoin(ws[1..]);
      assert [ws[0]] + ws[1..] == ws;
    }
  }

  /** A joined word list, with a leading word, splits back into its parts. */
  lemma WordsOfWordThenJoin(w: string, ws: seq<string>)
    requires IsWord(w) && AllWords(ws)
    ensures Words(w + " " + Join(ws, " ")) == [w] + ws
  {
    var rest := Join(ws, " ");
    assert w + " " + rest == w + (" " + rest);
    WordsCons(w, " " + rest);
    WordsSkipSpace(" ", rest);
    WordsOfJoin(ws);
  }

  /** ''.join(ss). */
  function Concat(ss: seq<string>): (r: string)
  {
    if ss == [] then "" else Concat(ss[..|ss| - 1]) + ss[|ss| - 1]
  }

  function DigitChar(d: nat): (c: char)
    requires d < 10
    ensures IsDigit(c)
  {
    ('0' as int + d) as char
  }

  /** `str(n)` for a natural number: its decimal digits. */
  function NatToString(n: nat): (r: string)
    ensures |r| > 0
    ensures forall i :: 0 <= i < |r| ==> IsDigit(r[i])
  {
    if n < 10 then [DigitChar(n)] else NatToString(n / 10) + [DigitChar(n % 10)]
  }

  /** The lists `f(0)`, ..., `f(n - 1)` one after another, as a loop that
      appends each in turn builds them. */
  function Collect<T>(f: nat -> seq<T>, n: nat): (r: seq<T>)
  {
    if n == 0 then [] else Collect(f, n - 1) + f(n - 1)
  }

  /** Every item of one of the lists is in the result ... */
  lemma {:induction false} CollectHas<T>(f: nat -> seq<T>, n: nat, i: nat, x: T)
    requires i < n && x in f(i)
    ensures x in Collect(f, n)
  {
    var m := n - 1;
    if i < m {
      CollectHas(f, m, i, x);
    }
  }

  /** ... and every item of the result comes from one of them. */
  lemma {:induction false} CollectFrom<T>(f: nat -> seq<T>, n: nat, x: T) returns (i: nat)
    requires x in Collect(f, n)
    ensures i < n && x in f(i)
  {
    var m := n - 1;
    if x in f(m) {
      i := m;
    } else {
      i := CollectFrom(f, m, x);
    }
  }
}
