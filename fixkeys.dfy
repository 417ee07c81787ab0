/** fixbibliography.py: dummy citation keys for entry headers that have none,
    written into the list of lines in place with one counter for the whole
    file, and the driver that makes sure the file starts with an empty line. */
module FixKeys {
  import opened Text

  /** Length of the leading run of `\w` characters. */
  function WordRun(s: string): (n: nat)
    ensures n <= |s|
    ensures forall i :: 0 <= i < n ==> IsWordChar(s[i])
    ensures n < |s| ==> !IsWordChar(s[n])
  {
    if s == [] || !IsWordChar(s[0]) then 0 else 1 + WordRun(s[1..])
  }

  lemma {:induction false} WordRunOf(w: string, rest: string)
    requires forall i :: 0 <= i < |w| ==> IsWordChar(w[i])
    requires rest == [] || !IsWordChar(rest[0])
    ensures WordRun(w + rest) == |w|
    decreases |w|
  {
    if w == [] {
      assert w + rest == rest;
    } else {
      assert (w + rest)[1..] == w[1..] + rest;
      WordRunOf(w[1..], rest);
    }
  }

  /** `re.match('@\\w+{,{0,1}$', t)`: `@`, one or more word characters, `{`,
      an optional `,`, and nothing more. */
  predicate IsHeader(t: string)
  {
    |t| >= 3 && t[0] == '@' &&
    var n := WordRun(t[1..]);
    n >= 1 && 2 + n <= |t| && t[1 + n] == '{' && (|t| == 2 + n || (|t| == 3 + n && t[2 + n] == ','))
  }

  predicate IsWordText(w: string)
  {
    |w| >= 1 && forall i :: 0 <= i < |w| ==> IsWordChar(w[i])
  }

  /** The header test accepts exactly the texts `@` word `{` and `@` word `{,`. */
  lemma HeaderOf(w: string, c: string)
    requires IsWordText(w) && (c == "" || c == ",")
    ensures IsHeader("@" + w + "{" + c)
  {
    var t := "@" + w + "{" + c;
    assert t[1..] == w + ("{" + c);
    WordRunOf(w, "{" + c);
  }

  lemma HeaderShape(t: string) returns (w: string, c: string)
    requires IsHeader(t)
    ensures IsWordText(w) && (c == "" || c == ",") && t == "@" + w + "{" + c
  {
    var n := WordRun(t[1..]);
    w := t[1..1 + n];
    c := t[2 + n..];
    assert forall i :: 0 <= i < |w| ==> w[i] == t[1..][i];
  }

  /** The line's stripped form is a header. */
  predicate Matches(line: string)
  {
    IsHeader(Strip(line))
  }

  /** A matching line is whitespace, `@` word `{`, maybe `,`, whitespace. */
  lemma MatchParts(line: string) returns (l: string, w: string, c: string, r: string)
    requires Matches(line)
    ensures line == l + ("@" + w + "{" + c) + r
    ensures IsWordText(w) && (c == "" || c == ",")
    ensures forall i :: 0 <= i < |l| ==> IsSpace(l[i])
    ensures forall i :: 0 <= i < |r| ==> IsSpace(r[i])
  {
    l, r := Around(line);
    w, c := HeaderShape(Strip(line));
  }

  /** In such a line the first `{` is the one after the word. */
  lemma FindBrace(l: string, w: string, c: string, r: string)
    requires IsWordText(w)
    requires forall i :: 0 <= i < |l| ==> IsSpace(l[i])
    ensures '{' in l + ("@" + w + "{" + c) + r
    ensures Find(l + ("@" + w + "{" + c) + r, '{') == |l| + 1 + |w|
  {
    var x := l + ("@" + w + "{" + c) + r;
    var p := |l| + 1 + |w|;
    assert x[p] == '{';
    assert forall i :: 0 <= i < p ==> x[i] != '{' by {
      forall i | 0 <= i < p ensures x[i] != '{' {
        if i < |l| {
          assert x[i] == l[i];
        } else if i > |l| {
          assert x[i] == w[i - |l| - 1];
        }
      }
    }
    var f := Find(x, '{');
    assert f >= p;
  }

  /** Python's `s.find(c)`: the first index of `c` in `s`, or -1 when there
      is none. */
  function PyFind(s: string, c: char): (i: int)
    ensures -1 <= i < |s|
    ensures i == -1 <==> c !in s
    ensures i >= 0 ==> s[i] == c && c !in s[..i]
    ensures c in s ==> i == Find(s, c)
  {
    if c in s then Find(s, c) else -1
  }

  /** `l[:l.find('{')+1] + 'Foo' + str(k) + ',' + '\n'`. */
  function Rewrite(line: string, k: nat): string
  {
    line[..PyFind(line, '{') + 1] + "Foo" + NatToString(k) + ",\n"
  }

  lemma MatchHasBrace(line: string)
    requires Matches(line)
    ensures '{' in line
  {
    var l, w, c, r := MatchParts(line);
    FindBrace(l, w, c, r);
  }

  /** A header whose key has been filled in is no longer a header. */
  lemma KeyedNotHeader(w: string, d: string)
    requires IsWordText(w)
    ensures !IsHeader("@" + w + "{Foo" + d + ",")
  {
    var mid := "@" + w + "{Foo" + d + ",";
    assert mid[1..] == w + ("{Foo" + d + ",");
    WordRunOf(w, "{Foo" + d + ",");
  }

  /** The rewrite keeps the line up to its first `{` and adds the key. */
  lemma RewriteOf(l: string, w: string, c: string, r: string, k: nat)
    requires IsWordText(w)
    requires forall i :: 0 <= i < |l| ==> IsSpace(l[i])
    ensures Rewrite(l + ("@" + w + "{" + c) + r, k) == l + ("@" + w + "{Foo" + NatToString(k) + ",") + "\n"
  {
    var line := l + ("@" + w + "{" + c) + r;
    FindBrace(l, w, c, r);
    assert line[..|l| + 1 + |w| + 1] == l + ("@" + w + "{");
  }

  lemma RewriteParts(l: string, w: string, c: string, r: string, k: nat)
    requires IsWordText(w) && (c == "" || c == ",")
    requires forall i :: 0 <= i < |l| ==> IsSpace(l[i])
    ensures '{' in l + ("@" + w + "{" + c) + r
    ensures Rewrite(l + ("@" + w + "{" + c) + r, k) == l + ("@" + w + "{Foo" + NatToString(k) + ",") + "\n"
    ensures !Matches(Rewrite(l + ("@" + w + "{" + c) + r, k))
  {
    FindBrace(l, w, c, r);
    RewriteOf(l, w, c, r, k);
    var mid := "@" + w + "{Foo" + NatToString(k) + ",";
    StripPadded(l, mid, "\n");
    KeyedNotHeader(w, NatToString(k));
  }

  /** A rewritten header keeps everything up to its `{` and then holds the
      key; its stripped form is no longer a header. */
  lemma RewriteShape(line: string, k: nat) returns (l: string, w: string)
    requires Matches(line)
    ensures '{' in line && Rewrite(line, k) == l + ("@" + w + "{Foo" + NatToString(k) + ",") + "\n"
    ensures IsWordText(w) && forall i :: 0 <= i < |l| ==> IsSpace(l[i])
    ensures !Matches(Rewrite(line, k))
  {
    var c, r;
    l, w, c, r := MatchParts(line);
    RewriteParts(l, w, c, r, k);
  }

  /** The number of elements of `s` that satisfy `p`. */
  function CountIf(s: seq<string>, p: string -> bool): (n: nat)
    ensures n <= |s|
  {
    if s == [] then 0 else CountIf(s[..|s| - 1], p) + (if p(s[|s| - 1]) then 1 else 0)
  }

  lemma CountIfSnoc(s: seq<string>, p: string -> bool, j: nat)
    requires j < |s|
    ensures CountIf(s[..j + 1], p) == CountIf(s[..j], p) + (if p(s[j]) then 1 else 0)
  {
    assert s[..j + 1][..j] == s[..j];
  }

  // ---------------------------------------------------------------------------
  // numbering the lines that satisfy a test, the shape of the loop in
  // fix_keys (fixbibliography.py:8-25)

  /** A line numbered `k`: rewritten by `f` when it satisfies `p`. */
  function NumberedLine(x: string, p: string -> bool, f: (string, nat) -> string, k: nat): string
  {
    if p(x) then f(x, k) else x
  }

  /** The lines with every line that satisfies `p` rewritten by `f` with one
      plus the number of such lines before it. */
  function Numbered(lines: seq<string>, p: string -> bool, f: (string, nat) -> string): (r: seq<string>)
    ensures |r| == |lines|
  {
    if lines == [] then []
    else
      var n := |lines| - 1;
      Numbered(lines[..n], p, f) + [NumberedLine(lines[n], p, f, 1 + CountIf(lines[..n], p))]
  }

  lemma {:induction false} NumberedAt(lines: seq<string>, p: string -> bool, f: (string, nat) -> string, j: nat)
    requires j < |lines|
    ensures Numbered(lines, p, f)[j] == NumberedLine(lines[j], p, f, 1 + CountIf(lines[..j], p))
    decreases |lines|
  {
    var n := |lines| - 1;
    if j < n {
      NumberedAt(lines[..n], p, f, j);
      assert lines[..n][..j] == lines[..j];
      assert lines[..n][j] == lines[j];
    }
  }

  lemma NumberedSnoc(lines: seq<string>, p: string -> bool, f: (string, nat) -> string, j: nat)
    requires j < |lines|
    ensures Numbered(lines[..j + 1], p, f) == Numbered(lines[..j], p, f) + [NumberedLine(lines[j], p, f, 1 + CountIf(lines[..j], p))]
  {
    assert lines[..j + 1][..j] == lines[..j];
    assert lines[..j + 1][j] == lines[j];
  }

  /** Replacing the first element after a prefix moves the prefix boundary. */
  lemma SpliceStep(front: seq<string>, rest: seq<string>, v: string)
    requires |rest| > 0
    ensures (front + rest)[|front| := v] == front + [v] + rest[1..]
  {
  }

  /** The loop of `fix_keys` with its test `p` and its rewrite `f`: the
      counter `i` starts at 1 and goes up once per rewritten line. */
  method NumberLines(l: array<string>, p: string -> bool, f: (string, nat) -> string)
    modifies l
    ensures l[..] == Numbered(old(l[..]), p, f)
  {
    ghost var orig := l[..];
    var i := 1;
    var j := 0;
    while j < l.Length
      invariant 0 <= j <= l.Length
      invariant i == 1 + CountIf(orig[..j], p)
      invariant l[..] == Numbered(orig[..j], p, f) + orig[j..]
    {
      NumberedSnoc(orig, p, f, j);
      CountIfSnoc(orig, p, j);
      SpliceStep(Numbered(orig[..j], p, f), orig[j..], NumberedLine(orig[j], p, f, i));
      var line := l[j];
      if p(line) {
        l[j] := f(line, i);
        i := i + 1;
      }
      assert orig[j..][1..] == orig[j + 1..];
      j := j + 1;
    }
    assert orig[..l.Length] == orig;
  }

  // ---------------------------------------------------------------------------
  // fix_keys

  /** Line `j` after `fix_keys`: a header gets the key `Foo` followed by one
      plus the number of headers before it; any other line stays. */
  function FixedLine(lines: seq<string>, j: nat): string
    requires j < |lines|
  {
    NumberedLine(lines[j], Matches, Rewrite, 1 + CountIf(lines[..j], Matches))
  }

  /** The lines after `fix_keys`. */
  function FixedLines(lines: seq<string>): (r: seq<string>)
    ensures |r| == |lines|
  {
    Numbered(lines, Matches, Rewrite)
  }

  lemma FixedLinesAt(lines: seq<string>, j: nat)
    requires j < |lines|
    ensures FixedLines(lines)[j] == FixedLine(lines, j)
  {
    NumberedAt(lines, Matches, Rewrite, j);
  }

  /** Two line lists agree when every line is the fixed line. */
  lemma FixedLinesPointwise(lines: seq<string>, s: seq<string>)
    requires |s| == |lines|
    requires forall t :: 0 <= t < |s| ==> s[t] == FixedLine(lines, t)
    ensures s == FixedLines(lines)
  {
    forall t | 0 <= t < |s| ensures s[t] == FixedLines(lines)[t] {
      FixedLinesAt(lines, t);
    }
  }

  /** `fix_keys`: the loop above with the header test and the rewrite. */
  method FixKeys(l: array<string>)
    modifies l
    ensures l[..] == FixedLines(old(l[..]))
  {
    NumberLines(l, Matches, Rewrite);
  }

  /** Lines that are not headers are left as they are; headers are rewritten
      into lines that are not headers. */
  lemma FixedLinesUnchanged(lines: seq<string>, j: nat)
    requires j < |lines|
    ensures !Matches(lines[j]) ==> FixedLines(lines)[j] == lines[j]
    ensures !Matches(FixedLines(lines)[j])
  {
    FixedLinesAt(lines, j);
    var x := lines[j];
    var k := 1 + CountIf(lines[..j], Matches);
    if Matches(x) {
      RewriteNotHeader(x, k);
    }
  }

  lemma RewriteNotHeader(line: string, k: nat)
    requires Matches(line)
    ensures !Matches(Rewrite(line, k))
  {
    var l, w := RewriteShape(line, k);
  }

  /** The key given to matching line `j`. */
  function KeyNumber(lines: seq<string>, j: nat): nat
    requires j < |lines|
  {
    1 + CountIf(lines[..j], Matches)
  }

  lemma {:induction false} CountIfMonotone(s: seq<string>, p: string -> bool, a: nat, b: nat)
    requires a <= b <= |s|
    ensures CountIf(s[..a], p) <= CountIf(s[..b], p)
    ensures a < b && p(s[a]) ==> CountIf(s[..a], p) < CountIf(s[..b], p)
    decreases b - a
  {
    if a < b {
      CountIfMonotone(s, p, a, b - 1);
      assert s[..b][..b - 1] == s[..b - 1];
      if a == b - 1 {
        assert s[..b][b - 1] == s[a];
      }
    }
  }

  /** The counter never resets: a later matching line gets a larger number, so
      no two rewritten lines share a key. */
  lemma KeysIncrease(lines: seq<string>, j1: nat, j2: nat)
    requires j1 < j2 < |lines| && Matches(lines[j1]) && Matches(lines[j2])
    ensures KeyNumber(lines, j1) < KeyNumber(lines, j2)
    ensures NatToString(KeyNumber(lines, j1)) != NatToString(KeyNumber(lines, j2))
  {
    CountIfMonotone(lines, Matches, j1, j2);
    if NatToString(KeyNumber(lines, j1)) == NatToString(KeyNumber(lines, j2)) {
      NatToStringInjective(KeyNumber(lines, j1), KeyNumber(lines, j2));
    }
  }

  lemma NatToStringLong(n: nat)
    requires n >= 10
    ensures |NatToString(n)| >= 2
  {
  }

  lemma {:induction false} NatToStringInjective(a: nat, b: nat)
    requires NatToString(a) == NatToString(b)
    ensures a == b
    decreases a
  {
    if a < 10 && b < 10 {
      assert NatToString(a)[0] == NatToString(b)[0];
    } else if a < 10 {
      NatToStringLong(b);
    } else if b < 10 {
      NatToStringLong(a);
    } else {
      var sa := NatToString(a);
      assert sa == NatToString(a / 10) + [DigitChar(a % 10)];
      assert sa == NatToString(b / 10) + [DigitChar(b % 10)];
      assert sa[|sa| - 1] == DigitChar(a % 10) == DigitChar(b % 10);
      assert sa[..|sa| - 1] == NatToString(a / 10) == NatToString(b / 10);
      NatToStringInjective(a / 10, b / 10);
    }
  }

  /** The first matching line gets `Foo1`. */
  lemma FirstKeyIsOne(lines: seq<string>, j: nat)
    requires j < |lines| && forall t :: 0 <= t < j ==> !Matches(lines[t])
    ensures KeyNumber(lines, j) == 1
  {
    CountIfNone(lines[..j], Matches);
  }

  lemma {:induction false} CountIfNone(s: seq<string>, p: string -> bool)
    requires forall t :: 0 <= t < |s| ==> !p(s[t])
    ensures CountIf(s, p) == 0
    decreases |s|
  {
    if s != [] {
      CountIfNone(s[..|s| - 1], p);
    }
  }

  /** Rewritten lines do not match, so `fix_keys` changes nothing the second
      time. */
  lemma FixKeysIdempotent(lines: seq<string>)
    ensures FixedLines(FixedLines(lines)) == FixedLines(lines)
  {
    var r := FixedLines(lines);
    forall j | 0 <= j < |r| ensures r[j] == FixedLine(r, j) {
      FixedLinesUnchanged(lines, j);
    }
    FixedLinesPointwise(r, r);
  }

  // ---------------------------------------------------------------------------
  // the docstring example (fixbibliography.py:13-16)

  const ExampleIn: seq<string> := ["@article{\n", "    Author = {Thomas Hodgson}\n", "}\n"]
  const ExampleOut: seq<string> := ["@article{Foo1,\n", "    Author = {Thomas Hodgson}\n", "}\n"]

  /** A line is a header when it is whitespace, `@` word `{`, maybe `,`,
      whitespace. */
  lemma MatchesOf(l: string, w: string, c: string, r: string)
    requires IsWordText(w) && (c == "" || c == ",")
    requires forall i :: 0 <= i < |l| ==> IsSpace(l[i])
    requires forall i :: 0 <= i < |r| ==> IsSpace(r[i])
    ensures Matches(l + ("@" + w + "{" + c) + r)
  {
    StripPadded(l, "@" + w + "{" + c, r);
    HeaderOf(w, c);
  }

  /** A line whose first character other than whitespace is not `@` is not
      a header. */
  lemma NotMatchesOf(line: string, k: nat)
    requires k < |line| && !IsSpace(line[k]) && line[k] != '@'
    requires forall i :: 0 <= i < k ==> IsSpace(line[i])
    ensures !Matches(line)
  {
    var s := Strip(line);
    var k' := StripSlice(line);
    assert k' <= k;
    assert k' + |s| > k;
    assert k' >= k by {
      assert k' < |line| && line[k'] == s[0];
    }
    assert s[0] == line[k];
  }

  lemma ExampleHeaderParts()
    ensures "@article{\n" == "" + ("@" + "article" + "{" + "") + "\n"
    ensures IsWordText("article")
  {
  }

  lemma ExampleHeader()
    ensures Matches("@article{\n")
  {
    ExampleHeaderParts();
    MatchesOf("", "article", "", "\n");
  }

  lemma ExampleKeyedLine()
    ensures "" + ("@" + "article" + "{Foo" + NatToString(1) + ",") + "\n" == "@article{Foo1,\n"
  {
    assert NatToString(1) == "1";
  }

  lemma ExampleRewrite()
    ensures Rewrite("@article{\n", 1) == "@article{Foo1,\n"
  {
    ExampleHeaderParts();
    RewriteOf("", "article", "", "\n", 1);
    ExampleKeyedLine();
  }

  lemma ExampleAuthorLine()
    ensures !Matches("    Author = {Thomas Hodgson}\n")
  {
    NotMatchesOf("    Author = {Thomas Hodgson}\n", 4);
  }

  lemma ExampleClosingLine()
    ensures !Matches("}\n")
  {
    NotMatchesOf("}\n", 0);
  }

  lemma ExampleFirstLine()
    ensures FixedLine(ExampleIn, 0) == ExampleOut[0]
  {
    ExampleHeader();
    ExampleRewrite();
    assert ExampleIn[..0] == [];
    assert FixedLine(ExampleIn, 0) == NumberedLine(ExampleIn[0], Matches, Rewrite, 1);
  }

  /** The example of the docstring. */
  lemma FixKeysExample()
    ensures FixedLines(ExampleIn) == ExampleOut
  {
    forall t | 0 <= t < |ExampleOut| ensures ExampleOut[t] == FixedLine(ExampleIn, t) {
      if t == 0 {
        ExampleFirstLine();
      } else if t == 1 {
        ExampleAuthorLine();
      } else {
        ExampleClosingLine();
      }
    }
    FixedLinesPointwise(ExampleIn, ExampleOut);
  }

  // ---------------------------------------------------------------------------
  // the driver (fixbibliography.py:47-55)

  /** `if content[0] != '\n': content.insert(0, '\n')`; an empty input makes
      the source fail on `content[0]`. */
  function WithLeadingNewline(content: seq<string>): (r: seq<string>)
    requires |content| > 0
    ensures |r| == |content| + (if content[0] == "\n" then 0 else 1)
    ensures r[0] == "\n"
    ensures r[|r| - |content|..] == content
  {
    if content[0] != "\n" then ["\n"] + content else content
  }

  lemma NewlineNotHeader()
    ensures !Matches("\n")
  {
    assert Strip("\n") == "";
  }

  /** An empty line in front changes neither which lines match nor their
      numbers. */
  lemma FixedLinesAfterNewline(content: seq<string>)
    ensures FixedLines(["\n"] + content) == ["\n"] + FixedLines(content)
  {
    NewlineNotHeader();
    NumberedPrepend("\n", content, Matches, Rewrite);
  }

  /** A line in front that does not satisfy `p` shifts the numbering by
      nothing. */
  lemma NumberedPrepend(x: string, content: seq<string>, p: string -> bool, f: (string, nat) -> string)
    requires !p(x)
    ensures Numbered([x] + content, p, f) == [x] + Numbered(content, p, f)
  {
    var s := [x] + content;
    var rhs := [x] + Numbered(content, p, f);
    forall t | 0 <= t < |rhs| ensures rhs[t] == Numbered(s, p, f)[t] {
      NumberedAt(s, p, f, t);
      if t > 0 {
        NumberedAt(content, p, f, t - 1);
        CountIfPrepend(x, content[..t - 1], p);
        assert s[..t] == [x] + content[..t - 1];
      }
    }
  }

  lemma {:induction false} CountIfPrepend(x: string, s: seq<string>, p: string -> bool)
    requires !p(x)
    ensures CountIf([x] + s, p) == CountIf(s, p)
    decreases |s|
  {
    var t := [x] + s;
    if s != [] {
      assert t[..|t| - 1] == [x] + s[..|s| - 1];
      CountIfPrepend(x, s[..|s| - 1], p);
    } else {
      assert t[..|t| - 1] == [];
    }
  }

  /** The driver: an empty first line if there is none, then `fix_keys`, then
      `''.join`. */
  method FixFile(content: seq<string>) returns (output: string)
    requires |content| > 0
    ensures output == Concat(FixedLines(WithLeadingNewline(content)))
  {
    var lines := content;
    if lines[0] != "\n" {
      lines := ["\n"] + lines;
    }
    var a := new string[|lines|](i requires 0 <= i < |lines| => lines[i]);
    assert a[..] == lines;
    FixKeys(a);
    output := Concat(a[..]);
  }
}
