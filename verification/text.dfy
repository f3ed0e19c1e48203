/** String primitives the three driver scripts lean on: Python's `str.split()` with
    no argument, `sep.join(parts)`, `str.replace` of one character, and `str(int)`. */
module Text {

  /** The characters for which Python's `str.isspace()` holds; `str.split()` with no
      argument splits on runs of these and drops leading and trailing runs. */
  predicate IsSpace(c: char) {
    || c == ' ' || c == '\t' || c == '\n' || c == '\r' || c == '\U{0B}' || c == '\U{0C}'
    || ('\U{1C}' <= c <= '\U{1F}') || c == '\U{85}' || c == '\U{A0}' || c == '\U{1680}'
    || ('\U{2000}' <= c <= '\U{200A}') || c == '\U{2028}' || c == '\U{2029}'
    || c == '\U{202F}' || c == '\U{205F}' || c == '\U{3000}'
  }

  /** What `str.split()` yields: a non-empty run of non-whitespace characters. */
  predicate IsWord(w: string) {
    |w| > 0 && forall i :: 0 <= i < |w| ==> !IsSpace(w[i])
  }

  predicate AllWords(ws: seq<string>) {
    forall i :: 0 <= i < |ws| ==> IsWord(ws[i])
  }

  /** Drops the leading whitespace run. */
  function SkipSpaces(s: string): (r: string)
    ensures |r| <= |s| && r == s[|s| - |r|..]
    ensures r == [] || !IsSpace(r[0])
  {
    if s == [] || !IsSpace(s[0]) then s else SkipSpaces(s[1..])
  }

  /** Length of the leading non-whitespace run. */
  function WordLength(s: string): (n: nat)
    ensures n <= |s|
    ensures forall i :: 0 <= i < n ==> !IsSpace(s[i])
    ensures n < |s| ==> IsSpace(s[n])
  {
    if s == [] || IsSpace(s[0]) then 0 else 1 + WordLength(s[1..])
  }

  /** `s.split()`: the maximal whitespace-free runs of `s`, in order. */
  function Split(s: string): (ws: seq<string>)
    ensures AllWords(ws)
    decreases |s|
  {
    var t := SkipSpaces(s);
    if t == [] then []
    else
      var n := WordLength(t);
      var rest := Split(t[n..]);
      FirstWord(t);
      AllWordsCons(t[..n], rest);
      [t[..n]] + rest
  }

  lemma FirstWord(t: string)
    requires t != [] && !IsSpace(t[0])
    ensures WordLength(t) > 0 && IsWord(t[..WordLength(t)])
  {
  }

  lemma AllWordsCons(w: string, ws: seq<string>)
    requires IsWord(w) && AllWords(ws)
    ensures AllWords([w] + ws)
  {
    forall i | 0 <= i < |[w] + ws| ensures IsWord(([w] + ws)[i]) {
      if i > 0 {
        assert ([w] + ws)[i] == ws[i - 1];
      }
    }
  }

  /** `sep.join(parts)`. */
  function Join(sep: string, parts: seq<string>): string {
    if |parts| == 0 then ""
    else if |parts| == 1 then parts[0]
    else parts[0] + sep + Join(sep, parts[1..])
  }

  /** `[" ".join(w) for w in windows]`. */
  function JoinEach(windows: seq<seq<string>>): (r: seq<string>)
    ensures |r| == |windows|
  {
    seq(|windows|, j requires 0 <= j < |windows| => Join(" ", windows[j]))
  }

  lemma JoinEachAppend(a: seq<seq<string>>, b: seq<seq<string>>)
    ensures JoinEach(a + b) == JoinEach(a) + JoinEach(b)
  {
    assert forall j :: 0 <= j < |a + b| ==> JoinEach(a + b)[j] == (JoinEach(a) + JoinEach(b))[j];
  }

  lemma WordLengthOfWord(w: string, rest: string)
    requires forall i :: 0 <= i < |w| ==> !IsSpace(w[i])
    requires rest == [] || IsSpace(rest[0])
    ensures WordLength(w + rest) == |w|
    decreases |w|
  {
    if w != [] {
      assert (w + rest)[1..] == w[1..] + rest;
      WordLengthOfWord(w[1..], rest);
    }
  }

  lemma SplitLeadingSpace(s: string)
    ensures Split(" " + s) == Split(s)
  {
    assert (" " + s)[1..] == s;
    assert SkipSpaces(" " + s) == SkipSpaces(s);
  }

  /** A word followed by nothing or by whitespace is the first thing `split()` finds. */
  lemma SplitAfterWord(w: string, rest: string)
    requires IsWord(w)
    requires rest == [] || IsSpace(rest[0])
    ensures Split(w + rest) == [w] + Split(rest)
  {
    var s := w + rest;
    assert SkipSpaces(s) == s;
    WordLengthOfWord(w, rest);
    assert s[..|w|] == w;
    assert s[|w|..] == rest;
  }

  /** A word, a space, and anything after it. */
  lemma SplitWordSpace(w: string, tail: string)
    requires IsWord(w)
    ensures Split(w + " " + tail) == [w] + Split(tail)
  {
    var rest := " " + tail;
    assert w + " " + tail == w + rest;
    SplitAfterWord(w, rest);
    SplitLeadingSpace(tail);
  }

  /** Splitting the space-joined words gives the words back: `" ".join` and
      `str.split()` are inverse on whitespace-free, non-empty words. */
  lemma {:induction false} SplitJoin(ws: seq<string>)
    requires AllWords(ws)
    ensures Split(Join(" ", ws)) == ws
  {
    if |ws| == 0 {
      SplitEmpty();
    } else if |ws| == 1 {
      SplitJoinOne(ws);
    } else {
      AllWordsTail(ws);
      SplitJoin(ws[1..]);
      JoinCons(" ", ws);
      SplitWordSpace(ws[0], Join(" ", ws[1..]));
      ConsTail(ws);
    }
  }

  lemma SplitEmpty()
    ensures Split("") == []
  {
  }

  lemma AllWordsTail(ws: seq<string>)
    requires AllWords(ws) && |ws| > 0
    ensures IsWord(ws[0]) && AllWords(ws[1..])
  {
    forall i | 0 <= i < |ws[1..]| ensures IsWord(ws[1..][i]) {
      assert ws[1..][i] == ws[i + 1];
    }
  }

  lemma SplitJoinOne(ws: seq<string>)
    requires |ws| == 1 && IsWord(ws[0])
    ensures Split(Join(" ", ws)) == ws
  {
    SplitWord(ws[0]);
  }

  /** A single word splits to itself. */
  lemma SplitWord(w: string)
    requires IsWord(w)
    ensures Split(w) == [w]
  {
    assert SkipSpaces(w) == w;
    WordLengthOfWord(w, "");
    assert w + "" == w;
    assert w[..|w|] == w;
    assert Split(w[|w|..]) == [];
  }

  lemma JoinCons(sep: string, ws: seq<string>)
    requires |ws| > 1
    ensures Join(sep, ws) == ws[0] + sep + Join(sep, ws[1..])
  {
  }

  lemma ConsTail<T>(s: seq<T>)
    requires |s| > 0
    ensures [s[0]] + s[1..] == s
  {
  }

  /** A window of one or more words joins to a non-empty string. */
  lemma JoinWordsNonEmpty(ws: seq<string>)
    requires AllWords(ws) && |ws| > 0
    ensures Join(" ", ws) != ""
  {
    SplitJoin(ws);
  }

  /** `s.replace(from, to)` for single characters. */
  function Replace(s: string, from: char, to: char): (r: string)
    ensures |r| == |s|
    ensures forall i :: 0 <= i < |s| ==> r[i] == (if s[i] == from then to else s[i])
  {
    if s == [] then [] else [if s[0] == from then to else s[0]] + Replace(s[1..], from, to)
  }

  function DigitChar(d: nat): (c: char)
    requires d < 10
    ensures '0' <= c <= '9'
  {
    ('0' as int + d) as char
  }

  predicate IsDigits(s: string) {
    forall i :: 0 <= i < |s| ==> '0' <= s[i] <= '9'
  }

  /** `str(n)` for a non-negative integer: decimal, no leading zeros. */
  function NatToString(n: nat): (s: string)
    ensures |s| >= 1 && IsDigits(s)
    ensures |s| > 1 ==> s[0] != '0'
  {
    if n < 10 then [DigitChar(n)] else NatToString(n / 10) + [DigitChar(n % 10)]
  }

  /** `int(s)` for a string of decimal digits. */
  function ParseNat(s: string): nat
    requires IsDigits(s)
  {
    if s == [] then 0 else ParseNat(s[..|s| - 1]) * 10 + (s[|s| - 1] as int - '0' as int)
  }

  lemma {:induction false} ParseNatToString(n: nat)
    ensures ParseNat(NatToString(n)) == n
  {
    if n >= 10 {
      var s := NatToString(n);
      assert s[..|s| - 1] == NatToString(n / 10);
      ParseNatToString(n / 10);
    }
  }

  lemma NatToStringInjective(a: nat, b: nat)
    requires NatToString(a) == NatToString(b)
    ensures a == b
  {
    ParseNatToString(a);
    ParseNatToString(b);
  }

  /** `str(i)` for any integer. */
  function IntToString(i: int): (s: string)
    ensures '_' !in s && |s| >= 1
  {
    if i < 0 then "-" + NatToString(-i) else NatToString(i)
  }

  lemma IntToStringInjective(a: int, b: int)
    requires IntToString(a) == IntToString(b)
    ensures a == b
  {
    if a < 0 && b < 0 {
      assert NatToString(-a) == IntToString(a)[1..];
      NatToStringInjective(-a, -b);
    } else if a >= 0 && b >= 0 {
      NatToStringInjective(a, b);
    }
  }

  /** Number of characters after the last underscore (all of them if there is none). */
  function TailLength(t: string): (n: nat)
    ensures n <= |t|
  {
    if t == [] || t[|t| - 1] == '_' then 0 else 1 + TailLength(t[..|t| - 1])
  }

  lemma {:induction false} TailLengthAfterUnderscore(p: string, q: string)
    requires '_' !in q
    ensures TailLength(p + "_" + q) == |q|
  {
    if q != [] {
      var t := p + "_" + q;
      assert t[|t| - 1] == q[|q| - 1];
      assert t[..|t| - 1] == p + "_" + q[..|q| - 1];
      TailLengthAfterUnderscore(p, q[..|q| - 1]);
    }
  }

  /** When neither tail holds an underscore, the last underscore splits a joined
      name uniquely. */
  lemma SplitAtLastUnderscore(a: string, x: string, b: string, y: string)
    requires '_' !in x && '_' !in y
    requires a + "_" + x == b + "_" + y
    ensures a == b && x == y
  {
    var s := a + "_" + x;
    TailLengthAfterUnderscore(a, x);
    TailLengthAfterUnderscore(b, y);
    assert x == s[|s| - |x|..];
    assert a == s[..|a|];
  }
}
