/**
 * The parts of Rust's `str` API that the daemon relies on, written out over
 * `seq<char>`: `char::is_whitespace`, `trim`, `split_whitespace`, `lines`,
 * `split` on one character and `join`.
 */
module Text {

  /** `char::is_whitespace`: the Unicode White_Space property. */
  predicate IsWhitespace(c: char) {
    || ('\t' <= c <= '\r')
    || c == ' '
    || c == '\U{85}'
    || c == '\U{A0}'
    || c == '\U{1680}'
    || ('\U{2000}' <= c <= '\U{200A}')
    || c == '\U{2028}'
    || c == '\U{2029}'
    || c == '\U{202F}'
    || c == '\U{205F}'
    || c == '\U{3000}'
  }

  predicate AllWhitespace(s: string) {
    forall i :: 0 <= i < |s| ==> IsWhitespace(s[i])
  }

  predicate NoWhitespace(s: string) {
    forall i :: 0 <= i < |s| ==> !IsWhitespace(s[i])
  }

  /** True when `part` occurs somewhere inside `whole`. */
  predicate Contains(whole: string, part: string) {
    exists i, j :: 0 <= i <= j <= |whole| && whole[i..j] == part
  }

  lemma ContainsAt(whole: string, i: nat, part: string)
    requires i + |part| <= |whole| && whole[i..i + |part|] == part
    ensures Contains(whole, part)
  {
  }

  /** Number of whitespace characters `trim_start` removes. */
  function LeadingWhitespace(s: string): (k: nat)
    ensures k <= |s| && AllWhitespace(s[..k])
    ensures k == |s| || !IsWhitespace(s[k])
  {
    if s != [] && IsWhitespace(s[0]) then 1 + LeadingWhitespace(s[1..]) else 0
  }

  /** Number of whitespace characters `trim_end` removes. */
  function TrailingWhitespace(s: string): (k: nat)
    ensures k <= |s| && AllWhitespace(s[|s| - k..])
    ensures k == |s| || !IsWhitespace(s[|s| - k - 1])
  {
    if s != [] && IsWhitespace(s[|s| - 1]) then 1 + TrailingWhitespace(s[..|s| - 1]) else 0
  }

  /** Number of leading characters up to the first whitespace character. */
  function LeadingWord(s: string): (n: nat)
    ensures n <= |s| && NoWhitespace(s[..n])
    ensures n == |s| || IsWhitespace(s[n])
  {
    if s != [] && !IsWhitespace(s[0]) then 1 + LeadingWord(s[1..]) else 0
  }

  /** `str::trim`: drop whitespace from both ends. */
  function Trim(s: string): (r: string)
    ensures |r| <= |s|
    ensures r == [] <==> AllWhitespace(s)
    ensures r == [] || (!IsWhitespace(r[0]) && !IsWhitespace(r[|r| - 1]))
  {
    var t := s[LeadingWhitespace(s)..];
    var r := t[..|t| - TrailingWhitespace(t)];
    assert r == [] ==> AllWhitespace(s) by {
      if r == [] {
        assert s == s[..LeadingWhitespace(s)] + t[|t| - TrailingWhitespace(t)..];
      }
    }
    r
  }

  lemma {:induction false} LeadingWhitespaceOf(p: string, t: string)
    requires AllWhitespace(p)
    requires t == [] || !IsWhitespace(t[0])
    ensures LeadingWhitespace(p + t) == |p|
    decreases |p|
  {
    if p != [] {
      assert (p + t)[1..] == p[1..] + t;
      LeadingWhitespaceOf(p[1..], t);
    } else {
      assert p + t == t;
    }
  }

  lemma {:induction false} TrailingWhitespaceOf(t: string, q: string)
    requires AllWhitespace(q)
    requires t == [] || !IsWhitespace(t[|t| - 1])
    ensures TrailingWhitespace(t + q) == |q|
    decreases |q|
  {
    if q != [] {
      assert (t + q)[..|t + q| - 1] == t + q[..|q| - 1];
      TrailingWhitespaceOf(t, q[..|q| - 1]);
    } else {
      assert t + q == t;
    }
  }

  /**
   * Whatever whitespace surrounds a word, `trim` gives back exactly that word:
   * this pins `Trim` down completely.
   */
  lemma TrimOf(p: string, m: string, q: string)
    requires AllWhitespace(p) && AllWhitespace(q)
    requires m == [] || (!IsWhitespace(m[0]) && !IsWhitespace(m[|m| - 1]))
    ensures Trim(p + m + q) == m
  {
    var s := p + m + q;
    if m == [] {
      assert s == p + q;
      assert AllWhitespace(s);
    } else {
      assert s == p + (m + q);
      LeadingWhitespaceOf(p, m + q);
      var t := s[|p|..];
      assert t == m + q;
      TrailingWhitespaceOf(m, q);
      assert t[..|t| - |q|] == m;
    }
  }

  /** `trim` is idempotent, which the user store relies on when it re-trims a trimmed name. */
  lemma TrimIdempotent(s: string)
    ensures Trim(Trim(s)) == Trim(s)
  {
    var m := Trim(s);
    TrimOf([], m, []);
    assert [] + m + [] == m;
  }

  /** `str::split_whitespace`: the maximal runs of non-whitespace characters, in order. */
  function Tokens(s: string): (ts: seq<string>)
    ensures forall i :: 0 <= i < |ts| ==> ts[i] != [] && NoWhitespace(ts[i])
    ensures s == [] ==> ts == []
    decreases |s|
  {
    var k := LeadingWhitespace(s);
    if k == |s| then []
    else
      var rest := s[k..];
      var n := LeadingWord(rest);
      [rest[..n]] + Tokens(rest[n..])
  }

  /** `join(sep)` on a slice of strings. */
  function Join(ts: seq<string>, sep: string): (r: string)
    ensures |ts| == 1 ==> r == ts[0]
    ensures |ts| > 0 ==> ts[0] <= r
  {
    if |ts| == 0 then ""
    else if |ts| == 1 then ts[0]
    else ts[0] + sep + Join(ts[1..], sep)
  }

  /** A leading whitespace character does not change the tokens. */
  lemma TokensSkipOne(c: char, x: string)
    requires IsWhitespace(c)
    ensures Tokens([c] + x) == Tokens(x)
  {
    var s := [c] + x;
    assert s[1..] == x;
    var k := LeadingWhitespace(x);
    assert LeadingWhitespace(s) == 1 + k;
    assert s[1 + k..] == x[k..];
  }

  lemma {:induction false} LeadingWordOf(t: string, x: string)
    requires NoWhitespace(t)
    requires x == [] || IsWhitespace(x[0])
    ensures LeadingWord(t + x) == |t|
    decreases |t|
  {
    if t != [] {
      assert (t + x)[1..] == t[1..] + x;
      LeadingWordOf(t[1..], x);
    } else {
      assert t + x == x;
    }
  }

  lemma {:induction false} TokensOfWordThen(t: string, x: string)
    requires t != [] && NoWhitespace(t)
    requires x == [] || IsWhitespace(x[0])
    ensures Tokens(t + x) == [t] + Tokens(x)
  {
    var s := t + x;
    assert LeadingWhitespace(s) == 0;
    assert s[0..] == s;
    LeadingWordOf(t, x);
    assert s[..|t|] == t && s[|t|..] == x;
  }

  /** A word, a space and the rest split into the word followed by the rest's tokens. */
  lemma TokensOfWordSpace(t: string, rest: string)
    requires t != [] && NoWhitespace(t)
    ensures Tokens(t + " " + rest) == [t] + Tokens(rest)
  {
    assert t + " " + rest == t + (" " + rest);
    TokensOfWordThen(t, " " + rest);
    TokensSkipOne(' ', rest);
  }

  /**
   * Tokens separated by single spaces come back unchanged from
   * `split_whitespace`: the inverse of joining with " ".
   */
  lemma {:induction false} TokensOfJoin(ts: seq<string>)
    requires forall i :: 0 <= i < |ts| ==> ts[i] != [] && NoWhitespace(ts[i])
    ensures Tokens(Join(ts, " ")) == ts
    decreases |ts|
  {
    if |ts| == 1 {
      TokensOfWordThen(ts[0], []);
      assert ts[0] + [] == ts[0];
    } else if |ts| > 1 {
      TokensOfJoin(ts[1..]);
      TokensOfJoinStep(ts[0], ts[1..]);
      assert ts == [ts[0]] + ts[1..];
    }
  }

  /** The inductive step of `TokensOfJoin`: one more word in front. */
  lemma TokensOfJoinStep(t: string, ts: seq<string>)
    requires t != [] && NoWhitespace(t) && ts != []
    requires Tokens(Join(ts, " ")) == ts
    ensures Tokens(Join([t] + ts, " ")) == [t] + ts
  {
    var all := [t] + ts;
    assert all[0] == t && all[1..] == ts;
    assert Join(all, " ") == t + " " + Join(ts, " ");
    TokensOfWordSpace(t, Join(ts, " "));
  }

  /** Index of the first `c` in `s`, or `|s|` when there is none. */
  function IndexOf(s: string, c: char): (i: nat)
    ensures i <= |s| && c !in s[..i]
    ensures i < |s| ==> s[i] == c
  {
    if s == [] then 0
    else if s[0] == c then 0
    else 1 + IndexOf(s[1..], c)
  }

  lemma {:induction false} IndexOfAfter(p: string, c: char, t: string)
    requires c !in p
    ensures IndexOf(p + [c] + t, c) == |p|
    decreases |p|
  {
    if p != [] {
      assert (p + [c] + t)[1..] == p[1..] + [c] + t;
      IndexOfAfter(p[1..], c, t);
    } else {
      assert p + [c] + t == [c] + t;
    }
  }

  /** A line with the carriage return of a `\r\n` ending removed. */
  function StripCr(l: string): string {
    if l != [] && l[|l| - 1] == '\r' then l[..|l| - 1] else l
  }

  /**
   * `str::lines`: split at `\n`, drop a `\r` just before each `\n`, and
   * produce no empty line after a final `\n`.
   */
  function Lines(s: string): (ls: seq<string>)
    ensures forall i :: 0 <= i < |ls| ==> '\n' !in ls[i]
    ensures s == [] <==> ls == []
    decreases |s|
  {
    if s == [] then []
    else
      var i := IndexOf(s, '\n');
      if i == |s| then [s]
      else [StripCr(s[..i])] + Lines(s[i + 1..])
  }

  /** Each line followed by `\n`, concatenated. */
  function Terminated(ls: seq<string>): string {
    if ls == [] then "" else ls[0] + "\n" + Terminated(ls[1..])
  }

  /** A line `lines` can give back as it is: no `\n` inside, no trailing `\r`. */
  predicate PlainLine(l: string) {
    '\n' !in l && (l == [] || l[|l| - 1] != '\r')
  }

  /** One plain line and its newline come off the front as that line. */
  lemma LinesCons(l: string, rest: string)
    requires PlainLine(l)
    ensures Lines(l + ['\n'] + rest) == [l] + Lines(rest)
  {
    var s := l + ['\n'] + rest;
    IndexOfAfter(l, '\n', rest);
    assert s[..|l|] == l;
    assert s[|l| + 1..] == rest;
  }

  /** `lines` undoes writing each line followed by a newline. */
  lemma {:induction false} LinesOfTerminated(ls: seq<string>)
    requires forall i :: 0 <= i < |ls| ==> PlainLine(ls[i])
    ensures Lines(Terminated(ls)) == ls
    decreases |ls|
  {
    if ls != [] {
      var rest := Terminated(ls[1..]);
      assert Terminated(ls) == ls[0] + ['\n'] + rest;
      LinesCons(ls[0], rest);
      LinesOfTerminated(ls[1..]);
      assert ls == [ls[0]] + ls[1..];
    }
  }

  /** `str::split(c)`: the pieces between occurrences of `c`; never empty. */
  function SplitOn(s: string, c: char): (ps: seq<string>)
    ensures |ps| >= 1
    ensures forall i :: 0 <= i < |ps| ==> c !in ps[i]
    decreases |s|
  {
    var i := IndexOf(s, c);
    if i == |s| then [s] else [s[..i]] + SplitOn(s[i + 1..], c)
  }

  /** Splitting at `c` undoes joining with `c`, when no piece holds a `c`. */
  lemma {:induction false} SplitOnJoin(ts: seq<string>, c: char)
    requires |ts| >= 1
    requires forall i :: 0 <= i < |ts| ==> c !in ts[i]
    ensures SplitOn(Join(ts, [c]), c) == ts
    decreases |ts|
  {
    if |ts| == 1 {
      assert IndexOf(ts[0], c) == |ts[0]|;
    } else {
      var rest := Join(ts[1..], [c]);
      var s := Join(ts, [c]);
      assert s == ts[0] + [c] + rest;
      IndexOfAfter(ts[0], c, rest);
      assert s[..|ts[0]|] == ts[0];
      assert s[|ts[0]| + 1..] == rest;
      SplitOnJoin(ts[1..], c);
      assert ts == [ts[0]] + ts[1..];
    }
  }
}
