/** String primitives the parser relies on: `indexOf`, `trim`, `split('\n')` and the
    decimal rendering of line numbers, stated over `seq<char>`. */
module Text {

  /** The characters `trim` removes. JavaScript's set also holds the remaining Unicode
      space separators and the line terminators U+2028 and U+2029; this model fixes the
      common ones. */
  predicate IsWhitespace(c: char) {
    c == ' ' || c == '\t' || c == '\n' || c == '\r' || c == '\U{0B}' || c == '\U{0C}'
    || c == '\U{A0}' || c == '\U{FEFF}'
  }

  predicate AllWhitespace(s: string) {
    forall i :: 0 <= i < |s| ==> IsWhitespace(s[i])
  }

  /** `s.indexOf(c)`: the first position of `c`, or -1 when `c` does not occur. */
  function IndexOf(s: string, c: char): (r: int)
    ensures -1 <= r < |s|
    ensures r == -1 <==> c !in s
    ensures 0 <= r ==> s[r] == c && c !in s[..r]
  {
    if |s| == 0 then -1
    else if s[0] == c then 0
    else
      var k := IndexOf(s[1..], c);
      assert 0 <= k ==> s[..k + 1] == [s[0]] + s[1..][..k];
      if k == -1 then -1 else k + 1
  }

  /** The text before the first `c`; all of `s` when `c` does not occur. */
  function Before(s: string, c: char): (r: string)
    ensures c !in r
    ensures |r| <= |s| && r == s[..|r|]
    ensures |r| < |s| ==> s[|r|] == c
  {
    if s == [] || s[0] == c then [] else [s[0]] + Before(s[1..], c)
  }

  /** The text after the first `c`; empty when `c` does not occur. */
  function After(s: string, c: char): (r: string)
    ensures |r| <= |s|
    ensures c in s ==> |r| < |s|
  {
    if s == [] then [] else if s[0] == c then s[1..] else After(s[1..], c)
  }

  /** With no `c` in the text, all of it comes before one and nothing after. */
  lemma {:induction false} NoOccurrence(s: string, c: char)
    requires c !in s
    ensures Before(s, c) == s && After(s, c) == []
  {
    if s != [] {
      NoOccurrence(s[1..], c);
      assert s == [s[0]] + s[1..];
    }
  }

  /** The first `c` of `a + [c] + b` is the one after `a` when `a` holds none. */
  lemma {:induction false} FirstOccurrence(a: string, c: char, b: string)
    requires c !in a
    ensures Before(a + [c] + b, c) == a && After(a + [c] + b, c) == b
  {
    if a != [] {
      FirstOccurrence(a[1..], c, b);
      assert (a + [c] + b)[1..] == a[1..] + [c] + b;
    } else {
      assert a + [c] + b == [c] + b;
    }
  }

  /** `indexOf` finds the `c` placed right after a text holding none. */
  lemma FirstOccurrenceIndex(a: string, c: char, b: string)
    requires c !in a
    ensures IndexOf(a + [c] + b, c) == |a|
    ensures Before(a + [c] + b, c) == a && After(a + [c] + b, c) == b
  {
    var s := a + [c] + b;
    assert s[|a|] == c;
    assert s[..|a|] == a;
    FirstOccurrence(a, c, b);
  }

  /** A text holding `c` is what precedes its first `c`, the `c`, and what follows. */
  lemma BeforeAfterJoin(s: string, c: char)
    requires c in s
    ensures s == Before(s, c) + [c] + After(s, c)
  {
    var k := |Before(s, c)|;
    assert s == s[..k] + [c] + s[k + 1..];
    FirstOccurrence(s[..k], c, s[k + 1..]);
  }

  /** `Before` and `After` are the two slices around the position `indexOf` reports. */
  lemma BeforeAfterIndexOf(s: string, c: char)
    ensures IndexOf(s, c) == -1 ==> Before(s, c) == s && After(s, c) == []
    ensures IndexOf(s, c) > -1 ==> Before(s, c) == s[..IndexOf(s, c)] && After(s, c) == s[IndexOf(s, c) + 1..]
  {
    var k := IndexOf(s, c);
    if k == -1 {
      NoOccurrence(s, c);
    } else {
      assert s == s[..k] + [c] + s[k + 1..];
      FirstOccurrence(s[..k], c, s[k + 1..]);
    }
  }

  /** `trim`: drop the whitespace at both ends. */
  function Trim(s: string): string
  {
    if |s| > 0 && IsWhitespace(s[0]) then Trim(s[1..])
    else if |s| > 0 && IsWhitespace(s[|s| - 1]) then Trim(s[..|s| - 1])
    else s
  }

  /** What `Trim` leaves neither starts nor ends with whitespace, and is empty exactly when
      the text was all whitespace. */
  lemma {:induction false} TrimEnds(s: string)
    ensures |Trim(s)| <= |s|
    ensures Trim(s) != [] ==> !IsWhitespace(Trim(s)[0]) && !IsWhitespace(Trim(s)[|Trim(s)| - 1])
    ensures Trim(s) == [] <==> AllWhitespace(s)
  {
    if |s| > 0 && IsWhitespace(s[0]) {
      TrimEnds(s[1..]);
      if AllWhitespace(s[1..]) {
        forall i | 0 < i < |s| ensures IsWhitespace(s[i]) { assert s[i] == s[1..][i - 1]; }
      }
    } else if |s| > 0 && IsWhitespace(s[|s| - 1]) {
      TrimEnds(s[..|s| - 1]);
      assert !IsWhitespace(s[..|s| - 1][0]);
    } else if s != [] {
      assert !IsWhitespace(s[0]);
    }
  }

  lemma {:induction false} TrimDropsLeading(u: string, w: string)
    requires AllWhitespace(u)
    ensures Trim(u + w) == Trim(w)
  {
    if u != [] {
      assert (u + w)[0] == u[0];
      assert (u + w)[1..] == u[1..] + w;
      TrimDropsLeading(u[1..], w);
    } else {
      assert u + w == w;
    }
  }

  lemma {:induction false} TrimDropsTrailing(t: string, v: string)
    requires AllWhitespace(v)
    requires t == [] || (!IsWhitespace(t[0]) && !IsWhitespace(t[|t| - 1]))
    ensures Trim(t + v) == t
  {
    if v == [] {
      assert t + v == t;
    } else if t == [] {
      assert (t + v)[1..] == t + v[1..];
      TrimDropsTrailing(t, v[1..]);
    } else {
      var s := t + v;
      assert s[0] == t[0] && s[|s| - 1] == v[|v| - 1];
      assert s[..|s| - 1] == t + v[..|v| - 1];
      TrimDropsTrailing(t, v[..|v| - 1]);
    }
  }

  /** Trimming removes exactly the whitespace padding around a text that is not itself
      padded; the result of `Trim` is such a text, so trimming twice changes nothing. */
  lemma TrimOfPadded(u: string, t: string, v: string)
    requires AllWhitespace(u) && AllWhitespace(v)
    requires t == [] || (!IsWhitespace(t[0]) && !IsWhitespace(t[|t| - 1]))
    ensures Trim(u + t + v) == t
  {
    assert u + t + v == u + (t + v);
    TrimDropsLeading(u, t + v);
    TrimDropsTrailing(t, v);
  }

  lemma TrimIdempotent(s: string)
    ensures Trim(Trim(s)) == Trim(s)
  {
    var t := Trim(s);
    TrimEnds(s);
    assert [] + t + [] == t;
    TrimOfPadded([], t, []);
  }

  /** Inverse of `split('\n')`: the pieces glued back with a newline between each pair. */
  function JoinLines(lines: seq<string>): string
  {
    if |lines| == 0 then ""
    else if |lines| == 1 then lines[0]
    else lines[0] + "\n" + JoinLines(lines[1..])
  }

  predicate NoNewline(lines: seq<string>) {
    forall i :: 0 <= i < |lines| ==> '\n' !in lines[i]
  }

  /** `str.split('\n')`: never empty (the empty text is one empty line), no piece holds a
      newline, and joining the pieces gives the text back. */
  function SplitLines(s: string): (lines: seq<string>)
    ensures |lines| >= 1
    ensures NoNewline(lines)
    ensures JoinLines(lines) == s
    decreases |s|
  {
    if '\n' !in s then [s]
    else
      var rest := SplitLines(After(s, '\n'));
      var lines := [Before(s, '\n')] + rest;
      BeforeAfterJoin(s, '\n');
      assert lines[0] == Before(s, '\n') && lines[1..] == rest;
      assert NoNewline(lines) by {
        forall i | 0 <= i < |lines| ensures '\n' !in lines[i] {
          if i > 0 { assert lines[i] == rest[i - 1]; }
        }
      }
      lines
  }

  /** Splitting a join gives the pieces back, so `SplitLines` and `JoinLines` are inverse
      on newline-free pieces. */
  lemma {:induction false} SplitJoin(lines: seq<string>)
    requires |lines| >= 1 && NoNewline(lines)
    ensures SplitLines(JoinLines(lines)) == lines
  {
    if |lines| > 1 {
      var s := JoinLines(lines);
      var rest := JoinLines(lines[1..]);
      assert s == lines[0] + ['\n'] + rest;
      assert '\n' in s by { assert s[|lines[0]|] == '\n'; }
      FirstOccurrence(lines[0], '\n', rest);
      SplitJoin(lines[1..]);
      assert [lines[0]] + lines[1..] == lines;
    } else {
      assert JoinLines(lines) == lines[0] && '\n' !in lines[0];
    }
  }

  predicate IsDigit(c: char) {
    '0' <= c <= '9'
  }

  predicate IsDigits(s: string) {
    forall i :: 0 <= i < |s| ==> IsDigit(s[i])
  }

  /** The number a run of decimal digits denotes (`""` denotes 0). */
  function DecimalValue(s: string): nat
    requires IsDigits(s)
  {
    if s == [] then 0 else 10 * DecimalValue(s[..|s| - 1]) + (s[|s| - 1] as int - '0' as int)
  }

  /** The decimal rendering of a natural number, as `${n}` produces it. */
  function NatToString(n: nat): (r: string)
    ensures r != [] && IsDigits(r)
    ensures |r| > 1 ==> r[0] != '0'
  {
    if n < 10 then ['0' + (n as char)]
    else NatToString(n / 10) + ['0' + ((n % 10) as char)]
  }

  /** Reading the rendering back gives the number. */
  lemma {:induction false} DecimalRoundTrip(n: nat)
    ensures DecimalValue(NatToString(n)) == n
  {
    var r := NatToString(n);
    if n >= 10 {
      DecimalRoundTrip(n / 10);
      assert r[..|r| - 1] == NatToString(n / 10);
    }
  }
}
