/**
 * String helpers shared by the renderers: `Array.prototype.join`, `new Array(n).fill(x)`,
 * SQL `LIKE '%p%'` matching and `String.prototype.trim`.
 */
module Texts {

  /** `parts.join(sep)`: the parts in order with `sep` between neighbours. */
  function Join(parts: seq<string>, sep: string): string
  {
    if |parts| == 0 then ""
    else if |parts| == 1 then parts[0]
    else parts[0] + sep + Join(parts[1..], sep)
  }

  /** Joining one more part appends the separator and that part. */
  lemma {:induction false} JoinSnoc(parts: seq<string>, last: string, sep: string)
    requires |parts| > 0
    ensures Join(parts + [last], sep) == Join(parts, sep) + sep + last
  {
    if |parts| > 1 {
      assert (parts + [last])[1..] == parts[1..] + [last];
      JoinSnoc(parts[1..], last, sep);
    }
  }

  /** `new Array(n).fill(x)`. */
  function Repeat(x: string, n: nat): (r: seq<string>)
    ensures |r| == n
    ensures forall i :: 0 <= i < n ==> r[i] == x
  {
    if n == 0 then [] else [x] + Repeat(x, n - 1)
  }

  /** Number of occurrences of character `c` in `s`. */
  function Occurrences(s: string, c: char): nat
  {
    if |s| == 0 then 0 else (if s[0] == c then 1 else 0) + Occurrences(s[1..], c)
  }

  lemma {:induction false} OccurrencesAppend(a: string, b: string, c: char)
    ensures Occurrences(a + b, c) == Occurrences(a, c) + Occurrences(b, c)
  {
    if |a| == 0 {
      assert a + b == b;
    } else {
      assert (a + b)[1..] == a[1..] + b;
      OccurrencesAppend(a[1..], b, c);
    }
  }

  /** Sum of the occurrences of `c` over all parts. */
  function OccurrencesIn(parts: seq<string>, c: char): nat
  {
    if |parts| == 0 then 0 else Occurrences(parts[0], c) + OccurrencesIn(parts[1..], c)
  }

  /**
   * Joining with the one-character separator `[c]` inserts exactly |parts| - 1 copies of `c`
   * beside the ones the parts already hold.
   */
  lemma {:induction false} JoinInsertsSeparators(parts: seq<string>, c: char)
    requires |parts| > 0
    ensures Occurrences(Join(parts, [c]), c) == OccurrencesIn(parts, c) + |parts| - 1
  {
    if |parts| > 1 {
      JoinInsertsSeparators(parts[1..], c);
      OccurrencesAppend(parts[0] + [c], Join(parts[1..], [c]), c);
      OccurrencesAppend(parts[0], [c], c);
      assert Occurrences([c], c) == 1 by {
        assert [c][1..] == [];
      }
      assert parts[1..][1..] == parts[2..];
    } else {
      assert parts[1..] == [];
    }
  }

  /** ASCII upper-casing, the only case folding SQLite's LIKE performs by default. */
  function UpperAscii(c: char): char
  {
    if 'a' <= c <= 'z' then (c as int - 32) as char else c
  }

  function UpperAsciiString(s: string): (r: string)
    ensures |r| == |s|
    ensures forall i :: 0 <= i < |s| ==> r[i] == UpperAscii(s[i])
  {
    if |s| == 0 then "" else [UpperAscii(s[0])] + UpperAsciiString(s[1..])
  }

  predicate StartsWith(s: string, p: string)
  {
    |p| <= |s| && s[..|p|] == p
  }

  /** `p` occurs somewhere inside `s`. */
  predicate Contains(s: string, p: string)
  {
    StartsWith(s, p) || (|s| > 0 && Contains(s[1..], p))
  }

  lemma {:induction false} ContainsAt(s: string, p: string, i: nat)
    requires i + |p| <= |s| && s[i..i + |p|] == p
    ensures Contains(s, p)
  {
    if i > 0 {
      assert s[1..][i - 1..i - 1 + |p|] == s[i..i + |p|];
      ContainsAt(s[1..], p, i - 1);
    }
  }

  lemma {:induction false} ContainsWitness(s: string, p: string) returns (i: nat)
    requires Contains(s, p)
    ensures i + |p| <= |s| && s[i..i + |p|] == p
  {
    if StartsWith(s, p) {
      i := 0;
    } else {
      var j := ContainsWitness(s[1..], p);
      i := j + 1;
      assert s[1..][j..j + |p|] == s[i..i + |p|];
    }
  }

  /**
   * The SQL pattern `x LIKE '%P%'` for an upper-case ASCII pattern P: P occurs in x
   * ignoring the case of ASCII letters.
   */
  predicate LikeInfix(x: string, pattern: string)
  {
    Contains(UpperAsciiString(x), pattern)
  }

  /**
   * The characters `String.prototype.trim` removes: the ECMAScript WhiteSpace and
   * LineTerminator code points.
   */
  predicate IsJsSpace(c: char)
  {
    c == '\t' || c == '\n' || c == '\U{B}' || c == '\U{C}' || c == '\r' || c == ' '
    || c == '\U{A0}' || c == '\U{1680}' || ('\U{2000}' <= c <= '\U{200A}')
    || c == '\U{2028}' || c == '\U{2029}' || c == '\U{202F}' || c == '\U{205F}'
    || c == '\U{3000}' || c == '\U{FEFF}'
  }

  function TrimStart(s: string): (r: string)
    ensures |r| <= |s| && r == s[|s| - |r|..]
    ensures |r| > 0 ==> !IsJsSpace(r[0])
    ensures forall i :: 0 <= i < |s| - |r| ==> IsJsSpace(s[i])
  {
    if |s| > 0 && IsJsSpace(s[0]) then TrimStart(s[1..]) else s
  }

  function TrimEnd(s: string): (r: string)
    ensures |r| <= |s| && r == s[..|r|]
    ensures |r| > 0 ==> !IsJsSpace(r[|r| - 1])
    ensures forall i :: |r| <= i < |s| ==> IsJsSpace(s[i])
  {
    if |s| > 0 && IsJsSpace(s[|s| - 1]) then TrimEnd(s[..|s| - 1]) else s
  }

  /** `s.trim()`. */
  function Trim(s: string): string
  {
    TrimEnd(TrimStart(s))
  }

  lemma {:induction false} TrimStartSkipsSpaces(a: string, rest: string)
    requires forall i :: 0 <= i < |a| ==> IsJsSpace(a[i])
    requires |rest| > 0 && !IsJsSpace(rest[0])
    ensures TrimStart(a + rest) == rest
  {
    if |a| > 0 {
      assert (a + rest)[1..] == a[1..] + rest;
      TrimStartSkipsSpaces(a[1..], rest);
    } else {
      assert a + rest == rest;
    }
  }

  lemma {:induction false} TrimEndSkipsSpaces(rest: string, b: string)
    requires forall i :: 0 <= i < |b| ==> IsJsSpace(b[i])
    requires |rest| > 0 && !IsJsSpace(rest[|rest| - 1])
    ensures TrimEnd(rest + b) == rest
  {
    if |b| > 0 {
      assert (rest + b)[..|rest + b| - 1] == rest + b[..|b| - 1];
      TrimEndSkipsSpaces(rest, b[..|b| - 1]);
    } else {
      assert rest + b == rest;
    }
  }

  /** Surrounding a text that neither starts nor ends with a space by spaces does not change its trim. */
  lemma TrimRemovesPadding(a: string, t: string, b: string)
    requires forall i :: 0 <= i < |a| ==> IsJsSpace(a[i])
    requires forall i :: 0 <= i < |b| ==> IsJsSpace(b[i])
    requires |t| > 0 && !IsJsSpace(t[0]) && !IsJsSpace(t[|t| - 1])
    ensures Trim(a + t + b) == t
  {
    assert a + t + b == a + (t + b);
    TrimStartSkipsSpaces(a, t + b);
    TrimEndSkipsSpaces(t, b);
  }
}
