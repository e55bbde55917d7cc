/** The JavaScript string built-ins the deployer relies on:
    `indexOf`/`includes` with a string argument, `split` on a one-character
    separator, and `trim`. A `string` here is a sequence of Unicode scalar
    values, where JavaScript counts UTF-16 code units; the results modelled
    do not depend on the difference, because `indexOf` is only compared with
    -1, `split` is on `','` and every white-space character is a single code
    unit. */
module JsStrings {

  /** The code points ECMAScript's `trim` (and `parseInt`) strip: the WhiteSpace
      and LineTerminator productions. */
  predicate IsWhite(c: char) {
    ('\t' <= c <= '\r') || c == ' ' || ('\U{00A0}' <= c && IsWideWhite(c))
  }

  /** The white-space code points outside ASCII. */
  predicate IsWideWhite(c: char) {
    c == '\U{00A0}' || c == '\U{1680}' || ('\U{2000}' <= c <= '\U{200A}') ||
    c == '\U{2028}' || c == '\U{2029}' || c == '\U{202F}' || c == '\U{205F}' ||
    c == '\U{3000}' || c == '\U{FEFF}'
  }

  predicate AllWhite(s: string) {
    forall i :: 0 <= i < |s| ==> IsWhite(s[i])
  }

  /** Neither end of `t` is white space: `t` is a fixed point of `trim`. */
  predicate IsTrimmed(t: string) {
    t == [] || (!IsWhite(t[0]) && !IsWhite(t[|t| - 1]))
  }

  // ---------------------------------------------------------------------------
  // indexOf / includes

  /** `sub` occurs in `s` starting at index `i`. */
  predicate OccursAt(s: string, sub: string, i: int) {
    0 <= i && i + |sub| <= |s| && s[i..i + |sub|] == sub
  }

  /** `s.indexOf(sub, k)`: the first occurrence at or after `k`, or -1. */
  function IndexOfFrom(s: string, sub: string, k: nat): (r: int)
    requires k <= |s|
    decreases |s| - k
    ensures r == -1 || (k <= r <= |s| && OccursAt(s, sub, r))
    ensures r == -1 ==> forall i :: k <= i <= |s| ==> !OccursAt(s, sub, i)
    ensures r != -1 ==> forall i :: k <= i < r ==> !OccursAt(s, sub, i)
  {
    if OccursAt(s, sub, k) then k
    else if k == |s| then -1
    else IndexOfFrom(s, sub, k + 1)
  }

  /** `s.indexOf(sub)`: the least index where `sub` occurs, -1 when none does. */
  function IndexOf(s: string, sub: string): (r: int)
    ensures -1 <= r <= |s|
    ensures r == -1 <==> forall i :: !OccursAt(s, sub, i)
    ensures r != -1 ==> OccursAt(s, sub, r) && forall i :: 0 <= i < r ==> !OccursAt(s, sub, i)
  {
    IndexOfFrom(s, sub, 0)
  }

  /** `s.includes(sub)`, equivalently `s.indexOf(sub) !== -1`. */
  predicate Includes(s: string, sub: string)
    ensures Includes(s, sub) <==> exists i :: OccursAt(s, sub, i)
  {
    IndexOf(s, sub) != -1
  }

  // ---------------------------------------------------------------------------
  // split

  function Count(s: string, c: char): nat {
    if s == [] then 0 else (if s[0] == c then 1 else 0) + Count(s[1..], c)
  }

  /** `s.split(sep)` for a one-character separator: the maximal separator-free
      pieces between separators, so `"".split(",")` is `[""]`. */
  function Split(s: string, sep: char): (parts: seq<string>)
    ensures |parts| == Count(s, sep) + 1
    ensures forall i :: 0 <= i < |parts| ==> sep !in parts[i]
  {
    if s == [] then [""]
    else
      var rest := Split(s[1..], sep);
      if s[0] == sep then [""] + rest
      else [[s[0]] + rest[0]] + rest[1..]
  }

  /** `parts.join(sep)`. */
  function Join(parts: seq<string>, sep: char): string {
    if parts == [] then ""
    else if |parts| == 1 then parts[0]
    else parts[0] + [sep] + Join(parts[1..], sep)
  }

  /** Joining the pieces back with the separator restores the input. */
  lemma {:induction false} JoinSplit(s: string, sep: char)
    ensures Join(Split(s, sep), sep) == s
  {
    if s != [] {
      var rest := Split(s[1..], sep);
      JoinSplit(s[1..], sep);
      if s[0] != sep {
        if |rest| == 1 {
          assert Split(s, sep) == [[s[0]] + rest[0]];
        } else {
          assert Split(s, sep)[1..] == rest[1..];
          assert Join(Split(s, sep), sep) == [s[0]] + rest[0] + [sep] + Join(rest[1..], sep);
        }
      }
    }
  }

  /** Splitting a join of separator-free pieces gives back those pieces. */
  lemma {:induction false} SplitJoin(parts: seq<string>, sep: char)
    requires |parts| >= 1
    requires forall i :: 0 <= i < |parts| ==> sep !in parts[i]
    ensures Split(Join(parts, sep), sep) == parts
  {
    if |parts| == 1 {
      SplitFree(parts[0], sep);
    } else {
      SplitJoin(parts[1..], sep);
      SplitPrefix(parts[0], Join(parts[1..], sep), sep);
      assert Join(parts, sep) == parts[0] + ([sep] + Join(parts[1..], sep));
    }
  }

  lemma {:induction false} SplitFree(s: string, sep: char)
    requires sep !in s
    ensures Split(s, sep) == [s]
  {
    if s != [] {
      SplitFree(s[1..], sep);
      assert s[0] != sep;
      assert [s[0]] + s[1..] == s;
    }
  }

  lemma {:induction false} SplitPrefix(p: string, rest: string, sep: char)
    requires sep !in p
    ensures Split(p + ([sep] + rest), sep) == [p] + Split(rest, sep)
  {
    if p == [] {
      assert p + ([sep] + rest) == [sep] + rest;
      assert ([sep] + rest)[1..] == rest;
    } else {
      var whole := p + ([sep] + rest);
      assert whole[0] == p[0] && whole[0] != sep;
      assert whole[1..] == p[1..] + ([sep] + rest);
      SplitPrefix(p[1..], rest, sep);
      assert [p[0]] + p[1..] == p;
    }
  }

  // ---------------------------------------------------------------------------
  // trim

  /** `s.trimStart()`: `s` without its leading white space. */
  function TrimStart(s: string): (r: string)
    ensures |r| <= |s| && r == s[|s| - |r|..]
    ensures AllWhite(s[..|s| - |r|])
    ensures r == [] || !IsWhite(r[0])
  {
    if s != [] && IsWhite(s[0]) then TrimStart(s[1..]) else s
  }

  /** `s.trimEnd()`: `s` without its trailing white space. */
  function TrimEnd(s: string): (r: string)
    ensures |r| <= |s| && r == s[..|r|]
    ensures AllWhite(s[|r|..])
    ensures r == [] || !IsWhite(r[|r| - 1])
  {
    if s != [] && IsWhite(s[|s| - 1]) then
      var r := TrimEnd(s[..|s| - 1]);
      assert s[|r|..] == s[..|s| - 1][|r|..] + [s[|s| - 1]];
      r
    else s
  }

  /** `s.trim()`: the factor of `s` left once white space is stripped from both
      ends. */
  function Trim(s: string): (r: string)
    ensures IsTrimmed(r)
    ensures |r| <= |s|
  {
    var t := TrimStart(s);
    var r := TrimEnd(t);
    TrimmedCore(t, r);
    r
  }

  lemma TrimmedCore(t: string, r: string)
    requires t == [] || !IsWhite(t[0])
    requires |r| <= |t| && r == t[..|r|] && (r == [] || !IsWhite(r[|r| - 1]))
    ensures IsTrimmed(r)
  {
    if r != [] {
      assert r[0] == t[0];
    }
  }

  /** `trim` leaves a factor of its input with only white space around it. */
  lemma TrimIsPaddedFactor(s: string)
    ensures exists i :: OccursAt(s, Trim(s), i) && AllWhite(s[..i]) && AllWhite(s[i + |Trim(s)|..])
  {
    var t := TrimStart(s);
    var r := TrimEnd(t);
    var i := |s| - |t|;
    PaddedFactor(s, t, r, i);
  }

  lemma PaddedFactor(s: string, t: string, r: string, i: int)
    requires 0 <= i <= |s| && t == s[i..] && AllWhite(s[..i])
    requires |r| <= |t| && r == t[..|r|] && AllWhite(t[|r|..])
    ensures OccursAt(s, r, i) && AllWhite(s[..i]) && AllWhite(s[i + |r|..])
  {
    assert s[i..i + |r|] == r;
    assert s[i + |r|..] == t[|r|..];
  }

  /** `trim` removes exactly the white-space padding around a trimmed core, so
      it is the unique such decomposition; in particular it is idempotent. */
  lemma TrimStrips(a: string, t: string, b: string)
    requires AllWhite(a) && AllWhite(b) && IsTrimmed(t)
    ensures Trim(a + t + b) == t
  {
    var s := a + t + b;
    if t == [] {
      assert s == a + b;
      TrimStartAllWhite(s);
    } else {
      var u := t + b;
      assert s == a + u;
      assert u[0] == t[0];
      TrimStartStrips(a, u);
      TrimEndStrips(t, b);
    }
  }

  lemma {:induction false} TrimStartAllWhite(s: string)
    requires AllWhite(s)
    ensures TrimStart(s) == []
  {
    if s != [] {
      TrimStartAllWhite(s[1..]);
    }
  }

  lemma {:induction false} TrimStartStrips(a: string, u: string)
    requires AllWhite(a)
    requires u == [] || !IsWhite(u[0])
    ensures TrimStart(a + u) == u
  {
    if a == [] {
      assert a + u == u;
    } else {
      assert (a + u)[1..] == a[1..] + u;
      TrimStartStrips(a[1..], u);
    }
  }

  /** Leading white space does not change what `trimStart` leaves. */
  lemma {:induction false} TrimStartSkips(w: string, s: string)
    requires AllWhite(w)
    ensures TrimStart(w + s) == TrimStart(s)
  {
    if w == [] {
      assert w + s == s;
    } else {
      assert (w + s)[1..] == w[1..] + s;
      TrimStartSkips(w[1..], s);
    }
  }

  lemma {:induction false} TrimEndStrips(t: string, b: string)
    requires AllWhite(b)
    requires t == [] || !IsWhite(t[|t| - 1])
    ensures TrimEnd(t + b) == t
  {
    if b == [] {
      assert t + b == t;
      if t != [] {
        assert TrimEnd(t) == t;
      }
    } else {
      var b' := b[..|b| - 1];
      assert (t + b)[..|t + b| - 1] == t + b';
      TrimEndStrips(t, b');
    }
  }

  lemma TrimIdempotent(s: string)
    ensures Trim(Trim(s)) == Trim(s)
  {
    TrimStrips([], Trim(s), []);
    assert [] + Trim(s) + [] == Trim(s);
  }

  /** A trimmed piece of a string free of some character is free of it too. */
  lemma TrimKeepsAbsent(s: string, c: char)
    requires c !in s
    ensures c !in Trim(s)
  {
    var r := Trim(s);
    TrimIsPaddedFactor(s);
    var i :| OccursAt(s, r, i) && AllWhite(s[..i]) && AllWhite(s[i + |r|..]);
  }
}
