/**
 * The JavaScript string operations the renderer relies on, with their JavaScript
 * meaning: `replace` with a global pattern, `split`, `join`, `trim`, `includes`,
 * `toLowerCase`, and the decimal rendering of a non-negative integer.
 */
module Text {

  /** `s.replace(/c/g, rep)`: every occurrence of the character `c` becomes `rep`. */
  function ReplaceChar(s: string, c: char, rep: string): (r: string)
    ensures c !in rep ==> c !in r
  {
    if s == [] then [] else (if s[0] == c then rep else [s[0]]) + ReplaceChar(s[1..], c, rep)
  }

  /** Replacing a character works piece by piece. */
  lemma {:induction false} ReplaceCharAppend(a: string, b: string, c: char, rep: string)
    ensures ReplaceChar(a + b, c, rep) == ReplaceChar(a, c, rep) + ReplaceChar(b, c, rep)
  {
    if a != [] {
      assert (a + b)[0] == a[0];
      assert (a + b)[1..] == a[1..] + b;
      ReplaceCharAppend(a[1..], b, c, rep);
      var h := if a[0] == c then rep else [a[0]];
      assert ReplaceChar(a, c, rep) == h + ReplaceChar(a[1..], c, rep);
      assert ReplaceChar(a + b, c, rep) == h + (ReplaceChar(a[1..], c, rep) + ReplaceChar(b, c, rep));
    } else {
      assert a + b == b;
    }
  }

  /**
   * `s.replace(/pat/g, rep)` for a literal, non-empty pattern: the leftmost occurrence is
   * replaced, the scan resumes after it, and the replacement is never rescanned.
   */
  function ReplaceStr(s: string, pat: string, rep: string): string
    requires pat != []
    decreases |s|
  {
    if |s| < |pat| then s
    else if pat <= s then rep + ReplaceStr(s[|pat|..], pat, rep)
    else [s[0]] + ReplaceStr(s[1..], pat, rep)
  }

  /** `s.split(sep)` for a non-empty separator: always at least one piece. */
  function SplitStr(s: string, sep: string): (r: seq<string>)
    requires sep != []
    ensures |r| >= 1
    decreases |s|
  {
    if |s| < |sep| then [s]
    else if sep <= s then [[]] + SplitStr(s[|sep|..], sep)
    else
      var rest := SplitStr(s[1..], sep);
      [[s[0]] + rest[0]] + rest[1..]
  }

  /** `parts.join(sep)`. */
  function Join(parts: seq<string>, sep: string): string
  {
    if parts == [] then []
    else if |parts| == 1 then parts[0]
    else parts[0] + sep + Join(parts[1..], sep)
  }

  /** The pieces of a split, glued back together. */
  function Concat(parts: seq<string>): string
  {
    if parts == [] then [] else parts[0] + Concat(parts[1..])
  }

  /** Joining the pieces of a split with the same separator gives back the string. */
  lemma {:induction false} JoinSplit(s: string, sep: string)
    requires sep != []
    ensures Join(SplitStr(s, sep), sep) == s
    decreases |s|
  {
    if |s| < |sep| {
    } else if sep <= s {
      var rest := SplitStr(s[|sep|..], sep);
      JoinSplit(s[|sep|..], sep);
      assert SplitStr(s, sep) == [[]] + rest;
      JoinEmptyFirst(rest, sep);
      assert s == sep + s[|sep|..];
    } else {
      var rest := SplitStr(s[1..], sep);
      JoinSplit(s[1..], sep);
      assert SplitStr(s, sep) == [[s[0]] + rest[0]] + rest[1..];
      JoinConsFirst(s[0], rest, sep);
      assert s == [s[0]] + s[1..];
    }
  }

  /** An empty first piece contributes only the separator after it. */
  lemma JoinEmptyFirst(parts: seq<string>, sep: string)
    requires parts != []
    ensures Join([[]] + parts, sep) == sep + Join(parts, sep)
  {
    var q := [[]] + parts;
    assert q[0] == [] && q[1..] == parts;
  }

  /** A character put in front of the first piece ends up in front of the joined text. */
  lemma JoinConsFirst(c: char, parts: seq<string>, sep: string)
    requires parts != []
    ensures Join([[c] + parts[0]] + parts[1..], sep) == [c] + Join(parts, sep)
  {
    var q := [[c] + parts[0]] + parts[1..];
    assert q[0] == [c] + parts[0] && q[1..] == parts[1..];
    if |parts| > 1 {
      assert Join(q, sep) == ([c] + parts[0]) + sep + Join(parts[1..], sep);
      assert Join(parts, sep) == parts[0] + sep + Join(parts[1..], sep);
    }
  }

  /** Splitting at a one-character separator: a separator-free prefix stays in the first piece. */
  lemma {:induction false} SplitCharPrefix(p: string, x: string, c: char)
    requires c !in p
    ensures SplitStr(p + x, [c]) == [p + SplitStr(x, [c])[0]] + SplitStr(x, [c])[1..]
  {
    var xs := SplitStr(x, [c]);
    if p != [] {
      var y := p + x;
      assert y[0] == p[0] && y[1..] == p[1..] + x;
      SplitStrCons(y, [c]);
      SplitCharPrefix(p[1..], x, c);
      assert [p[0]] + (p[1..] + xs[0]) == p + xs[0];
    } else {
      assert p + x == x;
      assert p + xs[0] == xs[0];
      assert [xs[0]] + xs[1..] == xs;
    }
  }

  /** Where the separator does not start, the first character joins the first piece. */
  lemma SplitStrCons(s: string, sep: string)
    requires sep != [] && s != [] && !(sep <= s)
    ensures SplitStr(s, sep) == [[s[0]] + SplitStr(s[1..], sep)[0]] + SplitStr(s[1..], sep)[1..]
  {
    if |s| < |sep| {
      assert s == [s[0]] + s[1..];
    }
  }

  /** The pieces of a split at a one-character separator do not contain it. */
  lemma {:induction false} SplitCharPieces(s: string, c: char)
    ensures forall i :: 0 <= i < |SplitStr(s, [c])| ==> c !in SplitStr(s, [c])[i]
    decreases |s|
  {
    if |s| >= 1 {
      SplitCharPieces(s[1..], c);
      if [c] <= s {
        assert s[1..] == s[|[c]|..];
      }
    }
  }

  /**
   * Splitting the join of separator-free lines at a one-character separator gives
   * back the lines.
   */
  lemma {:induction false} SplitJoin(parts: seq<string>, c: char)
    requires parts != []
    requires forall i :: 0 <= i < |parts| ==> c !in parts[i]
    ensures SplitStr(Join(parts, [c]), [c]) == parts
  {
    if |parts| == 1 {
      SplitCharPrefix(parts[0], [], c);
      assert parts[0] + [] == parts[0];
    } else {
      var tail := Join(parts[1..], [c]);
      SplitJoin(parts[1..], c);
      SplitCharPrefix(parts[0], [c] + tail, c);
      assert ([c] + tail)[1..] == tail;
      assert [c] <= [c] + tail;
      assert SplitStr([c] + tail, [c]) == [[]] + parts[1..];
      assert Join(parts, [c]) == parts[0] + ([c] + tail);
      assert SplitStr(Join(parts, [c]), [c]) == [parts[0] + []] + parts[1..];
      assert parts[0] + [] == parts[0];
    }
  }

  /** `s.includes(sub)`. */
  predicate Contains(s: string, sub: string)
  {
    exists i :: 0 <= i <= |s| - |sub| && sub <= s[i..]
  }

  /** JavaScript's WhiteSpace and LineTerminator code points, the set `trim` removes. */
  predicate IsJsSpace(c: char)
  {
    var n := c as int;
    n == 0x09 || n == 0x0A || n == 0x0B || n == 0x0C || n == 0x0D || n == 0x20 ||
    n == 0xA0 || n == 0x1680 || (0x2000 <= n <= 0x200A) || n == 0x2028 || n == 0x2029 ||
    n == 0x202F || n == 0x205F || n == 0x3000 || n == 0xFEFF
  }

  function TrimStart(s: string): (r: string)
    ensures |r| <= |s| && r == s[|s| - |r|..]
    ensures forall i :: 0 <= i < |s| - |r| ==> IsJsSpace(s[i])
    ensures r != [] ==> !IsJsSpace(r[0])
  {
    if s != [] && IsJsSpace(s[0]) then TrimStart(s[1..]) else s
  }

  function TrimEnd(s: string): (r: string)
    ensures |r| <= |s| && r == s[..|r|]
    ensures forall i :: |r| <= i < |s| ==> IsJsSpace(s[i])
    ensures r != [] ==> !IsJsSpace(r[|r| - 1])
  {
    if s != [] && IsJsSpace(s[|s| - 1]) then TrimEnd(s[..|s| - 1]) else s
  }

  /** `s.trim()`: the middle of `s` once the surrounding white space is removed. */
  function Trim(s: string): (r: string)
    ensures exists i :: (0 <= i <= |s| - |r| && r == s[i..][..|r|] &&
      (forall k :: 0 <= k < i ==> IsJsSpace(s[k])) && (forall k :: i + |r| <= k < |s| ==> IsJsSpace(s[k])))
    ensures r != [] ==> !IsJsSpace(r[0]) && !IsJsSpace(r[|r| - 1])
  {
    var t := TrimStart(s);
    var r := TrimEnd(t);
    TrimParts(s, |s| - |t|, t, r);
    r
  }

  /** A middle slice with white space on either side, as `Trim` cuts it. */
  lemma TrimParts(s: string, i: nat, t: string, r: string)
    requires i <= |s| && t == s[i..] && |r| <= |t| && r == t[..|r|]
    requires forall k :: 0 <= k < i ==> IsJsSpace(s[k])
    requires forall k :: |r| <= k < |t| ==> IsJsSpace(t[k])
    ensures i <= |s| - |r| && r == s[i..][..|r|]
    ensures forall k :: i + |r| <= k < |s| ==> IsJsSpace(s[k])
  {
    assert forall k :: i + |r| <= k < |s| ==> s[k] == t[k - i];
  }

  /** `c.toLowerCase()` on the ASCII letters. */
  function LowerChar(c: char): char
  {
    if 'A' <= c <= 'Z' then (c as int + 32) as char else c
  }

  /** `s.toLowerCase()` for ASCII text. */
  function ToLower(s: string): (r: string)
    ensures |r| == |s|
    ensures forall i :: 0 <= i < |s| ==> r[i] == LowerChar(s[i])
  {
    if s == [] then [] else [LowerChar(s[0])] + ToLower(s[1..])
  }

  predicate IsDigit(c: char)
  {
    48 <= c as int <= 57
  }

  function DigitChar(d: nat): (c: char)
    requires d < 10
    ensures IsDigit(c)
  {
    (48 + d) as char
  }

  /** The decimal digits of `n`, without leading zeros, as `String(n)` writes them. */
  function NatToString(n: nat): (r: string)
    ensures |r| >= 1
    ensures forall i :: 0 <= i < |r| ==> IsDigit(r[i])
    ensures |r| > 1 ==> r[0] != '0'
  {
    if n < 10 then [DigitChar(n)] else NatToString(n / 10) + [DigitChar(n % 10)]
  }

  /** The value of a string of decimal digits. */
  function ParseNat(s: string): nat
    requires forall i :: 0 <= i < |s| ==> IsDigit(s[i])
  {
    if s == [] then 0
    else
      var d := s[|s| - 1];
      assert IsDigit(d);
      ParseNat(s[..|s| - 1]) * 10 + (d as int - 48)
  }

  /** Reading back a rendered number gives the number. */
  lemma {:induction false} ParseNatToString(n: nat)
    ensures ParseNat(NatToString(n)) == n
  {
    if n >= 10 {
      ParseNatToString(n / 10);
      var s := NatToString(n);
      assert s[..|s| - 1] == NatToString(n / 10);
    }
  }
}
