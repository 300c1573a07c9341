/**
 * Character classes and string operations of the JavaScript and Python
 * built-ins that the site's scripts rely on (regular-expression classes,
 * case mapping, startsWith/endsWith, split/join, trim).
 */
module Text {

  /** `Option` as returned by lookups that can miss. */
  datatype Option<+T> = None | Some(value: T)

  predicate IsUpper(c: char) { 'A' <= c <= 'Z' }
  predicate IsLower(c: char) { 'a' <= c <= 'z' }
  predicate IsDigit(c: char) { '0' <= c <= '9' }

  /** `[A-Za-z0-9]` */
  predicate IsAlnum(c: char) { IsUpper(c) || IsLower(c) || IsDigit(c) }

  /** `\w` of a JavaScript regular expression (without the `u` flag). */
  predicate IsWordChar(c: char) { IsAlnum(c) || c == '_' }

  /**
   * JavaScript's WhiteSpace and LineTerminator code points: the set matched
   * by `\s` and removed by `String.prototype.trim`.
   */
  predicate IsSpace(c: char) {
    || c == '\t' || c == '\n' || c == '\U{000B}' || c == '\U{000C}' || c == '\r' || c == ' '
    || c == '\U{00A0}' || c == '\U{1680}' || ('\U{2000}' <= c <= '\U{200A}')
    || c == '\U{2028}' || c == '\U{2029}' || c == '\U{202F}' || c == '\U{205F}'
    || c == '\U{3000}' || c == '\U{FEFF}'
  }

  /** `toLowerCase` on one character, ASCII letters only. */
  function Lower(c: char): (r: char)
    ensures !IsUpper(r)
    ensures IsUpper(c) <==> r != c
    ensures IsAlnum(r) <==> IsAlnum(c)
  {
    if IsUpper(c) then (c as int + 32) as char else c
  }

  /** `toUpperCase` on one character, ASCII letters only. */
  function Upper(c: char): (r: char)
    ensures !IsLower(r)
    ensures IsLower(c) <==> r != c
    ensures Lower(r) == Lower(c)
  {
    if IsLower(c) then (c as int - 32) as char else c
  }

  /** `String.prototype.toLowerCase`, ASCII letters only. */
  function LowerString(s: string): (r: string)
    ensures |r| == |s|
    ensures forall i :: 0 <= i < |s| ==> r[i] == Lower(s[i])
  {
    seq(|s|, i requires 0 <= i < |s| => Lower(s[i]))
  }

  /** `s.replace(/x/g, y)` for single characters `x` and `y`. */
  function ReplaceChar(s: string, x: char, y: char): (r: string)
    ensures |r| == |s|
    ensures forall i :: 0 <= i < |s| ==> r[i] == if s[i] == x then y else s[i]
  {
    seq(|s|, i requires 0 <= i < |s| => if s[i] == x then y else s[i])
  }

  predicate StartsWith(s: string, prefix: string) {
    |prefix| <= |s| && s[..|prefix|] == prefix
  }

  predicate EndsWith(s: string, suffix: string) {
    |suffix| <= |s| && s[|s| - |suffix|..] == suffix
  }

  /** `s.replace(/^p/, '')`: drops `p` when `s` starts with it. */
  function DropPrefix(s: string, p: string): (r: string)
    ensures StartsWith(s, p) ==> s == p + r
    ensures !StartsWith(s, p) ==> r == s
  {
    if StartsWith(s, p) then s[|p|..] else s
  }

  /** Dropping a prefix that was just prepended gives back the rest. */
  lemma DropPrefixOf(p: string, rest: string)
    ensures StartsWith(p + rest, p) && DropPrefix(p + rest, p) == rest
  {
    assert (p + rest)[..|p|] == p;
  }

  /**
   * `String.prototype.trim`: the middle of `s` left after removing the white
   * space at both ends, and nothing else.
   */
  function Trim(s: string): (r: string)
    ensures |r| > 0 ==> !IsSpace(r[0]) && !IsSpace(r[|r| - 1])
    ensures exists a, b :: 0 <= a <= b <= |s| && r == s[a..b]
                           && forall m :: (0 <= m < a || b <= m < |s|) ==> IsSpace(s[m])
    ensures |s| > 0 && !IsSpace(s[0]) && !IsSpace(s[|s| - 1]) ==> r == s
  {
    TrimMiddle(s);
    TrimEnd(TrimStart(s))
  }

  /** What `Trim` removes: the white space before `a` and from `a + |r|` on. */
  lemma TrimMiddle(s: string)
    ensures var t := TrimStart(s); var r := TrimEnd(t); var a := |s| - |t|;
      && a + |r| <= |s| && r == s[a..a + |r|]
      && forall m :: (0 <= m < a || a + |r| <= m < |s|) ==> IsSpace(s[m])
  {
    var t := TrimStart(s);
    TrimStartSpaces(s);
    TrimEndSpaces(t);
    MiddleSlice(s, |s| - |t|, t, TrimEnd(t));
  }

  /** `TrimStart` removes only white space. */
  lemma {:induction false} TrimStartSpaces(s: string)
    ensures forall m :: 0 <= m < |s| - |TrimStart(s)| ==> IsSpace(s[m])
  {
    if |s| > 0 && IsSpace(s[0]) {
      TrimStartSpaces(s[1..]);
      forall m | 1 <= m < |s| - |TrimStart(s)| ensures IsSpace(s[m]) {
        assert s[m] == s[1..][m - 1];
      }
    }
  }

  /** `TrimEnd` removes only white space. */
  lemma {:induction false} TrimEndSpaces(s: string)
    ensures forall m :: |TrimEnd(s)| <= m < |s| ==> IsSpace(s[m])
  {
    if |s| > 0 && IsSpace(s[|s| - 1]) {
      TrimEndSpaces(s[..|s| - 1]);
      forall m | |TrimEnd(s)| <= m < |s| - 1 ensures IsSpace(s[m]) {
        assert s[m] == s[..|s| - 1][m];
      }
    }
  }

  /** A prefix `r` of the suffix `t == s[a..]` is the slice of `s` from `a`. */
  lemma MiddleSlice(s: string, a: nat, t: string, r: string)
    requires a <= |s| && t == s[a..] && |r| <= |t| && r == t[..|r|]
    requires forall m :: 0 <= m < a ==> IsSpace(s[m])
    requires forall m :: |r| <= m < |t| ==> IsSpace(t[m])
    ensures a + |r| <= |s| && r == s[a..a + |r|]
    ensures forall m :: (0 <= m < a || a + |r| <= m < |s|) ==> IsSpace(s[m])
  {
    assert s[a..a + |r|] == t[..|r|];
    forall m | a + |r| <= m < |s| ensures IsSpace(s[m]) {
      assert s[m] == t[m - a];
    }
  }

  function TrimStart(s: string): (r: string)
    ensures |r| > 0 ==> !IsSpace(r[0])
    ensures |r| <= |s| && r == s[|s| - |r|..]
    ensures |s| > 0 && !IsSpace(s[0]) ==> r == s
  {
    if |s| > 0 && IsSpace(s[0]) then TrimStart(s[1..]) else s
  }

  function TrimEnd(s: string): (r: string)
    ensures |r| > 0 ==> !IsSpace(r[|r| - 1])
    ensures |r| <= |s| && r == s[..|r|]
    ensures |s| > 0 && !IsSpace(s[|s| - 1]) ==> r == s
    ensures |s| > 0 && !IsSpace(s[0]) && |r| > 0 ==> r[0] == s[0]
  {
    if |s| > 0 && IsSpace(s[|s| - 1]) then TrimEnd(s[..|s| - 1]) else s
  }

  /** Joins non-empty `parts` with `sep` between consecutive parts. */
  function Join(parts: seq<string>, sep: char): string
    requires |parts| > 0
  {
    if |parts| == 1 then parts[0] else parts[0] + [sep] + Join(parts[1..], sep)
  }

  /**
   * `String.prototype.split` with a one-character separator: the maximal
   * separator-free pieces between separators, so `""` gives `[""]` and
   * `"a/"` gives `["a", ""]`.
   */
  function Split(s: string, sep: char): (parts: seq<string>)
    ensures |parts| > 0
    ensures forall i :: 0 <= i < |parts| ==> sep !in parts[i]
    ensures Join(parts, sep) == s
    decreases |s|
  {
    if |s| == 0 then [""]
    else
      var rest := Split(s[1..], sep);
      if s[0] == sep then [""] + rest
      else
        JoinConsFirst(s[0], rest, sep);
        [[s[0]] + rest[0]] + rest[1..]
  }

  lemma JoinConsFirst(c: char, parts: seq<string>, sep: char)
    requires |parts| > 0
    ensures Join([[c] + parts[0]] + parts[1..], sep) == [c] + Join(parts, sep)
  {
    var q := [[c] + parts[0]] + parts[1..];
    assert q[1..] == parts[1..];
  }

  /** Splitting a join of separator-free parts gives the parts back. */
  lemma {:induction false} SplitJoin(parts: seq<string>, sep: char)
    requires |parts| > 0
    requires forall i :: 0 <= i < |parts| ==> sep !in parts[i]
    ensures Split(Join(parts, sep), sep) == parts
    decreases |parts|, |parts[0]|
  {
    if |parts| == 1 {
      SplitNoSep(parts[0], sep);
    } else if |parts[0]| == 0 {
      var s := Join(parts, sep);
      assert s == [sep] + Join(parts[1..], sep);
      assert s[1..] == Join(parts[1..], sep);
      SplitJoin(parts[1..], sep);
      assert [""] + parts[1..] == parts;
    } else {
      var c := parts[0][0];
      var q := [parts[0][1..]] + parts[1..];
      assert q[0] == parts[0][1..] && q[1..] == parts[1..];
      assert sep !in q[0] by { assert forall x :: x in q[0] ==> x in parts[0]; }
      SplitJoin(q, sep);
      var s := Join(parts, sep);
      assert s == [c] + Join(q, sep) by {
        assert [c] + parts[0][1..] == parts[0];
        JoinConsFirst(c, q, sep);
        assert [[c] + q[0]] + q[1..] == parts;
      }
      assert s[1..] == Join(q, sep);
      assert [[c] + q[0]] + q[1..] == parts;
    }
  }

  lemma {:induction false} SplitNoSep(s: string, sep: char)
    requires sep !in s
    ensures Split(s, sep) == [s]
    decreases |s|
  {
    if |s| > 0 {
      assert sep !in s[1..] by { assert forall x :: x in s[1..] ==> x in s; }
      SplitNoSep(s[1..], sep);
      assert [s[0]] + s[1..] == s;
    }
  }

  /** Decimal digits of a natural number, as `String(n)` prints them. */
  function NatToString(n: nat): (r: string)
    ensures |r| > 0
    ensures forall i :: 0 <= i < |r| ==> IsDigit(r[i])
    decreases n
  {
    if n < 10 then [('0' as int + n) as char]
    else NatToString(n / 10) + [('0' as int + n % 10) as char]
  }

  /** `String(n)` for an integer. */
  function IntToString(n: int): (r: string)
    ensures |r| > 0
  {
    if n < 0 then "-" + NatToString(-n) else NatToString(n)
  }
}
