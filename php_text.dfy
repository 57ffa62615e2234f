/**
 * The PHP string built-ins the client relies on, over ASCII text:
 * trim, explode/implode with a one-character separator, stripos used as a
 * containment test, str_ireplace with an empty replacement, the integer to
 * string conversion, and PCRE's `\s` and `\d` classes.
 */
module PhpText {

  /** PCRE's `\s` without Unicode properties: space, tab, LF, VT, FF, CR. */
  predicate IsSpace(c: char) {
    c == ' ' || c == '\t' || c == '\n' || c == '\U{B}' || c == '\U{C}' || c == '\r'
  }

  /** PCRE's `\d` over ASCII. */
  predicate IsDigit(c: char) {
    '0' <= c <= '9'
  }

  /** The characters PHP's trim() strips when no list is given: " \t\n\r\0\x0B". */
  const TrimSet: set<char> := {' ', '\t', '\n', '\r', '\0', '\U{B}'}

  /** Drops the leading characters that belong to cs. */
  function TrimLeft(s: string, cs: set<char>): (r: string)
    ensures |r| <= |s| && r == s[|s| - |r|..]
    ensures r != [] ==> r[0] !in cs
    decreases |s|
  {
    if s != [] && s[0] in cs then TrimLeft(s[1..], cs) else s
  }

  /** Drops the trailing characters that belong to cs. */
  function TrimRight(s: string, cs: set<char>): (r: string)
    ensures |r| <= |s| && r == s[..|r|]
    ensures r != [] ==> r[|r| - 1] !in cs
    decreases |s|
  {
    if s != [] && s[|s| - 1] in cs then TrimRight(s[..|s| - 1], cs) else s
  }

  /** Everything TrimLeft drops belongs to cs. */
  lemma {:induction false} TrimLeftDrops(s: string, cs: set<char>)
    ensures forall i :: 0 <= i < |s| - |TrimLeft(s, cs)| ==> s[i] in cs
    decreases |s|
  {
    if s != [] && s[0] in cs {
      TrimLeftDrops(s[1..], cs);
      forall i | 1 <= i < |s| - |TrimLeft(s, cs)|
        ensures s[i] in cs
      {
        assert s[i] == s[1..][i - 1];
      }
    }
  }

  /** Everything TrimRight drops belongs to cs. */
  lemma {:induction false} TrimRightDrops(s: string, cs: set<char>)
    ensures forall i :: |TrimRight(s, cs)| <= i < |s| ==> s[i] in cs
    decreases |s|
  {
    if s != [] && s[|s| - 1] in cs {
      TrimRightDrops(s[..|s| - 1], cs);
      forall i | |TrimRight(s, cs)| <= i < |s| - 1
        ensures s[i] in cs
      {
        assert s[i] == s[..|s| - 1][i];
      }
    }
  }

  /** TrimLeft stops at the first character outside cs. */
  lemma LeftStopsAt(b: string, k: nat, cs: set<char>)
    requires k < |b| && b[k] !in cs
    ensures |b| - |TrimLeft(b, cs)| <= k
  {
    TrimLeftDrops(b, cs);
  }

  /** TrimRight keeps text that ends outside cs. */
  lemma RightKeeps(l: string, cs: set<char>)
    requires l != [] && l[|l| - 1] !in cs
    ensures TrimRight(l, cs) == l
  {
  }

  /** Text whose last character and whose character at k are outside cs
      strips to what follows its first off <= k characters. */
  lemma StripFrom(b: string, k: nat, cs: set<char>) returns (off: nat)
    requires k < |b| && b[k] !in cs && b[|b| - 1] !in cs
    ensures off <= k && Strip(b, cs) == b[off..]
  {
    var l := TrimLeft(b, cs);
    off := |b| - |l|;
    LeftStopsAt(b, k, cs);
    assert l[|l| - 1] == b[|b| - 1];
    RightKeeps(l, cs);
  }

  /** trim($s, $chars) */
  function Strip(s: string, cs: set<char>): string {
    TrimRight(TrimLeft(s, cs), cs)
  }

  /** trim($s) */
  function Trim(s: string): string {
    Strip(s, TrimSet)
  }

  /** Text surrounded by strippable characters strips to exactly the text in between. */
  lemma StripPadded(a: string, b: string, c: string, cs: set<char>)
    requires forall i :: 0 <= i < |a| ==> a[i] in cs
    requires forall i :: 0 <= i < |c| ==> c[i] in cs
    requires b != [] && b[0] !in cs && b[|b| - 1] !in cs
    ensures Strip(a + b + c, cs) == b
  {
    assert a + b + c == a + (b + c);
    TrimLeftPadded(a, b + c, cs);
    TrimRightPadded(b, c, cs);
  }

  lemma {:induction false} TrimLeftPadded(a: string, s: string, cs: set<char>)
    requires forall i :: 0 <= i < |a| ==> a[i] in cs
    requires s != [] && s[0] !in cs
    ensures TrimLeft(a + s, cs) == s
    decreases |a|
  {
    if a != [] {
      assert (a + s)[0] == a[0];
      assert (a + s)[1..] == a[1..] + s;
      TrimLeftPadded(a[1..], s, cs);
    } else {
      assert a + s == s;
    }
  }

  lemma {:induction false} TrimRightPadded(s: string, c: string, cs: set<char>)
    requires forall i :: 0 <= i < |c| ==> c[i] in cs
    requires s != [] && s[|s| - 1] !in cs
    ensures TrimRight(s + c, cs) == s
    decreases |c|
  {
    if c != [] {
      assert (s + c)[|s + c| - 1] == c[|c| - 1];
      assert (s + c)[..|s + c| - 1] == s + c[..|c| - 1];
      TrimRightPadded(s, c[..|c| - 1], cs);
    } else {
      assert s + c == s;
    }
  }

  /** Text that only holds strippable characters strips to nothing. */
  lemma StripAll(s: string, cs: set<char>)
    requires forall i :: 0 <= i < |s| ==> s[i] in cs
    ensures Strip(s, cs) == []
  {
  }

  /** The length of the run of `\s` characters that starts at q. */
  function SpaceRun(s: string, q: nat): (n: nat)
    requires q <= |s|
    ensures q + n <= |s|
    ensures q + n < |s| ==> !IsSpace(s[q + n])
    decreases |s| - q
  {
    if q < |s| && IsSpace(s[q]) then 1 + SpaceRun(s, q + 1) else 0
  }

  /** Every character of the white-space run is white space. */
  lemma {:induction false} SpaceRunSpaces(s: string, q: nat)
    requires q <= |s|
    ensures forall k :: q <= k < q + SpaceRun(s, q) ==> IsSpace(s[k])
    decreases |s| - q
  {
    if q < |s| && IsSpace(s[q]) {
      SpaceRunSpaces(s, q + 1);
    }
  }

  /** The length of the run of decimal digits that starts at q. */
  function DigitRun(s: string, q: nat): (n: nat)
    requires q <= |s|
    ensures q + n <= |s|
    ensures q + n < |s| ==> !IsDigit(s[q + n])
    decreases |s| - q
  {
    if q < |s| && IsDigit(s[q]) then 1 + DigitRun(s, q + 1) else 0
  }

  /** Every character of the digit run is a digit. */
  lemma {:induction false} DigitRunDigits(s: string, q: nat)
    requires q <= |s|
    ensures forall k :: q <= k < q + DigitRun(s, q) ==> IsDigit(s[k])
    decreases |s| - q
  {
    if q < |s| && IsDigit(s[q]) {
      DigitRunDigits(s, q + 1);
    }
  }

  /** PHP's truth value of a string: "" and "0" are false. */
  predicate IsFalsyString(s: string) {
    s == "" || s == "0"
  }

  // ---------------------------------------------------------------- case folding

  /** ASCII lower-casing (what stripos, str_ireplace and PCRE's /i do on ASCII). */
  function Lower(c: char): (r: char)
    ensures 'A' <= c <= 'Z' ==> r as int == c as int + 32
    ensures !('A' <= c <= 'Z') ==> r == c
  {
    if 'A' <= c <= 'Z' then (c as int + 32) as char else c
  }

  predicate EqualsIgnoreCase(a: string, b: string) {
    |a| == |b| && forall i :: 0 <= i < |a| ==> Lower(a[i]) == Lower(b[i])
  }

  /** s[i..] begins with p, ignoring ASCII case. */
  predicate OccursAt(s: string, p: string, i: nat) {
    i + |p| <= |s| && forall k :: 0 <= k < |p| ==> Lower(s[i + k]) == Lower(p[k])
  }

  /** An occurrence is a slice equal to the pattern, ignoring case. */
  lemma OccursAtSlice(s: string, p: string, i: nat)
    ensures OccursAt(s, p, i) <==> i + |p| <= |s| && EqualsIgnoreCase(s[i..i + |p|], p)
  {
    if i + |p| <= |s| {
      var u := s[i..i + |p|];
      assert forall k :: 0 <= k < |p| ==> u[k] == s[i + k];
    }
  }

  /** stripos($haystack, $needle) !== false */
  predicate ContainsIgnoreCase(haystack: string, needle: string) {
    exists i: nat | i <= |haystack| :: OccursAt(haystack, needle, i)
  }

  /** A needle holding a character that no character of the haystack equals,
      ignoring case, does not occur in it. */
  lemma MissingCharNotContained(haystack: string, needle: string, m: nat)
    requires m < |needle|
    requires forall i :: 0 <= i < |haystack| ==> Lower(haystack[i]) != Lower(needle[m])
    ensures !ContainsIgnoreCase(haystack, needle)
  {
    forall i: nat | i <= |haystack|
      ensures !OccursAt(haystack, needle, i)
    {
      if i + |needle| <= |haystack| {
        assert haystack[i..i + |needle|][m] == haystack[i + m];
      }
    }
  }

  /** str_ireplace($pat, '', $s): every occurrence of pat, found left to right
      without overlap and ignoring case, is removed. */
  function RemoveIgnoreCase(s: string, pat: string): (r: string)
    requires pat != []
    ensures |r| <= |s|
    decreases |s|
  {
    if |s| < |pat| then s
    else if EqualsIgnoreCase(s[..|pat|], pat) then RemoveIgnoreCase(s[|pat|..], pat)
    else [s[0]] + RemoveIgnoreCase(s[1..], pat)
  }

  /** Text in which the first letter of the pattern never occurs is left as it is. */
  lemma {:induction false} RemoveAbsent(s: string, pat: string)
    requires pat != []
    requires forall i :: 0 <= i < |s| ==> Lower(s[i]) != Lower(pat[0])
    ensures RemoveIgnoreCase(s, pat) == s
    decreases |s|
  {
    if |s| >= |pat| {
      assert Lower(s[..|pat|][0]) != Lower(pat[0]);
      RemoveAbsent(s[1..], pat);
      assert s == [s[0]] + s[1..];
    }
  }

  // ---------------------------------------------------------------- explode / implode

  /** The first position of c in s. */
  function IndexOf(s: string, c: char): (i: nat)
    requires c in s
    ensures i < |s| && s[i] == c && c !in s[..i]
  {
    if s[0] == c then 0 else 1 + IndexOf(s[1..], c)
  }

  /** implode($sep, $parts) */
  function Join(parts: seq<string>, sep: char): string
    requires parts != []
  {
    if |parts| == 1 then parts[0] else parts[0] + [sep] + Join(parts[1..], sep)
  }

  /** explode($sep, $s) with a one-character separator: the pieces between
      separators, so never an empty list. */
  function Split(s: string, sep: char): (parts: seq<string>)
    ensures parts != []
    ensures forall i :: 0 <= i < |parts| ==> sep !in parts[i]
    decreases |s|
  {
    if sep !in s then [s]
    else
      var i := IndexOf(s, sep);
      var rest := Split(s[i + 1..], sep);
      assert ([s[..i]] + rest)[1..] == rest;
      [s[..i]] + rest
  }

  /** Imploding the pieces of an explode gives the text back. */
  lemma {:induction false} JoinSplit(s: string, sep: char)
    ensures Join(Split(s, sep), sep) == s
    decreases |s|
  {
    if sep in s {
      var i := IndexOf(s, sep);
      JoinSplit(s[i + 1..], sep);
      assert s == s[..i] + [sep] + s[i + 1..];
    }
  }

  /** The first separator of a + [sep] + t is the one after a when a has none. */
  lemma SplitFront(a: string, sep: char, t: string)
    requires sep !in a
    ensures Split(a + [sep] + t, sep) == [a] + Split(t, sep)
  {
    var s := a + [sep] + t;
    assert s[|a|] == sep;
    var i := IndexOf(s, sep);
    assert s[..|a|] == a;
    assert s[..i] == a;
    assert s[i + 1..] == t;
  }

  /** The other half of the round trip: pieces free of the separator are
      recovered by exploding their implosion. */
  lemma {:induction false} SplitJoin(parts: seq<string>, sep: char)
    requires parts != []
    requires forall i :: 0 <= i < |parts| ==> sep !in parts[i]
    ensures Split(Join(parts, sep), sep) == parts
    decreases |parts|
  {
    if |parts| > 1 {
      SplitFront(parts[0], sep, Join(parts[1..], sep));
      SplitJoin(parts[1..], sep);
      assert parts == [parts[0]] + parts[1..];
    }
  }

  // ---------------------------------------------------------------- integers as text

  /** The value of a run of decimal digits. */
  function DigitsValue(s: string): nat
    requires forall i :: 0 <= i < |s| ==> IsDigit(s[i])
  {
    if s == [] then 0
    else
      assert IsDigit(s[|s| - 1]);
      DigitsValue(s[..|s| - 1]) * 10 + (s[|s| - 1] as int - '0' as int)
  }

  function DigitChar(d: nat): (c: char)
    requires d < 10
    ensures IsDigit(c) && c as int - '0' as int == d
  {
    ('0' as int + d) as char
  }

  /** (string)$n for a non-negative integer: decimal digits without leading
      zeros, whose value is n. */
  function NatToString(n: nat): (s: string)
    ensures s != [] && forall i :: 0 <= i < |s| ==> IsDigit(s[i])
    ensures DigitsValue(s) == n
    ensures s[0] == '0' ==> s == "0"
    decreases n
  {
    if n < 10 then [DigitChar(n)]
    else
      var front := NatToString(n / 10);
      var s := front + [DigitChar(n % 10)];
      assert s[..|s| - 1] == front;
      s
  }

  /** (string)$i */
  function IntToString(i: int): string {
    if i < 0 then "-" + NatToString(-i) else NatToString(i)
  }

  /** Two numbers with the same text are the same number. */
  lemma NatToStringInjective(a: nat, b: nat)
    requires NatToString(a) == NatToString(b)
    ensures a == b
  {
    assert DigitsValue(NatToString(a)) == a;
  }
}
