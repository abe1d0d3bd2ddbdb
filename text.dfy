/** The fragments of .NET string handling that the survey code relies on:
    String.Trim, String.Trim(chars), String.Split(string) and the decimal
    rendering of an int inside an interpolated string. */
module Text {
  import opened Wrappers

  /** The characters for which .NET's char.IsWhiteSpace holds. */
  const WhiteSpace: set<char> := {
    '\t', '\n', '\U{000B}', '\U{000C}', '\r', ' ', '\U{0085}', '\U{00A0}', '\U{1680}',
    '\U{2000}', '\U{2001}', '\U{2002}', '\U{2003}', '\U{2004}', '\U{2005}', '\U{2006}',
    '\U{2007}', '\U{2008}', '\U{2009}', '\U{200A}', '\U{2028}', '\U{2029}', '\U{202F}',
    '\U{205F}', '\U{3000}'
  }

  /** Drops the leading characters that belong to `cs`. */
  function TrimStart(s: string, cs: set<char>): (r: string)
    ensures |r| <= |s| && r == s[|s| - |r|..]
    ensures r == [] || r[0] !in cs
    ensures forall i :: 0 <= i < |s| - |r| ==> s[i] in cs
  {
    if |s| > 0 && s[0] in cs then TrimStart(s[1..], cs) else s
  }

  /** Drops the trailing characters that belong to `cs`. */
  function TrimEnd(s: string, cs: set<char>): (r: string)
    ensures |r| <= |s| && r == s[..|r|]
    ensures r == [] || r[|r| - 1] !in cs
    ensures forall i :: |r| <= i < |s| ==> s[i] in cs
  {
    if |s| > 0 && s[|s| - 1] in cs then TrimEnd(s[..|s| - 1], cs) else s
  }

  /** String.Trim(chars): both ends; String.Trim() is Trim(s, WhiteSpace). */
  function Trim(s: string, cs: set<char>): string {
    TrimEnd(TrimStart(s, cs), cs)
  }

  /** A string whose first and last characters are outside `cs` is its own trim. */
  lemma TrimUntouched(s: string, cs: set<char>)
    requires |s| > 0 && s[0] !in cs && s[|s| - 1] !in cs
    ensures Trim(s, cs) == s
  {
  }

  /** Trimming a string wrapped in trimmable characters leaves the inner
      string when its own ends are not trimmable. */
  lemma {:induction false} TrimWrapped(pre: string, t: string, post: string, cs: set<char>)
    requires forall i :: 0 <= i < |pre| ==> pre[i] in cs
    requires forall i :: 0 <= i < |post| ==> post[i] in cs
    requires |t| > 0 && t[0] !in cs && t[|t| - 1] !in cs
    ensures Trim(pre + t + post, cs) == t
  {
    var u := t + post;
    assert pre + t + post == pre + u;
    assert u[0] == t[0];
    TrimStartPrefix(pre, u, cs);
    TrimEndSuffix(t, post, cs);
    assert Trim(pre + u, cs) == TrimEnd(u, cs);
  }

  lemma {:induction false} TrimStartPrefix(pre: string, s: string, cs: set<char>)
    requires forall i :: 0 <= i < |pre| ==> pre[i] in cs
    requires |s| > 0 && s[0] !in cs
    ensures TrimStart(pre + s, cs) == s
  {
    if pre != [] {
      assert (pre + s)[1..] == pre[1..] + s;
      TrimStartPrefix(pre[1..], s, cs);
    }
  }

  lemma {:induction false} TrimEndSuffix(s: string, post: string, cs: set<char>)
    requires forall i :: 0 <= i < |post| ==> post[i] in cs
    requires |s| > 0 && s[|s| - 1] !in cs
    ensures TrimEnd(s + post, cs) == s
  {
    if post != [] {
      var p' := post[..|post| - 1];
      assert (s + post)[..|s + post| - 1] == s + p';
      TrimEndSuffix(s, p', cs);
    } else {
      assert s + post == s;
    }
  }

  predicate OccursAt(s: string, sep: string, i: nat) {
    i + |sep| <= |s| && s[i..i + |sep|] == sep
  }

  /** The first position at or after `from` where `sep` occurs. */
  function IndexOf(s: string, sep: string, from: nat): (r: Option<nat>)
    decreases |s| - from
    ensures r.Some? ==> from <= r.value && OccursAt(s, sep, r.value)
    ensures r.Some? ==> forall j :: from <= j < r.value ==> !OccursAt(s, sep, j)
    ensures r.None? ==> forall j :: from <= j ==> !OccursAt(s, sep, j)
  {
    if from + |sep| > |s| then None
    else if s[from..from + |sep|] == sep then Some(from)
    else IndexOf(s, sep, from + 1)
  }

  /** String.Split(sep) with no options: the pieces between the
      non-overlapping occurrences of `sep`, scanning from the left. */
  function Split(s: string, sep: string): (parts: seq<string>)
    requires |sep| > 0
    decreases |s|
    ensures |parts| >= 1
  {
    match IndexOf(s, sep, 0)
    case None => [s]
    case Some(i) => [s[..i]] + Split(s[i + |sep|..], sep)
  }

  /** Splitting at a separator whose first character occurs once, in its
      one occurrence, gives the two sides. */
  lemma SplitOnce(a: string, b: string, sep: string)
    requires |sep| > 0 && sep[0] !in a && sep[0] !in b
    ensures Split(a + sep + b, sep) == [a, b]
  {
    var s := a + sep + b;
    assert s[|a|..|a| + |sep|] == sep;
    forall j: nat | j < |a|
      ensures !OccursAt(s, sep, j)
    {
      assert s[j] == a[j];
    }
    assert OccursAt(s, sep, |a|);
    var r := IndexOf(s, sep, 0);
    assert r.Some? && r.value <= |a|;
    assert r == Some(|a|);
    assert s[|a| + |sep|..] == b;
    assert s[..|a|] == a;
    forall j: nat
      ensures !OccursAt(b, sep, j)
    {
      if j < |b| { assert b[j] in b; }
    }
    assert IndexOf(b, sep, 0) == None;
  }

  /** A string in which the separator's first character is absent is one piece. */
  lemma SplitWithout(s: string, sep: string)
    requires |sep| > 0 && sep[0] !in s
    ensures Split(s, sep) == [s]
  {
    forall j: nat
      ensures !OccursAt(s, sep, j)
    {
      if j < |s| { assert s[j] in s; }
    }
    assert IndexOf(s, sep, 0) == None;
  }

  const Digits: string := "0123456789"

  /** The digits of a natural number, most significant first. */
  function NatString(n: nat): (r: string)
    ensures |r| >= 1
    ensures forall i :: 0 <= i < |r| ==> r[i] in Digits
  {
    if n < 10 then [Digits[n]] else NatString(n / 10) + [Digits[n % 10]]
  }

  /** An int as C# string interpolation renders it (invariant culture). */
  function IntString(n: int): string {
    if n < 0 then "-" + NatString(-n) else NatString(n)
  }

  function DigitValue(c: char): nat {
    if '0' <= c <= '9' then (c as int - '0' as int) as nat else 0
  }

  /** Reads a string of decimal digits back as a number. */
  function DigitsValue(s: string): nat {
    if s == [] then 0 else DigitsValue(s[..|s| - 1]) * 10 + DigitValue(s[|s| - 1])
  }

  /** The rendering of a natural number reads back as that number. */
  lemma {:induction false} NatStringValue(n: nat)
    ensures DigitsValue(NatString(n)) == n
  {
    if n < 10 {
      DigitValueOf(n);
    } else {
      NatStringValue(n / 10);
      DigitValueOf(n % 10);
      var s := NatString(n);
      assert s[..|s| - 1] == NatString(n / 10) && s[|s| - 1] == Digits[n % 10];
      assert n == n / 10 * 10 + n % 10;
    }
  }

  /** A digit reads back as its value. */
  lemma DigitValueOf(d: nat)
    requires d < 10
    ensures DigitValue(Digits[d]) == d
  {
  }
}
