/** Identifiers. Every key in the survey database is a .NET Guid; the model
    keeps a Guid as its 32 hexadecimal digits in the order they are printed,
    which is all the code observes of it (equality, printing, parsing). */
module Guids {
  import opened Wrappers
  import Text

  type Nibble = n: int | 0 <= n < 16

  type Guid = s: seq<Nibble> | |s| == 32 witness seq(32, i => 0)

  /** Guid.Empty, the all-zero identifier. */
  function Empty(): Guid { seq(32, i => 0) }

  const HexDigits: string := "0123456789abcdef"

  function HexChar(n: Nibble): char {
    HexDigits[n]
  }

  /** The value of one hexadecimal digit, in either case. */
  function HexValue(c: char): (r: Option<Nibble>)
    ensures r.Some? ==> c != '=' && c !in Text.WhiteSpace
  {
    if '0' <= c <= '9' then Some(c as int - '0' as int)
    else if 'a' <= c <= 'f' then Some(c as int - 'a' as int + 10)
    else if 'A' <= c <= 'F' then Some(c as int - 'A' as int + 10)
    else None
  }

  function Hex(ns: seq<Nibble>): (s: string)
    ensures |s| == |ns|
    ensures forall i :: 0 <= i < |ns| ==> s[i] == HexChar(ns[i])
  {
    seq(|ns|, i requires 0 <= i < |ns| => HexChar(ns[i]))
  }

  function ParseHex(s: string): (r: Option<seq<Nibble>>)
    ensures r.Some? ==> |r.value| == |s|
  {
    if s == [] then Some([])
    else match (HexValue(s[0]), ParseHex(s[1..]))
      case (Some(d), Some(rest)) => Some([d] + rest)
      case _ => None
  }

  /** The "D" rendering that Guid.ToString() produces:
      8-4-4-4-12 lower-case digits separated by hyphens. */
  function Format(g: Guid): (s: string)
    ensures |s| == 36
  {
    Hex(g[..8]) + "-" + Hex(g[8..12]) + "-" + Hex(g[12..16]) + "-" + Hex(g[16..20]) + "-" + Hex(g[20..])
  }

  /** The "D" layout: hyphens at 8, 13, 18, 23 and hex digits elsewhere. */
  function ParseD(s: string): Option<Guid> {
    if |s| == 36 && s[8] == '-' && s[13] == '-' && s[18] == '-' && s[23] == '-' then
      match ParseHex(s[..8] + s[9..13] + s[14..18] + s[19..23] + s[24..])
      case Some(ns) => Some(ns)
      case None => None
    else None
  }

  /** Guid.TryParse: surrounding white space is ignored; the accepted layouts
      are "N" (32 digits), "D", and "D" wrapped in braces ("B") or
      parentheses ("P"). */
  function Parse(s: string): Option<Guid> {
    ParseTrimmed(Text.Trim(s, Text.WhiteSpace))
  }

  function ParseTrimmed(t: string): Option<Guid> {
    if |t| == 32 then
      match ParseHex(t)
      case Some(ns) => Some(ns)
      case None => None
    else if |t| == 36 then ParseD(t)
    else if |t| == 38 && ((t[0] == '{' && t[37] == '}') || (t[0] == '(' && t[37] == ')')) then ParseD(t[1..37])
    else None
  }

  lemma {:induction false} ParseHexOfHex(ns: seq<Nibble>)
    ensures ParseHex(Hex(ns)) == Some(ns)
  {
    if ns != [] {
      assert Hex(ns)[1..] == Hex(ns[1..]);
      ParseHexOfHex(ns[1..]);
      HexCharValue(ns[0]);
      assert [ns[0]] + ns[1..] == ns;
    }
  }

  lemma HexAlphabet(ns: seq<Nibble>, c: char)
    requires c in Hex(ns)
    ensures c in HexDigits
  {
    var i :| 0 <= i < |ns| && Hex(ns)[i] == c;
  }

  /** A printed Guid consists of hex digits and hyphens only. */
  lemma FormatChars(g: Guid, c: char)
    requires c in Format(g)
    ensures c == '-' || c in HexDigits
  {
    if c != '-' {
      if c in Hex(g[..8]) { HexAlphabet(g[..8], c); }
      else if c in Hex(g[8..12]) { HexAlphabet(g[8..12], c); }
      else if c in Hex(g[12..16]) { HexAlphabet(g[12..16], c); }
      else if c in Hex(g[16..20]) { HexAlphabet(g[16..20], c); }
      else { HexAlphabet(g[20..], c); }
    }
  }

  /** The first and last characters of a printed Guid are hex digits. */
  lemma FormatEnds(g: Guid)
    ensures Format(g)[0] == HexChar(g[0]) && Format(g)[35] == HexChar(g[31])
  {
  }

  /** A printed digit reads back as itself, so it is not white space. */
  lemma HexCharValue(n: Nibble)
    ensures HexValue(HexChar(n)) == Some(n)
    ensures HexChar(n) !in Text.WhiteSpace
  {
  }

  lemma HexConcat(a: seq<Nibble>, b: seq<Nibble>)
    ensures Hex(a) + Hex(b) == Hex(a + b)
  {
  }

  /** The digits of a printed Guid, hyphens left out, are its hex rendering. */
  lemma FormatDigits(g: Guid)
    ensures var s := Format(g);
            s[..8] + s[9..13] + s[14..18] + s[19..23] + s[24..] == Hex(g)
  {
    Unhyphenate(Hex(g[..8]), Hex(g[8..12]), Hex(g[12..16]), Hex(g[16..20]), Hex(g[20..]));
    HexGroups(g);
  }

  /** The five groups of the "D" layout are found again at their offsets. */
  lemma Unhyphenate(a: string, b: string, c: string, d: string, e: string)
    requires |a| == 8 && |b| == 4 && |c| == 4 && |d| == 4 && |e| == 12
    ensures var s := a + "-" + b + "-" + c + "-" + d + "-" + e;
            s[..8] == a && s[9..13] == b && s[14..18] == c && s[19..23] == d && s[24..] == e
  {
  }

  /** The digits of the five groups, side by side, are the digits of the
      whole Guid. */
  lemma HexGroups(g: Guid)
    ensures Hex(g[..8]) + Hex(g[8..12]) + Hex(g[12..16]) + Hex(g[16..20]) + Hex(g[20..]) == Hex(g)
  {
    HexConcat(g[..8], g[8..12]);
    HexConcat(g[..8] + g[8..12], g[12..16]);
    HexConcat(g[..8] + g[8..12] + g[12..16], g[16..20]);
    HexConcat(g[..8] + g[8..12] + g[12..16] + g[16..20], g[20..]);
    assert g[..8] + g[8..12] + g[12..16] + g[16..20] + g[20..] == g;
  }

  /** Printing a Guid and parsing the text gives the Guid back. */
  lemma ParseFormat(g: Guid)
    ensures Parse(Format(g)) == Some(g)
  {
    var s := Format(g);
    FormatEnds(g);
    HexCharValue(g[0]);
    HexCharValue(g[31]);
    Text.TrimUntouched(s, Text.WhiteSpace);
    assert s[8] == '-' && s[13] == '-' && s[18] == '-' && s[23] == '-';
    FormatDigits(g);
    ParseHexOfHex(g);
    assert ParseD(s) == Some(g);
  }

  /** Different Guids print differently. */
  lemma FormatInjective(g: Guid, h: Guid)
    requires Format(g) == Format(h)
    ensures g == h
  {
    ParseFormat(g);
    ParseFormat(h);
  }
}
