/**
 * System.Guid as 32 hexadecimal nibbles, with the "D" text form
 * (8-4-4-4-12 groups, lower-case on output) used wherever a guid is written to
 * or read from an XML attribute.
 */
module Guids {
  import opened Optional

  type Nibble = x: int | 0 <= x < 16

  type Guid = s: seq<Nibble> | |s| == 32
    witness [0, 0, 0, 0, 0, 0, 0, 0, 0, 0, 0, 0, 0, 0, 0, 0, 0, 0, 0, 0, 0, 0, 0, 0, 0, 0, 0, 0, 0, 0, 0, 0]

  /** Guid.Empty: every nibble zero. */
  const Empty: Guid := [0, 0, 0, 0, 0, 0, 0, 0, 0, 0, 0, 0, 0, 0, 0, 0, 0, 0, 0, 0, 0, 0, 0, 0, 0, 0, 0, 0, 0, 0, 0, 0]

  predicate IsHex(c: char) {
    '0' <= c <= '9' || 'a' <= c <= 'f' || 'A' <= c <= 'F'
  }

  function HexChar(n: Nibble): (c: char)
    ensures IsHex(c)
  {
    if n < 10 then ('0' as int + n) as char else ('a' as int + n - 10) as char
  }

  function HexValue(c: char): (n: Nibble)
    requires IsHex(c)
  {
    if '0' <= c <= '9' then c as int - '0' as int
    else if 'a' <= c <= 'f' then c as int - 'a' as int + 10
    else c as int - 'A' as int + 10
  }

  lemma HexValueOfHexChar(n: Nibble)
    ensures HexValue(HexChar(n)) == n
  {
  }

  function Hex(ns: seq<Nibble>): (s: string)
    ensures |s| == |ns|
    ensures forall i :: 0 <= i < |ns| ==> s[i] == HexChar(ns[i])
  {
    seq(|ns|, i requires 0 <= i < |ns| => HexChar(ns[i]))
  }

  /** Guid.ToString(): the "D" form, 36 characters. */
  function Format(g: Guid): (s: string)
    ensures |s| == 36
  {
    Hex(g[..8]) + "-" + Hex(g[8..12]) + "-" + Hex(g[12..16]) + "-" + Hex(g[16..20]) + "-" + Hex(g[20..])
  }

  /** The 32 digit characters of a 36-character "D" form, hyphen positions dropped. */
  function DigitsOf(s: string): (d: string)
    requires |s| == 36
    ensures |d| == 32
  {
    s[..8] + s[9..13] + s[14..18] + s[19..23] + s[24..]
  }

  predicate IsDForm(s: string) {
    && |s| == 36
    && s[8] == '-' && s[13] == '-' && s[18] == '-' && s[23] == '-'
    && forall i :: 0 <= i < 32 ==> IsHex(DigitsOf(s)[i])
  }

  /** Guid.TryParse restricted to the "D" form; upper- and lower-case digits are accepted. */
  function TryParse(s: string): (r: Option<Guid>)
    ensures r.Some? <==> IsDForm(s)
    ensures r.Some? ==> forall i :: 0 <= i < 32 ==> r.value[i] == HexValue(DigitsOf(s)[i])
  {
    if IsDForm(s) then
      Some(seq(32, i requires 0 <= i < 32 => HexValue(DigitsOf(s)[i])))
    else
      None
  }

  /** ValueOrDefault(Guid.Empty) on an attribute or element value: a missing node or unreadable text is Empty. */
  function ValueOrEmpty(text: Option<string>): (g: Guid)
    ensures g != Empty ==> text.Some? && TryParse(text.value) == Some(g)
    ensures text.Some? && TryParse(text.value).Some? ==> g == TryParse(text.value).value
    ensures text.None? ==> g == Empty
  {
    match text
    case None => Empty
    case Some(s) => if TryParse(s).Some? then TryParse(s).value else Empty
  }

  lemma {:induction false} DigitsOfFormat(g: Guid)
    ensures DigitsOf(Format(g)) == Hex(g)
  {
    var s := Format(g);
    assert s[..8] == Hex(g[..8]);
    assert s[9..13] == Hex(g[8..12]);
    assert s[14..18] == Hex(g[12..16]);
    assert s[19..23] == Hex(g[16..20]);
    assert s[24..] == Hex(g[20..]);
    assert Hex(g[..8]) + Hex(g[8..12]) + Hex(g[12..16]) + Hex(g[16..20]) + Hex(g[20..]) == Hex(g);
  }

  /** Writing a guid and reading it back gives the same guid. */
  lemma {:induction false} ParseFormat(g: Guid)
    ensures TryParse(Format(g)) == Some(g)
  {
    var s := Format(g);
    DigitsOfFormat(g);
    assert IsDForm(s);
    var r := TryParse(s).value;
    forall i | 0 <= i < 32 ensures r[i] == g[i] {
      assert DigitsOf(s)[i] == HexChar(g[i]);
      HexValueOfHexChar(g[i]);
    }
    assert r == g;
  }

  /** Format is injective: distinct guids never share a text form. */
  lemma FormatInjective(a: Guid, b: Guid)
    requires Format(a) == Format(b)
    ensures a == b
  {
    ParseFormat(a);
    ParseFormat(b);
  }
}
