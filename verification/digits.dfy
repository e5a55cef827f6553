/**
 Decimal digits and the numeric strings built from them. A one-time passcode
 is the concatenation of `str(d)` over a sequence of digits `d` in 0..9, so
 every code is a string over '0'..'9' and leading zeros are kept.
 */
module Digits {

  /** One draw of `randbelow(10)`. */
  type Digit = d: int | 0 <= d < 10

  predicate IsDigitChar(c: char) {
    '0' <= c <= '9'
  }

  /** Every character of `s` is a decimal digit. */
  predicate IsNumeric(s: string) {
    forall i :: 0 <= i < |s| ==> IsDigitChar(s[i])
  }

  /** The value of a digit character. */
  function ValueOf(c: char): (d: Digit)
    requires IsDigitChar(c)
  {
    c as int - '0' as int
  }

  /** `str(d)` for a single digit: its one-character decimal spelling. */
  function DigitChar(d: Digit): (c: char)
    ensures IsDigitChar(c) && ValueOf(c) == d
  {
    ('0' as int + d) as char
  }

  /** `"".join(str(d) for d in ds)`: one character per digit, in order. */
  function Render(ds: seq<Digit>): (code: string)
    ensures |code| == |ds|
    ensures IsNumeric(code)
  {
    if ds == [] then [] else [DigitChar(ds[0])] + Render(ds[1..])
  }

  /** Reads a numeric string back into its digits; the inverse of `Render`. */
  function Parse(code: string): (ds: seq<Digit>)
    requires IsNumeric(code)
    ensures |ds| == |code|
  {
    if code == [] then [] else [ValueOf(code[0])] + Parse(code[1..])
  }

  /** The digits can be read back from the code. */
  lemma {:induction false} ParseRender(ds: seq<Digit>)
    ensures Parse(Render(ds)) == ds
  {
    if ds != [] {
      var code := Render(ds);
      assert code[1..] == Render(ds[1..]);
      ParseRender(ds[1..]);
    }
  }

  /** Every numeric string is the rendering of some digits: each code of the
      right length, leading zeros included, can be issued. */
  lemma {:induction false} RenderParse(code: string)
    requires IsNumeric(code)
    ensures Render(Parse(code)) == code
  {
    if code != [] {
      var ds := Parse(code);
      assert ds[1..] == Parse(code[1..]);
      RenderParse(code[1..]);
      assert DigitChar(ValueOf(code[0])) == code[0];
    }
  }

  /** Distinct draws give distinct codes. */
  lemma RenderInjective(a: seq<Digit>, b: seq<Digit>)
    ensures Render(a) == Render(b) <==> a == b
  {
    if Render(a) == Render(b) {
      ParseRender(a);
      ParseRender(b);
    }
  }
}
