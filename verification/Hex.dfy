/** The hexadecimal form in which signatures travel inside JSON. */
module HexStrings {
  import opened Optional
  import opened Packets

  function DigitValue(c: char): (d: Option<nat>)
    ensures d.Some? ==> d.value < 16
  {
    if '0' <= c <= '9' then Some(c as int - '0' as int)
    else if 'a' <= c <= 'f' then Some(c as int - 'a' as int + 10)
    else if 'A' <= c <= 'F' then Some(c as int - 'A' as int + 10)
    else None
  }

  predicate IsSpace(c: char) {
    c == ' ' || '\t' <= c <= '\r'
  }

  /** `bytes.fromhex`: two digits a byte in either case, white space allowed between bytes. */
  function FromHex(s: string): Option<bytes> {
    if s == "" then Some([])
    else if IsSpace(s[0]) then FromHex(s[1..])
    else if |s| == 1 then None
    else
      var high, low, rest := DigitValue(s[0]), DigitValue(s[1]), FromHex(s[2..]);
      if high.None? || low.None? || rest.None? then None else Some([high.value * 16 + low.value] + rest.value)
  }

  function LowerDigit(d: nat): (c: char)
    requires d < 16
    ensures DigitValue(c) == Some(d)
  {
    if d < 10 then '0' + d as char else 'a' + (d - 10) as char
  }

  /** Digits may be in either case, and white space before a byte is skipped. */
  lemma LenientHex(d: nat, space: char, rest: string)
    ensures d < 10 ==> DigitValue('0' + d as char) == Some(d)
    ensures d < 6 ==> DigitValue('a' + d as char) == Some(10 + d) && DigitValue('A' + d as char) == Some(10 + d)
    ensures space in " \t\n\r" ==> FromHex([space] + rest) == FromHex(rest)
  {
    assert ([space] + rest)[1..] == rest;
  }

  /** `bytes.hex`: lower-case digits, nothing between them. */
  function ToHex(b: bytes): string {
    if b == [] then "" else [LowerDigit(b[0] / 16), LowerDigit(b[0] % 16)] + ToHex(b[1..])
  }

  lemma FromHexPair(high: char, low: char, rest: string)
    requires DigitValue(high).Some? && DigitValue(low).Some? && FromHex(rest).Some?
    ensures FromHex([high, low] + rest)
         == Some([DigitValue(high).value * 16 + DigitValue(low).value] + FromHex(rest).value)
  {
    assert ([high, low] + rest)[2..] == rest;
  }

  /** A signature written in hexadecimal is read back unchanged. */
  lemma {:induction false} HexRoundTrip(b: bytes)
    ensures FromHex(ToHex(b)) == Some(b)
  {
    if b != [] {
      HexRoundTrip(b[1..]);
      FromHexPair(LowerDigit(b[0] / 16), LowerDigit(b[0] % 16), ToHex(b[1..]));
      assert [b[0]] + b[1..] == b;
    }
  }
}
