/** The two pieces of the command line the core depends on: the `0x`-prefixed
    hexadecimal u32 parser and the start-address default. */
module Cli {
  import opened Bytes
  import opened Results
  import opened Lib

  predicate IsHexDigit(c: char)
  {
    '0' <= c <= '9' || 'a' <= c <= 'f' || 'A' <= c <= 'F'
  }

  function DigitValue(c: char): (v: nat)
    requires IsHexDigit(c)
    ensures v < 16
  {
    if '0' <= c <= '9' then c as int - '0' as int
    else if 'a' <= c <= 'f' then c as int - 'a' as int + 10
    else c as int - 'A' as int + 10
  }

  predicate AllHexDigits(s: string)
  {
    forall i :: 0 <= i < |s| ==> IsHexDigit(s[i])
  }

  /** The value of a base-16 numeral, most significant digit first. */
  function HexValue(s: string): nat
    requires AllHexDigits(s)
  {
    if s == [] then 0 else 16 * HexValue(s[..|s| - 1]) + DigitValue(s[|s| - 1])
  }

  /** The digits `from_str_radix` reads for an unsigned type: one leading `+` is dropped. */
  function Digits(src: string): string
  {
    if |src| > 0 && src[0] == '+' then src[1..] else src
  }

  /** `u32::from_str_radix(src, 16).ok()`: an optional `+`, then at least one hex digit
      of either case, and a value that fits in 32 bits; every error becomes None. */
  function FromStrRadix16(src: string): (r: Option<u32>)
  {
    var digits := Digits(src);
    if |digits| > 0 && AllHexDigits(digits) && HexValue(digits) < U32_LIMIT
    then Some(HexValue(digits))
    else None
  }

  /** `hexstring`: strip the exact prefix `0x`, then parse the rest in base 16. */
  function HexString(s: string): (r: Option<u32>)
    ensures r.Some? ==> |s| >= 2 && s[..2] == "0x"
    ensures r.Some? ==>
      var digits := Digits(s[2..]);
      && 0 < |digits| && AllHexDigits(digits)
      && r.value == HexValue(digits)
    ensures |s| >= 2 && s[..2] == "0x" ==>
      var digits := Digits(s[2..]);
      0 < |digits| && AllHexDigits(digits) && HexValue(digits) < U32_LIMIT ==> r == Some(HexValue(digits))
  {
    if |s| >= 2 && s[..2] == "0x" then FromStrRadix16(s[2..]) else None
  }

  /** Lower-case hexadecimal numeral of `n` without leading zeros ("0" for zero). */
  function ToHex(n: nat): (s: string)
    ensures 0 < |s| && AllHexDigits(s) && s[0] != '+'
  {
    if n < 16 then [HexChar(n)] else ToHex(n / 16) + [HexChar(n % 16)]
  }

  function HexChar(d: nat): (c: char)
    requires d < 16
    ensures IsHexDigit(c) && DigitValue(c) == d
  {
    if d < 10 then ('0' as int + d) as char else ('a' as int + d - 10) as char
  }

  lemma {:induction false} HexValueOfToHex(n: nat)
    ensures HexValue(ToHex(n)) == n
  {
    if n >= 16 {
      var s := ToHex(n);
      assert s[..|s| - 1] == ToHex(n / 16);
      HexValueOfToHex(n / 16);
    }
  }

  /** Every u32 printed as `0x` followed by its hex digits parses back to itself. */
  lemma HexStringRoundTrip(n: u32)
    ensures HexString("0x" + ToHex(n)) == Some(n)
  {
    var s := "0x" + ToHex(n);
    assert s[..2] == "0x" && s[2..] == ToHex(n);
    HexValueOfToHex(n);
  }

  /** Inputs `hexstring` accepts beyond the canonical form: leading zeros, upper-case
      digits, and one leading `+`. */
  lemma HexStringAcceptsTypical()
    ensures HexString("0x08000000") == Some(0x0800_0000)
    ensures HexString("0xFF") == Some(0xFF)
    ensures HexString("0x+ff") == Some(0xFF)
  {
    assert "0x08000000"[..2] == "0x" && "0x08000000"[2..] == "08000000";
    assert HexValue("08000000") == 0x0800_0000 by {
      assert "08000000"[..7] == "0800000";
      assert "0800000"[..6] == "080000";
      assert "080000"[..5] == "08000";
      assert "08000"[..4] == "0800";
      assert "0800"[..3] == "080";
      assert "080"[..2] == "08";
      assert "08"[..1] == "0";
      assert "0"[..0] == "";
    }
    assert "0xFF"[..2] == "0x" && "0xFF"[2..] == "FF";
    assert HexValue("FF") == 0xFF by {
      assert "FF"[..1] == "F";
      assert "F"[..0] == "";
    }
    assert "0x+ff"[..2] == "0x" && "0x+ff"[2..] == "+ff" && "+ff"[1..] == "ff";
    assert HexValue("ff") == 0xFF by {
      assert "ff"[..1] == "f";
      assert "f"[..0] == "";
    }
  }

  /** Inputs `hexstring` refuses: an upper-case `0X` prefix, a bare prefix, and a value
      one past the largest u32. */
  lemma HexStringRejects(digits: string)
    ensures HexString("0X" + digits) == None
    ensures HexString("0x") == None
    ensures HexString("0x100000000") == None
  {
    assert ("0X" + digits)[..2] == "0X";
    var big := "100000000";
    assert ("0x" + big)[2..] == big;
    assert HexValue(big) == U32_LIMIT by {
      assert big[..|big| - 1] == "10000000";
      assert HexValue("10000000") == 0x1000_0000 by {
        assert "10000000"[..7] == "1000000";
        assert "1000000"[..6] == "100000";
        assert "100000"[..5] == "10000";
        assert "10000"[..4] == "1000";
        assert "1000"[..3] == "100";
        assert "100"[..2] == "10";
        assert "10"[..1] == "1";
        assert "1"[..0] == "";
      }
    }
  }

  /** A character that is not a hex digit anywhere after the prefix (other than one
      leading `+`) makes `hexstring` fail. */
  lemma HexStringRejectsNonDigit(s: string, i: nat)
    requires |s| >= 2 && s[..2] == "0x"
    requires i < |Digits(s[2..])| && !IsHexDigit(Digits(s[2..])[i])
    ensures HexString(s) == None
  {
  }

  /** Errors of the two `expect` calls in `From<Cli> for Params`. */
  datatype CliError = BadFlashSize | BadStartAddr

  /** `From<Cli> for Params`: the flash size must parse, the start address must parse
      when given and is 0 when absent. */
  function ParamsFrom(flashSizeArg: string, startAddrArg: Option<string>): (r: Result<Params, CliError>)
    ensures r.Ok? <==>
      HexString(flashSizeArg).Some? && (startAddrArg.Some? ==> HexString(startAddrArg.value).Some?)
    ensures r.Err? ==> (r.error == BadFlashSize <==> HexString(flashSizeArg).None?)
    ensures r.Ok? ==> r.value.flashSize == HexString(flashSizeArg).value
    ensures r.Ok? && startAddrArg.None? ==> r.value.startAddr == 0
    ensures r.Ok? && startAddrArg.Some? ==> r.value.startAddr == HexString(startAddrArg.value).value
  {
    var flashSize :- HexString(flashSizeArg).ToResult(BadFlashSize);
    var startAddr :- match startAddrArg
      case Some(addr) => HexString(addr).ToResult(BadStartAddr)
      case None => Ok(0);
    Ok(Params(flashSize, startAddr))
  }
}
