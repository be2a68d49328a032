/**
 * Byte strings and the Python `bytes` methods the decoder relies on:
 * `lower`, `strip`, `replace(b"\r", b"")`, `str.encode("ascii")` and
 * `int(...)` on a byte string.
 *
 * A byte is modelled as a character no greater than U+00FF, so that the
 * ASCII literals of the source (`b"\r\n\r\n"`, `b"content-id"`) read the
 * same here.
 */
module Text {
  import opened Outcomes
  import opened Seqs

  type Byte = c: char | c <= '\U{FF}'
  type Bytes = seq<Byte>

  const CR: Byte := '\r'
  const LF: Byte := '\n'
  const CRLF: Bytes := "\r\n"
  /** The blank line that ends a header block. */
  const BLANK_LINE: Bytes := "\r\n\r\n"

  /** The six bytes Python's `bytes.strip()` and `int()` treat as whitespace. */
  predicate IsSpace(c: char) {
    c == ' ' || c == '\t' || c == '\n' || c == '\r' || c == '\U{0B}' || c == '\U{0C}'
  }

  predicate IsDigit(c: char) {
    '0' <= c <= '9'
  }

  /**
   * Python 2's `str.lower()` on one character: only the ASCII capitals
   * change.  Header names are compared the same way.
   */
  function LowerChar(c: char): (r: char)
    ensures 'A' <= c <= 'Z' ==> r as int == c as int + 32
    ensures !('A' <= c <= 'Z') ==> r == c
  {
    if 'A' <= c <= 'Z' then (c as int + 32) as char else c
  }

  /** Python 2's `str.lower()`, on byte strings and header names alike. */
  function Lower(s: string): (r: string)
    ensures |r| == |s|
    ensures forall i :: 0 <= i < |s| ==> r[i] == LowerChar(s[i])
  {
    seq(|s|, i requires 0 <= i < |s| => LowerChar(s[i]))
  }

  /** Python's `s.replace(b"\r", b"")`. */
  function RemoveCR(s: Bytes): (r: Bytes)
    ensures CR !in r
    ensures |r| <= |s|
  {
    if s == [] then []
    else if s[0] == CR then RemoveCR(s[1..])
    else [s[0]] + RemoveCR(s[1..])
  }

  /** Removing carriage returns changes nothing where there are none. */
  lemma {:induction false} RemoveCRNone(s: Bytes)
    requires CR !in s
    ensures RemoveCR(s) == s
  {
    if s != [] {
      RemoveCRNone(s[1..]);
    }
  }

  /** Leading whitespace removed. */
  function TrimLeft(s: Bytes): (r: Bytes)
    ensures |r| <= |s| && r == s[|s| - |r|..]
    ensures forall i :: 0 <= i < |s| - |r| ==> IsSpace(s[i])
    ensures |r| > 0 ==> !IsSpace(r[0])
  {
    if |s| > 0 && IsSpace(s[0]) then TrimLeft(s[1..]) else s
  }

  /** Trailing whitespace removed. */
  function TrimRight(s: Bytes): (r: Bytes)
    ensures |r| <= |s| && r == s[..|r|]
    ensures forall i :: |r| <= i < |s| ==> IsSpace(s[i])
    ensures |r| > 0 ==> !IsSpace(r[|r| - 1])
  {
    if |s| > 0 && IsSpace(s[|s| - 1]) then TrimRight(s[..|s| - 1]) else s
  }

  /** Python's `bytes.strip()`: whitespace removed at both ends. */
  function Strip(s: Bytes): (r: Bytes)
    ensures |r| > 0 ==> !IsSpace(r[0]) && !IsSpace(r[|r| - 1])
    ensures |r| <= |s|
  {
    TrimRight(TrimLeft(s))
  }

  /** Text without whitespace at either end is left as it is by `strip()`. */
  lemma StripTrimmed(s: Bytes)
    requires |s| > 0 ==> !IsSpace(s[0]) && !IsSpace(s[|s| - 1])
    ensures Strip(s) == s
  {
  }

  /**
   * Python's `str.encode("ascii")`: the same characters as bytes, or a
   * failure when one of them is outside ASCII.
   */
  function EncodeAscii(s: string): (r: Option<Bytes>)
    ensures r.Some? <==> forall i :: 0 <= i < |s| ==> s[i] < '\U{80}'
    ensures r.Some? ==> r.value == s
  {
    if forall i :: 0 <= i < |s| ==> s[i] < '\U{80}' then Some(s) else None
  }

  /** The digit strings Python 2's `int()` accepts in base 10. */
  predicate ValidDigits(t: Bytes) {
    |t| > 0 && forall i :: 0 <= i < |t| ==> IsDigit(t[i])
  }

  /** The decimal value of a string of digits. */
  function DigitsValue(t: Bytes): nat
    requires forall i :: 0 <= i < |t| ==> IsDigit(t[i])
  {
    if t == [] then 0
    else
      assert IsDigit(t[|t| - 1]);
      10 * DigitsValue(t[..|t| - 1]) + (t[|t| - 1] as int - '0' as int)
  }

  /**
   * Python 2's `int(s)` for a byte string: surrounding whitespace, an optional
   * sign, more whitespace, then a base-10 digit string; anything else fails.
   */
  function ParseInt(s: Bytes): (r: Option<int>)
    ensures r.Some? <==>
      var t := Strip(s);
      if |t| > 0 && (t[0] == '+' || t[0] == '-') then ValidDigits(TrimLeft(t[1..])) else ValidDigits(t)
  {
    var t := Strip(s);
    if |t| > 0 && (t[0] == '+' || t[0] == '-') then
      var digits := TrimLeft(t[1..]);
      if ValidDigits(digits) then
        var n: int := DigitsValue(digits);
        Some(if t[0] == '-' then -n else n)
      else None
    else if ValidDigits(t) then Some(DigitsValue(t))
    else None
  }

  /** Python's `str(n)` for a natural number: its decimal digits. */
  function Render(n: nat): (r: Bytes)
    ensures |r| > 0
    ensures forall i :: 0 <= i < |r| ==> IsDigit(r[i])
  {
    var d := ('0' as int + n % 10) as char;
    if n < 10 then [d] else Render(n / 10) + [d]
  }

  /** The value of a rendered number is that number. */
  lemma {:induction false} DigitsValueRender(n: nat)
    ensures DigitsValue(Render(n)) == n
  {
    var r := Render(n);
    if n >= 10 {
      assert r[..|r| - 1] == Render(n / 10);
      DigitsValueRender(n / 10);
    }
  }

  /** `int(str(n)) == n`: parsing a rendered status code gives it back. */
  lemma ParseIntRender(n: nat)
    ensures ParseInt(Render(n)) == Some(n)
  {
    var r := Render(n);
    StripTrimmed(r);
    DigitsValueRender(n);
    assert IsDigit(r[0]);
    assert ValidDigits(r);
  }

  /** A leading zero changes neither the digits' validity nor their value. */
  lemma {:induction false} DigitsLeadingZero(t: Bytes)
    requires forall i :: 0 <= i < |t| ==> IsDigit(t[i])
    ensures forall i :: 0 <= i < |"0" + t| ==> IsDigit(("0" + t)[i])
    ensures DigitsValue("0" + t) == DigitsValue(t)
  {
    var z: Bytes := "0";
    if t != [] {
      var u := z + t;
      assert u[..|u| - 1] == z + t[..|t| - 1];
      DigitsLeadingZero(t[..|t| - 1]);
    }
  }

  /** A digit string has no leading whitespace to trim. */
  lemma TrimLeftDigits(t: Bytes)
    requires |t| > 0 && IsDigit(t[0])
    ensures TrimLeft(t) == t
  {
  }

  /** `int()` of unsigned text with nothing to strip: its digits' value, if it is all digits. */
  lemma ParseIntUnsigned(t: Bytes)
    requires Strip(t) == t && |t| > 0 && IsDigit(t[0])
    ensures ParseInt(t) == if ValidDigits(t) then Some(DigitsValue(t)) else None
  {
  }

  /** `int()` of text with a plus sign and nothing to strip: the value of what follows the sign and its whitespace. */
  lemma ParseIntPlus(t: Bytes, digits: Bytes)
    requires Strip(t) == t && |t| > 0 && t[0] == '+'
    requires TrimLeft(t[1..]) == digits && ValidDigits(digits)
    ensures ParseInt(t) == Some(DigitsValue(digits))
  {
  }

  /** Python 2's `int()` takes a code with a leading zero: `int('0200') == 200`. */
  lemma ParseIntLeadingZero(n: nat)
    ensures ParseInt("0" + Render(n)) == Some(n)
  {
    var z: Bytes := "0";
    var t := z + Render(n);
    assert Strip(t) == t by {
      assert t[|t| - 1] == Render(n)[|Render(n)| - 1];
      StripTrimmed(t);
    }
    DigitsLeadingZero(Render(n));
    assert ValidDigits(t);
    ParseIntUnsigned(t);
    DigitsValueRender(n);
  }

  /** Python 2's `int()` takes a plus sign: `int('+200') == 200`. */
  lemma ParseIntPlusSign(n: nat)
    ensures ParseInt("+" + Render(n)) == Some(n)
  {
    var p: Bytes := "+";
    var t := p + Render(n);
    assert Strip(t) == t by {
      assert t[|t| - 1] == Render(n)[|Render(n)| - 1];
      StripTrimmed(t);
    }
    assert TrimLeft(t[1..]) == Render(n) by {
      assert t[1..] == Render(n);
      TrimLeftDigits(Render(n));
    }
    assert ValidDigits(Render(n));
    ParseIntPlus(t, Render(n));
    DigitsValueRender(n);
  }

  /** One whitespace byte in front of text that starts otherwise is trimmed away. */
  lemma TrimLeftOne(c: Byte, t: Bytes)
    requires IsSpace(c) && |t| > 0 && !IsSpace(t[0])
    ensures TrimLeft([c] + t) == t
  {
    assert ([c] + t)[1..] == t;
  }

  /** A sign, whitespace, then digits: the digits' value. */
  lemma ParseIntSpacedSign(c: Byte, t: Bytes)
    requires IsSpace(c) && ValidDigits(t)
    ensures ParseInt(['+', c] + t) == Some(DigitsValue(t))
  {
    var s := ['+', c] + t;
    assert s[1..] == [c] + t;
    assert TrimLeft(s[1..]) == t by {
      TrimLeftOne(c, t);
    }
    assert Strip(s) == s by {
      assert s[0] == '+' && s[|s| - 1] == t[|t| - 1];
      StripTrimmed(s);
    }
    ParseIntPlus(s, t);
  }

  /** Digits, a character that is not one, then digits: `int()` fails. */
  lemma ParseIntBrokenDigits(x: Bytes, c: Byte, y: Bytes)
    requires ValidDigits(x) && ValidDigits(y) && !IsDigit(c)
    ensures ParseInt(x + [c] + y) == None
  {
    var s := x + [c] + y;
    assert Strip(s) == s by {
      assert s[0] == x[0] && s[|s| - 1] == y[|y| - 1];
      StripTrimmed(s);
    }
    assert !ValidDigits(s) by {
      assert s[|x|] == c;
    }
    assert IsDigit(s[0]);
    ParseIntUnsigned(s);
  }

  /** Python 2's `int()` skips whitespace between the sign and the digits: `int('+\t200') == 200`. */
  lemma ParseIntSignSpace(n: nat)
    ensures ParseInt("+\t" + Render(n)) == Some(n)
  {
    assert ValidDigits(Render(n));
    ParseIntSpacedSign('\t', Render(n));
    DigitsValueRender(n);
  }

  /** Python 2's `int()` refuses an underscore between digits: `int('2_00')` fails. */
  lemma ParseIntUnderscore(a: nat, b: nat)
    ensures ParseInt(Render(a) + "_" + Render(b)) == None
  {
    assert ValidDigits(Render(a)) && ValidDigits(Render(b));
    ParseIntBrokenDigits(Render(a), '_', Render(b));
  }

  /** Removing carriage returns distributes over concatenation. */
  lemma {:induction false} RemoveCRConcat(a: Bytes, b: Bytes)
    ensures RemoveCR(a + b) == RemoveCR(a) + RemoveCR(b)
  {
    if a != [] {
      assert (a + b)[1..] == a[1..] + b;
      RemoveCRConcat(a[1..], b);
    } else {
      assert a + b == b;
    }
  }

  /**
   * Lines without carriage returns, joined by CRLF, read as the same lines
   * joined by LF once carriage returns are removed.
   */
  lemma {:induction false} RemoveCRJoin(lines: seq<Bytes>)
    requires forall i :: 0 <= i < |lines| ==> CR !in lines[i]
    ensures RemoveCR(Join<Byte>(lines, CRLF)) == Join<Byte>(lines, "\n")
  {
    if |lines| == 1 {
      RemoveCRNone(lines[0]);
    } else if |lines| > 1 {
      var rest := lines[1..];
      RemoveCRJoin(rest);
      RemoveCRConcat(lines[0] + CRLF, Join(rest, CRLF));
      RemoveCRConcat(lines[0], CRLF);
      RemoveCRNone(lines[0]);
      assert RemoveCR(CRLF) == "\n";
    }
  }
}
