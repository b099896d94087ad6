/**
  The parts of .NET's System.String that the controller relies on:
  Trim, ToLower, Substring and the decimal formatting used in an
  interpolated error message.
 */
module Strings {
  import opened Wrappers

  /** char.IsWhiteSpace: the Unicode space separators, line and paragraph
      separators, and the controls U+0009..U+000D and U+0085. */
  predicate IsWhiteSpace(c: char) {
    var n := c as int;
    n == 0x20 || (0x09 <= n <= 0x0D) || n == 0x85 || n == 0xA0 || n == 0x1680
    || (0x2000 <= n <= 0x200A) || n == 0x2028 || n == 0x2029 || n == 0x202F
    || n == 0x205F || n == 0x3000
  }

  predicate AllWhiteSpace(s: string) {
    forall i :: 0 <= i < |s| ==> IsWhiteSpace(s[i])
  }

  /** String.TrimStart(): a suffix that does not start with white space. */
  function TrimStart(s: string): (r: string)
    ensures |r| <= |s| && r == s[|s| - |r|..]
    ensures r == [] || !IsWhiteSpace(r[0])
  {
    if s != [] && IsWhiteSpace(s[0]) then TrimStart(s[1..]) else s
  }

  /** What TrimStart drops is white space only. */
  lemma {:induction false} TrimStartDropsWhiteSpace(s: string)
    ensures AllWhiteSpace(s[..|s| - |TrimStart(s)|])
  {
    if s != [] && IsWhiteSpace(s[0]) {
      var k := |s| - |TrimStart(s[1..])|;
      TrimStartDropsWhiteSpace(s[1..]);
      forall i | 0 <= i < k ensures IsWhiteSpace(s[..k][i]) {
        if i > 0 {
          assert s[..k][i] == s[1..][..k - 1][i - 1];
        }
      }
    }
  }

  /** String.TrimEnd(): a prefix that does not end with white space. */
  function TrimEnd(s: string): (r: string)
    ensures |r| <= |s| && r == s[..|r|]
    ensures r == [] || !IsWhiteSpace(r[|r| - 1])
  {
    if s != [] && IsWhiteSpace(s[|s| - 1]) then TrimEnd(s[..|s| - 1]) else s
  }

  /** What TrimEnd drops is white space only. */
  lemma {:induction false} TrimEndDropsWhiteSpace(s: string)
    ensures AllWhiteSpace(s[|TrimEnd(s)|..])
  {
    if s != [] && IsWhiteSpace(s[|s| - 1]) {
      var k := |TrimEnd(s[..|s| - 1])|;
      TrimEndDropsWhiteSpace(s[..|s| - 1]);
      forall i | 0 <= i < |s| - k ensures IsWhiteSpace(s[k..][i]) {
        if i < |s| - 1 - k {
          assert s[k..][i] == s[..|s| - 1][k..][i];
        }
      }
    }
  }

  /** String.Trim(): the text between the leading and the trailing white space. */
  function Trim(s: string): (r: string)
    ensures |r| <= |s|
    ensures r == [] || (!IsWhiteSpace(r[0]) && !IsWhiteSpace(r[|r| - 1]))
  {
    TrimEnd(TrimStart(s))
  }

  /** White space in front of a string does not survive TrimStart. */
  lemma {:induction false} TrimStartSkipsPadding(pad: string, s: string)
    requires AllWhiteSpace(pad)
    ensures TrimStart(pad + s) == TrimStart(s)
  {
    if pad != [] {
      assert (pad + s)[0] == pad[0] && IsWhiteSpace(pad[0]);
      assert (pad + s)[1..] == pad[1..] + s;
      assert AllWhiteSpace(pad[1..]) by {
        forall i | 0 <= i < |pad| - 1 ensures IsWhiteSpace(pad[1..][i]) {
          assert pad[1..][i] == pad[i + 1];
        }
      }
      assert TrimStart(pad + s) == TrimStart(pad[1..] + s);
      TrimStartSkipsPadding(pad[1..], s);
    } else {
      assert pad + s == s;
    }
  }

  /** White space after a string does not survive TrimEnd. */
  lemma {:induction false} TrimEndSkipsPadding(s: string, pad: string)
    requires AllWhiteSpace(pad)
    ensures TrimEnd(s + pad) == TrimEnd(s)
  {
    if pad != [] {
      var n := |pad| - 1;
      assert (s + pad)[|s + pad| - 1] == pad[n] && IsWhiteSpace(pad[n]);
      assert (s + pad)[..|s + pad| - 1] == s + pad[..n];
      assert AllWhiteSpace(pad[..n]) by {
        forall i | 0 <= i < n ensures IsWhiteSpace(pad[..n][i]) {
          assert pad[..n][i] == pad[i];
        }
      }
      assert TrimEnd(s + pad) == TrimEnd(s + pad[..n]);
      TrimEndSkipsPadding(s, pad[..n]);
    } else {
      assert s + pad == s;
    }
  }

  /** Trailing padding passes through TrimStart unless it is all that is left. */
  lemma {:induction false} TrimStartOfPadded(s: string, pad: string)
    requires AllWhiteSpace(pad)
    ensures TrimStart(s + pad) == if TrimStart(s) == [] then [] else TrimStart(s) + pad
  {
    if s == [] {
      assert s + pad == [] + pad;
      TrimStartSkipsPadding(pad, []);
      assert pad + [] == pad;
    } else if IsWhiteSpace(s[0]) {
      assert (s + pad)[1..] == s[1..] + pad;
      TrimStartOfPadded(s[1..], pad);
    }
  }

  /** White space after a string does not change its trim. */
  lemma TrimIgnoresTrailing(s: string, post: string)
    requires AllWhiteSpace(post)
    ensures Trim(s + post) == Trim(s)
  {
    var t := TrimStart(s);
    TrimStartOfPadded(s, post);
    if t != [] {
      TrimEndSkipsPadding(t, post);
    }
  }

  /** Trim removes exactly the surrounding white space: padding on either
      side makes no difference. */
  lemma TrimIgnoresPadding(pre: string, s: string, post: string)
    requires AllWhiteSpace(pre) && AllWhiteSpace(post)
    ensures Trim(pre + s + post) == Trim(s)
  {
    assert pre + s + post == pre + (s + post);
    TrimStartSkipsPadding(pre, s + post);
    assert Trim(pre + s + post) == Trim(s + post);
    TrimIgnoresTrailing(s, post);
  }

  /** A string with no white space at either end is its own trim. */
  lemma TrimOfTrimmed(s: string)
    requires s == [] || (!IsWhiteSpace(s[0]) && !IsWhiteSpace(s[|s| - 1]))
    ensures Trim(s) == s
  {
  }

  lemma TrimIdempotent(s: string)
    ensures Trim(Trim(s)) == Trim(s)
  {
    TrimOfTrimmed(Trim(s));
  }

  predicate IsAsciiUpper(c: char) {
    'A' <= c <= 'Z'
  }

  /** The character mapping of String.ToLower() under a culture that maps
      the ASCII capitals A-Z to a-z, restricted to those letters. */
  function LowerChar(c: char): (d: char)
    ensures IsAsciiUpper(c) ==> d as int == c as int + 32
    ensures !IsAsciiUpper(c) ==> d == c
    ensures !IsAsciiUpper(d)
    ensures IsWhiteSpace(d) == IsWhiteSpace(c)
  {
    if IsAsciiUpper(c) then (c as int + 32) as char else c
  }

  /** String.ToLower(): every ASCII capital replaced by its small letter. */
  function ToLower(s: string): (r: string)
    ensures |r| == |s|
    ensures forall i :: 0 <= i < |r| ==> !IsAsciiUpper(r[i])
    ensures forall i :: 0 <= i < |s| && !IsAsciiUpper(s[i]) ==> r[i] == s[i]
    ensures forall i :: 0 <= i < |s| && IsAsciiUpper(s[i]) ==> r[i] as int == s[i] as int + 32
  {
    seq(|s|, i requires 0 <= i < |s| => LowerChar(s[i]))
  }

  lemma ToLowerIdempotent(s: string)
    ensures ToLower(ToLower(s)) == ToLower(s)
  {
  }

  lemma ToLowerConcat(a: string, b: string)
    ensures ToLower(a + b) == ToLower(a) + ToLower(b)
  {
  }

  /** String.Substring(start, length); None where .NET throws
      ArgumentOutOfRangeException. */
  function Substring(s: string, start: nat, length: nat): (r: Option<string>)
    ensures r.Some? <==> start + length <= |s|
    ensures r.Some? ==> |r.value| == length
    ensures r.Some? ==> forall i :: 0 <= i < length ==> r.value[i] == s[start + i]
  {
    if start + length <= |s| then Some(s[start..start + length]) else None
  }

  /** The character of one decimal digit. */
  function DigitChar(d: nat): (c: char)
    requires d < 10
    ensures '0' <= c <= '9'
  {
    ('0' as int + d) as char
  }

  predicate AllDigits(s: string) {
    forall i :: 0 <= i < |s| ==> '0' <= s[i] <= '9'
  }

  /** The number a string of decimal digits denotes, read left to right. */
  function DecimalValue(s: string): nat
    requires AllDigits(s)
  {
    if s == [] then 0
    else
      var n := |s| - 1;
      assert AllDigits(s[..n]) by {
        forall i | 0 <= i < n ensures '0' <= s[..n][i] <= '9' {
          assert s[..n][i] == s[i];
        }
      }
      10 * DecimalValue(s[..n]) + (s[n] as int - '0' as int)
  }

  /** Decimal digits with no leading zero, as Int32.ToString writes a
      non-negative value. */
  function NatToString(n: nat): (r: string)
    ensures r != [] && AllDigits(r)
    ensures r[0] == '0' <==> n == 0
  {
    if n < 10 then [DigitChar(n)] else NatToString(n / 10) + [DigitChar(n % 10)]
  }

  /** The digits NatToString writes denote the number. */
  lemma {:induction false} NatToStringValue(n: nat)
    ensures DecimalValue(NatToString(n)) == n
  {
    if n >= 10 {
      var r := NatToString(n);
      assert r[..|r| - 1] == NatToString(n / 10);
      NatToStringValue(n / 10);
    }
  }

  /** An int as string interpolation formats it: a minus sign exactly for a
      negative value, then the digits of its magnitude. The interpolation
      uses the current culture, whose negative sign the model takes to be
      the ASCII hyphen-minus; a non-negative value carries no sign, so its
      text is the same in every culture. */
  function IntToString(n: int): (r: string)
    ensures r != []
    ensures (r[0] == '-') <==> n < 0
    ensures n < 0 ==> |r| >= 2 && AllDigits(r[1..]) && r[1] != '0'
    ensures n >= 0 ==> AllDigits(r)
  {
    if n < 0 then "-" + NatToString(-n) else NatToString(n)
  }

  /** The text IntToString writes denotes the number, sign and magnitude. */
  lemma IntToStringValue(n: int)
    ensures n >= 0 ==> DecimalValue(IntToString(n)) == n
    ensures n < 0 ==> AllDigits(IntToString(n)[1..]) && DecimalValue(IntToString(n)[1..]) == -n
  {
    if n < 0 {
      var digits := NatToString(-n);
      assert IntToString(n) == ['-'] + digits;
      assert (['-'] + digits)[1..] == digits;
      NatToStringValue(-n);
    } else {
      NatToStringValue(n);
    }
  }
}
