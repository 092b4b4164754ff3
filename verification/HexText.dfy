/** Hexadecimal text as the repository prints it: `std::hex <<`, "%02x" and "%08x", and prefix comparison by strncmp. */
module HexText {
  import opened Options

  function HexDigit(d: nat): char
    requires d < 16
  {
    if d < 10 then '0' + d as char else 'a' + (d - 10) as char
  }

  /** `stream << std::hex << n`: lower case, no padding. */
  function Hex(n: nat): (s: string)
    ensures |s| >= 1
  {
    if n < 16 then [HexDigit(n)] else Hex(n / 16) + [HexDigit(n % 16)]
  }

  /** Zero fill on the left up to `width` characters, as boost::format does for "%02x" and "%08x". */
  function ZeroFill(s: string, width: nat): (r: string)
    decreases width - |s|
  {
    if |s| >= width then s else ZeroFill(['0'] + s, width)
  }

  /** Exactly `width` hexadecimal digits, most significant first. */
  function FixedHex(n: nat, width: nat): (s: string)
    ensures |s| == width
  {
    if width == 0 then [] else FixedHex(n / 16, width - 1) + [HexDigit(n % 16)]
  }

  function Pow16(k: nat): (p: nat)
    ensures p > 0
  {
    if k == 0 then 1 else 16 * Pow16(k - 1)
  }

  lemma {:induction false} ZeroFillSnoc(s: string, c: char, width: nat)
    requires width > 0
    ensures ZeroFill(s + [c], width) == ZeroFill(s, width - 1) + [c]
    decreases width - |s|
  {
    if |s| < width - 1 {
      assert ['0'] + (s + [c]) == (['0'] + s) + [c];
      ZeroFillSnoc(['0'] + s, c, width);
    }
  }

  lemma {:induction false} ZeroFillOfZero(width: nat)
    requires width > 0
    ensures ZeroFill("0", width) == FixedHex(0, width)
  {
    if width == 1 {
      assert FixedHex(0, 0) == "";
    } else {
      ZeroFillOfZero(width - 1);
      ZeroFillSnoc("0", '0', width);
      assert ['0'] + "0" == "0" + ['0'];
      assert ZeroFill("0", width) == ZeroFill(['0'] + "0", width);
    }
  }

  /** Zero-filled hexadecimal is the fixed-width form whenever the number fits. */
  lemma {:induction false} ZeroFillIsFixed(n: nat, width: nat)
    requires width > 0 && n < Pow16(width)
    ensures ZeroFill(Hex(n), width) == FixedHex(n, width)
  {
    if width == 1 {
      assert Pow16(1) == 16;
      assert FixedHex(n / 16, 0) == "";
    } else if n < 16 {
      ZeroFillOfZero(width - 1);
      if width > 1 {
        assert ['0'] + [HexDigit(n)] == "0" + [HexDigit(n)];
        ZeroFillSnoc("0", HexDigit(n), width);
      }
    } else {
      ZeroFillIsFixed(n / 16, width - 1);
      ZeroFillSnoc(Hex(n / 16), HexDigit(n % 16), width);
    }
  }

  /** The sixteen digits. */
  lemma {:induction false} HexDigitIs(d: nat)
    requires d < 16
    ensures HexDigit(d) == "0123456789abcdef"[d]
  {
    if d < 10 {
      assert d == 0 || d == 1 || d == 2 || d == 3 || d == 4 || d == 5 || d == 6 || d == 7 || d == 8 || d == 9;
    } else {
      assert d == 10 || d == 11 || d == 12 || d == 13 || d == 14 || d == 15;
    }
  }

  /** The digit at each place is the one the number has there. */
  lemma {:induction false} FixedHexAt(n: nat, width: nat, i: nat)
    requires i < width
    ensures FixedHex(n, width)[i] == HexDigit(DropDigits(n, width - 1 - i) % 16)
  {
    if i < width - 1 {
      FixedHexAt(n / 16, width - 1, i);
      assert DropDigits(n, width - 1 - i) == DropDigits(n / 16, width - 2 - i);
    }
  }

  /** Equal digits spell equal numbers. */
  lemma {:induction false} FixedHexInjective(m: nat, n: nat, width: nat)
    requires m < Pow16(width) && n < Pow16(width) && FixedHex(m, width) == FixedHex(n, width)
    ensures m == n
  {
    if width > 0 {
      var x, y := FixedHex(m / 16, width - 1), FixedHex(n / 16, width - 1);
      assert FixedHex(m, width)[..width - 1] == x && FixedHex(n, width)[..width - 1] == y;
      assert HexDigit(m % 16) == FixedHex(m, width)[width - 1] == HexDigit(n % 16);
      DigitValueOfHexDigit(m % 16);
      DigitValueOfHexDigit(n % 16);
      FixedHexInjective(m / 16, n / 16, width - 1);
    }
  }

  predicate IsHexDigit(c: char)
  {
    '0' <= c <= '9' || 'a' <= c <= 'f'
  }

  function DigitValue(c: char): (d: nat)
    requires IsHexDigit(c)
    ensures d < 16 && HexDigit(d) == c
  {
    if c <= '9' then (c - '0') as nat else 10 + (c - 'a') as nat
  }

  lemma DigitValueOfHexDigit(d: nat)
    requires d < 16
    ensures IsHexDigit(HexDigit(d)) && DigitValue(HexDigit(d)) == d
  {
  }

  /** The byte spelled by the first two characters of a hash; None when they are not lower-case hexadecimal. */
  function TopByte(hash: string): (b: Option<nat>)
    ensures b.Some? ==> b.value < 256
  {
    if |hash| >= 2 && IsHexDigit(hash[0]) && IsHexDigit(hash[1])
    then Some(16 * DigitValue(hash[0]) + DigitValue(hash[1]))
    else None
  }

  /** `!strncmp(text, pattern, strlen(pattern))` for texts without NUL characters. */
  predicate HasPrefix(text: string, pattern: string)
  {
    pattern <= text
  }

  lemma TwoDigits(b: nat)
    requires b < 256
    ensures ZeroFill(Hex(b), 2) == [HexDigit(b / 16), HexDigit(b % 16)]
  {
    assert Pow16(2) == 16 * (16 * Pow16(0));
    ZeroFillIsFixed(b, 2);
    assert FixedHex(b / 16, 1) == FixedHex(b / 16 / 16, 0) + [HexDigit(b / 16 % 16)];
    assert FixedHex(b, 2) == FixedHex(b / 16, 1) + [HexDigit(b % 16)];
  }

  lemma PairPrefix(hash: string, d0: nat, d1: nat)
    requires d0 < 16 && d1 < 16
    ensures [HexDigit(d0), HexDigit(d1)] <= hash <==> TopByte(hash) == Some(16 * d0 + d1)
  {
    DigitValueOfHexDigit(d0);
    DigitValueOfHexDigit(d1);
    var two := [HexDigit(d0), HexDigit(d1)];
    if two <= hash {
      assert hash[0] == two[0] && hash[1] == two[1];
    }
    if TopByte(hash) == Some(16 * d0 + d1) {
      assert hash[..2] == [hash[0], hash[1]];
    }
  }

  lemma TwoDigitPrefix(hash: string, b: nat)
    requires b < 256
    ensures HasPrefix(hash, ZeroFill(Hex(b), 2)) <==> TopByte(hash) == Some(b)
  {
    TwoDigits(b);
    PairPrefix(hash, b / 16, b % 16);
  }

  /** Without the fill, one hexadecimal digit matches a whole block of sixteen bytes. */
  lemma UnpaddedPrefix(hash: string, b: nat)
    requires b < 256 && TopByte(hash).Some?
    ensures b >= 16 ==> (HasPrefix(hash, Hex(b)) <==> TopByte(hash) == Some(b))
    ensures b < 16 ==> (HasPrefix(hash, Hex(b)) <==> TopByte(hash).value / 16 == b)
  {
    if b >= 16 {
      assert |Hex(b)| == 2;
      TwoDigitPrefix(hash, b);
    } else {
      DigitValueOfHexDigit(b);
      assert TopByte(hash).value / 16 == DigitValue(hash[0]);
      if hash[0] == HexDigit(b) {
        assert [HexDigit(b)] <= hash;
      }
    }
  }

  /** `n` without its last `k` hexadecimal digits. */
  function DropDigits(n: nat, k: nat): nat
  {
    if k == 0 then n else DropDigits(n / 16, k - 1)
  }

  lemma {:induction false} FixedHexDigits(n: nat, width: nat)
    ensures forall i :: 0 <= i < width ==> IsHexDigit(FixedHex(n, width)[i])
  {
    if width > 0 {
      FixedHexDigits(n / 16, width - 1);
      DigitValueOfHexDigit(n % 16);
    }
  }

  lemma {:induction false} FixedHexHead(n: nat, width: nat)
    requires width >= 2
    ensures FixedHex(n, width)[..2] == FixedHex(DropDigits(n, width - 2), 2)
  {
    if width == 2 {
      assert FixedHex(n, 2)[..2] == FixedHex(n, 2);
    } else {
      FixedHexHead(n / 16, width - 1);
      assert FixedHex(n, width)[..2] == FixedHex(n / 16, width - 1)[..2];
    }
  }

  lemma DropSixDigits(n: nat)
    ensures DropDigits(n, 6) == n / 0x100_0000
  {
    var m := n / 0x1000;
    assert n / 16 / 16 / 16 == m && m / 16 / 16 / 16 == n / 0x100_0000;
    assert DropDigits(n, 6) == DropDigits(n / 16, 5) == DropDigits(n / 16 / 16, 4);
    assert DropDigits(n / 16 / 16, 4) == DropDigits(m, 3) == DropDigits(m / 16, 2);
    assert DropDigits(m / 16, 2) == DropDigits(m / 16 / 16, 1) == DropDigits(m / 16 / 16 / 16, 0);
  }

  /** A 32-bit word printed with "%08x" starts with its own top byte. */
  lemma WordTopByte(w: nat, text: string)
    requires w < 0x1_0000_0000 && |text| >= 8 && text[..8] == FixedHex(w, 8)
    ensures TopByte(text) == Some(w / 0x100_0000)
  {
    var b := w / 0x100_0000;
    DropSixDigits(w);
    FixedHexHead(w, 8);
    assert Pow16(2) == 16 * (16 * Pow16(0));
    ZeroFillIsFixed(b, 2);
    assert text[..2] == text[..8][..2];
    TwoDigitPrefix(text, b);
  }
}
