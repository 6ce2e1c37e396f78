/**
 * The bit-string formatter `i2b` of the test utilities (test/utils.c:3-18).
 *
 * `i2b` writes the 32 bits of a `uint32_t`, most significant first, as '0'
 * and '1' characters. A space follows every bit whose index is a multiple of
 * 5, which groups the bits as the trie's 5-bit hash chunks. The buffer is NUL
 * terminated after every bit, and the caller's buffer is returned.
 *
 * `value >> i` of an unsigned value is `value / 2^i`; `& 1` keeps its lowest
 * bit, `% 2`.
 */
module BitString {
  import opened Arith

  type uint32 = x: int | 0 <= x < 0x1_0000_0000

  /** `(value >> i) & 1`. */
  function BitOf(value: nat, i: nat): nat
  {
    (value / Pow2(i)) % 2
  }

  /** The character written for bit `i`. */
  function Digit(value: nat, i: nat): char
  {
    if BitOf(value, i) == 1 then '1' else '0'
  }

  /** What the loop has written once bits 31 down to `j` are done. */
  function Out(value: nat, j: nat): (r: seq<char>)
    requires j <= 32
    ensures forall k :: 0 <= k < |r| ==> r[k] == '0' || r[k] == '1' || r[k] == ' '
    decreases 32 - j
  {
    if j == 32 then []
    else Out(value, j + 1) + [Digit(value, j)] + (if j % 5 == 0 then [' '] else [])
  }

  /** One turn of the loop appends the digit for bit `j` and, on a multiple of 5, a space. */
  lemma OutStep(value: nat, j: nat)
    requires j < 32
    ensures Out(value, j) == Out(value, j + 1) + [Digit(value, j)] + (if j % 5 == 0 then [' '] else [])
  {
  }

  /** The whole text `i2b` writes before its final NUL. */
  function Format(value: nat): (r: seq<char>)
    ensures |r| == 39
    ensures forall k :: 0 <= k < |r| ==> r[k] == '0' || r[k] == '1' || r[k] == ' '
  {
    OutLength(value, 0);
    Out(value, 0)
  }

  /** The characters of `s` other than spaces. */
  function Unspace(s: seq<char>): seq<char>
  {
    if s == [] then []
    else Unspace(s[..|s| - 1]) + (if s[|s| - 1] == ' ' then [] else [s[|s| - 1]])
  }

  /** `s` read as a base-2 numeral, most significant digit first; every character but '1' counts as 0. */
  function ParseBits(s: seq<char>): nat
  {
    if s == [] then 0 else 2 * ParseBits(s[..|s| - 1]) + (if s[|s| - 1] == '1' then 1 else 0)
  }

  /**
   * The written prefix holds one digit per bit from 31 down to `j`, and a space
   * for each multiple of 5 among them; the whole text is 39 characters.
   */
  lemma {:induction false} OutLength(value: nat, j: nat)
    requires j <= 32
    ensures |Out(value, j)| == (32 - j) + (7 - (j + 4) / 5)
    decreases 32 - j
  {
    if j < 32 {
      OutLength(value, j + 1);
      assert |Out(value, j)| == |Out(value, j + 1)| + 1 + (if j % 5 == 0 then 1 else 0);
      assert (j + 5) / 5 == (j + 4) / 5 + (if j % 5 == 0 then 1 else 0);
    }
  }

  lemma FormatLength(value: nat)
    ensures |Format(value)| == 39
  {
    OutLength(value, 0);
  }

  // Division facts for the round trip.

  /** Division is determined by quotient and remainder. */
  lemma DivUnique(a: nat, d: nat, q: nat, r: nat)
    requires d >= 1 && a == d * q + r && r < d
    ensures a / d == q
  {
    var q' := a / d;
    var r' := a % d;
    assert d * q + r == d * q' + r';
    if q' > q {
      MulLe(q + 1, q', d);
    } else if q' < q {
      MulLe(q' + 1, q, d);
    }
  }

  /** Shifting right by `i + 1` is shifting right by `i` and then by 1. */
  lemma DivTwice(a: nat, b: nat)
    requires b >= 1
    ensures (a / b) / 2 == a / (b * 2)
  {
    var q := a / b;
    var r := a % b;
    assert a == b * q + r;
    assert q == 2 * (q / 2) + q % 2;
    assert a == (b * 2) * (q / 2) + (b * (q % 2) + r);
    DivUnique(a, b * 2, q / 2, b * (q % 2) + r);
  }

  lemma DivByOne(x: nat)
    ensures x / Pow2(0) == x
  {
  }

  lemma Pow2ThirtyTwo()
    ensures Pow2(32) == 0x1_0000_0000
  {
    assert Pow2(8) == 256;
    assert Pow2(16) == 256 * Pow2(8);
    assert Pow2(24) == 256 * Pow2(16);
    assert Pow2(32) == 256 * Pow2(24);
  }

  /** Without spaces, one turn of the loop adds just the digit for bit `j`. */
  lemma UnspaceStep(value: nat, j: nat)
    requires j < 32
    ensures Unspace(Out(value, j)) == Unspace(Out(value, j + 1)) + [Digit(value, j)]
  {
    var prefix := Out(value, j + 1) + [Digit(value, j)];
    assert Unspace(prefix) == Unspace(Out(value, j + 1)) + [Digit(value, j)];
    if j % 5 == 0 {
      assert Out(value, j)[..|Out(value, j)| - 1] == prefix;
    } else {
      assert Out(value, j) == prefix;
    }
  }

  /** `value >> j` is twice `value >> (j + 1)` plus bit `j`. */
  lemma ShiftStep(value: nat, j: nat)
    ensures value / Pow2(j) == 2 * (value / Pow2(j + 1)) + BitOf(value, j)
  {
    var x := value / Pow2(j);
    DivTwice(value, Pow2(j));
    assert Pow2(j + 1) == Pow2(j) * 2;
    assert x == 2 * (x / 2) + x % 2;
  }

  /** Without its spaces, the written prefix is the numeral of `value >> j`. */
  lemma {:induction false} OutParses(value: uint32, j: nat)
    requires j <= 32
    ensures ParseBits(Unspace(Out(value, j))) == value / Pow2(j)
    decreases 32 - j
  {
    if j == 32 {
      Pow2ThirtyTwo();
    } else {
      OutParses(value, j + 1);
      UnspaceStep(value, j);
      ShiftStep(value, j);
      var u := Unspace(Out(value, j + 1)) + [Digit(value, j)];
      assert u[..|u| - 1] == Unspace(Out(value, j + 1));
    }
  }

  /** Round trip: dropping the spaces and reading base 2 gives back the value. */
  lemma FormatParses(value: uint32)
    ensures ParseBits(Unspace(Format(value))) == value
  {
    OutParses(value, 0);
    DivByOne(value);
  }

  /**
   * `i2b`: writes the formatted bits and a NUL into the first 40 characters of
   * `str`, leaves the rest of it alone, and returns `str`. The buffer must hold
   * those 40 characters; the `char buf[38]` of the commented-out call at
   * test/test_hamt.c:433 is two short, and that call would write past its end.
   */
  method I2b(value: uint32, str: array<char>) returns (r: array<char>)
    requires str.Length >= 40
    modifies str
    ensures r == str
    ensures str[..40] == Format(value) + ['\0']
    ensures str[40..] == old(str[40..])
  {
    var s := 0;
    var i := 31;
    while i >= 0
      invariant -1 <= i <= 31
      invariant s == |Out(value, i + 1)| && s <= 39
      invariant str[..s] == Out(value, i + 1)
      invariant i < 31 ==> str[s] == '\0'
      invariant str[40..] == old(str[40..])
    {
      OutLength(value, i);
      OutStep(value, i);
      ghost var done := str[..s];
      str[s] := if BitOf(value, i) == 1 then '1' else '0';
      s := s + 1;
      assert str[..s] == done + [Digit(value, i)];
      if i % 5 == 0 {
        ghost var withDigit := str[..s];
        str[s] := ' ';
        assert str[..s] == withDigit;
        s := s + 1;
        assert str[..s] == withDigit + [' '];
      }
      ghost var written := str[..s];
      str[s] := '\0';
      assert str[..s] == written;
      i := i - 1;
    }
    FormatLength(value);
    assert str[..39] == Out(value, i + 1);
    assert Out(value, i + 1) == Format(value);
    assert str[..40] == str[..39] + [str[39]];
    r := str;
  }
}
