/**
 * Sedgewick's universal string hash (src/uh.c:15-22).
 *
 * The hash reads a NUL-terminated C string. It keeps two `uint32_t`
 * accumulators: `h`, starting at 0, and the multiplier `a`, starting at 31415.
 * Each character `c` before the terminator sets `h` to `(a * h + c) % M`.
 * After it, `a` becomes `a * 27183 % (M - 1)`.
 *
 * The arithmetic is written out as C performs it:
 * - `a * h` and `a * b` wrap around modulo 2^32;
 * - the character is a signed `char` converted to `uint32_t`, which also wraps;
 * - the sum wraps once more before the `%`.
 */
module UniversalHash {

  const TwoTo32: int := 0x1_0000_0000

  type uint32 = x: int | 0 <= x < 0x1_0000_0000

  /** A C `char`, taken as signed. */
  type Char = x: int | -128 <= x < 128

  /** Reduction modulo 2^32: what storing an integer in a `uint32_t` does. */
  function Wrap(x: int): uint32
  {
    x % TwoTo32
  }

  const A0: uint32 := 31415
  const B: uint32 := 27183

  /**
   * One turn of the loop on character `c`. `h` is updated with the current
   * multiplier, and then the multiplier advances.
   */
  function Step(h: uint32, a: uint32, c: Char, M: uint32): (r: (uint32, uint32))
    requires M >= 2
    ensures r.0 < M && r.1 < M - 1
  {
    (Wrap(Wrap(a * h) + Wrap(c)) % M, Wrap(a * B) % (M - 1))
  }

  /** The accumulators `(h, a)` after the characters of `s`. */
  function State(s: seq<Char>, M: uint32): (r: (uint32, uint32))
    requires s == [] || M >= 2
    ensures s == [] ==> r == (0, A0)
    ensures s != [] ==> r.0 < M && r.1 < M - 1
  {
    if s == [] then (0, A0)
    else
      var st := State(s[..|s| - 1], M);
      Step(st.0, st.1, s[|s| - 1], M)
  }

  /**
   * The hash of the characters `s`: 0 for the empty string; otherwise below
   * `M`, since every step ends in `% M`.
   */
  function Hash(s: seq<Char>, M: uint32): (r: uint32)
    requires s == [] || M >= 2
    ensures s == [] ==> r == 0
    ensures s != [] ==> r < M
  {
    State(s, M).0
  }

  /** The multiplier used for the character at position `n`. */
  function Multiplier(n: nat, M: uint32): uint32
    requires n == 0 || M >= 2
  {
    if n == 0 then A0 else Wrap(Multiplier(n - 1, M) * B) % (M - 1)
  }

  /**
   * The multiplier sequence does not depend on the characters, only on how many
   * have been read. After at least one character it lies below `M - 1`.
   */
  lemma {:induction false} MultiplierOnlyCounts(s: seq<Char>, M: uint32)
    requires s == [] || M >= 2
    ensures State(s, M).1 == Multiplier(|s|, M)
    ensures s != [] ==> State(s, M).1 < M - 1
  {
    if s != [] {
      MultiplierOnlyCounts(s[..|s| - 1], M);
    }
  }

  /** Index of the terminating NUL: the first zero of the buffer. */
  function NulIndex(str: seq<Char>): (n: nat)
    requires 0 in str
    ensures n < |str| && str[n] == 0
    ensures forall k :: 0 <= k < n ==> str[k] != 0
  {
    if str[0] == 0 then 0 else 1 + NulIndex(str[1..])
  }

  /** The characters of the C string held in `str`: those before its first NUL. */
  function CString(str: seq<Char>): seq<Char>
    requires 0 in str
  {
    str[..NulIndex(str)]
  }

  /** What follows the terminator is never read: the string, and so its hash, ignore it. */
  lemma {:induction false} CStringIgnoresTail(str: seq<Char>, tail: seq<Char>)
    requires 0 in str
    ensures 0 in str + tail && CString(str + tail) == CString(str)
  {
    assert str[0] == (str + tail)[0];
    if str[0] != 0 {
      CStringIgnoresTail(str[1..], tail);
      assert (str + tail)[1..] == str[1..] + tail;
    }
  }

  /**
   * `sedgewick_universal_hash`: the loop computes the hash of the characters
   * before the terminator. `M` must be at least 2 unless the string is empty,
   * because `M` and `M - 1` are used as moduli.
   */
  method SedgewickUniversalHash(str: seq<Char>, M: uint32) returns (h: uint32)
    requires 0 in str
    requires CString(str) == [] || M >= 2
    ensures h == Hash(CString(str), M)
    ensures CString(str) != [] ==> h < M
  {
    var a: uint32 := A0;
    var i := 0;
    h := 0;
    while str[i] != 0
      invariant i <= NulIndex(str)
      invariant i == 0 || M >= 2
      invariant (h, a) == State(str[..i], M)
      decreases NulIndex(str) - i
    {
      assert M >= 2 by {
        assert str[..NulIndex(str)][0] == str[0];
      }
      assert str[..i + 1][..i] == str[..i];
      h := Wrap(Wrap(a * h) + Wrap(str[i])) % M;
      a := Wrap(a * B) % (M - 1);
      i := i + 1;
    }
  }
}
