/** The game's base layer: fixed-width integer helpers, the comparison macros,
    the two-phase buffer clear and NUL-terminated character strings. */
module Base {

  /** A value or its absence; `None` stands for a NULL pointer or a failed lookup. */
  datatype Option<T> = None | Some(value: T)

  /** An unsigned byte. */
  newtype u8 = x: int | 0 <= x < 256

  const U64_MODULUS: int := 0x1_0000_0000_0000_0000

  /** C's integer `/`, which truncates toward zero (Dafny's `/` is Euclidean). */
  function TruncDiv(a: int, b: int): (q: int)
    requires b > 0
    ensures a >= 0 ==> q >= 0 && 0 <= a - q * b < b
    ensures a < 0 ==> q <= 0 && -b < a - q * b <= 0
  {
    if a >= 0 then a / b else -((-a) / b)
  }

  /** Multiplying by a positive factor keeps order. */
  lemma MulMono(a: int, x: int, y: int)
    requires a > 0 && x <= y
    ensures a * x <= a * y
  {
    assert a * y - a * x == a * (y - x);
  }

  /** A multiple of `a` leaves no remainder. */
  lemma MulMod(a: int, k: int)
    requires a > 0
    ensures (a * k) % a == 0
  {
    var m := a * k;
    var j := k - m / a;
    assert m % a == a * j;
    if j > 0 {
      MulMono(a, 1, j);
    } else if j < 0 {
      MulMono(a, j, -1);
    }
  }

  /** Division is unique: a value written as `q * m + r` with `0 <= r < m` has
      quotient `q` and remainder `r`. */
  lemma DivModUnique(a: int, m: int, q: int, r: int)
    requires m > 0 && 0 <= r < m && a == q * m + r
    ensures a / m == q && a % m == r
  {
    var q2, r2 := a / m, a % m;
    assert (q - q2) * m == r2 - r;
    if q > q2 {
      MulMono(m, 1, q - q2);
    } else if q < q2 {
      MulMono(m, 1, q2 - q);
    }
  }

  // The comparison macros, on mathematical integers.

  function Min(a: int, b: int): (r: int)
    ensures r <= a && r <= b
    ensures r == a || r == b
  {
    if a < b then a else b
  }

  function Max(a: int, b: int): (r: int)
    ensures r >= a && r >= b
    ensures r == a || r == b
  {
    if a > b then a else b
  }

  function Abs(v: int): (r: int)
    ensures r >= 0
    ensures r == v || r == -v
  {
    if v >= 0 then v else -v
  }

  function Sign(v: int): (r: int)
    ensures -1 <= r <= 1
    ensures r * Abs(v) == v
    ensures (r > 0 <==> v > 0) && (r < 0 <==> v < 0)
  {
    if v > 0 then 1 else if v < 0 then -1 else 0
  }

  /** `KB(n)` multiplies by the unsigned 64-bit constant 1024, so it wraps modulo 2^64. */
  function KB(n: int): (r: int)
    ensures 0 <= r < U64_MODULUS
    ensures (r - n * 1024) % U64_MODULUS == 0
  {
    (n * 1024) % U64_MODULUS
  }

  /** `MB(n)` is `KB(n) * 1024ULL`: `n * 2^20`, wrapped modulo 2^64. */
  function MB(n: int): (r: int)
    ensures 0 <= r < U64_MODULUS
    ensures (r - n * 1048576) % U64_MODULUS == 0
  {
    var k := KB(n);
    var q := (k - n * 1024) / U64_MODULUS;
    var p := (k * 1024) / U64_MODULUS;
    var r := (k * 1024) % U64_MODULUS;
    assert k - n * 1024 == U64_MODULUS * q;
    assert (k - n * 1024) * 1024 == U64_MODULUS * (q * 1024);
    assert r - n * 1048576 == U64_MODULUS * (q * 1024 - p);
    MulMod(U64_MODULUS, q * 1024 - p);
    r
  }

  /** Without wrap-around, MB is multiplication by 2^20. */
  lemma MBExact(n: nat)
    requires n * 1048576 < U64_MODULUS
    ensures MB(n) == n * 1048576
  {
    assert n * 1024 <= n * 1048576;
    assert KB(n) == n * 1024;
  }

  /** The least value of `s64`. */
  const S64_MIN: int := -0x8000_0000_0000_0000

  /** How `zero_memory` splits `size` bytes into whole 8-byte words and a byte tail.
      `size / sizeof(u64)` divides by an unsigned 64-bit value, so a negative `size`
      is first converted to `u64`, that is `size + 2^64`; the tail `size - s0 * 8` is
      computed in `u64` too. A negative size therefore asks for at least 2^60 words. */
  function WordTail(size: int): (r: (int, int))
    requires S64_MIN <= size
    ensures r.0 >= 0 && 0 <= r.1 < 8
    ensures size >= 0 ==> r.0 * 8 + r.1 == size
    ensures size < 0 ==> r.0 * 8 + r.1 == size + U64_MODULUS && r.0 >= U64_MODULUS / 16
    ensures size == 0 ==> r == (0, 0)
  {
    var u := if size >= 0 then size else size + U64_MODULUS;
    var s0 := u / 8;
    (s0, u - s0 * 8)
  }

  /** A size of -5 becomes 2^64 - 5: 2^61 - 1 words and a tail of 3 bytes. */
  lemma WordTailNegative()
    ensures WordTail(-5) == (2305843009213693951, 3)
  {
  }

  /** Clears `size` bytes starting at offset `ptr` of `buf`: first in 8-byte words,
      then byte by byte for the remainder. Every store must land inside the
      buffer, which rules out a negative size (see `WordTail`). */
  method ZeroMemory(buf: array<u8>, ptr: nat, size: int)
    requires 0 <= size && ptr + size <= buf.Length
    modifies buf
    ensures forall k :: 0 <= k < buf.Length ==>
      buf[k] == if ptr <= k < ptr + size then 0 else old(buf[k])
  {
    var split := WordTail(size);
    var s0, s1 := split.0, split.1;
    var i := 0;
    while i < s0
      invariant 0 <= i <= s0
      invariant forall k :: 0 <= k < buf.Length ==>
        buf[k] == if ptr <= k < ptr + 8 * i then 0 else old(buf[k])
    {
      // One 64-bit store.
      forall j | 0 <= j < 8 {
        buf[ptr + 8 * i + j] := 0;
      }
      i := i + 1;
    }
    var p8 := ptr + s0 * 8;
    i := 0;
    while i < s1
      invariant 0 <= i <= s1
      invariant forall k :: 0 <= k < buf.Length ==>
        buf[k] == if ptr <= k < p8 + i then 0 else old(buf[k])
    {
      buf[p8 + i] := 0;
      i := i + 1;
    }
  }

  // NUL-terminated character strings. A C string is a character sequence that holds
  // a NUL somewhere; its text is everything before the first NUL.

  const NUL: char := '\0'

  /** Index of the first NUL. */
  function StrLen(s: seq<char>): (n: nat)
    requires NUL in s
    ensures n < |s| && s[n] == NUL
    ensures forall k :: 0 <= k < n ==> s[k] != NUL
  {
    if s[0] == NUL then 0 else 1 + StrLen(s[1..])
  }

  /** The text of a C string. */
  function CStr(s: seq<char>): (t: seq<char>)
    requires NUL in s
    ensures NUL !in t && |t| == StrLen(s)
    ensures |t| < |s| && t + [NUL] == s[..|t| + 1]
  {
    s[..StrLen(s)]
  }

  /** A sequence that holds the characters of `t` and then a NUL reads back as `t`,
      whatever follows the NUL. */
  lemma CStrFrom(s: seq<char>, t: seq<char>)
    requires NUL !in t && |t| < |s| && s[|t|] == NUL
    requires forall k :: 0 <= k < |t| ==> s[k] == t[k]
    ensures NUL in s && CStr(s) == t
  {
    assert s[..|t|] == t;
  }

  /** `cstr_equal`: walks both strings in step until either ends. */
  method CStrEqual(a: seq<char>, b: seq<char>) returns (eq: bool)
    requires NUL in a && NUL in b
    ensures eq <==> CStr(a) == CStr(b)
  {
    var i := 0;
    while a[i] != NUL && b[i] != NUL
      invariant i <= StrLen(a) && i <= StrLen(b)
      invariant a[..i] == b[..i]
      decreases StrLen(a) - i
    {
      if a[i] != b[i] {
        assert CStr(a)[i] != CStr(b)[i];
        return false;
      }
      i := i + 1;
    }
    if a[i] != b[i] {
      assert |CStr(a)| != |CStr(b)|;
      return false;
    }
    return true;
  }

  /** Number of elements of `s` that satisfy `p`. */
  function Count<T>(s: seq<T>, p: T -> bool): (n: nat)
    ensures n <= |s|
    ensures n == 0 <==> forall k :: 0 <= k < |s| ==> !p(s[k])
  {
    if s == [] then 0 else Count(s[..|s| - 1], p) + (if p(s[|s| - 1]) then 1 else 0)
  }

  /** Extending a prefix by one element adds that element's test. */
  lemma CountPrefix<T>(s: seq<T>, k: nat, p: T -> bool)
    requires k < |s|
    ensures Count(s[..k + 1], p) == Count(s[..k], p) + (if p(s[k]) then 1 else 0)
  {
    assert s[..k + 1][..k] == s[..k];
  }

  /** Overwriting one element changes the count by that element's old and new tests. */
  lemma {:induction false} CountUpdate<T>(s: seq<T>, i: nat, x: T, p: T -> bool)
    requires i < |s|
    ensures Count(s[i := x], p)
            == Count(s, p) - (if p(s[i]) then 1 else 0) + (if p(x) then 1 else 0)
  {
    var t := s[i := x];
    if i == |s| - 1 {
      assert t[..|t| - 1] == s[..|s| - 1];
    } else {
      CountUpdate(s[..|s| - 1], i, x, p);
      assert t[..|t| - 1] == s[..|s| - 1][i := x];
    }
  }
}
