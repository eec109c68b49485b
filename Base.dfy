/** Machine integers, result wrappers, the error kinds of the converter, the
    big-endian `i32` layout and UTF-8 well-formedness: everything the codec,
    the frames and the streams share. */
module Base {

  /** Rust's `u8`. */
  type u8 = x: int | 0 <= x < 0x100

  const I32_MIN: int := -0x8000_0000
  const I32_MAX: int := 0x7FFF_FFFF

  /** Rust's `i32`. */
  type i32 = x: int | I32_MIN <= x <= I32_MAX

  /** Rust's `usize` on a 64-bit target. */
  const USIZE_MODULUS: int := 0x1_0000_0000_0000_0000

  datatype Option<T> = None | Some(value: T)

  datatype Result<T, E> = Ok(value: T) | Err(error: E)

  /** Every value wrapped as a success. */
  function Oks<T, E>(xs: seq<T>): (r: seq<Result<T, E>>)
    ensures |r| == |xs| && forall i :: 0 <= i < |xs| ==> r[i] == Ok(xs[i])
  {
    seq(|xs|, i requires 0 <= i < |xs| => Ok(xs[i]))
  }

  lemma OksAppend<T, E>(a: seq<T>, b: seq<T>)
    ensures Oks<T, E>(a + b) == Oks<T, E>(a) + Oks<T, E>(b)
  {
  }

  lemma OksCons<T, E>(xs: seq<T>)
    requires xs != []
    ensures Oks<T, E>(xs) == [Ok(xs[0])] + Oks<T, E>(xs[1..])
  {
  }

  /** All the values of a stream of results, or its first error. */
  function Collect<T, E>(items: seq<Result<T, E>>): (r: Result<seq<T>, E>)
    decreases |items|
  {
    if items == [] then Ok([])
    else if items[0].Err? then Err(items[0].error)
    else
      var rest := Collect(items[1..]);
      if rest.Err? then Err(rest.error) else Ok([items[0].value] + rest.value)
  }

  /** The values of `p`, put in front of whatever `r` collected. */
  function Prepend<T, E>(p: seq<T>, r: Result<seq<T>, E>): (q: Result<seq<T>, E>)
    ensures q.Ok? <==> r.Ok?
    ensures r.Err? ==> q == r
    ensures r.Ok? ==> |q.value| == |p| + |r.value| && q.value[..|p|] == p && q.value[|p|..] == r.value
  {
    if r.Ok? then Ok(p + r.value) else r
  }

  lemma PrependPrepend<T, E>(a: seq<T>, b: seq<T>, r: Result<seq<T>, E>)
    ensures Prepend(a, Prepend(b, r)) == Prepend(a + b, r)
  {
    if r.Ok? {
      assert a + (b + r.value) == (a + b) + r.value;
    }
  }

  /** Collecting values that are all successes and then more items. */
  lemma {:induction false} CollectPrepend<T, E>(p: seq<T>, items: seq<Result<T, E>>)
    ensures Collect(Oks<T, E>(p) + items) == Prepend(p, Collect(items))
    decreases |p|
  {
    if p == [] {
      assert Oks<T, E>(p) + items == items;
      PrependNothing(Collect(items));
    } else {
      var all := Oks<T, E>(p) + items;
      assert all[0] == Ok(p[0]);
      assert all[1..] == Oks<T, E>(p[1..]) + items;
      CollectPrepend(p[1..], items);
      PrependPrepend([p[0]], p[1..], Collect(items));
      assert [p[0]] + p[1..] == p;
    }
  }

  lemma PrependNothing<T, E>(r: Result<seq<T>, E>)
    ensures Prepend([], r) == r
  {
    if r.Ok? {
      assert [] + r.value == r.value;
    }
  }

  /** Collecting a stream with no error gives back every value. */
  lemma {:induction false} CollectOks<T, E>(xs: seq<T>)
    ensures Collect(Oks<T, E>(xs)) == Ok(xs)
    decreases |xs|
  {
    if xs != [] {
      assert Oks<T, E>(xs)[1..] == Oks<T, E>(xs[1..]);
      CollectOks<T, E>(xs[1..]);
      assert [xs[0]] + xs[1..] == xs;
    }
  }

  /** The error kinds of the converter. `Io` stands for a wrapped
      `std::io::Error`; only its message is kept. */
  datatype Error =
    | UnexpectedEof
    | InvalidUtf8Descriptor
    | Io(message: string)
    | InvalidFileExtension(path: string)
    | MalformedFastaHeader(path: string)

  function Abs(x: int): nat { if x < 0 then -x else x }

  function Min(a: int, b: int): int { if a <= b then a else b }

  /** `a / b` and `a % b` as Rust computes them on signed integers:
      the quotient is truncated toward zero and the remainder takes the
      sign of the dividend. */
  function TruncDiv(a: int, b: int): (q: int)
    requires b > 0
    ensures a >= 0 ==> q * b <= a < q * b + b
    ensures a < 0 ==> q * b - b < a <= q * b
  {
    if a >= 0 then a / b else -((-a) / b)
  }

  function TruncRem(a: int, b: int): (r: int)
    requires b > 0
    ensures a == TruncDiv(a, b) * b + r
    ensures a >= 0 ==> 0 <= r < b
    ensures a < 0 ==> -b < r <= 0
  {
    a - TruncDiv(a, b) * b
  }

  /** `x as usize` for an `i32` on a 64-bit target: sign extension, then the
      bit pattern read as unsigned. */
  function I32AsUsize(x: i32): (r: nat)
    ensures r < USIZE_MODULUS && (r - x) % USIZE_MODULUS == 0
  {
    if x >= 0 then x else USIZE_MODULUS + x
  }

  /** `i32::to_be_bytes`: two's complement, most significant byte first. */
  function ToBeBytes(x: i32): (r: seq<u8>)
    ensures |r| == 4
  {
    var u := if x < 0 then x + 0x1_0000_0000 else x;
    [u / 0x100_0000, (u / 0x1_0000) % 0x100, (u / 0x100) % 0x100, u % 0x100]
  }

  /** `i32::from_be_bytes`. */
  function FromBeBytes(b: seq<u8>): (x: i32)
    requires |b| == 4
    ensures x < 0 <==> b[0] >= 0x80
  {
    var u := (b[0] as int) * 0x100_0000 + (b[1] as int) * 0x1_0000 + (b[2] as int) * 0x100 + b[3];
    if u >= 0x8000_0000 then u - 0x1_0000_0000 else u
  }

  lemma BeBytesRoundTrip(x: i32)
    ensures FromBeBytes(ToBeBytes(x)) == x
  {
    var u := if x < 0 then x + 0x1_0000_0000 else x;
    ByteDigits(u);
  }

  /** A 32-bit value is the sum of its four bytes at their weights. */
  lemma ByteDigits(u: nat)
    requires u < 0x1_0000_0000
    ensures u == (u / 0x100_0000) * 0x100_0000 + ((u / 0x1_0000) % 0x100) * 0x1_0000
               + ((u / 0x100) % 0x100) * 0x100 + u % 0x100
  {
    var a, r0 := u / 0x100, u % 0x100;
    var b, r1 := a / 0x100, a % 0x100;
    var c, r2 := b / 0x100, b % 0x100;
    assert u == b * 0x1_0000 + (r1 * 0x100 + r0);
    assert u / 0x1_0000 == b by {
      DivSplit(b, r1 * 0x100 + r0, 0x1_0000);
    }
    assert u == c * 0x100_0000 + (r2 * 0x1_0000 + r1 * 0x100 + r0);
    assert u / 0x100_0000 == c by {
      DivSplit(c, r2 * 0x1_0000 + r1 * 0x100 + r0, 0x100_0000);
    }
  }

  lemma BeBytesRoundTripBytes(b: seq<u8>)
    requires |b| == 4
    ensures ToBeBytes(FromBeBytes(b)) == b
  {
    var b0, b1, b2, b3 := b[0] as int, b[1] as int, b[2] as int, b[3] as int;
    var u := b0 * 0x100_0000 + b1 * 0x1_0000 + b2 * 0x100 + b3;
    assert u / 0x100_0000 == b0 by {
      DivSplit(b0, b1 * 0x1_0000 + b2 * 0x100 + b3, 0x100_0000);
    }
    assert u / 0x1_0000 == b0 * 0x100 + b1 by {
      DivSplit(b0 * 0x100 + b1, b2 * 0x100 + b3, 0x1_0000);
    }
    assert u / 0x100 == b0 * 0x1_0000 + b1 * 0x100 + b2 by {
      DivSplit(b0 * 0x1_0000 + b1 * 0x100 + b2, b3, 0x100);
    }
    assert (b0 * 0x100 + b1) % 0x100 == b1 by {
      DivSplit(b0, b1, 0x100);
    }
    assert (b0 * 0x1_0000 + b1 * 0x100 + b2) % 0x100 == b2 by {
      DivSplit(b0 * 0x100 + b1, b2, 0x100);
    }
  }

  /** `q * m + r` splits back into `q` and `r` when `0 <= r < m`; the
      divisors used are the byte weights of a big-endian `i32`. */
  lemma DivSplit(q: nat, r: nat, m: nat)
    requires m == 0x100 || m == 0x1_0000 || m == 0x100_0000
    requires r < m
    ensures (q * m + r) / m == q && (q * m + r) % m == r
  {
    if m == 0x100 {
      assert (q * 0x100 + r) / 0x100 == q;
    } else if m == 0x1_0000 {
      assert (q * 0x1_0000 + r) / 0x1_0000 == q;
    } else {
      assert (q * 0x100_0000 + r) / 0x100_0000 == q;
    }
  }

  // ---------------------------------------------------------------------
  // UTF-8 well-formedness, byte by byte as section 4 of RFC 3629 lays it out

  predicate IsContinuation(b: u8) { 0x80 <= b <= 0xBF }

  /** The width of the well-formed UTF-8 character that starts `b`, or 0
      when `b` does not start with one. */
  function CharWidth(b: seq<u8>): (w: nat)
    requires |b| > 0
    ensures w <= 4 && w <= |b|
  {
    var b0 := b[0];
    if b0 <= 0x7F then 1
    else if 0xC2 <= b0 <= 0xDF then
      (if |b| >= 2 && IsContinuation(b[1]) then 2 else 0)
    else if b0 == 0xE0 then
      (if |b| >= 3 && 0xA0 <= b[1] <= 0xBF && IsContinuation(b[2]) then 3 else 0)
    else if 0xE1 <= b0 <= 0xEC || 0xEE <= b0 <= 0xEF then
      (if |b| >= 3 && IsContinuation(b[1]) && IsContinuation(b[2]) then 3 else 0)
    else if b0 == 0xED then
      (if |b| >= 3 && 0x80 <= b[1] <= 0x9F && IsContinuation(b[2]) then 3 else 0)
    else if b0 == 0xF0 then
      (if |b| >= 4 && 0x90 <= b[1] <= 0xBF && IsContinuation(b[2]) && IsContinuation(b[3]) then 4 else 0)
    else if 0xF1 <= b0 <= 0xF3 then
      (if |b| >= 4 && IsContinuation(b[1]) && IsContinuation(b[2]) && IsContinuation(b[3]) then 4 else 0)
    else if b0 == 0xF4 then
      (if |b| >= 4 && 0x80 <= b[1] <= 0x8F && IsContinuation(b[2]) && IsContinuation(b[3]) then 4 else 0)
    else 0
  }

  /** What `String::from_utf8` accepts. */
  predicate IsUtf8(b: seq<u8>)
    decreases |b|
  {
    b == [] || (CharWidth(b) > 0 && IsUtf8(b[CharWidth(b)..]))
  }

  predicate IsAscii(b: seq<u8>) { forall i :: 0 <= i < |b| ==> b[i] < 0x80 }

  /** Every ASCII byte string is well-formed UTF-8. */
  lemma {:induction false} AsciiIsUtf8(b: seq<u8>)
    requires IsAscii(b)
    ensures IsUtf8(b)
  {
    if b != [] {
      assert CharWidth(b) == 1;
      AsciiIsUtf8(b[1..]);
    }
  }

  /** Well-formed UTF-8 strings concatenate to a well-formed UTF-8 string. */
  lemma {:induction false} Utf8Concat(a: seq<u8>, b: seq<u8>)
    requires IsUtf8(a) && IsUtf8(b)
    ensures IsUtf8(a + b)
    decreases |a|
  {
    if a == [] {
      assert a + b == b;
    } else {
      var w := CharWidth(a);
      assert (a + b)[..w] == a[..w];
      assert CharWidth(a + b) == w;
      assert (a + b)[w..] == a[w..] + b;
      Utf8Concat(a[w..], b);
    }
  }

  /** Removing a leading ASCII byte keeps a string well-formed. */
  lemma Utf8DropAscii(b: seq<u8>)
    requires IsUtf8(b) && b != [] && b[0] < 0x80
    ensures IsUtf8(b[1..])
  {
    assert CharWidth(b) == 1;
  }

  /** Removing a trailing ASCII byte keeps a string well-formed: no
      multi-byte character can end in an ASCII byte. */
  lemma {:induction false} Utf8DropLastAscii(b: seq<u8>)
    requires IsUtf8(b) && b != [] && b[|b| - 1] < 0x80
    ensures IsUtf8(b[..|b| - 1])
    decreases |b|
  {
    var a := b[..|b| - 1];
    if a != [] {
      var w := CharWidth(b);
      assert 0 < w < |b|;
      assert a[..w] == b[..w];
      assert CharWidth(a) == w;
      var c := b[w..];
      var d := c[..|c| - 1];
      assert |d| == |a[w..]|;
      assert forall i :: 0 <= i < |d| ==> d[i] == b[w + i] == a[w..][i];
      assert d == a[w..];
      Utf8DropLastAscii(c);
    }
  }
}
