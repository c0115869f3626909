/**
 * Bytes and the fixed-width big-endian integers the decoders read out of a
 * database file (`u16::from_be_bytes`, `i32::from_be_bytes`, ...).
 */
module Bytes {

  /** One byte of the file, Rust's `u8`. */
  type byte = b: int | 0 <= b < 256

  /** Two to the power `n`. */
  function Pow2(n: nat): (r: int)
    ensures r >= 1
  {
    if n == 0 then 1 else 2 * Pow2(n - 1)
  }

  lemma {:induction false} Pow2Add(a: nat, b: nat)
    ensures Pow2(a + b) == Pow2(a) * Pow2(b)
  {
    if b > 0 {
      Pow2Add(a, b - 1);
      assert Pow2(a + b) == 2 * Pow2(a + b - 1);
    }
  }

  lemma Pow2Monotone(a: nat, b: nat)
    requires a <= b
    ensures Pow2(a) <= Pow2(b)
  {
    Pow2Add(a, b - a);
  }

  /** The powers of two the 7-, 8-, 56- and 64-bit arithmetic of the decoders needs. */
  lemma Pow2Values()
    ensures Pow2(7) == 0x80 && Pow2(8) == 0x100 && Pow2(16) == 0x1_0000 && Pow2(32) == 0x1_0000_0000
    ensures Pow2(48) == 0x1_0000_0000_0000
    ensures Pow2(55) == 0x80_0000_0000_0000
    ensures Pow2(56) == 0x100_0000_0000_0000
    ensures Pow2(63) == 0x8000_0000_0000_0000
    ensures Pow2(64) == 0x1_0000_0000_0000_0000
  {
    assert Pow2(7) == 0x80 && Pow2(8) == 0x100;
    Pow2Add(8, 8);
    assert Pow2(16) == 0x1_0000;
    Pow2Add(16, 16);
    assert Pow2(32) == 0x1_0000_0000;
    Pow2Add(32, 16);
    assert Pow2(48) == 0x1_0000_0000_0000;
    Pow2Add(48, 7);
    Pow2Add(48, 8);
    assert Pow2(56) == 0x100_0000_0000_0000;
    Pow2Add(56, 7);
    Pow2Add(56, 8);
  }

  lemma Pow2Step8(n: nat)
    ensures Pow2(8 * n + 8) == 256 * Pow2(8 * n)
  {
    Pow2Add(8 * n, 8);
  }

  /** The unsigned big-endian value of `s`: what `uN::from_be_bytes` returns. */
  function BeUint(s: seq<byte>): nat
  {
    if s == [] then 0 else BeUint(s[..|s| - 1]) * 256 + s[|s| - 1]
  }

  /** `u16::from_be_bytes([hi, lo])`. */
  function U16(hi: byte, lo: byte): (v: nat)
    ensures v == BeUint([hi, lo]) && v < 65536
  {
    assert [hi, lo][..1] == [hi] && [hi][..0] == [];
    assert BeUint([hi]) == hi;
    hi * 256 + lo
  }

  lemma BeUintSnoc(s: seq<byte>, x: byte)
    ensures BeUint(s + [x]) == BeUint(s) * 256 + x
  {
    assert (s + [x])[..|s|] == s;
  }

  /** `u32::from_be_bytes([a, b, c, d])`. */
  function U32(a: byte, b: byte, c: byte, d: byte): (v: nat)
    ensures v == BeUint([a, b, c, d])
  {
    assert [a, b, c, d] == [a, b, c] + [d] && [a, b, c] == [a, b] + [c] && [a, b] == [a] + [b] && [a] == [] + [a];
    BeUintSnoc([a, b, c], d);
    BeUintSnoc([a, b], c);
    BeUintSnoc([a], b);
    BeUintSnoc([], a);
    ((a * 256 + b) * 256 + c) * 256 + d
  }

  lemma {:induction false} BeUintBound(s: seq<byte>)
    ensures BeUint(s) < Pow2(8 * |s|)
  {
    if s != [] {
      var init := s[..|s| - 1];
      BeUintBound(init);
      Pow2Step8(|init|);
    }
  }

  /**
   * The two's-complement big-endian value of `s`: what `iN::from_be_bytes`
   * returns for an N-bit integer stored in |s| = N/8 bytes.
   */
  function BeInt(s: seq<byte>): int
    requires |s| > 0
  {
    var u := BeUint(s);
    if u >= Pow2(8 * |s| - 1) then u - Pow2(8 * |s|) else u
  }

  /** The `n`-byte big-endian representation of `v` modulo 256^n: `uN::to_be_bytes`. */
  function BeBytes(v: nat, n: nat): (s: seq<byte>)
    ensures |s| == n
  {
    if n == 0 then [] else BeBytes(v / 256, n - 1) + [v % 256]
  }

  /** Reading back `n` big-endian bytes gives the value they were written from. */
  lemma {:induction false} BeUintOfBeBytes(v: nat, n: nat)
    requires v < Pow2(8 * n)
    ensures BeUint(BeBytes(v, n)) == v
  {
    if n > 0 {
      var s := BeBytes(v, n);
      assert s[..n - 1] == BeBytes(v / 256, n - 1);
      Pow2Step8(n - 1);
      BeUintOfBeBytes(v / 256, n - 1);
    }
  }

  /** Two big-endian bytes read back every value below 2^16. */
  lemma BeUint16RoundTrip(v: nat)
    requires v < 65536
    ensures BeUint(BeBytes(v, 2)) == v
  {
    Pow2Values();
    BeUintOfBeBytes(v, 2);
  }

  /**
   * Two's complement round trip: an integer in the signed range of `n` bytes,
   * written as its `n`-byte two's-complement pattern, reads back unchanged.
   */
  lemma BeIntOfTwosComplement(v: int, n: nat)
    requires n > 0
    requires -Pow2(8 * n - 1) <= v < Pow2(8 * n - 1)
    ensures BeInt(BeBytes(if v >= 0 then v else v + Pow2(8 * n), n)) == v
  {
    Pow2Add(8 * n - 1, 1);
    var u := if v >= 0 then v else v + Pow2(8 * n);
    BeUintOfBeBytes(u, n);
  }

  /** The signed range of an `n`-byte two's-complement reading. */
  lemma BeIntRange(s: seq<byte>)
    requires |s| > 0
    ensures -Pow2(8 * |s| - 1) <= BeInt(s) < Pow2(8 * |s| - 1)
  {
    BeUintBound(s);
    Pow2Add(8 * |s| - 1, 1);
  }

  /** Rust's `Ordering`. */
  datatype Ordering = Less | Equal | Greater

  /** Lexicographic comparison of byte strings: `str::cmp` on the UTF-8 bytes. */
  function Compare(a: seq<byte>, b: seq<byte>): Ordering
  {
    if a == [] then (if b == [] then Equal else Less)
    else if b == [] then Greater
    else if a[0] < b[0] then Less
    else if a[0] > b[0] then Greater
    else Compare(a[1..], b[1..])
  }

  /** Two byte strings compare `Equal` exactly when they are equal. */
  lemma {:induction false} CompareEqual(a: seq<byte>, b: seq<byte>)
    ensures Compare(a, b) == Equal <==> a == b
  {
    if a != [] && b != [] && a[0] == b[0] {
      CompareEqual(a[1..], b[1..]);
      assert a == [a[0]] + a[1..] && b == [b[0]] + b[1..];
    }
  }

  /** Swapping the operands swaps `Less` and `Greater`. */
  lemma {:induction false} CompareFlip(a: seq<byte>, b: seq<byte>)
    ensures Compare(a, b) == Less <==> Compare(b, a) == Greater
  {
    if a != [] && b != [] && a[0] == b[0] {
      CompareFlip(a[1..], b[1..]);
    }
  }

  /** A proper prefix compares `Less`. */
  lemma {:induction false} ComparePrefix(a: seq<byte>, b: seq<byte>)
    requires b != []
    ensures Compare(a, a + b) == Less
  {
    if a != [] {
      assert (a + b)[1..] == a[1..] + b;
      ComparePrefix(a[1..], b);
    }
  }
}

/** The error values the decoders return, and a Result type usable with `:-`. */
module Errors {

  datatype Error =
    | InvalidSerialType(code: int)   // `SerialType::read` on 10, 11 or a negative code
    | InvalidUtf8                    // `String::from_utf8` on bytes that are not UTF-8
    | CellIndexOutOfRange            // `Page::read_cell` past `ncells`
    | UnreadableCell                 // `Page::read_cell` on a page of unknown type
    | Panic                          // the source panics: an index past the end, `unwrap` of `None`, `todo!()`

  datatype Result<+T> = Ok(value: T) | Err(error: Error) {
    predicate IsFailure() { Err? }

    function PropagateFailure<U>(): Result<U>
      requires Err?
    {
      Err(error)
    }

    function Extract(): T
      requires Ok?
    {
      value
    }
  }

  /** The outcome is a panic of the source, not one of its error returns. */
  predicate Panics<T>(r: Result<T>)
  {
    r.Err? && r.error == Panic
  }

  datatype Option<+T> = None | Some(value: T)
}
