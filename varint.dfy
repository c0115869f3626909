/**
 * The variable-length integers of section 1.6 of the SQLite database file
 * format, and the repository's two decoders for them:
 *   - `decode_varint` (src/lib.rs), which looks at no more than 8 bytes;
 *   - `Varint::read` (src/varint.rs), which reads up to 9 bytes and ORs the
 *     ninth byte in after a shift by 7.
 * Both keep a 64-bit signed accumulator; every value either can build is
 * below 2^63, so the accumulator never overflows and is modelled as a `nat`.
 */
module Varint {
  import opened Bytes
  import opened Errors

  /**
   * Position of the first byte among the first `limit` bytes of `s` whose
   * high (continuation) bit is clear; `min(limit, |s|)` when there is none.
   */
  function FirstClear(s: seq<byte>, limit: nat): (k: nat)
    ensures k <= limit && k <= |s|
    ensures forall j :: 0 <= j < k ==> s[j] >= 128
    ensures k < limit && k < |s| ==> s[k] < 128
  {
    if limit == 0 || s == [] || s[0] < 128 then 0 else 1 + FirstClear(s[1..], limit - 1)
  }

  /** The big-endian concatenation of the low seven bits of every byte of `s`. */
  function Be7(s: seq<byte>): nat
  {
    if s == [] then 0 else Be7(s[..|s| - 1]) * 128 + s[|s| - 1] % 128
  }

  lemma {:induction false} Be7Bound(s: seq<byte>)
    ensures Be7(s) < Pow2(7 * |s|)
  {
    if s != [] {
      Be7Bound(s[..|s| - 1]);
      Pow2Add(7 * (|s| - 1), 7);
    }
  }

  /**
   * `(acc << 7) | (b as i64)` for an accumulator below 2^56 and a byte: bits
   * 0-6 come from `b`, bit 7 is set when either `b`'s top bit or `acc`'s lowest
   * bit is, and the higher bits are `acc / 2`.
   */
  function ShiftOr(acc: nat, b: byte): nat
  {
    acc * 128 + b - (if acc % 2 == 1 && b >= 128 then 128 else 0)
  }

  /**
   * `ShiftOr` is the bitwise OR of `acc` shifted left by 7 with `b`: the low
   * seven bits are those of `b`, bit 7 is set when `b`'s top bit or `acc`'s
   * lowest bit is, and above it sit the remaining bits of `acc`.
   */
  lemma ShiftOrBits(acc: nat, b: byte)
    ensures ShiftOr(acc, b) % 128 == b % 128
    ensures (ShiftOr(acc, b) / 128) % 2 == if acc % 2 == 1 || b >= 128 then 1 else 0
    ensures ShiftOr(acc, b) / 256 == acc / 2
  {
    var low := b % 128;
    var q := acc + b / 128 - (if acc % 2 == 1 && b >= 128 then 1 else 0);
    assert ShiftOr(acc, b) == 128 * q + low;
    assert q == 2 * (acc / 2) + (if acc % 2 == 1 || b >= 128 then 1 else 0);
  }

  /** A byte whose top bit is clear is simply appended as the next seven bits. */
  lemma ShiftOrSevenBits(acc: nat, b: byte)
    requires b < 128
    ensures ShiftOr(acc, b) == acc * 128 + b
  {
  }

  /** Number of bytes `decode_varint` consumes from `bytes`. */
  function Consumed8(bytes: seq<byte>): nat
  {
    var k := FirstClear(bytes, 8);
    if k < 8 && k < |bytes| then k + 1 else k
  }

  /**
   * The `(value, bytes_read)` pair that `decode_varint` returns: it stops after
   * the first byte whose high bit is clear, or after 8 bytes, or at the end
   * of the input.
   */
  function Varint8(bytes: seq<byte>): (r: (int, nat))
    ensures r.1 <= 8 && r.1 <= |bytes|
    ensures bytes == [] ==> r == (0, 0)
    ensures bytes != [] ==> r.1 >= 1
    ensures 0 <= r.0 < Pow2(7 * r.1)
  {
    var n := Consumed8(bytes);
    Be7Bound(bytes[..n]);
    (Be7(bytes[..n]), n)
  }

  /**
   * What `decode_varint` reads: every byte before the last one it consumes has
   * its high bit set, the last one has it clear unless the 8-byte cap or the
   * end of the input stopped it, and the value is the seven-bit groups of the
   * consumed bytes.
   */
  lemma Varint8Reads(bytes: seq<byte>)
    ensures var r := Varint8(bytes);
      && (forall j :: 0 <= j < r.1 - 1 ==> bytes[j] >= 128)
      && (r.1 > 0 ==> bytes[r.1 - 1] < 128 || r.1 == 8 || r.1 == |bytes|)
      && r.0 == Be7(bytes[..r.1])
  {
  }

  /** `decode_varint`: a loop over `bytes.iter().take(8)`. It never returns an error. */
  method DecodeVarint(bytes: seq<byte>) returns (r: Result<(int, nat)>)
    ensures r == Ok(Varint8(bytes))
  {
    var result := 0;
    var bytesRead := 0;
    var i := 0;
    while i < |bytes| && i < 8
      invariant 0 <= i <= 8 && i <= |bytes|
      invariant bytesRead == i
      invariant forall j :: 0 <= j < i ==> bytes[j] >= 128
      invariant result == Be7(bytes[..i])
    {
      var byte := bytes[i];
      bytesRead := bytesRead + 1;
      var hasMore := i != 8 && byte >= 128;
      assert bytes[..i + 1][..i] == bytes[..i];
      if hasMore {
        result := ShiftOr(result, byte % 128);
      } else {
        result := ShiftOr(result, byte);
        bytesRead := i + 1;
        assert FirstClear(bytes, 8) == i;
        break;
      }
      i := i + 1;
    }
    return Ok((result, bytesRead));
  }

  /**
   * The `(value, size)` pair `Varint::read` returns for the bytes from `index`
   * on: the first of the first eight bytes with a clear high bit ends the
   * integer; otherwise the ninth byte ends it whatever its high bit, shifted
   * in by 7 and OR-ed with all 8 of its bits.
   */
  function Varint9(s: seq<byte>): (r: (int, nat))
    requires FirstClear(s, 8) < |s|
    ensures 1 <= r.1 <= 9 && r.1 <= |s|
    ensures forall j :: 0 <= j < r.1 - 1 ==> s[j] >= 128
    ensures r.1 < 9 ==> s[r.1 - 1] < 128
    ensures r.1 == 9 ==> r.0 == ShiftOr(Be7(s[..8]), s[8])
    ensures 0 <= r.0 < Pow2(63)
  {
    var k := FirstClear(s, 8);
    if k < 8 then
      ShortBelow(s, k);
      (Be7(s[..k + 1]), k + 1)
    else
      LongBelow(s);
      (ShiftOr(Be7(s[..8]), s[8]), 9)
  }

  /** A varint of at most 8 bytes ends at its first byte with a clear high bit and holds at most 56 bits. */
  lemma ShortBelow(s: seq<byte>, k: nat)
    requires k == FirstClear(s, 8) && k < 8 && k < |s|
    ensures s[k] < 128
    ensures Be7(s[..k + 1]) < Pow2(63)
  {
    Be7Bound(s[..k + 1]);
    Pow2Monotone(7 * (k + 1), 63);
  }

  /** Eight seven-bit groups shifted by 7 and OR-ed with a ninth byte stay below 2^63. */
  lemma LongBelow(s: seq<byte>)
    requires 9 <= |s|
    ensures ShiftOr(Be7(s[..8]), s[8]) < Pow2(63)
  {
    Be7Bound(s[..8]);
    ShiftOrBelow(Be7(s[..8]), s[8]);
  }

  /** Shifting a 56-bit accumulator by 7 and OR-ing in a byte stays below 2^63. */
  lemma ShiftOrBelow(acc: nat, b: byte)
    requires acc < Pow2(56)
    ensures ShiftOr(acc, b) < Pow2(63)
  {
    Pow2Values();
  }

  /** Every byte a decoder has seen carry the continuation bit lies before the position `FirstClear` reports. */
  lemma FirstClearAtLeast(s: seq<byte>, i: nat, limit: nat)
    requires i <= limit && i <= |s|
    requires forall j :: 0 <= j < i ==> s[j] >= 128
    ensures FirstClear(s, limit) >= i
  {
    if i > 0 {
      FirstClearAtLeast(s[1..], i - 1, limit - 1);
    }
  }

  /**
   * `Varint::read(data, index)`. The loop indexes `data[index + i]` for every
   * byte it looks at, so every one of them must exist.
   */
  method ReadVarint(data: seq<byte>, index: nat) returns (result: int, size: nat)
    requires index <= |data| && index + FirstClear(data[index..], 8) < |data|
    ensures (result, size) == Varint9(data[index..])
    ensures index + size <= |data|
  {
    ghost var s := data[index..];
    result := 0;
    size := 0;
    for i := 0 to 9
      invariant i <= 8 && i < |s|
      invariant forall j :: 0 <= j < i ==> s[j] >= 128
      invariant result == Be7(s[..i])
    {
      FirstClearAtLeast(s, i, 8);
      var byte := data[index + i];
      var hasMore := i != 8 && byte >= 128;
      assert s[..i + 1][..i] == s[..i];
      if hasMore {
        result := ShiftOr(result, byte % 128);
        FirstClearAtLeast(s, i + 1, 8);
      } else {
        result := ShiftOr(result, byte);
        size := i + 1;
        if i < 8 {
          FirstClearAt(s, i + 1, 8);
          assert (result, size) == (Be7(s[..i + 1]), i + 1);
        } else {
          FirstClearAll(s, 8);
        }
        break;
      }
    }
  }

  /** `Varint::read` looks at nothing beyond the bytes it reports as read. */
  lemma Varint9Local(s: seq<byte>, t: seq<byte>)
    requires FirstClear(s, 8) < |s|
    requires Varint9(s).1 <= |t| && s[..Varint9(s).1] == t[..Varint9(s).1]
    ensures FirstClear(t, 8) < |t| && Varint9(t) == Varint9(s)
  {
    var n := Varint9(s).1;
    assert forall j :: 0 <= j < n ==> s[j] == t[j] by {
      forall j | 0 <= j < n ensures s[j] == t[j] {
        assert s[..n][j] == t[..n][j];
      }
    }
    assert s[..n - 1] == t[..n - 1];
    if n == 9 {
      assert s[..8] == t[..8];
    } else {
      assert s[..n] == t[..n];
    }
  }

  /**
   * On an integer that ends within its first 8 bytes, `Varint::read` and
   * `decode_varint` agree.
   */
  lemma Varint9AgreesWithVarint8(s: seq<byte>)
    requires FirstClear(s, 8) < 8 && FirstClear(s, 8) < |s|
    ensures Varint9(s) == Varint8(s)
  {
  }

  /** When the first eight bytes all carry the continuation bit, `decode_varint` stops after 8 of them with a 56-bit value. */
  lemma Varint8OfEightContinuations(bytes: seq<byte>)
    requires |bytes| >= 8 && forall j :: 0 <= j < 8 ==> bytes[j] >= 128
    ensures Varint8(bytes).1 == 8 && Varint8(bytes).0 < Pow2(56)
  {
    assert FirstClear(bytes, 8) == 8;
  }

  /** The unit test of src/lib.rs: `[0x81, 0x01]` decodes to 129 in two bytes. */
  lemma Varint8Example()
    ensures Varint8([0x81, 0x01]) == (129, 2)
  {
    var s: seq<byte> := [0x81, 0x01];
    assert s[1..] == [0x01];
    assert FirstClear(s, 8) == 1;
    assert s[..2] == s && s[..1] == [0x81] && [0x81][..0] == [];
    assert Be7([0x81]) == 1;
  }

  // ---------------------------------------------------------------------------
  // The encoding of section 1.6 of the file format, and its decoder.

  /** The low `n` 7-bit groups of `v`, most significant first. */
  function Groups(v: nat, n: nat): (g: seq<byte>)
    ensures |g| == n && forall i :: 0 <= i < n ==> g[i] < 128
  {
    if n == 0 then [] else Groups(v / 128, n - 1) + [v % 128]
  }

  /** `g` with the continuation bit set on every byte but the last. */
  function Mark(g: seq<byte>): (s: seq<byte>)
    requires forall i :: 0 <= i < |g| ==> g[i] < 128
    ensures |s| == |g|
  {
    seq(|g|, i requires 0 <= i < |g| => if i < |g| - 1 then g[i] + 128 else g[i])
  }

  /** `g` with the continuation bit set on every byte. */
  function MarkAll(g: seq<byte>): (s: seq<byte>)
    requires forall i :: 0 <= i < |g| ==> g[i] < 128
    ensures |s| == |g|
  {
    seq(|g|, i requires 0 <= i < |g| => g[i] + 128)
  }

  /** Number of 7-bit groups a value below 2^56 needs (at least one). */
  function Width(v: nat): (n: nat)
    requires v < Pow2(56)
    ensures 1 <= n <= 8 && v < Pow2(7 * n)
    ensures n > 1 ==> v >= Pow2(7 * (n - 1))
  {
    assert Pow2(7) == 128;
    if v < 128 then
      1
    else
      var w := Width(v / 128);
      WidthStep(v, w);
      1 + w
  }

  lemma WidthStep(v: nat, w: nat)
    requires 128 <= v < Pow2(56) && 1 <= w <= 8
    requires v / 128 < Pow2(7 * w)
    requires w > 1 ==> v / 128 >= Pow2(7 * (w - 1))
    ensures w + 1 <= 8 && v < Pow2(7 * (w + 1)) && v >= Pow2(7 * w)
  {
    Pow2Values();
    var q := v / 128;
    var p := Pow2(7 * w);
    assert v == 128 * q + v % 128;
    Pow2Add(7 * w, 7);
    assert Pow2(7 * (w + 1)) == p * 128;
    if w > 1 {
      Pow2Add(7 * (w - 1), 7);
      assert p == Pow2(7 * (w - 1)) * 128;
    }
  }

  /**
   * The encoding of a 64-bit unsigned value: one to eight bytes of seven
   * value bits each, every byte but the last with its high bit set; values
   * of 2^56 and above take nine bytes, the ninth holding the low 8 bits.
   */
  function Encode(v: nat): (s: seq<byte>)
    requires v < Pow2(64)
    ensures 1 <= |s| <= 9
  {
    if v < Pow2(56) then Mark(Groups(v, Width(v)))
    else MarkAll(Groups(v / 256, 8)) + [v % 256]
  }

  /** The encoding of a value below 2^56, which takes at most 8 bytes. */
  function EncodeShort(v: nat): (s: seq<byte>)
    requires v < Pow2(56)
    ensures 1 <= |s| <= 8 && Pow2(56) <= Pow2(64) && s == Encode(v)
  {
    Pow2Monotone(56, 64);
    Mark(Groups(v, Width(v)))
  }

  lemma {:induction false} Be7OfGroups(v: nat, n: nat)
    requires v < Pow2(7 * n)
    ensures Be7(Groups(v, n)) == v
  {
    if n > 0 {
      var g := Groups(v, n);
      assert g[..n - 1] == Groups(v / 128, n - 1);
      assert g[n - 1] == v % 128;
      var p := Pow2(7 * (n - 1));
      Pow2Add(7 * (n - 1), 7);
      assert 7 * (n - 1) + 7 == 7 * n;
      assert Pow2(7) == 128;
      DivBelow(v, 128, p);
      Be7OfGroups(v / 128, n - 1);
      Recombine(v, Be7(g[..n - 1]), g[n - 1] % 128);
    }
  }

  /** A value is its quotient by 128, shifted back, plus its remainder. */
  lemma Recombine(v: nat, high: nat, low: nat)
    requires high == v / 128 && low == v % 128
    ensures high * 128 + low == v
  {
  }

  /** A value below `d * p` leaves a quotient below `p`. */
  lemma DivBelow(v: nat, d: nat, p: nat)
    requires d > 0 && v < p * d
    ensures v / d < p
  {
  }

  /** Setting high bits does not change the seven value bits `Be7` reads. */
  lemma {:induction false} Be7LowBits(s: seq<byte>, t: seq<byte>)
    requires |s| == |t| && forall i :: 0 <= i < |s| ==> s[i] % 128 == t[i] % 128
    ensures Be7(s) == Be7(t)
  {
    if s != [] {
      Be7LowBits(s[..|s| - 1], t[..|t| - 1]);
    }
  }

  /** `MarkAll` leaves the seven value bits of every byte alone. */
  lemma MarkAllLowBits(g: seq<byte>)
    requires forall i :: 0 <= i < |g| ==> g[i] < 128
    ensures Be7(MarkAll(g)) == Be7(g)
  {
    var m := MarkAll(g);
    forall i | 0 <= i < |g|
      ensures m[i] % 128 == g[i] % 128
    {
      assert m[i] == g[i] + 128;
    }
    Be7LowBits(m, g);
  }

  /** The high bits `Mark` sets are exactly the continuation bits a decoder looks for. */
  lemma MarkedGroups(v: nat, n: nat, rest: seq<byte>)
    requires 1 <= n && v < Pow2(7 * n)
    ensures var s := Mark(Groups(v, n)) + rest;
      (forall j :: 0 <= j < n - 1 ==> s[j] >= 128) && s[n - 1] < 128 && Be7(s[..n]) == v
  {
    var g := Groups(v, n);
    var s := Mark(g) + rest;
    assert s[..n] == Mark(g);
    Be7LowBits(Mark(g), g);
    Be7OfGroups(v, n);
  }

  /** A decoder that sees continuation bits on `s[..n-1]` and a clear bit on `s[n-1]` stops there. */
  lemma FirstClearAt(s: seq<byte>, n: nat, limit: nat)
    requires 1 <= n <= |s| && n <= limit
    requires forall j :: 0 <= j < n - 1 ==> s[j] >= 128
    requires s[n - 1] < 128
    ensures FirstClear(s, limit) == n - 1
  {
    if n > 1 {
      FirstClearAt(s[1..], n - 1, limit - 1);
    }
  }

  /** A decoder that sees eight continuation bits reports eight. */
  lemma FirstClearAll(s: seq<byte>, limit: nat)
    requires limit <= |s| && forall j :: 0 <= j < limit ==> s[j] >= 128
    ensures FirstClear(s, limit) == limit
  {
    if limit > 0 {
      FirstClearAll(s[1..], limit - 1);
    }
  }

  /**
   * `decode_varint` reads back every value below 2^56, the ones the format
   * encodes in at most 8 bytes, whatever follows the encoding.
   */
  lemma Varint8RoundTrip(v: nat, rest: seq<byte>)
    requires v < Pow2(56)
    ensures Pow2(56) <= Pow2(64) && Varint8(Encode(v) + rest) == (v, |Encode(v)|)
  {
    Pow2Monotone(56, 64);
    var n := Width(v);
    MarkedGroups(v, n, rest);
    FirstClearAt(Encode(v) + rest, n, 8);
  }

  /** `Varint::read` reads back the same values, the ones encoded in at most 8 bytes. */
  lemma Varint9RoundTripShort(v: nat, rest: seq<byte>)
    requires v < Pow2(56)
    ensures Pow2(56) <= Pow2(64)
    ensures FirstClear(Encode(v) + rest, 8) < |Encode(v) + rest|
    ensures Varint9(Encode(v) + rest) == (v, |Encode(v)|)
  {
    Varint8RoundTrip(v, rest);
    var n := Width(v);
    FirstClearAt(Encode(v) + rest, n, 8);
  }

  /**
   * The decoder of section 1.6 of the file format: a ninth byte, when there
   * is one, supplies the low 8 bits of the value after a shift by 8.
   */
  function VarintFormat(s: seq<byte>): (r: (int, nat))
    requires FirstClear(s, 8) < |s|
    ensures 1 <= r.1 <= 9 && r.1 <= |s|
  {
    var k := FirstClear(s, 8);
    if k < 8 then (Be7(s[..k + 1]), k + 1) else (Be7(s[..8]) * 256 + s[8], 9)
  }

  /** The format's decoder reads back every 64-bit unsigned value. */
  lemma VarintFormatRoundTrip(v: nat, rest: seq<byte>)
    requires v < Pow2(64)
    ensures FirstClear(Encode(v) + rest, 8) < |Encode(v) + rest|
    ensures VarintFormat(Encode(v) + rest) == (v, |Encode(v)|)
  {
    var s := Encode(v) + rest;
    if v < Pow2(56) {
      Varint9RoundTripShort(v, rest);
      assert VarintFormat(s) == Varint9(s);
    } else {
      NineBytes(v, rest);
      NineByteFormat(s, v);
    }
  }

  lemma NineByteFormat(s: seq<byte>, v: nat)
    requires |s| >= 9 && FirstClear(s, 8) == 8 && Be7(s[..8]) == v / 256 && s[8] == v % 256
    ensures VarintFormat(s) == (v, 9)
  {
  }

  /** How both nine-byte decoders see the encoding of a value of 2^56 or more. */
  lemma NineBytes(v: nat, rest: seq<byte>)
    requires Pow2(56) <= v < Pow2(64)
    ensures var s := Encode(v) + rest;
      && |Encode(v)| == 9 && FirstClear(s, 8) == 8 && |s| >= 9
      && Be7(s[..8]) == v / 256 && s[8] == v % 256
  {
    var s := Encode(v) + rest;
    Pow2Values();
    var g := Groups(v / 256, 8);
    assert Encode(v) == MarkAll(g) + [v % 256];
    FirstClearAll(s, 8);
    assert s[..8] == MarkAll(g);
    MarkAllLowBits(g);
    Be7OfGroups(v / 256, 8);
  }

  /**
   * `Varint::read` misreads every nine-byte integer: it returns less than
   * the value encoded, because the ninth byte comes in after a shift by 7
   * instead of 8.
   */
  lemma Varint9MisreadsNineByteValues(v: nat, rest: seq<byte>)
    requires Pow2(56) <= v < Pow2(64)
    ensures FirstClear(Encode(v) + rest, 8) < |Encode(v) + rest|
    ensures Varint9(Encode(v) + rest) == (ShiftOr(v / 256, v % 256), 9)
    ensures Varint9(Encode(v) + rest).0 < v
  {
    NineBytes(v, rest);
  }

  /** The smallest nine-byte value, 2^56 (80 C0 80 80 80 80 80 80 00), reads back as 2^55. */
  lemma Varint9MisreadsTwoToThe56()
    ensures Pow2(56) < Pow2(64) && FirstClear(Encode(Pow2(56)), 8) < |Encode(Pow2(56))|
    ensures Varint9(Encode(Pow2(56))) == (Pow2(55), 9)
    ensures VarintFormat(Encode(Pow2(56))) == (Pow2(56), 9)
  {
    Pow2Values();
    var v := Pow2(56);
    assert v / 256 == Pow2(48) && v % 256 == 0;
    assert ShiftOr(Pow2(48), 0) == Pow2(55);
    assert Encode(v) + [] == Encode(v);
    Varint9MisreadsNineByteValues(v, []);
    VarintFormatRoundTrip(v, []);
  }
}
