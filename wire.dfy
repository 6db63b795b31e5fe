/** Wire-level encodings of MQTT 3.1.1: bytes, the 16-bit big-endian integer,
    UTF-8 encoded strings (section 1.5.3 of MQTT 3.1.1) and the Remaining Length
    variable byte integer (section 2.2.3 of MQTT 3.1.1). Strings are byte strings here:
    their length is their number of bytes. */
module Wire {
  import opened Bits

  /** A byte, as Python's `bytes` and `bytearray` hold it: an integer from 0 to 255. */
  type Byte = x: int | 0 <= x < 256

  datatype Option<+T> = None | Some(value: T)

  /** What a blocking stream read of `n` bytes at offset `p` returns: up to `n` bytes,
      fewer when the stream ends first. */
  function Take(s: seq<Byte>, p: nat, n: nat): (r: seq<Byte>)
    requires p <= |s|
    ensures |r| == if p + n <= |s| then n else |s| - p
    decreases n
  {
    if n == 0 || p == |s| then [] else [s[p]] + Take(s, p + 1, n - 1)
  }

  /** The bytes `Take` returns are the slice of the stream at `p`. */
  lemma {:induction false} TakeSlice(s: seq<Byte>, p: nat, n: nat)
    requires p <= |s|
    ensures Take(s, p, n) == s[p..if p + n <= |s| then p + n else |s|]
    decreases n
  {
    if n != 0 && p != |s| {
      TakeSlice(s, p + 1, n - 1);
    }
  }

  /** `struct.pack("!H", x)`: two bytes, most significant first. */
  function U16(x: nat): (r: seq<Byte>)
    requires x < 0x1_0000
    ensures |r| == 2 && U16Value(r) == x
  {
    [x / 256, x % 256]
  }

  /** The value of a two-byte big-endian integer. */
  function U16Value(b: seq<Byte>): (v: nat)
    requires |b| >= 2
    ensures v < 0x1_0000
  {
    (b[0] as int) * 256 + b[1] as int
  }

  /** The two-byte big-endian integer at offset `p` of `b`. */
  function U16At(b: seq<Byte>, p: nat): (v: nat)
    requires p + 2 <= |b|
    ensures v < 0x1_0000
  {
    (b[p] as int) * 256 + b[p + 1] as int
  }

  lemma U16AtOf(b: seq<Byte>, p: nat, x: nat)
    requires x < 0x1_0000 && p + 2 <= |b| && b[p..p + 2] == U16(x)
    ensures U16At(b, p) == x
  {
    assert b[p] == U16(x)[0] && b[p + 1] == U16(x)[1];
  }

  lemma U16Injective(x: nat, y: nat)
    requires x < 0x1_0000 && y < 0x1_0000
    ensures U16(x) == U16(y) <==> x == y
  {
    if U16(x) == U16(y) {
      assert U16Value(U16(x)) == U16Value(U16(y));
    }
  }

  /** A length-prefixed string as `_send_str` writes it: its length as a 16-bit
      big-endian integer, then its bytes. */
  function Str(s: seq<Byte>): (r: seq<Byte>)
    requires |s| < 0x1_0000
    ensures |r| == 2 + |s| && U16Value(r) == |s| && r[2..] == s
  {
    U16(|s|) + s
  }

  /** Reads a length-prefixed string from the front of `b`: the string and the number
      of bytes it occupies, or None when `b` is too short. */
  function ParseStr(b: seq<Byte>): (r: Option<(seq<Byte>, nat)>)
    ensures r.Some? ==> r.value.1 == 2 + |r.value.0| <= |b| && |r.value.0| < 0x1_0000
    ensures r.Some? ==> b[..r.value.1] == Str(r.value.0)
  {
    if |b| < 2 || |b| < 2 + U16Value(b) then None
    else
      var s := b[2..2 + U16Value(b)];
      U16OfValue(b);
      assert b[..2 + |s|] == b[..2] + s;
      Some((s, 2 + |s|))
  }

  lemma U16OfValue(b: seq<Byte>)
    requires |b| >= 2
    ensures U16(U16Value(b)) == b[..2]
  {
    var n := U16Value(b);
    assert n / 256 == b[0] && n % 256 == b[1];
  }

  lemma StrRoundTrip(s: seq<Byte>, rest: seq<Byte>)
    requires |s| < 0x1_0000
    ensures ParseStr(Str(s) + rest) == Some((s, 2 + |s|))
  {
    var b := Str(s) + rest;
    assert b[2..2 + |s|] == s;
  }

  /** The Remaining Length encoding: seven value bits per byte, least significant group
      first, bit 7 set on every byte but the last. */
  function EncodeLen(n: nat): (r: seq<Byte>)
    ensures |r| >= 1
  {
    if n < 128 then [n]
    else [n % 128 + 128] + EncodeLen(n / 128)
  }

  /** Decodes a Remaining Length from `b` at `p` the way `_recv_len` does: bytes are taken
      while bit 7 is set, with no limit on their number. The result is the value and the
      number of bytes consumed; None when `b` ends first. */
  function DecodeLen(b: seq<Byte>, p: nat): (r: Option<(nat, nat)>)
    requires p <= |b|
    ensures r.Some? ==> 1 <= r.value.1 <= |b| - p
    decreases |b| - p
  {
    if p == |b| then None
    else if b[p] < 0x80 then Some((b[p], 1))
    else match DecodeLen(b, p + 1)
      case None => None
      case Some((v, k)) => Some((b[p] - 128 + 128 * v, k + 1))
  }

  /** Encoding then decoding gives back the value and consumes exactly the encoding,
      whatever surrounds it. */
  lemma {:induction false} DecodeEncodeLen(n: nat, b: seq<Byte>, p: nat)
    requires p + |EncodeLen(n)| <= |b| && b[p..p + |EncodeLen(n)|] == EncodeLen(n)
    ensures DecodeLen(b, p) == Some((n, |EncodeLen(n)|))
  {
    var e := EncodeLen(n);
    assert b[p] == e[0];
    if n >= 128 {
      assert b[p + 1..p + |e|] == e[1..] == EncodeLen(n / 128);
      DecodeEncodeLen(n / 128, b, p + 1);
    }
  }

  /** The shape of the encoding: bit 7 on every byte but the last, and byte `j` carries
      bits 7j to 7j+6 of the value. */
  lemma {:induction false} EncodeLenShape(n: nat, j: nat)
    requires j < |EncodeLen(n)|
    ensures (EncodeLen(n)[j] >= 0x80) == (j < |EncodeLen(n)| - 1)
    ensures EncodeLen(n)[j] % 128 == (n / Pow2(7 * j)) % 128
  {
    if n < 128 {
      assert Pow2(0) == 1;
    } else {
      if j > 0 {
        EncodeLenShape(n / 128, j - 1);
        DivDiv(n, 7 * (j - 1));
      }
    }
  }

  lemma DivDiv(n: nat, k: nat)
    ensures n / 128 / Pow2(k) == n / Pow2(k + 7)
  {
    Pow2Add(k, 7);
    assert Pow2(7) == 128;
    DivTwice(n, 128, Pow2(k));
  }

  /** Values below 128^k take at most k bytes, and only those. */
  lemma {:induction false} EncodeLenSize(n: nat, k: nat)
    requires k >= 1
    ensures |EncodeLen(n)| <= k <==> n < Pow2(7 * k)
  {
    var p := Pow2(7 * (k - 1));
    Pow2Add(7 * (k - 1), 7);
    assert Pow2(7) == 128;
    assert Pow2(7 * k) == p * 128;
    if n >= 128 {
      if k > 1 {
        EncodeLenSize(n / 128, k - 1);
        assert n / 128 < p <==> n < p * 128 by {
          assert n == 128 * (n / 128) + n % 128;
          if n / 128 < p {
            assert 128 * (n / 128) <= 128 * (p - 1);
          } else {
            assert 128 * (n / 128) >= 128 * p;
          }
        }
      }
    }
  }

  function Continuations(k: nat): (r: seq<Byte>)
    ensures |r| == k && forall i :: 0 <= i < k ==> r[i] == 0x80
  {
    if k == 0 then [] else [0x80] + Continuations(k - 1)
  }

  /** There is no bound on the number of continuation bytes that are accepted: any number
      of 0x80 bytes followed by 0x00 decodes, to zero. */
  lemma {:induction false} DecodeLenUnbounded(k: nat, j: nat)
    requires j <= k
    ensures DecodeLen(Continuations(k) + [0], j) == Some((0, k + 1 - j))
    decreases k - j
  {
    var b := Continuations(k) + [0];
    if j < k {
      assert b[j] == 0x80;
      DecodeLenUnbounded(k, j + 1);
    } else {
      assert b[j] == 0;
    }
  }
}
