/** The wire format under nanopb: varints, zigzag numbers and fixed-width numbers on byte strings. */
module PbWire {
  import opened Bytes
  import opened Powers

  // The coders are those of lib/nanopb-0.3.9.3/pb_encode.c and pb_decode.c; the format is that of "Base 128
  // Varints" and "Signed Integers" in the Protocol Buffers Encoding specification.

  datatype Option<+T> = None | Some(value: T)

  // ----- Varints as the standard has them -----

  /** The minimal base-128 form of n. */
  function EncVarint(n: nat): (x: seq<byte>)
    ensures |x| >= 1
  {
    if n < 128 then [n as byte] else [(128 + n % 128) as byte] + EncVarint(n / 128)
  }

  /** Length of the varint at the front of s, up to and including the first byte below 128. */
  function VarintSpan(s: seq<byte>): (n: Option<nat>)
    ensures n.Some? ==> 1 <= n.value <= |s|
  {
    if s == [] then None
    else if s[0] < 128 then Some(1)
    else
      match VarintSpan(s[1..])
      case None => None
      case Some(n) => Some(n + 1)
  }

  /** The number the groups of seven bits of x stand for. */
  function VarintValue(x: seq<byte>): nat {
    if x == [] then 0 else (x[0] % 128) as nat + 128 * VarintValue(x[1..])
  }

  // ----- What the code's decoders accept -----

  /** pb_decode_varint: at most ten bytes, the value modulo 2^64. */
  function DecVarint64(s: seq<byte>): (r: Option<(nat, nat)>)
    ensures r.Some? ==> 1 <= r.value.1 <= |s| && r.value.0 < B64
  {
    match VarintSpan(s)
    case Some(n) => if n <= 10 then Some((VarintValue(s[..n]) % B64, n)) else None
    case None => None
  }

  /** Bitwise or. */
  function BitOr(a: nat, b: nat): nat
    decreases a + b
  {
    if a == 0 then b
    else if b == 0 then a
    else Max(a % 2, b % 2) + 2 * BitOr(a / 2, b / 2)
  }

  /** The bit position is kept in eight bits. */
  const FAST8: nat := 256

  /** The loop of pb_decode_varint32_eof after the first byte, which was at least 128. */
  function Varint32Loop(s: seq<byte>, bitpos: nat, result: nat): (r: Option<(nat, nat)>)
    ensures r.Some? ==> 1 <= r.value.1 <= |s|
    decreases |s|
  {
    if s == [] then None
    else
      var b := s[0] as nat;
      var signExtension := if bitpos < 63 then 0xFF else 0x01;
      if bitpos >= 32 && b % 128 != 0 && (result < B31 || b != signExtension) then None
      else
        var result' := if bitpos >= 32 then result else BitOr(result, b % 128 * Pow2(bitpos) % B32);
        var bitpos' := (bitpos + 7) % FAST8;
        if b >= 128 then
          match Varint32Loop(s[1..], bitpos', result')
          case None => None
          case Some(p) => Some((p.0, p.1 + 1))
        else if bitpos' == 35 && b / 16 % 8 != 0 then None
        else Some((result', 1))
  }

  /** pb_decode_varint32. */
  function DecVarint32(s: seq<byte>): (r: Option<(nat, nat)>)
    ensures r.Some? ==> 1 <= r.value.1 <= |s|
  {
    if s == [] then None
    else if s[0] < 128 then Some((s[0] as nat, 1))
    else
      match Varint32Loop(s[1..], 7, (s[0] % 128) as nat)
      case None => None
      case Some(p) => Some((p.0, p.1 + 1))
  }

  // ----- Zigzag and two's complement -----

  /** A signed 64-bit number as unsigned, and back. */
  function ToUnsigned(n: int): nat
    requires -B63 <= n < B63
  {
    if n < 0 then n + B64 else n
  }

  /** The low bits of v read as a signed number of the given width. */
  function ToSigned(v: nat, bits: nat): int
    requires bits >= 1
  {
    var r := v % Pow2(bits);
    if r >= Pow2(bits - 1) then r - Pow2(bits) else r
  }

  function ZigZag(n: int): nat { if n < 0 then -2 * n - 1 else 2 * n }

  function UnZigZag(z: nat): int { if z % 2 == 1 then -(z / 2) - 1 else z / 2 }

  // ----- Fixed-width numbers -----

  /** The k low bytes of n, lowest first. */
  function EncFixed(n: nat, k: nat): (x: seq<byte>)
    ensures |x| == k
  {
    if k == 0 then [] else [(n % 256) as byte] + EncFixed(n / 256, k - 1)
  }

  function FixedValue(x: seq<byte>): nat {
    if x == [] then 0 else x[0] as nat + 256 * FixedValue(x[1..])
  }

  // ----- Round trips -----

  lemma {:induction false} SpanAppend(x: seq<byte>, rest: seq<byte>)
    requires VarintSpan(x).Some?
    ensures VarintSpan(x + rest) == VarintSpan(x)
    decreases |x|
  {
    if x[0] >= 128 {
      assert (x + rest)[1..] == x[1..] + rest;
      SpanAppend(x[1..], rest);
    }
  }

  lemma {:induction false} EncVarintForm(n: nat)
    ensures VarintSpan(EncVarint(n)) == Some(|EncVarint(n)|)
    ensures VarintValue(EncVarint(n)) == n
    decreases n
  {
    if n < 128 {
      assert EncVarint(n)[1..] == [];
    } else {
      var x := EncVarint(n);
      assert x[1..] == EncVarint(n / 128);
      EncVarintForm(n / 128);
      assert x[0] % 128 == (n % 128) as byte;
    }
  }

  lemma {:induction false} VarintLonger(a: nat, b: nat)
    requires a <= b
    ensures |EncVarint(a)| <= |EncVarint(b)|
    decreases b
  {
    if a >= 128 {
      VarintLonger(a / 128, b / 128);
    }
  }

  /** A varint of length l stands for at least 64 (l - 1). */
  lemma {:induction false} VarintShort(n: nat)
    ensures 64 * (|EncVarint(n)| - 1) <= n
    decreases n
  {
    if n >= 128 {
      VarintShort(n / 128);
    }
  }

  /** At most k bytes carry a number of 7k bits. */
  lemma {:induction false} EncVarintLength(n: nat, k: nat)
    requires k >= 1 && n < Pow2(7 * k)
    ensures |EncVarint(n)| <= k
    decreases k
  {
    if k == 1 {
      assert Pow2(7) == 128;
    } else if n >= 128 {
      Pow2Add(7, 7 * (k - 1));
      assert Pow2(7) == 128;
      var p := Pow2(7 * (k - 1));
      assert n < 128 * p;
      assert n / 128 < p;
      EncVarintLength(n / 128, k - 1);
    }
  }

  lemma Pow2Large()
    ensures Pow2(31) == B31 && Pow2(32) == B32 && Pow2(63) == B63 && Pow2(64) == B64
    ensures Pow2(7) == 128 && Pow2(8) == 256 && Pow2(16) == 65536
  {
    assert Pow2(7) == 128 && Pow2(8) == 256;
    Pow2Add(8, 8);
    Pow2Add(16, 16);
    Pow2Add(32, 32);
    assert Pow2(32) == 2 * Pow2(31) && Pow2(64) == 2 * Pow2(63);
  }

  /** pb_encode_varint's ten-byte buffer is large enough, and pb_decode_varint inverts it. */
  lemma Varint64RoundTrip(n: nat, rest: seq<byte>)
    requires n < B64
    ensures |EncVarint(n)| <= 10
    ensures DecVarint64(EncVarint(n) + rest) == Some((n, |EncVarint(n)|))
  {
    var x := EncVarint(n);
    hide Pow2, EncVarint, VarintSpan, VarintValue;
    Pow2Large();
    Pow2Monotone(64, 70);
    EncVarintLength(n, 10);
    EncVarintForm(n);
    SpanAppend(x, rest);
    assert (x + rest)[..|x|] == x;
  }

  /** The encoder's form is the minimal one: the only varint for n whose last byte is not a
      superfluous zero, and no longer than any other. */
  lemma {:induction false} VarintMinimal(x: seq<byte>)
    requires VarintSpan(x) == Some(|x|)
    ensures |EncVarint(VarintValue(x))| <= |x|
    ensures x == EncVarint(VarintValue(x)) <==> |x| == 1 || x[|x| - 1] != 0
    decreases |x|
  {
    hide EncVarint, VarintSpan, VarintValue;
    if x[0] < 128 {
      OneGroup(x);
    } else {
      var y := x[1..];
      GroupsBehind(x);
      VarintMinimal(y);
      OneMoreGroup(x[0], VarintValue(y));
      if VarintValue(y) == 0 {
        ZeroVarint(y);
      } else {
        if |y| == 1 {
          GroupsBehind(y);
          OneGroup(y);
        }
        assert x == [x[0]] + y && ([x[0]] + EncVarint(VarintValue(y)))[1..] == EncVarint(VarintValue(y));
      }
    }
  }

  lemma OneGroup(x: seq<byte>)
    requires VarintSpan(x) == Some(|x|) && x[0] < 128
    ensures |x| == 1 && VarintValue(x) == x[0] as nat && EncVarint(VarintValue(x)) == x
  {
    assert x == [x[0]] && x[1..] == [];
  }

  lemma GroupsBehind(x: seq<byte>)
    requires VarintSpan(x) == Some(|x|)
    ensures x[0] >= 128 <==> |x| > 1
    ensures |x| > 1 ==> VarintSpan(x[1..]) == Some(|x| - 1)
    ensures VarintValue(x) == x[0] as nat % 128 + 128 * VarintValue(x[1..])
  {
  }

  /** A group with its top bit set, in front of the number v. */
  lemma OneMoreGroup(b: byte, v: nat)
    requires b >= 128
    ensures
      var n := b as nat % 128 + 128 * v;
      EncVarint(n) == if v == 0 then [b - 128] else [b] + EncVarint(v)
  {
    var n := b as nat % 128 + 128 * v;
    assert n % 128 == b as nat % 128 && n / 128 == v;
  }

  /** A varint of value zero that is longer than one byte ends in a zero. */
  lemma {:induction false} ZeroVarint(x: seq<byte>)
    requires VarintSpan(x) == Some(|x|) && VarintValue(x) == 0
    ensures x[|x| - 1] == 0
    decreases |x|
  {
    if x[0] >= 128 {
      ZeroVarint(x[1..]);
    }
  }

  // ----- The 32-bit decoder -----

  lemma {:induction false} BitOrDisjoint(a: nat, b: nat, k: nat)
    requires a < Pow2(k)
    ensures BitOr(a, b * Pow2(k)) == a + b * Pow2(k)
    decreases k
  {
    if k > 0 && a > 0 && b > 0 {
      var c := b * Pow2(k - 1);
      Doubled(b, Pow2(k - 1));
      BitOrDisjoint(a / 2, b, k - 1);
      BitOrEven(a, c);
      hide BitOr;
      assert b * Pow2(k) == 2 * c;
    }
  }

  lemma BitOrEven(a: nat, c: nat)
    ensures BitOr(a, 2 * c) == a % 2 + 2 * BitOr(a / 2, c)
  {
    if a == 0 {
      assert BitOr(0, 2 * c) == 2 * c && BitOr(0, c) == c;
    } else if c > 0 {
      BitOrUnfold(a, 2 * c);
      hide BitOr;
      assert 2 * c / 2 == c && 2 * c % 2 == 0;
    }
  }

  lemma BitOrUnfold(a: nat, b: nat)
    requires a > 0 && b > 0
    ensures BitOr(a, b) == Max(a % 2, b % 2) + 2 * BitOr(a / 2, b / 2)
  {
  }

  /** One group below the top bit: the result stays the value read so far, modulo the word. */
  lemma OrGroup(result: nat, c: nat, k: nat, bits: nat)
    requires k < bits && result < Pow2(k)
    ensures BitOr(result, c * Pow2(k) % Pow2(bits)) == (result + c * Pow2(k)) % Pow2(bits)
  {
    hide Pow2, BitOr;
    var p, q, w := Pow2(k), Pow2(bits - k), Pow2(bits);
    Pow2Add(k, bits - k);
    var t, d := SplitProduct(c, q, p);
    var x, y := c * p, d * p;
    ModUnique(x, t, y, w);
    ModUnique(result + x, t, result + y, w);
    BitOrDisjoint(result, d, k);
  }

  lemma {:induction false} Loop32Span(s: seq<byte>, bitpos: nat, result: nat)
    requires Varint32Loop(s, bitpos, result).Some?
    ensures VarintSpan(s) == Some(Varint32Loop(s, bitpos, result).value.1)
    decreases |s|
  {
    hide BitOr, Pow2;
    if s[0] >= 128 {
      var b := s[0] as nat;
      var result' := if bitpos >= 32 then result else BitOr(result, b % 128 * Pow2(bitpos) % B32);
      Loop32Span(s[1..], (bitpos + 7) % FAST8, result');
    }
  }

  /** From the byte at bit position 7k on, the 32-bit decoder computes the value modulo 2^32. */
  lemma {:induction false} Loop32Value(s: seq<byte>, k: nat, result: nat)
    requires 1 <= k <= 36 && result < B32 && (k <= 4 ==> result < Pow2(7 * k))
    requires Varint32Loop(s, 7 * k, result).Some? && Varint32Loop(s, 7 * k, result).value.1 <= 37 - k
    ensures
      var (w, n) := Varint32Loop(s, 7 * k, result).value;
      n <= |s| && w == (result + VarintValue(s[..n]) * Pow2(7 * k)) % B32
    decreases |s|
  {
    hide BitOr, Pow2, Varint32Loop;
    var (w, n) := Varint32Loop(s, 7 * k, result).value;
    var b, p := s[0] as nat, Pow2(7 * k);
    var result' := if k >= 5 then result else BitOr(result, b % 128 * p % B32);
    var rest := s[..n][1..];
    var v := VarintValue(rest);
    assert VarintValue(s[..n]) == b % 128 + 128 * v;
    GroupValue(result, b % 128, k);
    LoopGoesOn(s, k, result);
    LoopStep(s, k, result);
    assert result' == (result + b % 128 * p) % B32;
    if b >= 128 {
      assert rest == s[1..][..n - 1];
      Loop32Value(s[1..], k + 1, result');
    } else {
      assert rest == [];
    }
    NextGroup(result, b % 128, v, k);
  }

  lemma NextBitpos(k: nat)
    requires k <= 35
    ensures (7 * k + 7) % FAST8 == 7 * (k + 1)
  {
  }

  lemma LoopGoesOn(s: seq<byte>, k: nat, result: nat)
    requires 1 <= k <= 36 && Varint32Loop(s, 7 * k, result).Some?
    ensures s != [] && (s[0] >= 128 <==> Varint32Loop(s, 7 * k, result).value.1 > 1)
  {
    hide BitOr, Pow2;
  }

  lemma LoopStep(s: seq<byte>, k: nat, result: nat)
    requires 1 <= k <= 36 && Varint32Loop(s, 7 * k, result).Some? && (k == 36 ==> s[0] < 128)
    ensures
      var (w, n) := Varint32Loop(s, 7 * k, result).value;
      var result' := if k >= 5 then result else BitOr(result, s[0] as nat % 128 * Pow2(7 * k) % B32);
      if s[0] >= 128 then Varint32Loop(s[1..], 7 * (k + 1), result') == Some((w, n - 1))
      else (w, n) == (result', 1)
  {
    hide BitOr, Pow2;
    if k < 36 {
      NextBitpos(k);
    }
  }

  lemma GroupValue(result: nat, c: nat, k: nat)
    requires k >= 1 && c < 128 && result < B32 && (k <= 4 ==> result < Pow2(7 * k))
    ensures k <= 4 ==> BitOr(result, c * Pow2(7 * k) % B32) == (result + c * Pow2(7 * k)) % B32
    ensures k <= 3 ==> (result + c * Pow2(7 * k)) % B32 < Pow2(7 * (k + 1))
    ensures k >= 5 ==> result == (result + c * Pow2(7 * k)) % B32
  {
    hide BitOr, Pow2;
    Pow2Large();
    if k <= 4 {
      OrGroup(result, c, 7 * k, 32);
      if k <= 3 {
        LowGroup(result, c, k);
      }
    } else {
      HighGroup(result, c, k);
    }
  }

  /** A group behind the top bit adds a multiple of 2^32. */
  lemma HighGroup(result: nat, c: nat, k: nat)
    requires k >= 5 && result < B32
    ensures result == (result + c * Pow2(7 * k)) % B32
  {
    hide Pow2;
    Pow2Large();
    var p := Pow2(7 * k - 32);
    Pow2Add(7 * k - 32, 32);
    Regroup(c, p, B32);
    ModDrop(result, c * p, B32);
    ModSmall(result);
  }

  lemma LowGroup(result: nat, c: nat, k: nat)
    requires 1 <= k <= 3 && c < 128 && result < Pow2(7 * k)
    ensures (result + c * Pow2(7 * k)) % B32 == result + c * Pow2(7 * k) < Pow2(7 * (k + 1))
  {
    hide Pow2;
    Pow2Large();
    Pow2Add(7, 7 * k);
    Pow2Monotone(7 * k + 7, 32);
    GroupBound(result, c, Pow2(7 * k));
    ModSmall(result + c * Pow2(7 * k));
  }

  lemma GroupBound(result: nat, c: nat, p: nat)
    requires result < p && c < 128
    ensures result + c * p < 128 * p
  {
    MulLess(c + 1, 128, p);
    assert (c + 1) * p == c * p + p;
  }

  lemma ModSmall(x: nat)
    requires x < B32
    ensures x % B32 == x
  {
  }

  lemma NextGroup(result: nat, c: nat, v: nat, k: nat)
    ensures ((result + c * Pow2(7 * k)) % B32 + v * Pow2(7 * (k + 1))) % B32 ==
      (result + (c + 128 * v) * Pow2(7 * k)) % B32
  {
    hide Pow2;
    Pow2Add(7, 7 * k);
    Pow2Large();
    var p := Pow2(7 * k);
    var x := result + c * p;
    SplitGroup(c, v, p);
    ModDrop(x % B32 + v * (128 * p), x / B32, B32);
  }

  /** Whatever both decoders accept, they read alike: the same bytes, and the same value modulo
      2^32. */
  lemma DecodersAgree(s: seq<byte>)
    requires DecVarint64(s).Some? && DecVarint32(s).Some?
    ensures DecVarint32(s).value == (DecVarint64(s).value.0 % B32, DecVarint64(s).value.1)
  {
    hide Varint32Loop, Pow2;
    var (v, n) := DecVarint64(s).value;
    var x := VarintValue(s[..n]);
    Pow2Large();
    ModMod(x);
    assert x == (s[0] % 128) as nat + 128 * VarintValue(s[..n][1..]);
    if s[0] < 128 {
      assert s[..1][1..] == [];
    } else {
      var first := (s[0] % 128) as nat;
      Loop32Span(s[1..], 7, first);
      Loop32Value(s[1..], 1, first);
      assert s[1..][..n - 1] == s[..n][1..];
    }
  }

  lemma ModMod(x: nat)
    ensures x % B64 % B32 == x % B32
  {
    ModDrop(x % B64, x / B64 * B32, B32);
  }

  lemma {:induction false} Loop32Accepts(q: nat, k: nat, result: nat, rest: seq<byte>)
    requires 1 <= k <= 4 && result < Pow2(7 * k) && result + q * Pow2(7 * k) < B32
    ensures Varint32Loop(EncVarint(q) + rest, 7 * k, result) == Some((result + q * Pow2(7 * k), |EncVarint(q)|))
    decreases 4 - k
  {
    hide BitOr, Pow2, Varint32Loop, EncVarint;
    var s, c, d := EncVarint(q) + rest, q % 128, q / 128;
    assert q == c + 128 * d;
    AcceptsSplit(c, d, k, result);
    AcceptsStep(c, k, result);
    EncVarintFirst(q, rest);
    LoopOne(s, k, result);
    if q >= 128 {
      Loop32Accepts(q / 128, k + 1, result + c * Pow2(7 * k), rest);
    }
  }

  lemma EncVarintFirst(q: nat, rest: seq<byte>)
    ensures
      var s := EncVarint(q) + rest;
      && s[0] as nat % 128 == q % 128
      && if q < 128 then s[0] as nat == q && |EncVarint(q)| == 1
         else s[0] >= 128 && s[1..] == EncVarint(q / 128) + rest && |EncVarint(q)| == 1 + |EncVarint(q / 128)|
  {
    var s := EncVarint(q) + rest;
    if q >= 128 {
      assert s[1..] == EncVarint(q / 128) + rest;
    }
  }

  /** One turn of the loop below bit position 32. */
  lemma LoopOne(s: seq<byte>, k: nat, result: nat)
    requires s != [] && 1 <= k <= 4
    ensures
      var b := s[0] as nat;
      var result' := BitOr(result, b % 128 * Pow2(7 * k) % B32);
      Varint32Loop(s, 7 * k, result) ==
        if b >= 128 then
          match Varint32Loop(s[1..], 7 * (k + 1), result')
          case None => None
          case Some(p) => Some((p.0, p.1 + 1))
        else if k == 4 && b >= 16 then None
        else Some((result', 1))
  {
    hide BitOr, Pow2;
    NextBitpos(k);
  }

  lemma AcceptsSplit(c: nat, d: nat, k: nat, result: nat)
    requires 1 <= k <= 4 && result + (c + 128 * d) * Pow2(7 * k) < B32
    ensures result + c * Pow2(7 * k) + d * Pow2(7 * (k + 1)) == result + (c + 128 * d) * Pow2(7 * k)
    ensures result + c * Pow2(7 * k) < B32
    ensures k == 4 ==> c + 128 * d < 16
  {
    hide Pow2;
    Pow2Add(7, 7 * k);
    Pow2Large();
    SplitGroup(c, d, Pow2(7 * k));
    if k == 4 {
      FourthGroup(result, c + 128 * d);
    }
  }

  lemma AcceptsStep(c: nat, k: nat, result: nat)
    requires 1 <= k <= 4 && c < 128 && result < Pow2(7 * k) && result + c * Pow2(7 * k) < B32
    ensures BitOr(result, c * Pow2(7 * k) % B32) == result + c * Pow2(7 * k)
    ensures k <= 3 ==> result + c * Pow2(7 * k) < Pow2(7 * (k + 1))
  {
    hide BitOr, Pow2;
    Pow2Large();
    OrGroup(result, c, 7 * k, 32);
    ModSmall(result + c * Pow2(7 * k));
    if k <= 3 {
      LowGroup(result, c, k);
    }
  }

  lemma FourthGroup(result: nat, q: nat)
    requires result + q * Pow2(28) < B32
    ensures q < 16
  {
    Pow28();
  }

  lemma SplitGroup(c: nat, d: nat, p: nat)
    ensures (c + 128 * d) * p == c * p + d * (128 * p)
  {
  }

  lemma Pow28()
    ensures Pow2(28) == 0x1000_0000
  {
    Pow2Large();
    Pow2Add(16, 8);
    Pow2Add(24, 4);
    assert Pow2(4) == 16;
  }

  /** pb_decode_varint32 reads back every 32-bit number. */
  lemma Varint32RoundTrip(n: nat, rest: seq<byte>)
    requires n < B32
    ensures DecVarint32(EncVarint(n) + rest) == Some((n, |EncVarint(n)|))
  {
    hide Varint32Loop;
    if n >= 128 {
      assert Pow2(7) == 128;
      assert (EncVarint(n) + rest)[1..] == EncVarint(n / 128) + rest;
      Loop32Accepts(n / 128, 1, n % 128, rest);
    }
  }

  // ----- Sign-extended negative numbers -----

  /** The bytes of all-ones groups from bit 35 on are accepted when bit 31 is set. */
  lemma SignExtension(result: nat, rest: seq<byte>)
    requires B31 <= result < B32
    ensures Varint32Loop([0xFF, 0xFF, 0xFF, 0xFF, 0x01] + rest, 35, result) == Some((result, 5))
  {
    hide BitOr, Pow2;
    var s := [0xFF, 0xFF, 0xFF, 0xFF, 0x01] + rest;
    assert s[1..] == [0xFF, 0xFF, 0xFF, 0x01] + rest;
    assert s[1..][1..] == [0xFF, 0xFF, 0x01] + rest;
    assert s[1..][1..][1..] == [0xFF, 0x01] + rest;
    assert s[1..][1..][1..][1..] == [0x01] + rest;
    assert Varint32Loop([0x01] + rest, 63, result) == Some((result, 1));
    assert Varint32Loop([0xFF, 0x01] + rest, 56, result) == Some((result, 2));
    assert Varint32Loop([0xFF, 0xFF, 0x01] + rest, 49, result) == Some((result, 3));
    assert Varint32Loop([0xFF, 0xFF, 0xFF, 0x01] + rest, 42, result) == Some((result, 4));
  }

  lemma OnesVarint()
    ensures EncVarint(0x1FFF_FFFF) == [0xFF, 0xFF, 0xFF, 0xFF, 0x01]
  {
    assert EncVarint(0x1FFF_FFFF) == [0xFF] + EncVarint(0x3F_FFFF);
    assert EncVarint(0x3F_FFFF) == [0xFF] + EncVarint(0x7FFF);
    assert EncVarint(0x7FFF) == [0xFF] + EncVarint(0xFF);
    assert EncVarint(0xFF) == [0xFF] + EncVarint(1);
  }

  /** Four more groups and the sign extension. */
  lemma {:induction false} Loop32Negative(q: nat, k: nat, result: nat, low: nat, rest: seq<byte>)
    requires 1 <= k <= 5 && B31 <= low < B32
    requires k <= 4 ==> result < Pow2(7 * k) && result + q * Pow2(7 * k) == low + B32 * (B32 - 1)
    requires k == 5 ==> result == low && q == 0x1FFF_FFFF
    ensures Varint32Loop(EncVarint(q) + rest, 7 * k, result) == Some((low, 10 - k))
    decreases 5 - k
  {
    hide BitOr, Pow2, Varint32Loop, EncVarint;
    if k == 5 {
      OnesVarint();
      SignExtension(low, rest);
    } else {
      var s := EncVarint(q) + rest;
      NegativeStep(q, k, result, low);
      EncVarintFirst(q, rest);
      LoopOne(s, k, result);
      Loop32Negative(q / 128, k + 1, BitOr(result, q % 128 * Pow2(7 * k) % B32), low, rest);
    }
  }

  lemma NegativeStep(q: nat, k: nat, result: nat, low: nat)
    requires 1 <= k <= 4 && B31 <= low < B32
    requires result < Pow2(7 * k) && result + q * Pow2(7 * k) == low + B32 * (B32 - 1)
    ensures q >= 128
    ensures
      var result' := BitOr(result, q % 128 * Pow2(7 * k) % B32);
      if k == 4 then result' == low && q / 128 == 0x1FFF_FFFF
      else result' < Pow2(7 * (k + 1)) && result' + q / 128 * Pow2(7 * (k + 1)) == low + B32 * (B32 - 1)
  {
    hide BitOr, Pow2;
    var p, c, d := Pow2(7 * k), q % 128, q / 128;
    Pow2Add(7, 7 * k);
    Pow2Large();
    Pow2Monotone(7 * k + 7, 35);
    Pow35();
    SplitGroup(c, d, p);
    GroupBound(result, c, p);
    GroupValue(result, c, k);
    if k == 4 {
      LastNegative(result, c, d, low);
    } else {
      LowGroup(result, c, k);
    }
  }

  lemma LastNegative(result: nat, c: nat, d: nat, low: nat)
    requires B31 <= low < B32 && result + c * Pow2(28) < 128 * Pow2(28)
    requires result + (c * Pow2(28) + d * (128 * Pow2(28))) == low + B32 * (B32 - 1)
    ensures (result + c * Pow2(28)) % B32 == low && d == 0x1FFF_FFFF
  {
    Pow28();
  }

  lemma Pow35()
    ensures Pow2(35) == 8 * B32
  {
    Pow2Large();
    Pow2Add(3, 32);
    assert Pow2(3) == 8;
  }

  /** pb_decode_varint32 reads the ten-byte form of every negative 32-bit number. */
  lemma NegativeVarint32(n: int, rest: seq<byte>)
    requires -B31 <= n < 0
    ensures DecVarint32(EncVarint(ToUnsigned(n)) + rest) == Some((n + B32, 10))
  {
    hide Varint32Loop, Pow2, EncVarint;
    var u := ToUnsigned(n);
    EncVarintFirst(u, rest);
    Pow2Large();
    Loop32Negative(u / 128, 1, u % 128, n + B32, rest);
  }

  // ----- Signed and fixed-width numbers -----

  /** Zigzag numbers invert over all of int64, and fit 64 bits. */
  lemma ZigZagRoundTrip(n: int)
    requires -B63 <= n < B63
    ensures ZigZag(n) < B64 && UnZigZag(ZigZag(n)) == n
  {
  }

  /** n is a signed number of the given width. */
  predicate FitsSigned(n: int, bits: nat)
    requires bits >= 1
  {
    -(Pow2(bits - 1) as int) <= n < Pow2(bits - 1)
  }

  /** Narrowing the unsigned form of a signed number that fits gives it back. */
  lemma SignedRoundTrip(n: int, bits: nat)
    requires 1 <= bits <= 64 && FitsSigned(n, bits)
    ensures -B63 <= n < B63
    ensures ToSigned(ToUnsigned(n), bits) == n
  {
    hide Pow2;
    Pow2Large();
    Pow2Monotone(bits - 1, 63);
    Pow2Add(1, bits - 1);
    OneBit();
    Pow2Add(64 - bits, bits);
    var p, k := Pow2(bits), Pow2(64 - bits);
    if n >= 0 {
      ModUnique(n, 0, n, p);
    } else {
      assert (k - 1) * p == k * p - p;
      ModUnique(n + B64, k - 1, n + p, p);
    }
  }

  lemma {:induction false} FixedRoundTrip(n: nat, k: nat)
    requires n < Pow2(8 * k)
    ensures FixedValue(EncFixed(n, k)) == n
    decreases k
  {
    if k > 0 {
      Pow2Add(8, 8 * (k - 1));
      assert Pow2(8) == 256;
      assert n / 256 < Pow2(8 * (k - 1));
      FixedRoundTrip(n / 256, k - 1);
      assert EncFixed(n, k)[1..] == EncFixed(n / 256, k - 1);
    }
  }
}
