/** Byte-level vocabulary shared by every component of the firmware and its host tool:
    bytes, ASCII text, 32-bit words, little-endian encoding, and the decimal and
    hexadecimal renderings that the firmware writes with hand-rolled digit loops. */
module Common {

  /** A Go `byte`. */
  type Byte = b: int | 0 <= b < 256

  /** 2^32: Go's `uint32` arithmetic wraps modulo this. */
  const U32: int := 0x1_0000_0000

  predicate IsU32(n: int) { 0 <= n < U32 }

  /** Go's `int` is 32 bits wide on the RP2350 (TinyGo, Cortex-M33). */
  predicate IsInt32(n: int) { -0x8000_0000 <= n < 0x8000_0000 }

  datatype Option<T> = None | Some(value: T)

  /** Time is an integer number of nanoseconds (Go's time.Duration and monotonic clock). */
  const Millisecond: int := 1_000_000
  const Second: int := 1000 * Millisecond
  const Minute: int := 60 * Second
  const Hour: int := 60 * Minute

  /** The bytes of an ASCII string literal (each character's code, which for the
      literals used here is below 128). */
  function Ascii(s: string): (r: seq<Byte>)
    ensures |r| == |s|
  {
    seq(|s|, i requires 0 <= i < |s| => (s[i] as int) % 256)
  }

  predicate IsDigit(b: int) { 48 <= b <= 57 }

  predicate AllDigits(s: seq<Byte>) { forall i :: 0 <= i < |s| ==> IsDigit(s[i]) }

  function Pow10(k: nat): (r: nat)
    ensures r >= 1
  {
    if k == 0 then 1 else 10 * Pow10(k - 1)
  }

  /** The decimal digits of n, most significant first, with no leading zero;
      empty for 0. This is what every `for n > 0 { buf[i] = '0' + n%10; n /= 10 }`
      loop of the firmware leaves behind. */
  function Digits(n: nat): seq<Byte>
  {
    if n == 0 then [] else Digits(n / 10) + [48 + n % 10]
  }

  /** The usual decimal rendering: "0" for zero. */
  function Decimal(n: nat): seq<Byte>
  {
    if n == 0 then [48] else Digits(n)
  }

  /** The value of a string of decimal digits (the reading side of Digits). */
  function DecimalValue(s: seq<Byte>): int
  {
    if s == [] then 0 else DecimalValue(s[..|s| - 1]) * 10 + (s[|s| - 1] as int - 48)
  }

  /** Digits renders only digits, never starts with '0', and reads back as n. */
  lemma {:induction false} DigitsRoundTrip(n: nat)
    ensures AllDigits(Digits(n))
    ensures DecimalValue(Digits(n)) == n
    ensures n > 0 <==> |Digits(n)| > 0
    ensures n > 0 ==> Digits(n)[0] != 48
  {
    if n > 0 {
      DigitsRoundTrip(n / 10);
      var s := Digits(n);
      assert s[..|s| - 1] == Digits(n / 10);
    }
  }

  /** Decimal renders only digits and reads back as n, so it is injective. */
  lemma DecimalRoundTrip(n: nat)
    ensures AllDigits(Decimal(n)) && |Decimal(n)| > 0
    ensures DecimalValue(Decimal(n)) == n
  {
    DigitsRoundTrip(n);
  }

  /** A value below 10^k has at most k digits. */
  lemma {:induction false} DigitsLength(n: nat, k: nat)
    requires n < Pow10(k)
    ensures |Digits(n)| <= k
  {
    if n > 0 {
      assert k > 0;
      DigitsLength(n / 10, k - 1);
    }
  }

  lemma Pow10Ten()
    ensures Pow10(10) == 10000000000
  {
    assert Pow10(5) == 100000;
  }

  /** The digit loop shared by `writeInt` (console.go), `writeOTAInt` (ota_server.go) and
      `writeHTTPInt` (telemetry/telemetry.go): "0" for zero; the digits of a positive value,
      filled right to left into a 10-byte buffer; nothing at all for a negative value,
      because the loop condition `n > 0` never holds. */
  method FormatInt(n: int) returns (out: seq<Byte>)
    requires IsInt32(n)
    ensures n == 0 ==> out == [48]
    ensures n < 0 ==> out == []
    ensures n > 0 ==> out == Digits(n) && DecimalValue(out) == n && out[0] != 48
    ensures AllDigits(out) && |out| <= 10
  {
    if n == 0 {
      return [48];
    }
    var buf := new Byte[10];
    var i := 10;
    var m := if n > 0 then n else 0;
    assert m < Pow10(10) by { Pow10Ten(); }
    DigitsLength(m, 10);
    while m > 0
      invariant 0 <= i <= 10 && m >= 0
      invariant |Digits(m)| <= i
      invariant Digits(m) + buf[i..] == Digits(if n > 0 then n else 0)
      decreases m
    {
      DigitsRoundTrip(m);
      i := i - 1;
      buf[i] := 48 + m % 10;
      assert buf[i..] == [buf[i]] + buf[i + 1..];
      m := m / 10;
    }
    out := buf[i..];
    DigitsRoundTrip(if n > 0 then n else 0);
  }

  /** Go's `int` is 32 bits on this target: the digit loop wraps in two's complement. */
  function WrapInt32(n: int): (r: int)
    ensures IsInt32(r)
    ensures IsInt32(n) ==> r == n
  {
    var m := n % U32;
    if m >= 0x8000_0000 then m - U32 else m
  }

  const I64: int := 0x1_0000_0000_0000_0000

  predicate IsInt64(n: int) { -0x8000_0000_0000_0000 <= n < 0x8000_0000_0000_0000 }

  /** Go's int64, for timestamps and values that the firmware stores as int64. */
  type Int64 = n: int | IsInt64(n)

  /** time.Duration arithmetic is 64-bit two's complement. */
  function WrapInt64(n: int): (r: int)
    ensures IsInt64(r)
    ensures IsInt64(n) ==> r == n
  {
    var m := n % I64;
    if m >= 0x8000_0000_0000_0000 then m - I64 else m
  }

  /** The digit loop of the `writeUint64`/`writeInt` (telemetry/json.go) and
      `copyUint64ToBuffer` (telemetry/slog.go) helpers: the digits of n, filled right to
      left into a buffer of `size` bytes; nothing for zero. */
  method FillDigits(n: nat, size: nat) returns (out: seq<Byte>)
    requires n < Pow10(size)
    ensures out == Digits(n)
  {
    var buf := new Byte[size];
    var i := size;
    var m := n;
    DigitsLength(m, size);
    while m > 0
      invariant 0 <= i <= size
      invariant |Digits(m)| <= i
      invariant Digits(m) + buf[i..] == Digits(n)
      decreases m
    {
      var d: Byte := 48 + m % 10;
      var rest := Digits(m / 10);
      assert Digits(m) == rest + [d];
      i := i - 1;
      buf[i] := d;
      assert buf[i..] == [d] + buf[i + 1..];
      m := m / 10;
    }
    out := buf[i..];
  }

  /** The lowercase hexadecimal digit of a nibble. */
  function HexDigit(v: int): Byte
    requires 0 <= v < 16
  {
    if v < 10 then 48 + v else 87 + v
  }

  predicate IsLowerHex(b: int) { 48 <= b <= 57 || 97 <= b <= 102 }

  /** The nibble a lowercase hexadecimal digit stands for. */
  function HexValue(b: Byte): int
  {
    if 48 <= b <= 57 then b - 48 else if 97 <= b <= 102 then b - 87 else 0
  }

  lemma HexDigitRoundTrip(v: int)
    requires 0 <= v < 16
    ensures IsLowerHex(HexDigit(v)) && HexValue(HexDigit(v)) == v
  {
  }

  function Pow16(k: nat): (r: nat)
    ensures r >= 1
  {
    if k == 0 then 1 else 16 * Pow16(k - 1)
  }

  /** The k low-order hex digits of n, most significant first (zero-padded). */
  function HexFixed(n: nat, k: nat): (r: seq<Byte>)
    ensures |r| == k
  {
    if k == 0 then [] else HexFixed(n / 16, k - 1) + [HexDigit(n % 16)]
  }

  /** The value of a string of lowercase hex digits. */
  function HexStringValue(s: seq<Byte>): int
  {
    if s == [] then 0 else HexStringValue(s[..|s| - 1]) * 16 + HexValue(s[|s| - 1])
  }

  /** HexFixed emits only lowercase hex digits and reads back as n modulo 16^k. */
  lemma {:induction false} HexFixedRoundTrip(n: nat, k: nat)
    ensures forall i :: 0 <= i < k ==> IsLowerHex(HexFixed(n, k)[i])
    ensures HexStringValue(HexFixed(n, k)) == n % Pow16(k)
  {
    if k > 0 {
      HexFixedRoundTrip(n / 16, k - 1);
      var s := HexFixed(n, k);
      assert s[..k - 1] == HexFixed(n / 16, k - 1);
      HexDigitRoundTrip(n % 16);
      ModDivStep(n, 16, Pow16(k - 1));
    }
  }

  /** Division with remainder is unique. */
  lemma DivModUnique(n: int, m: int, a: int, c: int)
    requires m > 0 && n == a * m + c && 0 <= c < m
    ensures n / m == a && n % m == c
  {
    var q, r := n / m, n % m;
    assert n == q * m + r && 0 <= r < m;
    if q > a {
      MulAtLeast(q - a, m);
    } else if q < a {
      MulAtLeast(a - q, m);
    }
  }

  lemma MulAtLeast(x: int, m: int)
    requires x >= 1 && m > 0
    ensures x * m >= m
  {
  }

  /** (n / b) % p * b + n % b == n % (p * b): one step of positional notation. */
  lemma ModDivStep(n: nat, b: nat, p: nat)
    requires b > 0 && p > 0
    ensures (n / b) % p * b + n % b == n % (p * b)
  {
    var q := n / b;
    var r := n % b;
    var q2 := q / p;
    var r2 := q % p;
    assert r2 * b + r < p * b by {
      assert r2 <= p - 1;
      assert r2 * b <= (p - 1) * b;
    }
    calc {
      n;
      q * b + r;
      (q2 * p + r2) * b + r;
      q2 * (p * b) + (r2 * b + r);
    }
    DivModUnique(n, p * b, q2, r2 * b + r);
  }

  /** Two lowercase hex digits per byte, high nibble first: `formatHashHex`
      (ota_server.go) and the digits of `writeHex` (telemetry/json.go). */
  function HexBytes(bs: seq<Byte>): (r: seq<Byte>)
    ensures |r| == 2 * |bs|
  {
    if bs == [] then [] else [HexDigit(bs[0] / 16), HexDigit(bs[0] % 16)] + HexBytes(bs[1..])
  }

  /** Reads pairs of lowercase hex digits back into bytes. */
  function UnhexBytes(s: seq<Byte>): seq<int>
  {
    if |s| < 2 then [] else [HexValue(s[0]) * 16 + HexValue(s[1])] + UnhexBytes(s[2..])
  }

  /** HexBytes emits only lowercase hex digits and loses nothing. */
  lemma {:induction false} HexBytesRoundTrip(bs: seq<Byte>)
    ensures forall i :: 0 <= i < |HexBytes(bs)| ==> IsLowerHex(HexBytes(bs)[i])
    ensures UnhexBytes(HexBytes(bs)) == bs
  {
    if bs != [] {
      HexBytesRoundTrip(bs[1..]);
      HexDigitRoundTrip(bs[0] / 16);
      HexDigitRoundTrip(bs[0] % 16);
      var h := HexBytes(bs);
      assert h[2..] == HexBytes(bs[1..]);
    }
  }

  /** HexBytes is injective: different digests never render to the same text. */
  lemma HexBytesInjective(a: seq<Byte>, b: seq<Byte>)
    requires HexBytes(a) == HexBytes(b)
    ensures a == b
  {
    HexBytesRoundTrip(a);
    HexBytesRoundTrip(b);
  }

  /** `binary.LittleEndian.Uint32`. */
  function LE32(b: seq<Byte>): (r: int)
    requires |b| == 4
    ensures IsU32(r)
  {
    b[0] as int + 256 * (b[1] as int) + 65536 * (b[2] as int) + 16777216 * (b[3] as int)
  }

  /** `binary.LittleEndian.PutUint32`. */
  function EncodeLE32(n: int): (r: seq<Byte>)
    requires IsU32(n)
    ensures |r| == 4
  {
    [n % 256, n / 256 % 256, n / 65536 % 256, n / 16777216]
  }

  /** Decoding an encoded word gives the word back. */
  lemma LE32RoundTrip(n: int)
    requires IsU32(n)
    ensures LE32(EncodeLE32(n)) == n
  {
    var q1, q2, q3 := n / 256, n / 256 / 256, n / 256 / 256 / 256;
    DivModUnique(n, 256, q1, n % 256);
    assert n / 65536 == q2 by { DivModUnique(n, 65536, q2, q1 % 256 * 256 + n % 256); }
    assert n / 16777216 == q3 by {
      DivModUnique(n, 16777216, q3, (q2 % 256 * 256 + q1 % 256) * 256 + n % 256);
    }
  }

  /** Encoding a decoded header gives the same four bytes back. */
  lemma EncodeLE32RoundTrip(b: seq<Byte>)
    requires |b| == 4
    ensures EncodeLE32(LE32(b)) == b
  {
    var n := LE32(b);
    var b0, b1, b2, b3 := b[0] as int, b[1] as int, b[2] as int, b[3] as int;
    DivModUnique(n, 256, b1 + 256 * b2 + 65536 * b3, b0);
    DivModUnique(n, 65536, b2 + 256 * b3, b0 + 256 * b1);
    DivModUnique(n, 16777216, b3, b0 + 256 * b1 + 65536 * b2);
    DivModUnique(b1 + 256 * b2 + 65536 * b3, 256, b2 + 256 * b3, b1);
    DivModUnique(b2 + 256 * b3, 256, b3, b2);
  }

  /** Go's `copy(output[offset:], src)` when src fits: src overwrites the bytes from
      offset on. */
  method CopyInto(output: array<Byte>, offset: nat, src: seq<Byte>)
    requires offset + |src| <= output.Length
    modifies output
    ensures output[..] == old(output[..offset]) + src + old(output[offset + |src|..])
  {
    forall j | 0 <= j < |src| {
      output[offset + j] := src[j];
    }
  }

  lemma AppendAssoc<T>(a: seq<T>, b: seq<T>, c: seq<T>)
    ensures (a + b) + c == a + (b + c)
  {
  }

  function Min(a: int, b: int): int { if a <= b then a else b }

  function Max(a: int, b: int): int { if a >= b then a else b }
}
