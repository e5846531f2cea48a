/**
 The secret of two-factor logins: base 32 text as in section 6 of RFC 4648, without padding.
 */
module Base32 {
  import opened Arithmetic
  import opened Basics

  const WRAP := 0x1_0000_0000

  function Pow2(n: nat): (p: nat)
    ensures p > 0
  {
    if n == 0 then 1 else 2 * Pow2(n - 1)
  }

  lemma {:induction false} Pow2Add(a: nat, b: nat)
    ensures Pow2(a + b) == Pow2(a) * Pow2(b)
    decreases b
  {
    if b > 0 {
      Pow2Add(a, b - 1);
    }
  }

  /** The byte of the buffer above its low bits. */
  function ByteAt(buffer: nat, left: nat): Byte {
    buffer / Pow2(left) % 0x100
  }

  /** The digit a character stands for, or -1. */
  function DigitOf(ch: char): (v: int)
    ensures -1 <= v < 32
  {
    if 'A' <= ch <= 'Z' then ch as int % 0x20 - 1
    else if '2' <= ch <= '7' then ch as int - 24
    else -1
  }

  ghost predicate Digits(s: string) {
    forall ch :: ch in s ==> DigitOf(ch) >= 0
  }

  /** The number that the text is in base 32. */
  ghost function TextValue(s: string): nat
    requires Digits(s)
  {
    if s == "" then 0 else 32 * TextValue(s[..|s| - 1]) + DigitOf(s[|s| - 1])
  }

  /** The number that the bytes are in base 256. */
  ghost function ByteValue(key: seq<Byte>): nat {
    if key == [] then 0 else 0x100 * ByteValue(key[..|key| - 1]) + key[|key| - 1]
  }

  /** The number that the bytes are with the low bits of the buffer behind them. */
  ghost function Held(key: seq<Byte>, buffer: nat, left: nat): nat {
    if left == 0 then ByteValue(key) else 2 * Held(key, buffer / 2, left - 1) + buffer % 2
  }

  lemma {:induction false} HeldIs(key: seq<Byte>, buffer: nat, left: nat)
    ensures Held(key, buffer, left) == ByteValue(key) * Pow2(left) + buffer % Pow2(left)
    decreases left
  {
    if left > 0 {
      HeldIs(key, buffer / 2, left - 1);
      LowestBit(ByteValue(key), buffer / 2, buffer % 2, Pow2(left - 1));
    }
  }

  lemma {:induction false} LowestBit(n: nat, high: nat, bit: nat, p: nat)
    requires p > 0 && bit < 2
    ensures 2 * (n * p + high % p) + bit == n * (2 * p) + (2 * high + bit) % (2 * p)
  {
    var q, r := high / p, high % p;
    assert high == p * q + r;
    assert 2 * (p * q) == 2 * p * q && 2 * (n * p) == n * (2 * p);
    Remainder(2 * high + bit, 2 * p, q, 2 * r + bit);
  }

  /** What of the text has been read is in the bytes and in the low bits of the buffer. */
  ghost predicate Read(text: string, key: seq<Byte>, buffer: nat, left: nat) {
    Digits(text) && 5 * |text| == 8 * |key| + left && TextValue(text) == Held(key, buffer, left)
  }

  /**
   decodeSecret: the whole bytes of the text, whose last bits are dropped if they do not fill a byte;
   nothing at all if a character is not a digit.
   */
  method DecodeSecret(secret: string) returns (key: seq<Byte>)
    ensures !Digits(secret) ==> key == []
    ensures Digits(secret) ==>
              |key| == 5 * |secret| / 8 && ByteValue(key) == TextValue(secret) / Pow2(5 * |secret| % 8)
  {
    key := [];
    var buffer: nat, left: nat := 0, 0;
    for i := 0 to |secret|
      invariant left < 8 && Read(secret[..i], key, buffer, left)
    {
      var ch := secret[i];
      if DigitOf(ch) < 0 {
        return [];
      }
      DigitRead(secret, i, key, buffer, left);
      buffer := (buffer * 32 + DigitOf(ch)) % WRAP;
      left := left + 5;
      if left >= 8 {
        left := left - 8;
        ByteWritten(secret[..i + 1], key, buffer, left);
        key := key + [ByteAt(buffer, left)];
      }
    }
    assert secret[..|secret|] == secret;
    AllRead(secret, key, buffer, left);
  }

  lemma {:induction false} AllRead(text: string, key: seq<Byte>, buffer: nat, left: nat)
    requires left < 8 && Read(text, key, buffer, left)
    ensures |key| == 5 * |text| / 8 && ByteValue(key) == TextValue(text) / Pow2(5 * |text| % 8)
  {
    HeldIs(key, buffer, left);
    Quotient(TextValue(text), ByteValue(key), left, buffer % Pow2(left));
  }

  lemma {:induction false} DigitRead(text: string, i: nat, key: seq<Byte>, buffer: nat, left: nat)
    requires i < |text| && left < 8 && Read(text[..i], key, buffer, left) && DigitOf(text[i]) >= 0
    ensures Read(text[..i + 1], key, (buffer * 32 + DigitOf(text[i])) % WRAP, left + 5)
  {
    HeldIs(key, buffer, left);
    HeldIs(key, (buffer * 32 + DigitOf(text[i])) % WRAP, left + 5);
    assert text[..i + 1] == text[..i] + [text[i]] && text[..i + 1][..i] == text[..i];
    OneDigit(buffer, left, DigitOf(text[i]));
    Scale(ByteValue(key), left, buffer % Pow2(left), DigitOf(text[i]));
  }

  lemma {:induction false} ByteWritten(text: string, key: seq<Byte>, buffer: nat, left: nat)
    requires left < 8 && Read(text, key, buffer, left + 8)
    ensures Read(text, key + [ByteAt(buffer, left)], buffer, left)
  {
    HeldIs(key, buffer, left + 8);
    HeldIs(key + [ByteAt(buffer, left)], buffer, left);
    assert (key + [ByteAt(buffer, left)])[..|key|] == key;
    OneByte(ByteValue(key), buffer, left);
  }

  lemma {:induction false} Powers()
    ensures Pow2(0) == 1 && Pow2(1) == 2 && Pow2(2) == 4 && Pow2(3) == 8 && Pow2(4) == 16 && Pow2(5) == 32
    ensures Pow2(6) == 64 && Pow2(7) == 128 && Pow2(8) == 256 && Pow2(9) == 512 && Pow2(10) == 1024
    ensures Pow2(11) == 2048 && Pow2(12) == 4096 && Pow2(13) == 8192 && Pow2(14) == 16384 && Pow2(15) == 32768
  {
    assert Pow2(4) == 16 && Pow2(8) == 256 && Pow2(12) == 4096;
  }

  /** Bits shifted out at the top do not matter below. */
  lemma {:induction false} LowBits(x: nat, m: nat, k: nat)
    requires m > 0 && WRAP == m * k
    ensures x % WRAP % m == x % m
  {
    var q, r := x / WRAP, x % WRAP;
    assert x == WRAP * q + r && r == m * (r / m) + r % m;
    assert m * (k * q + r / m) == m * k * q + m * (r / m);
    Remainder(x, m, k * q + r / m, r % m);
  }

  /** The digit comes behind the low bits, whatever has been shifted out at the top. */
  lemma {:induction false} OneDigit(buffer: nat, left: nat, v: nat)
    requires left < 8 && v < 32
    ensures (buffer * 32 + v) % WRAP % Pow2(left + 5) == 32 * (buffer % Pow2(left)) + v
  {
    Powers();
    assert Pow2(16) == 65536 by { Pow2Add(8, 8); }
    Pow2Add(16, 16);
    Pow2Add(left + 5, 27 - left);
    LowBits(buffer * 32 + v, Pow2(left + 5), Pow2(27 - left));
    Pow2Add(left, 5);
    DigitBehind(buffer, Pow2(left), v);
  }

  lemma {:induction false} DigitBehind(buffer: nat, p: nat, v: nat)
    requires p > 0 && v < 32
    ensures (buffer * 32 + v) % (p * 32) == 32 * (buffer % p) + v
  {
    var q, r := buffer / p, buffer % p;
    assert buffer == p * q + r;
    assert p * 32 * q == 32 * (p * q);
    Remainder(buffer * 32 + v, p * 32, q, 32 * r + v);
  }

  lemma {:induction false} Scale(n: nat, left: nat, r: nat, v: nat)
    requires left < 8
    ensures 32 * (n * Pow2(left) + r) + v == n * Pow2(left + 5) + (32 * r + v)
  {
    Powers();
    match left
    case 0 => case 1 => case 2 => case 3 => case 4 => case 5 => case 6 => case 7 =>
  }

  /** The top eight of the low bits become a byte. */
  lemma {:induction false} OneByte(n: nat, buffer: nat, left: nat)
    requires left < 8
    ensures n * Pow2(left + 8) + buffer % Pow2(left + 8)
            == (0x100 * n + buffer / Pow2(left) % 0x100) * Pow2(left) + buffer % Pow2(left)
  {
    var p := Pow2(left);
    Powers();
    Pow2Add(left, 8);
    var high, mid, rest := Split(buffer, p);
    Remainder(buffer, p, 256 * high + mid, rest);
    Remainder(buffer, p * 256, high, p * mid + rest);
    assert (256 * high + mid) % 256 == mid;
    Collect(n, p, mid, rest);
  }

  lemma {:induction false} Split(buffer: nat, p: nat) returns (high: nat, mid: nat, rest: nat)
    requires p > 0
    ensures mid < 256 && rest < p && p * mid + rest < p * 256
    ensures buffer == p * (256 * high + mid) + rest == p * 256 * high + (p * mid + rest)
  {
    var q := buffer / p;
    high, mid, rest := q / 256, q % 256, buffer % p;
    assert buffer == p * q + rest && q == 256 * high + mid;
    Distribute(p, 256 * high, mid);
    TimesAtMost(p, mid, 255);
  }

  lemma {:induction false} Collect(n: nat, p: nat, mid: nat, rest: nat)
    ensures n * (p * 256) + (p * mid + rest) == (256 * n + mid) * p + rest
  {
    Distribute(p, 256 * n, mid);
  }

  lemma {:induction false} Quotient(n: nat, q: nat, left: nat, r: nat)
    requires left < 8 && n == q * Pow2(left) + r && r < Pow2(left)
    ensures n / Pow2(left) == q
  {
    Powers();
    match left
    case 0 => case 1 => case 2 => case 3 => case 4 => case 5 => case 6 => case 7 =>
  }

  // ----- writing base 32

  /** The n low digits of a number, in the alphabet of RFC 4648. */
  function Letter(v: nat): (ch: char)
    requires v < 32
    ensures DigitOf(ch) == v
  {
    if v < 26 then (v + 65) as char else (v + 24) as char
  }

  function Text(value: nat, n: nat): (s: string)
    ensures |s| == n && Digits(s)
  {
    if n == 0 then ""
    else
      var s := Text(value / 32, n - 1) + [Letter(value % 32)];
      assert forall ch :: ch in s ==> ch in Text(value / 32, n - 1) || ch == Letter(value % 32);
      s
  }

  lemma {:induction false} TextRoundTrip(value: nat, n: nat)
    requires value < Pow2(5 * n)
    ensures TextValue(Text(value, n)) == value
    decreases n
  {
    if n > 0 {
      Pow2Add(5 * (n - 1), 5);
      Powers();
      var s := Text(value, n);
      assert s[..n - 1] == Text(value / 32, n - 1);
      TextRoundTrip(value / 32, n - 1);
    }
  }

  /** The digits needed for n bytes: the last one is filled up with zero bits. */
  function Length(n: nat): nat {
    (8 * n + 4) / 5
  }

  ghost function Encode(key: seq<Byte>): string {
    Text(ByteValue(key) * Pow2(5 * Length(|key|) - 8 * |key|), Length(|key|))
  }

  lemma {:induction false} ByteValueBound(key: seq<Byte>)
    ensures ByteValue(key) < Pow2(8 * |key|)
    decreases |key|
  {
    if key != [] {
      ByteValueBound(key[..|key| - 1]);
      Pow2Add(8 * (|key| - 1), 8);
      Powers();
    }
  }

  /** Equally many bytes with the same value are the same bytes. */
  lemma {:induction false} ByteValueUnique(a: seq<Byte>, b: seq<Byte>)
    requires |a| == |b| && ByteValue(a) == ByteValue(b)
    ensures a == b
    decreases |a|
  {
    if a != [] {
      var n := |a| - 1;
      assert a[n] == ByteValue(a) % 0x100 && b[n] == ByteValue(b) % 0x100;
      ByteValueUnique(a[..n], b[..n]);
      assert a == a[..n] + [a[n]] && b == b[..n] + [b[n]];
    }
  }

  /** Decoding what has been encoded gives the same bytes back, whatever their number. */
  method RoundTrip(key: seq<Byte>, secret: string) returns (back: seq<Byte>)
    requires secret == Encode(key)
    ensures back == key
  {
    back := DecodeSecret(secret);
    EncodedValue(key);
    ByteValueUnique(back, key);
  }

  lemma {:induction false} EncodedValue(key: seq<Byte>)
    ensures var s := Encode(key);
            Digits(s) && 5 * |s| / 8 == |key| && TextValue(s) / Pow2(5 * |s| % 8) == ByteValue(key)
  {
    var n := Length(|key|);
    var pad := 5 * n - 8 * |key|;
    ByteValueBound(key);
    Pow2Add(8 * |key|, pad);
    TimesLess(ByteValue(key), Pow2(8 * |key|), Pow2(pad));
    TextRoundTrip(ByteValue(key) * Pow2(pad), n);
    Quotient(ByteValue(key) * Pow2(pad), ByteValue(key), pad, 0);
  }

  lemma {:induction false} TimesLess(a: nat, b: nat, p: nat)
    requires a < b && p > 0
    ensures a * p < b * p
  {
  }
}
