/** Bytes, options and the fixed-width integer encodings shared by every protocol here. */
module Bytes {

  type byte = b: int | 0 <= b < 256

  type u16 = n: int | 0 <= n < 0x1_0000
  type u32 = n: int | 0 <= n < 0x1_0000_0000
  type u64 = n: int | 0 <= n < 0x1_0000_0000_0000_0000

  const U32_MAX: nat := 0xffff_ffff
  const U64_MAX: nat := 0xffff_ffff_ffff_ffff

  datatype Option<+T> = None | Some(value: T)

  /** The error kinds of the CarPlay protocols. */
  datatype Error = Bounds | Malformed | Checksum | Unsupported | Sequence | Timeout | Rejected | State

  datatype Result<+T> = Ok(value: T) | Err(error: Error)

  function Min(a: int, b: int): int {
    if a <= b then a else b
  }

  function Max(a: int, b: int): int {
    if a <= b then b else a
  }

  /** `n.wrapping_add(1)` on a byte. */
  function Succ(n: byte): byte {
    if n == 255 then 0 else n + 1
  }

  /** `n.wrapping_sub(1)`. */
  function Pred(n: byte): byte {
    if n == 0 then 255 else n - 1
  }

  /** 256 to the power n: the number of values n bytes can hold. */
  function Span(n: nat): (r: nat)
    ensures r > 0
  {
    if n == 0 then 1 else 256 * Span(n - 1)
  }

  lemma Spans()
    ensures Span(1) == 0x100 && Span(2) == 0x1_0000
    ensures Span(3) == 0x100_0000 && Span(4) == 0x1_0000_0000
    ensures Span(8) == 0x1_0000_0000_0000_0000
  {
    assert Span(4) == 256 * Span(3);
    assert Span(5) == 256 * Span(4);
    assert Span(6) == 256 * Span(5);
    assert Span(7) == 256 * Span(6);
  }

  /** The n low bytes of value, most significant first. */
  function BigEndian(value: nat, n: nat): (r: seq<byte>)
    ensures |r| == n
  {
    if n == 0 then [] else BigEndian(value / 256, n - 1) + [value % 256]
  }

  /** The number a big-endian byte string denotes. */
  function FromBig(s: seq<byte>): (r: nat)
    ensures r < Span(|s|)
  {
    if s == [] then 0 else FromBig(s[..|s| - 1]) * 256 + s[|s| - 1]
  }

  lemma {:induction false} BigRoundTrip(value: nat, n: nat)
    requires value < Span(n)
    ensures FromBig(BigEndian(value, n)) == value
    decreases n
  {
    if n > 0 {
      var s := BigEndian(value, n);
      ByteSplit(value, Span(n - 1));
      BigRoundTrip(value / 256, n - 1);
      assert s[..n - 1] == BigEndian(value / 256, n - 1) && s[n - 1] == value % 256;
      hide BigEndian;
    }
  }

  lemma ByteSplit(value: nat, span: nat)
    requires value < 256 * span
    ensures value / 256 < span && value / 256 * 256 + value % 256 == value
  {
  }

  lemma {:induction false} BigOnto(s: seq<byte>)
    ensures BigEndian(FromBig(s), |s|) == s
  {
    if s != [] {
      BigOnto(s[..|s| - 1]);
      assert s == s[..|s| - 1] + [s[|s| - 1]];
    }
  }

  /** The n low bytes of value, least significant first. */
  function LittleEndian(value: nat, n: nat): (r: seq<byte>)
    ensures |r| == n
  {
    if n == 0 then [] else [value % 256] + LittleEndian(value / 256, n - 1)
  }

  function FromLittle(s: seq<byte>): (r: nat)
    ensures r < Span(|s|)
  {
    if s == [] then 0 else s[0] + 256 * FromLittle(s[1..])
  }

  lemma {:induction false} LittleRoundTrip(value: nat, n: nat)
    requires value < Span(n)
    ensures FromLittle(LittleEndian(value, n)) == value
  {
    if n > 0 {
      assert LittleEndian(value, n)[1..] == LittleEndian(value / 256, n - 1);
      LittleRoundTrip(value / 256, n - 1);
    }
  }

  /** Two big-endian bytes, as a direct expression. */
  function U16(high: byte, low: byte): (r: nat)
    ensures r <= 0xffff
  {
    high * 256 + low
  }

  lemma U16IsBig(high: byte, low: byte)
    ensures FromBig([high, low]) == U16(high, low)
    ensures BigEndian(U16(high, low), 2) == [high, low]
  {
    assert [high, low][..1] == [high];
    assert FromBig([high]) == FromBig([]) * 256 + high;
    BigOnto([high, low]);
  }

  /** `n as u16`: what is left of n when whole multiples of 65536 are taken away. */
  function Low16(n: nat): u16 {
    if n <= 0xffff then n else Low16(n - 0x1_0000)
  }

  /** `(n as u16).to_be_bytes()`: the two bytes of the low 16 bits of n, most significant byte first. */
  function Word(n: nat): (r: seq<byte>)
    ensures |r| == 2 && U16(r[0], r[1]) == Low16(n)
  {
    WordExists(Low16(n));
    var high: byte, low: byte :| U16(high, low) == Low16(n);
    [high, low]
  }

  lemma WordExists(n: u16)
    ensures exists high: byte, low: byte :: U16(high, low) == n
  {
    var high: byte, low: byte := n / 256, n % 256;
    assert U16(high, low) == n;
  }

  /** The two bytes of a 16-bit number are determined by it. */
  lemma WordInjective(a: byte, b: byte, c: byte, d: byte)
    requires U16(a, b) == U16(c, d)
    ensures a == c && b == d
  {
  }

  lemma WordOnto(high: byte, low: byte)
    ensures Word(U16(high, low)) == [high, low]
  {
    hide Word;
    var w := Word(U16(high, low));
    WordInjective(w[0], w[1], high, low);
  }

  /** Two words, most significant first, as a direct expression. */
  function U32(high: u16, low: u16): nat {
    high * 0x1_0000 + low
  }

  /** The big-endian number in the four bytes from i on. */
  function U32At(bytes: seq<byte>, i: nat): (r: nat)
    requires i + 4 <= |bytes|
    ensures r <= U32_MAX
  {
    U32(U16(bytes[i], bytes[i + 1]), U16(bytes[i + 2], bytes[i + 3]))
  }

  lemma U32Slice(bytes: seq<byte>, i: nat)
    requires i + 4 <= |bytes|
    ensures U32At(bytes, i) == U32At(bytes[i..i + 4], 0)
  {
  }

  /** `n as u32`. */
  function Low32(n: nat): u32 {
    if n <= U32_MAX then n else Low32(n - 0x1_0000_0000)
  }

  /** `n >> 16`: how many multiples of 65536 can be taken away. */
  function High16(n: nat): nat {
    if n <= 0xffff then 0 else 1 + High16(n - 0x1_0000)
  }

  lemma {:induction false} Halves(n: u32)
    ensures High16(n) <= 0xffff && U32(High16(n), Low16(n)) == n
  {
    HalvesOf(n);
  }

  lemma {:induction false} HalvesOf(n: nat)
    ensures High16(n) * 0x1_0000 + Low16(n) == n
  {
    if n > 0xffff {
      HalvesOf(n - 0x1_0000);
    }
  }

  /** `(n as u32).to_be_bytes()`, as the words of its two halves. */
  function Long(n: nat): (r: seq<byte>)
    ensures |r| == 4 && U32At(r, 0) == Low32(n)
  {
    Halves(Low32(n));
    Word(High16(Low32(n))) + Word(Low16(Low32(n)))
  }

  /** Two little-endian bytes. */
  function U16Little(low: byte, high: byte): nat {
    low + 256 * high
  }

  /** `to_le_bytes` of a 16-bit number. */
  function LittleWord(n: u16): (r: seq<byte>)
    ensures |r| == 2 && U16Little(r[0], r[1]) == n
  {
    [n % 256, n / 256]
  }

  /** Slices of a suffix are slices of the whole. */
  lemma Suffix<T>(s: seq<T>, i: nat, j: nat)
    requires i + j <= |s|
    ensures s[i..][..j] == s[i..i + j]
    ensures s[i..][j..] == s[i + j..]
  {
  }

  lemma Joined<T>(a: seq<T>, b: seq<T>)
    ensures (a + b)[..|a|] == a && (a + b)[|a|..] == b && (a + b)[|a|..|a| + |b|] == b && (a + b)[|a| + |b|..] == []
  {
  }

  lemma TakeSnoc<T>(s: seq<T>, n: nat)
    requires n < |s|
    ensures s[..n + 1] == s[..n] + [s[n]]
  {
  }
}
