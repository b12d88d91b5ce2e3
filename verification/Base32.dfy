/**
 Base32 as in section 6 of RFC 4648, lowercase and without padding: five bits a character, the last
 filled up with zeros.
 */
module Base32 {
  import opened Basics
  import opened ByteOrder

  type Bits = seq<bool>

  /** The words bits are held in while a string is encoded, and decoded. */
  const ENCODER_WORD := 64
  const DECODER_WORD := 32

  // ---- Numbers and their bits ------------------------------------------------------------------

  /** The low `n` bits of `x`, the highest of them first. */
  function Low(x: nat, n: nat): (b: Bits)
    ensures |b| == n
  {
    if n == 0 then [] else Low(x / 2, n - 1) + [x % 2 == 1]
  }

  /** The number `x` cut to its low `n` bits. */
  function Cut(x: nat, n: nat): nat {
    if n == 0 then 0 else 2 * Cut(x / 2, n - 1) + x % 2
  }

  function Shr(x: nat, n: nat): nat { if n == 0 then x else Shr(x / 2, n - 1) }
  function Shl(x: nat, n: nat): nat { if n == 0 then x else 2 * Shl(x, n - 1) }

  function FromBits(b: Bits): nat {
    if b == [] then 0 else 2 * FromBits(b[..|b| - 1]) + if b[|b| - 1] then 1 else 0
  }

  function Zeros(n: nat): Bits { seq(n, _ => false) }

  lemma {:induction false} LowOfCut(x: nat, m: nat, n: nat)
    requires n <= m
    ensures Low(Cut(x, m), n) == Low(x, n)
  {
    if n > 0 { LowOfCut(x / 2, m - 1, n - 1); }
  }

  lemma {:induction false} LowSplit(x: nat, k: nat, n: nat)
    ensures Low(x, k + n) == Low(Shr(x, n), k) + Low(x, n)
  {
    if n > 0 {
      LowSplit(x / 2, k, n - 1);
      assert Low(Shr(x, n), k) + Low(x, n) == Low(Shr(x / 2, n - 1), k) + Low(x / 2, n - 1) + [x % 2 == 1];
    }
  }

  lemma {:induction false} LowOfShl(x: nat, k: nat, n: nat)
    ensures Low(Shl(x, k), n + k) == Low(x, n) + Zeros(k)
  {
    if k > 0 {
      LowOfShl(x, k - 1, n);
      assert Shl(x, k) / 2 == Shl(x, k - 1) && Shl(x, k) % 2 == 0;
      assert Low(Shl(x, k), n + k) == Low(x, n) + Zeros(k - 1) + [false];
      assert Zeros(k - 1) + [false] == Zeros(k);
    } else {
      assert Zeros(0) == [];
    }
  }

  lemma {:induction false} FromLow(x: nat, n: nat)
    ensures FromBits(Low(x, n)) == Cut(x, n)
  {
    if n > 0 {
      FromLow(x / 2, n - 1);
      assert Low(x, n)[..n - 1] == Low(x / 2, n - 1);
    }
  }

  lemma {:induction false} LowFrom(b: Bits)
    ensures Low(FromBits(b), |b|) == b && Cut(FromBits(b), |b|) == FromBits(b)
  {
    if b != [] { LowFrom(b[..|b| - 1]); }
  }

  lemma CutByte(x: nat)
    ensures x < 256 ==> Cut(x, 8) == x
    ensures Cut(x, 8) < 256 && Cut(x, 5) < 32
    ensures x < 32 ==> Cut(x, 5) == x
  {
    CutSmall(x, 5);
    CutSmall(x, 8);
    Powers2();
  }

  lemma Powers2()
    ensures Pow2(5) == 32 && Pow2(8) == 256
  {
    assert Pow2(1) == 2 * Pow2(0);
    assert Pow2(2) == 2 * Pow2(1);
    assert Pow2(3) == 2 * Pow2(2);
    assert Pow2(4) == 2 * Pow2(3);
    assert Pow2(5) == 2 * Pow2(4);
    assert Pow2(6) == 2 * Pow2(5);
    assert Pow2(7) == 2 * Pow2(6);
    assert Pow2(8) == 2 * Pow2(7);
  }

  lemma {:induction false} CutSmall(x: nat, n: nat)
    ensures Cut(x, n) < Pow2(n) && (x < Pow2(n) ==> Cut(x, n) == x)
  {
    if n > 0 { CutSmall(x / 2, n - 1); }
  }

  // ---- Bytes and groups of five as bits -----------------------------------------------------------

  type Digit = d: int | 0 <= d < 32

  function OfBytes(s: Bytes): (b: Bits)
    ensures |b| == 8 * |s|
  {
    if s == [] then [] else OfBytes(s[..|s| - 1]) + Low(s[|s| - 1], 8)
  }

  function OfDigits(s: seq<Digit>): (b: Bits)
    ensures |b| == 5 * |s|
  {
    if s == [] then [] else OfDigits(s[..|s| - 1]) + Low(s[|s| - 1], 5)
  }

  lemma OfBytesOne(s: Bytes, b: Byte)
    ensures OfBytes(s + [b]) == OfBytes(s) + Low(b, 8)
  {
    assert (s + [b])[..|s|] == s;
  }

  lemma OfDigitsOne(s: seq<Digit>, d: Digit)
    ensures OfDigits(s + [d]) == OfDigits(s) + Low(d, 5)
  {
    assert (s + [d])[..|s|] == s;
  }

  lemma Apart(a: Bits, b: Bits, c: Bits, d: Bits)
    requires a + b == c + d && |b| == |d|
    ensures a == c && b == d
  {
    assert a == (a + b)[..|a|] && b == (a + b)[|a|..] && c == (c + d)[..|c|] && d == (c + d)[|c|..];
  }

  lemma ByteIsItsBits(a: Byte, b: Byte)
    requires Low(a, 8) == Low(b, 8)
    ensures a == b
  {
    FromLow(a, 8);
    FromLow(b, 8);
    CutByte(a);
    CutByte(b);
  }

  lemma DigitIsItsBits(a: Digit, b: Digit)
    requires Low(a, 5) == Low(b, 5)
    ensures a == b
  {
    FromLow(a, 5);
    FromLow(b, 5);
    CutByte(a);
    CutByte(b);
  }

  lemma {:induction false} BytesAreTheirBits(s: Bytes, t: Bytes)
    requires OfBytes(s) == OfBytes(t)
    ensures s == t
  {
    if s != [] {
      var i, a, j, b := s[..|s| - 1], s[|s| - 1], t[..|t| - 1], t[|t| - 1];
      Apart(OfBytes(i), Low(a, 8), OfBytes(j), Low(b, 8));
      BytesAreTheirBits(i, j);
      ByteIsItsBits(a, b);
    }
  }

  lemma {:induction false} DigitsAreTheirBits(s: seq<Digit>, t: seq<Digit>)
    requires OfDigits(s) == OfDigits(t)
    ensures s == t
  {
    if s != [] {
      var i, a, j, b := s[..|s| - 1], s[|s| - 1], t[..|t| - 1], t[|t| - 1];
      Apart(OfDigits(i), Low(a, 5), OfDigits(j), Low(b, 5));
      DigitsAreTheirBits(i, j);
      DigitIsItsBits(a, b);
    }
  }

  // ---- The code -----------------------------------------------------------------------------------

  lemma FromBitsFits(b: Bits)
    ensures |b| == 5 ==> FromBits(b) < 32
    ensures |b| == 8 ==> FromBits(b) < 256
  {
    LowFrom(b);
    CutByte(FromBits(b));
  }

  /** Bits read off in fives. */
  function Fives(b: Bits): (s: seq<Digit>)
    requires |b| % 5 == 0
    ensures |s| == |b| / 5
  {
    if b == [] then []
    else
      var last := b[|b| - 5..];
      FromBitsFits(last);
      Fives(b[..|b| - 5]) + [FromBits(last)]
  }

  /** Bits read off in eights. */
  function Eights(b: Bits): (s: Bytes)
    requires |b| % 8 == 0
    ensures |s| == |b| / 8
  {
    if b == [] then []
    else
      var last := b[|b| - 8..];
      FromBitsFits(last);
      Eights(b[..|b| - 8]) + [FromBits(last)]
  }

  lemma FiveMore(s: seq<Digit>, last: Bits)
    requires |last| == 5
    ensures FromBits(last) < 32 && OfDigits(s + [FromBits(last)]) == OfDigits(s) + last
  {
    LowFrom(last);
    FromBitsFits(last);
    OfDigitsOne(s, FromBits(last));
  }

  lemma EightMore(s: Bytes, last: Bits)
    requires |last| == 8
    ensures FromBits(last) < 256 && OfBytes(s + [FromBits(last)]) == OfBytes(s) + last
  {
    LowFrom(last);
    FromBitsFits(last);
    OfBytesOne(s, FromBits(last));
  }

  lemma {:induction false} OfFives(b: Bits)
    requires |b| % 5 == 0
    ensures OfDigits(Fives(b)) == b
  {
    if b != [] {
      var init, last := b[..|b| - 5], b[|b| - 5..];
      OfFives(init);
      FiveMore(Fives(init), last);
      assert b == init + last;
    }
  }

  lemma {:induction false} OfEights(b: Bits)
    requires |b| % 8 == 0
    ensures OfBytes(Eights(b)) == b
  {
    if b != [] {
      var init, last := b[..|b| - 8], b[|b| - 8..];
      OfEights(init);
      EightMore(Eights(init), last);
      assert b == init + last;
    }
  }

  /** The zeros that fill up the last character: as many as it takes to come to a multiple of five. */
  function Pad(len: nat): (p: nat)
    ensures p < 5 && (8 * len + p) % 5 == 0
  {
    2 * len % 5
  }

  function Padded(s: Bytes): (b: Bits)
    ensures |b| % 5 == 0
  {
    OfBytes(s) + Zeros(Pad(|s|))
  }

  function Encode(s: Bytes): seq<Digit> { Fives(Padded(s)) }

  /** Bytes, if what is left over of the last character is zero. */
  function DecodeBits(b: Bits): Option<Bytes> {
    var whole := |b| - |b| % 8;
    if b[whole..] == Zeros(|b| % 8) then Some(Eights(b[..whole])) else None
  }

  function Decode(s: seq<Digit>): Option<Bytes> { DecodeBits(OfDigits(s)) }

  lemma EncodeBits(s: Bytes)
    ensures OfDigits(Encode(s)) == Padded(s)
  {
    OfFives(Padded(s));
  }

  lemma PadIs(n: nat, digits: nat, p: nat)
    requires 5 * digits == 8 * n + p && p < 5
    ensures p == Pad(n)
  {
    assert 2 * n == 5 * (2 * n - digits) + p;
  }

  /** Digits that spell the bytes, and fewer than five zeros, are their encoding. */
  lemma IsEncoding(s: Bytes, t: seq<Digit>, p: nat)
    requires OfDigits(t) == OfBytes(s) + Zeros(p) && p < 5
    ensures t == Encode(s)
  {
    PadIs(|s|, |t|, p);
    EncodeBits(s);
    DigitsAreTheirBits(t, Encode(s));
  }

  lemma EightsOfBytes(s: Bytes)
    ensures Eights(OfBytes(s)) == s
  {
    OfEights(OfBytes(s));
    BytesAreTheirBits(s, Eights(OfBytes(s)));
  }

  lemma Halves(a: Bits, z: Bits, b: Bits)
    requires b == a + z && |a| % 8 == 0 && |z| < 8
    ensures |b| - |b| % 8 == |a| && b[..|a|] == a && b[|a|..] == z
  {}

  lemma BitsDecode(s: Bytes, b: Bits, r: nat)
    requires b == OfBytes(s) + Zeros(r) && r < 8
    ensures DecodeBits(b) == Some(s)
  {
    Halves(OfBytes(s), Zeros(r), b);
    EightsOfBytes(s);
  }

  /** Every encoding decodes to what was encoded. */
  lemma RoundTrip(s: Bytes)
    ensures Decode(Encode(s)) == Some(s)
  {
    EncodeBits(s);
    BitsDecode(s, Padded(s), Pad(|s|));
  }

  /** A string that decodes is the encoding of its result, unless its last character is one too many; so
      with the length an encoding has there is one spelling. */
  lemma OneSpelling(t: seq<Digit>, s: Bytes)
    requires Decode(t) == Some(s)
    ensures t == Encode(s) <==> 5 * |t| % 8 < 5
  {
    SpellsBits(OfDigits(t), s);
    SpellsEncoding(t, s, 5 * |t| % 8);
  }

  lemma SpellsEncoding(t: seq<Digit>, s: Bytes, r: nat)
    requires OfDigits(t) == OfBytes(s) + Zeros(r)
    ensures t == Encode(s) <==> r < 5
  {
    if r < 5 {
      IsEncoding(s, t, r);
    } else {
      EncodeBits(s);
      assert |OfDigits(Encode(s))| == 8 * |s| + Pad(|s|);
    }
  }

  lemma SpellsBits(b: Bits, s: Bytes)
    requires DecodeBits(b) == Some(s)
    ensures b == OfBytes(s) + Zeros(|b| % 8)
  {
    var whole := |b| - |b| % 8;
    OfEights(b[..whole]);
    assert b == b[..whole] + b[whole..];
  }

  // ---- The loops ----------------------------------------------------------------------------------

  lemma Regroup(a: Bits, b: Bits, c: Bits, bc: Bits)
    requires bc == b + c
    ensures a + b + c == a + bc
  {}

  /** Five more bits go out: the top five of those held. */
  lemma TakeFive(bits: nat, n: nat, out: seq<Digit>)
    ensures var d := Cut(Shr(bits, n), 5);
            d < 32 && OfDigits(out + [d]) + Low(bits, n) == OfDigits(out) + Low(bits, n + 5)
  {
    var d := Cut(Shr(bits, n), 5);
    CutByte(Shr(bits, n));
    OfDigitsOne(out, d);
    LowOfCut(Shr(bits, n), 5, 5);
    LowSplit(bits, 5, n);
    Regroup(OfDigits(out), Low(d, 5), Low(bits, n), Low(bits, n + 5));
  }

  lemma TakeEight(bits: nat, n: nat, out: Bytes)
    ensures var b := Cut(Shr(bits, n), 8);
            b < 256 && OfBytes(out + [b]) + Low(bits, n) == OfBytes(out) + Low(bits, n + 8)
  {
    var b := Cut(Shr(bits, n), 8);
    CutByte(Shr(bits, n));
    OfBytesOne(out, b);
    LowOfCut(Shr(bits, n), 8, 8);
    LowSplit(bits, 8, n);
    Regroup(OfBytes(out), Low(b, 8), Low(bits, n), Low(bits, n + 8));
  }

  /** A group of `k` bits comes in under the ones held, in a word of `width` bits. */
  lemma TakeIn(bits: nat, v: nat, k: nat, n: nat, width: nat)
    requires Cut(v, k) == v && n + k <= width
    ensures Low(Cut(Shl(bits, k) + v, width), n + k) == Low(bits, n) + Low(v, k)
  {
    LowOfCut(Shl(bits, k) + v, width, n + k);
    LowOfSum(bits, v, k, n);
  }

  lemma {:induction false} LowOfSum(bits: nat, v: nat, k: nat, n: nat)
    requires Cut(v, k) == v
    ensures Low(Shl(bits, k) + v, n + k) == Low(bits, n) + Low(v, k)
  {
    if k > 0 {
      CutTwice(v, k);
      LowOfSum(bits, v / 2, k - 1, n);
      assert (Shl(bits, k) + v) / 2 == Shl(bits, k - 1) + v / 2 && (Shl(bits, k) + v) % 2 == v % 2;
      assert Low(Shl(bits, k) + v, n + k) == Low(bits, n) + Low(v / 2, k - 1) + [v % 2 == 1];
    }
  }

  lemma CutTwice(v: nat, k: nat)
    requires k > 0 && Cut(v, k) == v
    ensures Cut(v / 2, k - 1) == v / 2
  {}

  /** The last character, its low bits zero. */
  lemma TakeLast(bits: nat, n: nat, out: seq<Digit>)
    requires 0 < n < 5
    ensures var d := Cut(Cut(Shl(bits, 5 - n), ENCODER_WORD), 5);
            d < 32 && OfDigits(out + [d]) == OfDigits(out) + Low(bits, n) + Zeros(5 - n)
  {
    var x := Shl(bits, 5 - n);
    var d := Cut(Cut(x, ENCODER_WORD), 5);
    CutByte(Cut(x, ENCODER_WORD));
    OfDigitsOne(out, d);
    LowOfCut(Cut(x, ENCODER_WORD), 5, 5);
    LowOfCut(x, 64, 5);
    LowOfShl(bits, 5 - n, n);
    Regroup(OfDigits(out), Low(bits, n), Zeros(5 - n), Low(d, 5));
  }

  // ---- Text ---------------------------------------------------------------------------------------

  function ToChar(d: Digit): char {
    if d < 26 then 'a' + d as char else '2' + (d - 26) as char
  }

  predicate InAlphabet(c: char) { 'a' <= c <= 'z' || '2' <= c <= '7' }

  function DigitOf(c: char): Digit
    requires InAlphabet(c)
  {
    if 'a' <= c <= 'z' then (c - 'a') as int else (c - '2') as int + 26
  }

  function Text(s: seq<Digit>): (t: string)
    ensures |t| == |s| && forall i | 0 <= i < |t| :: InAlphabet(t[i]) && DigitOf(t[i]) == s[i]
  {
    seq(|s|, i requires 0 <= i < |s| => ToChar(s[i]))
  }

  predicate Spelled(t: string) { forall i | 0 <= i < |t| :: InAlphabet(t[i]) }

  function DigitsOf(t: string): (s: seq<Digit>)
    requires Spelled(t)
    ensures |s| == |t| && forall i | 0 <= i < |t| :: s[i] == DigitOf(t[i])
  {
    seq(|t|, i requires 0 <= i < |t| => DigitOf(t[i]))
  }

  lemma TextOfDigits(t: string)
    requires Spelled(t)
    ensures Text(DigitsOf(t)) == t
  {
    forall i | 0 <= i < |t| ensures ToChar(DigitOf(t[i])) == t[i] {}
  }

  lemma DigitsOfText(s: seq<Digit>)
    ensures Spelled(Text(s)) && DigitsOf(Text(s)) == s
  {}

  function EncodeText(s: Bytes): string { Text(Encode(s)) }

  function DecodeText(t: string): Option<Bytes> {
    if Spelled(t) then Decode(DigitsOf(t)) else None
  }

  lemma TextRoundTrip(s: Bytes)
    ensures DecodeText(EncodeText(s)) == Some(s)
  {
    DigitsOfText(Encode(s));
    RoundTrip(s);
  }

  lemma TextOneSpelling(t: string, s: Bytes)
    requires DecodeText(t) == Some(s)
    ensures t == EncodeText(s) <==> 5 * |t| % 8 < 5
  {
    OneSpelling(DigitsOf(t), s);
    TextOfDigits(t);
    DigitsOfText(Encode(s));
  }

  /** One character too many: five bits, all zero, decode to nothing, which is also written as nothing. */
  lemma SpareCharacter()
    ensures DecodeText("a") == Some([]) && EncodeText([]) == ""
  {
    var ds := DigitsOf("a");
    assert ds == [0];
    LowZero(0, 5);
    assert Cut(0, 5) == 0 by { CutByte(0); }
    OfDigitsOne([], 0);
    assert [] + [0] == ds && OfDigits(ds) == OfDigits([]) + Low(0, 5);
    assert OfDigits(ds) == OfBytes([]) + Zeros(5);
    BitsDecode([], OfDigits(ds), 5);
  }

  /** Sends out characters while there are five bits to spare. */
  method Drain(held: nat, have: nat, sent: string, ghost digits: seq<Digit>) returns (n: nat, out: string,
                                                                                      ghost ds: seq<Digit>)
    requires sent == Text(digits)
    ensures n < 5 && out == Text(ds) && OfDigits(ds) + Low(held, n) == OfDigits(digits) + Low(held, have)
  {
    n, out, ds := have, sent, digits;
    while n >= 5
      invariant out == Text(ds) && OfDigits(ds) + Low(held, n) == OfDigits(digits) + Low(held, have)
    {
      n := n - 5;
      TakeFive(held, n, ds);
      out := out + [ToChar(Cut(Shr(held, n), 5))];
      ds := ds + [Cut(Shr(held, n), 5)];
    }
  }

  method EncodeBytes(bytes: Bytes) returns (out: string)
    ensures out == EncodeText(bytes)
  {
    var bits, n := 0, 0;
    ghost var ds: seq<Digit> := [];
    out := "";
    for i := 0 to |bytes|
      invariant n < 5 && out == Text(ds) && OfDigits(ds) + Low(bits, n) == OfBytes(bytes[..i])
    {
      assert bytes[..i + 1] == bytes[..i] + [bytes[i]];
      bits, n, out, ds := TakeByte(bytes[i], bits, n, out, ds, bytes[..i]);
    }
    assert bytes[..|bytes|] == bytes;
    out := Finish(bytes, bits, n, out, ds);
  }

  /** Eight bits come in, and the characters they complete go out. */
  method TakeByte(b: Byte, held: nat, have: nat, sent: string, ghost digits: seq<Digit>, ghost s: Bytes)
    returns (bits: nat, n: nat, out: string, ghost ds: seq<Digit>)
    requires have < 5 && sent == Text(digits) && OfDigits(digits) + Low(held, have) == OfBytes(s)
    ensures n < 5 && out == Text(ds) && OfDigits(ds) + Low(bits, n) == OfBytes(s + [b])
  {
    HoldByte(b, held, have, digits, s);
    bits := Cut(Shl(held, 8) + b, ENCODER_WORD);
    n, out, ds := Drain(bits, have + 8, sent, digits);
  }

  /** A group of `k` bits held under those held already. */
  lemma HoldGroup(front: Bits, whole: Bits, v: nat, k: nat, bits: nat, n: nat, width: nat)
    requires Cut(v, k) == v && n + k <= width && front + Low(bits, n) == whole
    ensures front + Low(Cut(Shl(bits, k) + v, width), n + k) == whole + Low(v, k)
  {
    TakeIn(bits, v, k, n, width);
    Regroup(front, Low(bits, n), Low(v, k), Low(Cut(Shl(bits, k) + v, width), n + k));
  }

  lemma HoldByte(b: Byte, bits: nat, n: nat, ds: seq<Digit>, s: Bytes)
    requires n < 5 && OfDigits(ds) + Low(bits, n) == OfBytes(s)
    ensures OfDigits(ds) + Low(Cut(Shl(bits, 8) + b, ENCODER_WORD), n + 8) == OfBytes(s + [b])
  {
    OfBytesOne(s, b);
    CutByte(b);
    HoldGroup(OfDigits(ds), OfBytes(s), b, 8, bits, n, ENCODER_WORD);
  }

  method Finish(ghost bytes: Bytes, bits: nat, n: nat, sent: string, ghost ds: seq<Digit>) returns (out: string)
    requires n < 5 && sent == Text(ds) && OfDigits(ds) + Low(bits, n) == OfBytes(bytes)
    ensures out == EncodeText(bytes)
  {
    if n == 0 {
      assert OfDigits(ds) == OfBytes(bytes) + Zeros(0);
      IsEncoding(bytes, ds, 0);
      return sent;
    }
    var d := Cut(Cut(Shl(bits, 5 - n), ENCODER_WORD), 5);
    TakeLast(bits, n, ds);
    IsEncoding(bytes, ds + [d], 5 - n);
    out := sent + [ToChar(d)];
  }

  method DecodeString(t: string) returns (r: Option<Bytes>)
    ensures r == DecodeText(t)
  {
    var bits, n, out: Bytes := 0, 0, [];
    ghost var ds: seq<Digit> := [];
    for i := 0 to |t|
      invariant n < 8 && Spelled(t[..i]) && ds == DigitsOf(t[..i]) && OfBytes(out) + Low(bits, n) == OfDigits(ds)
    {
      if !InAlphabet(t[i]) {
        return None;
      }
      DigitsOfOne(t, i);
      bits, n, out := TakeDigit(DigitOf(t[i]), bits, n, out, ds);
      ds := ds + [DigitOf(t[i])];
    }
    assert t[..|t|] == t;
    Decided(OfDigits(ds), out, bits, n);
    r := if n > 0 && Cut(bits, n) != 0 then None else Some(out);
  }

  /** Five bits come in, and a byte goes out if there is one. */
  method TakeDigit(value: Digit, held: nat, have: nat, sent: Bytes, ghost ds: seq<Digit>) returns (bits: nat, n: nat,
                                                                                                   out: Bytes)
    requires have < 8 && OfBytes(sent) + Low(held, have) == OfDigits(ds)
    ensures n < 8 && OfBytes(out) + Low(bits, n) == OfDigits(ds + [value])
  {
    HoldDigit(value, held, have, sent, ds);
    bits, n, out := Cut(Shl(held, 5) + value, DECODER_WORD), have + 5, sent;
    if n >= 8 {
      n := n - 8;
      TakeEight(bits, n, out);
      out := out + [Cut(Shr(bits, n), 8)];
    }
  }

  lemma DigitsOfOne(t: string, i: nat)
    requires i < |t| && Spelled(t[..i]) && InAlphabet(t[i])
    ensures Spelled(t[..i + 1]) && DigitsOf(t[..i + 1]) == DigitsOf(t[..i]) + [DigitOf(t[i])]
  {}

  lemma HoldDigit(v: Digit, bits: nat, n: nat, out: Bytes, ds: seq<Digit>)
    requires n < 8 && OfBytes(out) + Low(bits, n) == OfDigits(ds)
    ensures OfBytes(out) + Low(Cut(Shl(bits, 5) + v, DECODER_WORD), n + 5) == OfDigits(ds + [v])
  {
    OfDigitsOne(ds, v);
    CutByte(v);
    HoldGroup(OfBytes(out), OfDigits(ds), v, 5, bits, n, DECODER_WORD);
  }

  lemma {:induction false} LowZero(x: nat, n: nat)
    ensures Cut(x, n) == 0 <==> Low(x, n) == Zeros(n)
  {
    if n > 0 {
      LowZero(x / 2, n - 1);
      assert Zeros(n) == Zeros(n - 1) + [false];
      assert Low(x, n)[..n - 1] == Low(x / 2, n - 1);
      assert Low(x, n) == Zeros(n) ==> Low(x, n)[..n - 1] == Zeros(n - 1) && !Low(x, n)[n - 1];
    }
  }

  lemma BitsDoNotDecode(s: Bytes, b: Bits, left: Bits)
    requires b == OfBytes(s) + left && |left| < 8 && left != Zeros(|left|)
    ensures DecodeBits(b) == None
  {
    Halves(OfBytes(s), left, b);
  }

  /** What is left over decides. */
  lemma Decided(b: Bits, out: Bytes, bits: nat, n: nat)
    requires n < 8 && b == OfBytes(out) + Low(bits, n)
    ensures DecodeBits(b) == if Cut(bits, n) == 0 then Some(out) else None
    ensures Cut(bits, 0) == 0
  {
    LowZero(bits, n);
    if Cut(bits, n) == 0 { BitsDecode(out, b, n); } else { BitsDoNotDecode(out, b, Low(bits, n)); }
  }

  // ---- Character by character ----------------------------------------------------------------------

  /** The `j`-th bit of a string of bytes, the highest of each first, and zeros after the last. */
  function BitAt(s: Bytes, j: nat): nat {
    if j / 8 < |s| then s[j / 8] as int / [128, 64, 32, 16, 8, 4, 2, 1][j % 8] % 2 else 0
  }

  function Bit(b: bool): nat { if b then 1 else 0 }

  lemma HalfAndHalf(x: nat, w: nat)
    requires w in [2, 4, 8, 16, 32, 64, 128]
    ensures x / 2 / (w / 2) == x / w
  {}

  lemma {:induction false} LowAt(x: nat, n: nat, k: nat, w: nat)
    requires k < n <= 8 && w == [128, 64, 32, 16, 8, 4, 2, 1][8 - n + k]
    ensures Bit(Low(x, n)[k]) == x / w % 2
  {
    if k < n - 1 {
      HalfAndHalf(x, w);
      LowAt(x / 2, n - 1, k, w / 2);
    }
  }

  lemma {:induction false} BytesAt(s: Bytes, j: nat)
    requires j < 8 * |s|
    ensures OfBytes(s)[j] == Low(s[j / 8], 8)[j % 8]
  {
    if j < 8 * (|s| - 1) { BytesAt(s[..|s| - 1], j); }
  }

  lemma PaddedAt(s: Bytes, j: nat)
    requires j < |Padded(s)|
    ensures Bit(Padded(s)[j]) == BitAt(s, j)
  {
    if j < 8 * |s| {
      BytesAt(s, j);
      LowAt(s[j / 8], 8, j % 8, [128, 64, 32, 16, 8, 4, 2, 1][j % 8]);
    }
  }

  lemma FivesUnfold(b: Bits, init: Bits, last: Bits)
    requires |b| % 5 == 0 && b != [] && init == b[..|b| - 5] && last == b[|b| - 5..]
    ensures FromBits(last) < 32 && Fives(b) == Fives(init) + [FromBits(last)]
  {
    FromBitsFits(last);
  }

  lemma {:induction false} FivesAt(b: Bits, i: nat, five: Bits)
    requires |b| % 5 == 0 && i < |b| / 5 && five == b[5 * i..5 * i + 5]
    ensures Fives(b)[i] == FromBits(five)
  {
    var init, last := b[..|b| - 5], b[|b| - 5..];
    FivesUnfold(b, init, last);
    if i < |b| / 5 - 1 {
      assert five == init[5 * i..5 * i + 5];
      FivesAt(init, i, five);
    } else {
      assert five == last;
    }
  }

  lemma FiveBits(b: Bits)
    requires |b| == 5
    ensures FromBits(b) == 16 * Bit(b[0]) + 8 * Bit(b[1]) + 4 * Bit(b[2]) + 2 * Bit(b[3]) + Bit(b[4])
  {
    assert b[..4][..3] == b[..3] && b[..3][..2] == b[..2] && b[..2][..1] == b[..1] && b[..1][..0] == [];
    assert FromBits(b[..1]) == Bit(b[0]);
    assert FromBits(b[..2]) == 2 * Bit(b[0]) + Bit(b[1]);
    assert FromBits(b[..3]) == 4 * Bit(b[0]) + 2 * Bit(b[1]) + Bit(b[2]);
  }

  lemma DigitAt(s: Bytes, i: nat)
    requires i < |Encode(s)|
    ensures Encode(s)[i] == 16 * BitAt(s, 5 * i) + 8 * BitAt(s, 5 * i + 1) + 4 * BitAt(s, 5 * i + 2)
                            + 2 * BitAt(s, 5 * i + 3) + BitAt(s, 5 * i + 4)
  {
    var b := Padded(s);
    FivesAt(b, i, b[5 * i..5 * i + 5]);
    FiveBits(b[5 * i..5 * i + 5]);
    FiveOf(s, i);
  }

  /** Each character stands for the next five bits, the highest first, in the alphabet of RFC 4648 lowered. */
  lemma EncodedAt(s: Bytes, i: nat, digit: nat)
    requires i < |EncodeText(s)|
    requires digit == 16 * BitAt(s, 5 * i) + 8 * BitAt(s, 5 * i + 1) + 4 * BitAt(s, 5 * i + 2)
                      + 2 * BitAt(s, 5 * i + 3) + BitAt(s, 5 * i + 4)
    ensures digit < 32 && EncodeText(s)[i] == "abcdefghijklmnopqrstuvwxyz234567"[digit]
    ensures |EncodeText(s)| == (8 * |s| + 4) / 5
  {
    DigitAt(s, i);
    Alphabet(digit);
  }

  lemma FiveOf(s: Bytes, i: nat)
    requires 5 * i + 4 < |Padded(s)|
    ensures var b := Padded(s);
            && Bit(b[5 * i]) == BitAt(s, 5 * i) && Bit(b[5 * i + 1]) == BitAt(s, 5 * i + 1)
            && Bit(b[5 * i + 2]) == BitAt(s, 5 * i + 2) && Bit(b[5 * i + 3]) == BitAt(s, 5 * i + 3)
            && Bit(b[5 * i + 4]) == BitAt(s, 5 * i + 4)
  {
    PaddedAt(s, 5 * i);
    PaddedAt(s, 5 * i + 1);
    PaddedAt(s, 5 * i + 2);
    PaddedAt(s, 5 * i + 3);
    PaddedAt(s, 5 * i + 4);
  }

  lemma Alphabet(d: Digit)
    ensures ToChar(d) == "abcdefghijklmnopqrstuvwxyz234567"[d]
  {}
}
