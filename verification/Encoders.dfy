/** The two hand-written encoders of RFC 4648: `base32_encode`
    (crates/open-web-server-gateway/src/two_factor.rs) and `base64url_encode`
    (crates/open-web-server-gateway/src/acme.rs). Bytes and texts are read as big-endian numbers. */
module Encoders {
  import opened Arithmetic

  type Octet = x: int | 0 <= x < 256

  datatype Code = Base32 | Base64Url

  const UPPER: string := "ABCDEFGHIJKLMNOPQRSTUVWXYZ"
  const LOWER: string := "abcdefghijklmnopqrstuvwxyz"
  const DIGITS: string := "0123456789"
  const BASE32_ALPHABET: string := UPPER + "234567"
  const BASE64URL_ALPHABET: string := UPPER + LOWER + DIGITS + "-_"

  const WORD: nat := 0x1_0000_0000

  function Alphabet(code: Code): string {
    if code == Base32 then BASE32_ALPHABET else BASE64URL_ALPHABET
  }

  /** Bits a symbol. */
  function Width(code: Code): nat {
    if code == Base32 then 5 else 6
  }

  function Base(code: Code): nat {
    if code == Base32 then 32 else 64
  }

  /** The value of a symbol, or -1 for a character outside the alphabet. */
  function SymbolValue(code: Code, c: char): int {
    if 'A' <= c <= 'Z' then c as int - 'A' as int
    else if code == Base32 then (if '2' <= c <= '7' then c as int - '2' as int + 26 else -1)
    else if 'a' <= c <= 'z' then c as int - 'a' as int + 26
    else if '0' <= c <= '9' then c as int - '0' as int + 52
    else if c == '-' then 62
    else if c == '_' then 63
    else -1
  }

  /** The number that the octets write in base 256. */
  function Value(data: seq<Octet>): nat
    decreases |data|
  {
    if data == [] then 0 else Value(data[..|data| - 1]) * 256 + data[|data| - 1]
  }

  /** The number that a text writes in the base of its code. */
  function TextValue(code: Code, s: string): int
    decreases |s|
  {
    if s == "" then 0 else TextValue(code, s[..|s| - 1]) * Base(code) + SymbolValue(code, s[|s| - 1])
  }

  predicate InAlphabet(code: Code, s: string)
    decreases |s|
  {
    s == "" || (InAlphabet(code, s[..|s| - 1]) && SymbolValue(code, s[|s| - 1]) >= 0)
  }

  lemma AppendSymbol(code: Code, s: string, c: char)
    ensures TextValue(code, s + [c]) == TextValue(code, s) * Base(code) + SymbolValue(code, c)
    ensures InAlphabet(code, s + [c]) <==> InAlphabet(code, s) && SymbolValue(code, c) >= 0
  {
    assert (s + [c])[..|s|] == s;
  }

  lemma AppendOctet(data: seq<Octet>, i: nat)
    requires i < |data|
    ensures Value(data[..i + 1]) == Value(data[..i]) * 256 + data[i]
  {
    assert data[..i + 1] == data[..i] + [data[i]];
    assert (data[..i] + [data[i]])[..i] == data[..i];
  }

  lemma Whole(data: seq<Octet>, i: nat)
    requires i == |data|
    ensures data[..i] == data
  {
  }

  // ---------------------------------------------------------------- the decoder

  /** The last `n` octets of a number. */
  function OctetsOf(v: int, n: nat): seq<Octet>
    decreases n
  {
    if n == 0 then [] else OctetsOf(v / 256, n - 1) + [v % 256]
  }

  /** Unpadded decoding: the text is one long bit string, cut into octets from the left, and the
      bits left over are dropped. */
  function Decode(code: Code, s: string): seq<Octet> {
    var bits := Width(code) * |s|;
    OctetsOf(TextValue(code, s) / Pow2(bits % 8), bits / 8)
  }

  lemma {:induction false} OctetsOfValue(data: seq<Octet>)
    ensures OctetsOf(Value(data), |data|) == data
    decreases |data|
  {
    if data != [] {
      var n := |data| - 1;
      OctetsOfValue(data[..n]);
      assert Value(data) / 256 == Value(data[..n]) && Value(data) % 256 == data[n];
      assert data == data[..n] + [data[n]];
    }
  }

  /** The text has as few symbols as can hold the data, all from the alphabet, and writes the
      number of the data shifted left by the padding bits, which are zero. */
  predicate Encodes(code: Code, s: string, data: seq<Octet>) {
    && InAlphabet(code, s)
    && 8 * |data| <= Width(code) * |s| < 8 * |data| + Width(code)
    && TextValue(code, s) == Value(data) * Pow2(Width(code) * |s| - 8 * |data|)
  }

  lemma EncodesWithPadding(code: Code, s: string, data: seq<Octet>, pad: nat)
    requires InAlphabet(code, s) && Width(code) * |s| == 8 * |data| + pad && pad < Width(code)
    requires TextValue(code, s) == Value(data) * Pow2(pad)
    ensures Encodes(code, s, data)
    ensures |s| == (8 * |data| + Width(code) - 1) / Width(code)
  {
    SymbolCount(|s|, |data|, code, pad);
  }

  lemma SymbolCount(n: nat, octets: nat, code: Code, pad: nat)
    requires Width(code) * n == 8 * octets + pad && pad < Width(code)
    ensures n == (8 * octets + Width(code) - 1) / Width(code)
  {
    if code == Base32 { assert n == (8 * octets + 4) / 5; } else { assert n == (8 * octets + 5) / 6; }
  }

  /** Decoding inverts encoding. */
  lemma EncodedDecodes(code: Code, s: string, data: seq<Octet>)
    requires Encodes(code, s, data)
    ensures Decode(code, s) == data
  {
    var pad := Width(code) * |s| - 8 * |data|;
    assert (Width(code) * |s|) % 8 == pad && (Width(code) * |s|) / 8 == |data|;
    DivUnique(Value(data) * Pow2(pad), Value(data), 0, Pow2(pad));
    OctetsOfValue(data);
  }

  // ---------------------------------------------------------------- the alphabets

  lemma SymbolAt32(d: nat)
    requires d < 32
    ensures |BASE32_ALPHABET| == 32
    ensures SymbolValue(Base32, BASE32_ALPHABET[d]) == d
  {
    if d < 26 { assert BASE32_ALPHABET[d] == UPPER[d]; } else { assert BASE32_ALPHABET[d] == "234567"[d - 26]; }
  }

  lemma SymbolAt64(d: nat)
    requires d < 64
    ensures |BASE64URL_ALPHABET| == 64
    ensures SymbolValue(Base64Url, BASE64URL_ALPHABET[d]) == d
  {
    if d < 26 { assert BASE64URL_ALPHABET[d] == UPPER[d]; }
    else if d < 52 { assert BASE64URL_ALPHABET[d] == LOWER[d - 26]; }
    else if d < 62 { assert BASE64URL_ALPHABET[d] == DIGITS[d - 52]; }
    else { assert BASE64URL_ALPHABET[d] == "-_"[d - 62]; }
  }

  lemma SymbolAt(code: Code, d: nat)
    requires d < Base(code)
    ensures |Alphabet(code)| == Base(code)
    ensures SymbolValue(code, Alphabet(code)[d]) == d
  {
    if code == Base32 { SymbolAt32(d); } else { SymbolAt64(d); }
  }

  /** The characters with a value are exactly those of the alphabet, each with its place in it. */
  lemma SymbolsOfTheAlphabet(code: Code, c: char)
    ensures SymbolValue(code, c) >= 0 <==> c in Alphabet(code)
    ensures SymbolValue(code, c) >= 0 ==> |Alphabet(code)| == Base(code) && c == Alphabet(code)[SymbolValue(code, c)]
  {
    if SymbolValue(code, c) >= 0 { SymbolAt(code, SymbolValue(code, c)); }
    SymbolAt(code, 0);
    if c in Alphabet(code) {
      var d :| 0 <= d < |Alphabet(code)| && Alphabet(code)[d] == c;
      SymbolAt(code, d);
    }
  }

  method Symbol(code: Code, d: nat) returns (c: char)
    requires d < Base(code)
    ensures SymbolValue(code, c) == d
  {
    SymbolAt(code, d);
    c := Alphabet(code)[d];
  }

  // ---------------------------------------------------------------- shifts of the accumulator

  /** The powers of two up to a byte. */
  lemma SmallPowers()
    ensures Pow2(0) == 1 && Pow2(1) == 2 && Pow2(2) == 4 && Pow2(3) == 8 && Pow2(4) == 16
    ensures Pow2(5) == 32 && Pow2(6) == 64 && Pow2(7) == 128 && Pow2(8) == 256 && Pow2(9) == 512
    ensures Pow2(10) == 1024 && Pow2(11) == 2048 && Pow2(12) == 4096
  {
    assert Pow2(4) == 16;
    assert Pow2(8) == 256;
  }

  /** `x >> k`. */
  function Shr(x: nat, k: nat): nat {
    if k == 0 then x else Shr(x / 2, k - 1)
  }

  /** `x << k` in 32 bits. */
  function Shl(x: nat, k: nat): nat
    decreases k, x
  {
    if k == 0 then x else Shl(x * 2 % WORD, k - 1)
  }

  /** `t` followed by the low `k` bits of `x`. */
  function Joined(t: nat, x: nat, k: nat): nat
    decreases k
  {
    if k == 0 then t else Joined(t, x / 2, k - 1) * 2 + x % 2
  }

  lemma {:induction false} ShrIsDivision(x: nat, k: nat)
    ensures Shr(x, k) == x / Pow2(k)
  {
    if k > 0 {
      ShrIsDivision(x / 2, k - 1);
      HalfQuotient(x, Pow2(k - 1));
    }
  }

  lemma {:induction false} JoinedIsSum(t: nat, x: nat, k: nat)
    ensures Joined(t, x, k) == t * Pow2(k) + x % Pow2(k)
    decreases k
  {
    if k > 0 {
      JoinedIsSum(t, x / 2, k - 1);
      HalfQuotient(x, Pow2(k - 1));
      Twice(t, Pow2(k - 1));
    }
  }

  lemma Twice(t: nat, p: nat)
    ensures t * (2 * p) == (t * p) * 2
  {
  }

  lemma DoubleProduct(x: nat, p: nat, c: nat, s: nat)
    requires x * 2 == c * WORD + s
    ensures x * (2 * p) == (c * p) * WORD + s * p
  {
    assert x * (2 * p) == (x * 2) * p;
  }

  lemma {:induction false} ShlIsProduct(x: nat, k: nat)
    requires x < WORD
    ensures Shl(x, k) == x * Pow2(k) % WORD
    decreases k
  {
    if k > 0 {
      ShlIsProduct(x * 2 % WORD, k - 1);
      var c, s, p := x * 2 / WORD, x * 2 % WORD, Pow2(k - 1);
      var d, t := s * p / WORD, s * p % WORD;
      assert x * 2 == c * WORD + s && s * p == d * WORD + t;
      DoubleProduct(x, p, c, s);
      DivUnique(x * Pow2(k), c * p + d, t, WORD);
    }
  }

  /** `(bits << 8) | byte` in 32 bits: the top bits are lost, the pending ones are not. */
  lemma ShiftIn(bits: nat, byte: Octet, p: nat, lost: nat)
    requires p > 0 && lost * (256 * p) == WORD
    ensures (bits * 256 % WORD + byte) % (256 * p) == (bits % p) * 256 + byte
  {
    var q, r, c := bits / p, bits % p, bits * 256 / WORD;
    assert bits == q * p + r;
    assert bits * 256 == c * WORD + bits * 256 % WORD;
    assert c * WORD == (c * lost) * (256 * p);
    assert (q - c * lost) * (256 * p) == q * p * 256 - c * WORD;
    DivUnique(bits * 256 % WORD + byte, q - c * lost, r * 256 + byte, 256 * p);
  }

  /** `(bits >> pending) & 0x1f` is the next digit. */
  lemma TakeOut(bits: nat, p: nat)
    requires p > 0
    ensures bits % (32 * p) == (bits / p % 32) * p + bits % p
  {
    var q, r := bits / p, bits % p;
    assert bits == (q / 32) * (32 * p) + ((q % 32) * p + r);
    MulMonotone(q % 32, 31, p);
    DivUnique(bits, q / 32, (q % 32) * p + r, 32 * p);
  }

  /** `(bits << (5 - pending)) & 0x1f` is the last digit. */
  lemma TopUp(bits: nat, p: nat, m: nat)
    requires p > 0 && p * m == 32
    ensures bits * m % WORD % 32 == (bits % p) * m < 32
  {
    var q, r := bits / p, bits % p;
    assert bits == q * p + r;
    assert bits * m == q * 32 + r * m;
    MulMonotone(r, p - 1, m);
    DivUnique(bits * m, q, r * m, 32);
    WordLow(bits * m);
  }

  lemma WordLow(x: nat)
    ensures x % WORD % 32 == x % 32
  {
    var c, s := x / WORD, x % WORD;
    DivUnique(x, c * 0x800_0000 + s / 32, s % 32, 32);
  }

  lemma Pow2Add(k: nat)
    ensures Pow2(k + 5) == 32 * Pow2(k)
    ensures Pow2(k + 8) == 256 * Pow2(k)
  {
    assert Pow2(k + 2) == 4 * Pow2(k);
    assert Pow2(k + 4) == 4 * Pow2(k + 2);
    assert Pow2(k + 6) == 4 * Pow2(k + 4);
  }

  function LostFactor(p: nat): (r: nat)
    requires p == 1 || p == 2 || p == 4 || p == 8 || p == 16
    ensures r * (256 * p) == WORD
  {
    if p == 1 then 0x100_0000 else if p == 2 then 0x80_0000 else if p == 4 then 0x40_0000
    else if p == 8 then 0x20_0000 else 0x10_0000
  }

  lemma Regroup(n: nat, d: nat, p: nat)
    ensures (n * 32 + d) * p == n * (32 * p) + d * p
  {
  }

  // ---------------------------------------------------------------- base 32

  /** `pending` bits of the number `v` are still in the accumulator; the others are in the text,
      which writes the number `t`. The bits above the pending ones are whatever the shifts left
      there. */
  predicate Pending(t: int, bits: nat, pending: nat, v: int) {
    t >= 0 && v == Joined(t, bits, pending)
  }

  /** `(bits << 8) | byte`: the low byte is clear after the shift, so the disjunction is a sum. */
  method PushOctet(ghost t: int, bits: nat, ghost pending: nat, ghost v: int, byte: Octet) returns (r: nat)
    requires Pending(t, bits, pending, v) && pending < 5 && bits < WORD
    ensures r < WORD && Pending(t, r, pending + 8, v * 256 + byte)
  {
    r := Shl(bits, 8) + byte;
    PushOctetKeeps(t, bits, pending, byte);
  }

  lemma PushOctetKeeps(t: nat, bits: nat, pending: nat, byte: Octet)
    requires pending < 5 && bits < WORD
    ensures Shl(bits, 8) + byte < WORD
    ensures Joined(t, Shl(bits, 8) + byte, pending + 8) == Joined(t, bits, pending) * 256 + byte
  {
    var p := Pow2(pending);
    SmallPowers();
    ShlIsProduct(bits, 8);
    ClearLowByte(bits);
    ShiftIn(bits, byte, p, LostFactor(p));
    Pow2Add(pending);
    JoinedIsSum(t, bits, pending);
    JoinedIsSum(t, Shl(bits, 8) + byte, pending + 8);
    Times256(t, p);
  }

  lemma Times256(t: nat, p: nat)
    ensures t * (256 * p) == (t * p) * 256
  {
  }

  lemma ClearLowByte(bits: nat)
    ensures bits * 256 % WORD <= WORD - 256
  {
    var c, s := bits * 256 / WORD, bits * 256 % WORD;
    DivUnique(s, bits - c * 0x100_0000, 0, 256);
  }

  /** `(bits >> pending) & 0x1f`. */
  method NextDigit(ghost t: int, bits: nat, pending: nat, ghost v: int) returns (d: nat)
    requires Pending(t, bits, pending + 5, v)
    ensures d < 32 && Pending(t * 32 + d, bits, pending, v)
  {
    d := Shr(bits, pending) % 32;
    NextDigitKeeps(t, bits, pending);
  }

  lemma NextDigitKeeps(t: nat, bits: nat, pending: nat)
    ensures Joined(t, bits, pending + 5) == Joined(t * 32 + Shr(bits, pending) % 32, bits, pending)
  {
    var p := Pow2(pending);
    Pow2Add(pending);
    ShrIsDivision(bits, pending);
    JoinedIsSum(t, bits, pending + 5);
    JoinedIsSum(t * 32 + bits / p % 32, bits, pending);
    TakeOut(bits, p);
    Regroup(t, bits / p % 32, p);
  }

  /** `(bits << (5 - pending)) & 0x1f`. */
  method LastDigit(ghost t: int, bits: nat, pending: nat, ghost v: int) returns (d: nat)
    requires Pending(t, bits, pending, v) && 0 < pending < 5 && bits < WORD
    ensures d < 32 && t * 32 + d == v * Pow2(5 - pending)
  {
    d := Shl(bits, 5 - pending) % 32;
    LastDigitCompletes(t, bits, pending);
  }

  lemma LastDigitCompletes(t: nat, bits: nat, pending: nat)
    requires 0 < pending < 5 && bits < WORD
    ensures t * 32 + Shl(bits, 5 - pending) % 32 == Joined(t, bits, pending) * Pow2(5 - pending)
  {
    var p, m := Pow2(pending), Pow2(5 - pending);
    PowersMakeADigit(pending);
    ShlIsProduct(bits, 5 - pending);
    JoinedIsSum(t, bits, pending);
    TopUp(bits, p, m);
    Distribute(t, p, bits % p, m);
  }

  lemma PowersMakeADigit(pending: nat)
    requires 0 < pending < 5
    ensures Pow2(pending) * Pow2(5 - pending) == 32
  {
    SmallPowers();
    if pending == 1 {} else if pending == 2 {} else if pending == 3 {} else {}
  }

  lemma Distribute(t: nat, p: nat, r: nat, m: nat)
    requires p * m == 32
    ensures (t * p + r) * m == t * 32 + r * m
  {
    assert (t * p) * m == t * (p * m);
  }

  /** The inner loop: whole digits leave the accumulator. */
  method EmitDigits(text: string, bits: nat, count: nat, ghost v: int) returns (output: string, bitCount: nat)
    requires InAlphabet(Base32, text) && Pending(TextValue(Base32, text), bits, count, v)
    ensures InAlphabet(Base32, output) && Pending(TextValue(Base32, output), bits, bitCount, v)
    ensures bitCount < 5 && 5 * |output| + bitCount == 5 * |text| + count
  {
    output, bitCount := text, count;
    while bitCount >= 5
      invariant 5 * |output| + bitCount == 5 * |text| + count
      invariant InAlphabet(Base32, output) && Pending(TextValue(Base32, output), bits, bitCount, v)
    {
      bitCount := bitCount - 5;
      var d := NextDigit(TextValue(Base32, output), bits, bitCount, v);
      var c := Symbol(Base32, d);
      AppendSymbol(Base32, output, c);
      output := output + [c];
    }
  }

  /** The bits that do not fill a digit, if any, make the last one. */
  method EmitRest(text: string, bits: nat, bitCount: nat, ghost data: seq<Octet>) returns (output: string)
    requires InAlphabet(Base32, text) && Pending(TextValue(Base32, text), bits, bitCount, Value(data))
    requires bits < WORD && bitCount < 5 && 5 * |text| + bitCount == 8 * |data|
    ensures Encodes(Base32, output, data) && |output| == (8 * |data| + 4) / 5
  {
    if bitCount == 0 {
      output := text;
      EncodesWithPadding(Base32, output, data, 0);
    } else {
      var d := LastDigit(TextValue(Base32, text), bits, bitCount, Value(data));
      var c := Symbol(Base32, d);
      AppendSymbol(Base32, text, c);
      output := text + [c];
      EncodesWithPadding(Base32, output, data, 5 - bitCount);
    }
  }

  /** `base32_encode`, with its accumulator of 32 bits. */
  method Base32Encode(data: seq<Octet>) returns (output: string)
    ensures |output| == (8 * |data| + 4) / 5
    ensures Encodes(Base32, output, data)
    ensures Decode(Base32, output) == data
  {
    output := "";
    var bits: int, bitCount: int, i: int := 0, 0, 0;
    ghost var v: int := 0;
    while i < |data|
      invariant 0 <= i <= |data| && 0 <= bitCount < 5 && 5 * |output| + bitCount == 8 * i
      invariant InAlphabet(Base32, output) && v == Value(data[..i])
      invariant 0 <= bits < WORD && Pending(TextValue(Base32, output), bits, bitCount, v)
    {
      bits := PushOctet(TextValue(Base32, output), bits, bitCount, v, data[i]);
      AppendOctet(data, i);
      v := v * 256 + data[i];
      output, bitCount := EmitDigits(output, bits, bitCount + 8, v);
      i := i + 1;
    }
    Whole(data, i);
    output := EmitRest(output, bits, bitCount, data);
    EncodedDecodes(Base32, output, data);
  }

  // ---------------------------------------------------------------- base 64 for URLs

  /** The digits of a chunk of one, two or three octets; missing octets count as zero. */
  lemma ChunkDigits(b0: Octet, b1: Octet, b2: Octet)
    ensures b0 / 4 * 64 + (b0 % 4 * 16 + b1 / 16) == b0 * 16 + b1 / 16
    ensures (b0 * 16 + b1 / 16) * 64 + (b1 % 16 * 4 + b2 / 64) == (b0 * 256 + b1) * 4 + b2 / 64
    ensures ((b0 * 256 + b1) * 4 + b2 / 64) * 64 + b2 % 64 == (b0 * 256 + b1) * 256 + b2
  {
  }

  method PutDigit(s: string, d: nat) returns (r: string)
    requires d < 64 && InAlphabet(Base64Url, s)
    ensures |r| == |s| + 1 && InAlphabet(Base64Url, r)
    ensures TextValue(Base64Url, r) == TextValue(Base64Url, s) * 64 + d
  {
    var c := Symbol(Base64Url, d);
    AppendSymbol(Base64Url, s, c);
    r := s + [c];
  }

  /** The numbers that two, three and four symbols write after the number `t`. */
  lemma ChunkValues(t: int, b0: Octet, b1: Octet, b2: Octet)
    ensures (t * 64 + b0 / 4) * 64 + (b0 % 4 * 16 + b1 / 16) == (t * 256 + b0) * 16 + b1 / 16
    ensures ((t * 256 + b0) * 16 + b1 / 16) * 64 + (b1 % 16 * 4 + b2 / 64) == ((t * 256 + b0) * 256 + b1) * 4 + b2 / 64
    ensures (((t * 256 + b0) * 256 + b1) * 4 + b2 / 64) * 64 + b2 % 64 == ((t * 256 + b0) * 256 + b1) * 256 + b2
  {
    ChunkDigits(b0, b1, b2);
  }

  /** The two to four symbols of one chunk, put behind `out`. */
  method AppendChunk(out: string, chunk: seq<Octet>) returns (r: string)
    requires 1 <= |chunk| <= 3 && InAlphabet(Base64Url, out)
    ensures |r| == |out| + |chunk| + 1
    ensures InAlphabet(Base64Url, r)
    ensures var v := TextValue(Base64Url, out) * 256 + chunk[0];
      TextValue(Base64Url, r) == if |chunk| == 1 then v * 16
                                 else if |chunk| == 2 then (v * 256 + chunk[1]) * 4
                                 else (v * 256 + chunk[1]) * 256 + chunk[2]
  {
    var b0 := chunk[0];
    var b1: Octet := if |chunk| > 1 then chunk[1] else 0;
    var b2: Octet := if |chunk| > 2 then chunk[2] else 0;
    ChunkValues(TextValue(Base64Url, out), b0, b1, b2);
    r := PutDigit(out, b0 / 4);
    r := PutDigit(r, b0 % 4 * 16 + b1 / 16);
    if |chunk| > 1 { r := PutDigit(r, b1 % 16 * 4 + b2 / 64); }
    if |chunk| > 2 { r := PutDigit(r, b2 % 64); }
  }

  /** `base64url_encode`. */
  method Base64UrlEncode(data: seq<Octet>) returns (out: string)
    ensures |out| == (4 * |data| + 2) / 3
    ensures Encodes(Base64Url, out, data)
    ensures Decode(Base64Url, out) == data
  {
    out := "";
    ghost var pad, scale := 0, 1;
    var i := 0;
    while i < |data|
      invariant 0 <= i <= |data| && 6 * |out| == 8 * i + pad
      invariant (pad, scale) == (0, 1) || (i == |data| && ((pad, scale) == (2, 4) || (pad, scale) == (4, 16)))
      invariant InAlphabet(Base64Url, out) && TextValue(Base64Url, out) == Value(data[..i]) * scale
    {
      var chunk := data[i..if i + 3 <= |data| then i + 3 else |data|];
      AppendOctet(data, i);
      if |chunk| > 1 { AppendOctet(data, i + 1); }
      if |chunk| > 2 { AppendOctet(data, i + 2); }
      out := AppendChunk(out, chunk);
      pad := if |chunk| == 1 then 4 else if |chunk| == 2 then 2 else 0;
      scale := if |chunk| == 1 then 16 else if |chunk| == 2 then 4 else 1;
      i := i + |chunk|;
    }
    Whole(data, i);
    SmallPowers();
    EncodesWithPadding(Base64Url, out, data, pad);
    EncodedDecodes(Base64Url, out, data);
  }
}
