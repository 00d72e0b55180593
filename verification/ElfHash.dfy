/** The symbol-name hash stored in every version requirement. */
module ElfHash {
  import opened Bytes

  const TWO4: int := 0x10
  const TWO20: int := 0x10_0000
  const TWO24: int := 0x100_0000
  const TWO28: int := 0x1000_0000
  const TWO64: int := 0x1_0000_0000_0000_0000

  type Nibble = x: int | 0 <= x < 16

  /** Exclusive or, bit by bit. */
  function Xor4(a: Nibble, b: Nibble): Nibble {
    (a + b) % 2 + 2 * ((a / 2 + b / 2) % 2) + 4 * ((a / 4 + b / 4) % 2) + 8 * ((a / 8 + b / 8) % 2)
  }

  function Xor8(a: Byte, b: Byte): Byte {
    Xor4(a / 16, b / 16) * 16 + Xor4(a % 16, b % 16)
  }

  /** Exclusive or of `h` with a value that only has bits in its lowest byte. */
  function XorLow(h: nat, b: Byte): int {
    h - h % 256 + Xor8(h % 256, b)
  }

  lemma XorLowKeepsHigh(h: nat, b: Byte)
    ensures XorLow(h, b) >= h - h % 256
  {
    hide Xor8;
  }

  /** `g = h & 0xf0000000; if g: h ^= g >> 24; h &= ~g`. The exclusive or never reaches bits 28 to 31,
      so clearing the bits of `g` is a subtraction. */
  function Fold(h: nat): nat {
    var top: Byte := h / TWO28 % TWO4;
    XorLowKeepsHigh(h, top * TWO4);
    var x := if top != 0 then XorLow(h, top * TWO4) else h;
    TopNibbleRemovable(h);
    x - top * TWO28
  }

  lemma TopNibbleRemovable(h: nat)
    ensures h / TWO28 % TWO4 * TWO28 <= h - h % 256
  {
    var q := h / 256;
    assert h == q * 256 + h % 256;
    assert h / TWO28 == q / (TWO28 / 256);
    assert q / (TWO28 / 256) * (TWO28 / 256) <= q;
  }

  /** One character of the script's loop, which masks every shift to 32 bits. */
  function Step(h: nat, c: nat): (r: nat) {
    Fold((h * TWO4 + c) % TWO32)
  }

  function HashFrom(h: nat, name: seq<nat>): nat
    decreases |name|
  {
    if name == [] then h else HashFrom(Step(h, name[0]), name[1..])
  }

  function DecodeByte(b: Byte): nat {
    if b < 0x80 then b else 0xFFFD
  }

  /** The characters that bytes.decode('ascii', errors='replace') yields. */
  function DecodeAscii(name: seq<Byte>): (r: seq<nat>)
    ensures |r| == |name|
  {
    seq(|name|, i requires 0 <= i < |name| => DecodeByte(name[i]))
  }

  /** The value the script stores for a version name. */
  function Hash(name: seq<Byte>): (h: nat)
    ensures h < TWO28
  {
    BelowTwo28(0, DecodeAscii(name));
    HashFrom(0, DecodeAscii(name))
  }

  method ElfHash(name: seq<nat>) returns (h: nat)
    ensures h == HashFrom(0, name)
    ensures h < TWO28
  {
    h := 0;
    for i := 0 to |name|
      invariant HashFrom(0, name) == HashFrom(h, name[i..])
      invariant h < TWO28
    {
      assert name[i..][1..] == name[i + 1..];
      FoldBound((h * TWO4 + name[i]) % TWO32);
      h := Step(h, name[i]);
    }
  }

  // ----- The reference: the hash function of the System V gABI ("Hash Table", chapter 5)

  /** One character of the gABI loop. `unsigned long` has `modulus` values and nothing is masked,
      so with 64 bits the bits above 31 pile up. */
  function GabiStep(modulus: nat, h: nat, c: Byte): nat
    requires modulus > 0
  {
    Fold((h * TWO4 + c) % modulus)
  }

  function GabiFrom(modulus: nat, h: nat, name: seq<Byte>): nat
    requires modulus > 0
    decreases |name|
  {
    if name == [] then h else GabiFrom(modulus, GabiStep(modulus, h, name[0]), name[1..])
  }

  /** The 32-bit word that a gABI implementation stores. */
  function GabiWord(modulus: nat, name: seq<Byte>): nat
    requires modulus > 0
  {
    GabiFrom(modulus, 0, name) % TWO32
  }

  // ----- Arithmetic of one step

  lemma FoldForm(h: nat)
    ensures var top := h / TWO28 % TWO4;
            Fold(h) == h - top * TWO28 - h % 256 + (if top == 0 then h % 256 else Xor8(h % 256, top * TWO4))
  {
  }

  lemma TopNibble(d: nat, r: nat)
    requires r < TWO32
    ensures (d * TWO32 + r) / TWO28 % TWO4 == r / TWO28
  {
    var t := r / TWO28;
    assert d * TWO32 + r == (d * TWO4 + t) * TWO28 + r % TWO28;
    assert (d * TWO32 + r) / TWO28 == d * TWO4 + t;
  }

  lemma ByteRemainder(k: nat, low: Byte)
    ensures (k * 256 + low) % 256 == low && (k * 256 + low) / 256 == k
  {
  }

  lemma LowByte(d: nat, r: nat)
    ensures (d * TWO32 + r) % 256 == r % 256
  {
    var k, low := d * TWO24 + r / 256, r % 256;
    assert d * TWO32 + r == k * 256 + low;
    ByteRemainder(k, low);
  }

  lemma RoomForLowByte(r: nat)
    requires r < TWO32
    ensures r - r / TWO28 * TWO28 - r % 256 + 255 < TWO28
  {
    var q := r / 256;
    assert r == q * 256 + r % 256;
    assert r / TWO28 == q / (TWO28 / 256);
  }

  lemma FoldBound(r: nat)
    requires r < TWO32
    ensures 0 <= Fold(r) < TWO28
  {
    TopNibble(0, r);
    FoldForm(r);
    RoomForLowByte(r);
    assert r % 256 <= 255;
  }

  lemma FoldKeepsHighBits(d: nat, r: nat)
    requires r < TWO32
    ensures Fold(d * TWO32 + r) == d * TWO32 + Fold(r)
  {
    TopNibble(d, r);
    TopNibble(0, r);
    LowByte(d, r);
    FoldForm(r);
    FoldForm(d * TWO32 + r);
  }

  lemma FoldThenTruncate(d: nat, r: nat)
    requires r < TWO32
    ensures Fold(d * TWO32 + r) % TWO32 == Fold(r)
  {
    hide Fold;
    FoldKeepsHighBits(d, r);
    FoldBound(r);
  }

  lemma ShiftThenTruncate(modulus: nat, k: nat, c: nat)
    requires modulus == TWO32 || modulus == TWO64
    ensures (k % TWO32 * TWO4 + c) % TWO32 == (k * TWO4 + c) % modulus % TWO32
  {
    var a, n := k / TWO32, k * TWO4 + c;
    var b, m := n / modulus, n % modulus;
    var d := m / TWO32;
    assert n == b * modulus + d * TWO32 + m % TWO32;
    assert k % TWO32 * TWO4 + c == (b * (modulus / TWO32) + d - a * TWO4) * TWO32 + m % TWO32;
  }

  lemma {:induction false} BelowTwo28(h: nat, name: seq<nat>)
    requires h < TWO28
    ensures HashFrom(h, name) < TWO28
    decreases |name|
  {
    if name != [] {
      FoldBound((h * TWO4 + name[0]) % TWO32);
      BelowTwo28(Step(h, name[0]), name[1..]);
    }
  }

  lemma StepIsTruncatedGabiStep(modulus: nat, k: nat, c: Byte)
    requires modulus == TWO32 || modulus == TWO64
    ensures GabiStep(modulus, k, c) % TWO32 == Step(k % TWO32, c)
  {
    var m := (k * TWO4 + c) % modulus;
    ShiftThenTruncate(modulus, k, c);
    FoldThenTruncate(m / TWO32, m % TWO32);
  }

  predicate Ascii(name: seq<Byte>) {
    forall i :: 0 <= i < |name| ==> name[i] < 0x80
  }

  lemma {:induction false} AgreesFrom(modulus: nat, k: nat, name: seq<Byte>)
    requires modulus == TWO32 || modulus == TWO64
    requires Ascii(name)
    ensures GabiFrom(modulus, k, name) % TWO32 == HashFrom(k % TWO32, DecodeAscii(name))
    decreases |name|
  {
    if name != [] {
      StepIsTruncatedGabiStep(modulus, k, name[0]);
      AgreesFrom(modulus, GabiStep(modulus, k, name[0]), name[1..]);
      assert DecodeAscii(name)[1..] == DecodeAscii(name[1..]);
    }
  }

  /** On ASCII names the script's hash is the word a gABI implementation stores, whether its
      `unsigned long` has 32 or 64 bits. */
  lemma HashIsGabiWord(modulus: nat, name: seq<Byte>)
    requires modulus == TWO32 || modulus == TWO64
    requires Ascii(name)
    ensures Hash(name) == GabiWord(modulus, name)
  {
    AgreesFrom(modulus, 0, name);
  }

  // ----- Names that are not ASCII: the script hashes U+FFFD in place of such a byte

  function LowPart(r: nat): Byte {
    if r / TWO28 == 0 then r % 256 else Xor8(r % 256, r / TWO28 % TWO4 * TWO4)
  }

  lemma FoldSplits(r: nat)
    requires r < TWO32
    ensures Fold(r) == r / 256 % TWO20 * 256 + LowPart(r)
  {
    TopNibble(0, r);
    FoldForm(r);
    assert r / TWO28 == r / 256 / TWO20;
  }

  lemma FoldKeepsMiddle(r: nat)
    requires r < TWO32
    ensures Fold(r) / 256 == r / 256 % TWO20
  {
    FoldSplits(r);
  }

  lemma FoldKeepsLowNibble(r: nat)
    requires r < TWO32
    ensures Fold(r) % TWO4 == r % TWO4
  {
    hide Xor8;
    FoldSplits(r);
    XorHighNibble(r % 256, r / TWO28 % TWO4);
    NibbleOfSum(r / 256, r % 256);
    NibbleOfSum(r / 256 % TWO20, LowPart(r));
  }

  lemma NibbleOfSum(q: nat, b: Byte)
    ensures (q * 256 + b) % TWO4 == b % TWO4
  {
    var k, r := b / TWO4, b % TWO4;
    assert b == k * TWO4 + r;
    Remainder(q * TWO4 + k, r);
  }

  lemma Remainder(k: nat, r: nat)
    requires r < TWO4
    ensures (k * TWO4 + r) % TWO4 == r
  {
  }

  lemma XorHighNibble(b: Byte, top: nat)
    requires top < TWO4
    ensures Xor8(b, top * TWO4) % TWO4 == b % TWO4
  {
    hide Xor4;
    Remainder(top, 0);
    XorZero(b % 16);
    Remainder(Xor4(b / 16, top), Xor4(b % 16, 0));
  }

  lemma XorZero(a: Nibble)
    ensures Xor4(a, 0) == a
  {
  }

  lemma XorParts(a: Nibble, low: Nibble, b: Nibble)
    ensures Xor8(a * 16 + low, b * 16) == Xor4(a, b) * 16 + low
  {
    hide Xor4;
    XorZero(low);
  }

  lemma StepBlock(h: nat, c: nat)
    ensures Step(h, c) / 256 == (h * TWO4 + c) / 256 % TWO20
  {
    hide Fold;
    FoldKeepsMiddle((h * TWO4 + c) % TWO32);
    BlockOf(h * TWO4 + c);
  }

  /** `x` is `d` blocks of 256 after `y`, counted modulo 2^20. */
  predicate FarApart(x: nat, y: nat, d: nat) {
    0xFE <= d <= 0x100 && x / 256 == (y / 256 + d) % TWO20
  }

  /** A byte above 0x7F and its replacement lead to hashes far apart from the same hash. */
  lemma StepTellsApart(h: nat, b: Byte) returns (d: nat)
    requires b >= 0x80
    ensures FarApart(Step(h, 0xFFFD), Step(h, b), d) && Step(h, 0xFFFD) != Step(h, b)
  {
    hide Step;
    StepBlock(h, 0xFFFD);
    StepBlock(h, b);
    var y := (h * TWO4 + b) / 256;
    d := BlocksApart(h * TWO4, b);
    SumOfRemainders(y, d);
    NotAMultiple(y, d);
  }

  lemma SumOfRemainders(y: nat, d: nat)
    ensures (y % TWO20 + d) % TWO20 == (y + d) % TWO20
  {
    var q, r := y / TWO20, y % TWO20;
    assert y + d == q * TWO20 + (r + d);
    ManyBlocks(q, r + d);
  }

  lemma ManyBlocks(q: nat, n: nat)
    ensures (q * TWO20 + n) % TWO20 == n % TWO20
  {
    var k, r := n / TWO20, n % TWO20;
    assert q * TWO20 + n == (q + k) * TWO20 + r;
  }

  /** The next character, the same for both, does not bring them together. */
  lemma StaysApart(x: nat, y: nat, d: nat, c: Byte)
    requires FarApart(x, y, d) && c < 0x80
    ensures Step(x, c) != Step(y, c)
  {
    hide Step;
    StepBlock(x, c);
    StepBlock(y, c);
    NextBlock(x, c);
    NextBlock(y, c);
    var m, n := (x * TWO4 + c) / 256, (y * TWO4 + c) / 256;
    var q := (y / 256 + d) / TWO20;
    assert x / 256 == y / 256 + d - q * TWO20;
    var e := m + q * TWO4 * TWO20 - n;
    assert 0 < e < TWO20;
    ManyBlocks(q * TWO4, m);
    NotAMultiple(n, e);
  }

  lemma NextBlock(x: nat, c: Byte)
    requires c < 0x80
    ensures 0 <= (x * TWO4 + c) / 256 - x / 256 * TWO4 <= TWO4
  {
    assert x * TWO4 + c == x / 256 * TWO4 * 256 + (x % 256 * TWO4 + c);
  }

  /** From then on the low nibbles agree, and no character brings different hashes together. */
  lemma StepInjective(x: nat, y: nat, c: nat)
    requires x < TWO28 && y < TWO28 && x % TWO4 == y % TWO4 && Step(x, c) == Step(y, c)
    ensures x == y
  {
    hide Fold, LowPart;
    var r, t := (x * TWO4 + c) % TWO32, (y * TWO4 + c) % TWO32;
    FoldSplits(r);
    FoldSplits(t);
    SameParts(r / 256 % TWO20, LowPart(r), t / 256 % TWO20, LowPart(t));
    SecondNibble(x, c);
    SecondNibble(y, c);
    SameSum(x, y, c / TWO4);
    LowByteOf(r);
    LowByteOf(t);
    SameTop(r, t);
    SameRemainder(x, y, c);
  }

  lemma SameParts(a: nat, b: Byte, p: nat, q: Byte)
    requires a * 256 + b == p * 256 + q
    ensures a == p && b == q
  {
  }

  lemma LowByteOf(r: nat)
    ensures r % 256 == r / TWO4 % TWO4 * TWO4 + r % TWO4
  {
  }

  lemma SecondNibble(x: nat, c: nat)
    ensures var r := (x * TWO4 + c) % TWO32;
            r / TWO4 % TWO4 == (x + c / TWO4) % TWO4 && r % TWO4 == c % TWO4
  {
    var n := x * TWO4 + c;
    var q, r := n / TWO32, n % TWO32;
    var k, low := x + c / TWO4, c % TWO4;
    assert n == k * TWO4 + low;
    Divides(k, low);
    var m, last := r / TWO4, r % TWO4;
    assert r == m * TWO4 + last;
    assert n == (q * TWO28 + m) * TWO4 + last;
    Divides(q * TWO28 + m, last);
    SameSum(0, q * TWO28, m);
  }

  lemma Divides(k: nat, low: nat)
    requires low < TWO4
    ensures (k * TWO4 + low) / TWO4 == k && (k * TWO4 + low) % TWO4 == low
  {
  }

  lemma SameSum(x: nat, y: nat, k: nat)
    requires x % TWO4 == y % TWO4
    ensures (x + k) % TWO4 == (y + k) % TWO4
  {
    var p, q, r := x / TWO4, y / TWO4, x % TWO4;
    assert x + k == p * TWO4 + (r + k) && y + k == q * TWO4 + (r + k);
  }

  lemma SameTop(r: nat, t: nat)
    requires r < TWO32 && t < TWO32 && r / 256 % TWO20 == t / 256 % TWO20 && LowPart(r) == LowPart(t)
    requires r % 256 == t % 256
    ensures r == t
  {
    hide LowPart, Xor4, Xor8;
    SameTopNibble(r, t);
    BlockAndTop(r);
    BlockAndTop(t);
  }

  lemma BlockAndTop(r: nat)
    ensures r == (r / TWO28 * TWO20 + r / 256 % TWO20) * 256 + r % 256
  {
    assert r / TWO28 == r / 256 / TWO20;
  }

  lemma SameTopNibble(r: nat, t: nat)
    requires r < TWO32 && t < TWO32 && LowPart(r) == LowPart(t) && r % 256 == t % 256
    ensures r / TWO28 == t / TWO28
  {
    hide LowPart, Xor4, Xor8;
    var low, p, q := r % 256, r / TWO28, t / TWO28;
    LowPartIsXor(r);
    LowPartIsXor(t);
    var a, b := low / 16, low % 16;
    assert low == a * 16 + b;
    XorParts(a, b, p);
    XorParts(a, b, q);
    XorCancels(a, p, q);
  }

  lemma LowPartIsXor(r: nat)
    requires r < TWO32
    ensures LowPart(r) == Xor8(r % 256, r / TWO28 * TWO4)
  {
    hide Xor4;
    XorZero(r % 256 / 16);
    XorZero(r % 256 % 16);
  }

  lemma XorCancels(a: Nibble, p: Nibble, q: Nibble)
    requires Xor4(a, p) == Xor4(a, q)
    ensures p == q
  {
    LowBits(a, p, q);
    HighBits(a, p, q);
    hide Xor4;
    BitsOf(p);
    BitsOf(q);
  }

  lemma LowBits(a: Nibble, p: Nibble, q: Nibble)
    requires Xor4(a, p) == Xor4(a, q)
    ensures p % 2 == q % 2 && p / 2 % 2 == q / 2 % 2
  {
    XorBits(a, p);
    XorBits(a, q);
    hide Xor4;
    BitCancels(a, p, q);
    BitCancels(a / 2, p / 2, q / 2);
  }

  lemma HighBits(a: Nibble, p: Nibble, q: Nibble)
    requires Xor4(a, p) == Xor4(a, q)
    ensures p / 4 % 2 == q / 4 % 2 && p / 8 % 2 == q / 8 % 2
  {
    XorBits(a, p);
    XorBits(a, q);
    hide Xor4;
    BitCancels(a / 4, p / 4, q / 4);
    BitCancels(a / 8, p / 8, q / 8);
  }

  lemma XorBits(a: Nibble, p: Nibble)
    ensures var x := Xor4(a, p);
            && x % 2 == (a + p) % 2 && x / 2 % 2 == (a / 2 + p / 2) % 2
            && x / 4 % 2 == (a / 4 + p / 4) % 2 && x / 8 % 2 == (a / 8 + p / 8) % 2
  {
    FromBits((a + p) % 2, (a / 2 + p / 2) % 2, (a / 4 + p / 4) % 2, (a / 8 + p / 8) % 2);
  }

  lemma FromBits(a: int, b: int, c: int, d: int)
    requires 0 <= a < 2 && 0 <= b < 2 && 0 <= c < 2 && 0 <= d < 2
    ensures var x := a + 2 * b + 4 * c + 8 * d; x % 2 == a && x / 2 % 2 == b && x / 4 % 2 == c && x / 8 % 2 == d
  {
  }

  lemma BitsOf(p: Nibble)
    ensures p == p % 2 + 2 * (p / 2 % 2) + 4 * (p / 4 % 2) + 8 * (p / 8 % 2)
  {
  }

  lemma BitCancels(a: nat, p: nat, q: nat)
    requires (a + p) % 2 == (a + q) % 2
    ensures p % 2 == q % 2
  {
  }

  lemma SameRemainder(x: nat, y: nat, c: nat)
    requires x < TWO28 && y < TWO28 && (x * TWO4 + c) % TWO32 == (y * TWO4 + c) % TWO32
    ensures x == y
  {
  }

  /** Blocks of 256 are numbered modulo 2^20. */
  lemma BlockOf(n: nat)
    ensures n % TWO32 / 256 % TWO20 == n / 256 % TWO20
  {
    var q, r := n / TWO32, n % TWO32;
    assert n == (q * TWO24) * 256 + r;
    assert n / 256 == q * TWO24 + r / 256;
    assert n / 256 == q * TWO4 * TWO20 + r / 256;
  }

  lemma BlocksApart(n: nat, b: Byte) returns (d: nat)
    requires b >= 0x80
    ensures 0xFE <= d <= 0x100 && (n + 0xFFFD) / 256 == (n + b) / 256 + d
  {
    d := (n + 0xFFFD) / 256 - (n + b) / 256;
  }

  lemma NotAMultiple(y: nat, d: nat)
    requires 0 < d < TWO20
    ensures (y + d) % TWO20 != y % TWO20
  {
    var q, r := y / TWO20, y % TWO20;
    assert y == q * TWO20 + r;
    if r + d < TWO20 {
      assert y + d == q * TWO20 + (r + d);
    } else {
      assert y + d == (q + 1) * TWO20 + (r + d - TWO20);
    }
  }

  lemma StepLowNibble(h: nat, c: nat)
    ensures Step(h, c) % TWO4 == c % TWO4
  {
    hide Fold;
    var n := h * TWO4 + c;
    FoldKeepsLowNibble(n % TWO32);
    assert n % TWO32 % TWO4 == n % TWO4 == c % TWO4;
  }

  lemma {:induction false} HashAppend(h: nat, name: seq<nat>, c: nat)
    ensures HashFrom(h, name + [c]) == Step(HashFrom(h, name), c)
    decreases |name|
  {
    if name == [] {
      assert HashFrom(Step(h, c), [c][1..]) == Step(h, c);
      assert name + [c] == [c];
    } else {
      assert (name + [c])[1..] == name[1..] + [c];
      HashAppend(Step(h, name[0]), name[1..], c);
    }
  }

  lemma {:induction false} GabiAppend(modulus: nat, h: nat, name: seq<Byte>, c: Byte)
    requires modulus > 0
    ensures GabiFrom(modulus, h, name + [c]) == GabiStep(modulus, GabiFrom(modulus, h, name), c)
    decreases |name|
  {
    if name == [] {
      assert GabiFrom(modulus, GabiStep(modulus, h, c), [c][1..]) == GabiStep(modulus, h, c);
      assert name + [c] == [c];
    } else {
      assert (name + [c])[1..] == name[1..] + [c];
      GabiAppend(modulus, GabiStep(modulus, h, name[0]), name[1..], c);
    }
  }

  /** Different hashes with the same low nibble never meet again. */
  lemma {:induction false} NeverMeets(x: nat, y: nat, rest: seq<nat>)
    requires x < TWO28 && y < TWO28 && x % TWO4 == y % TWO4 && x != y
    ensures HashFrom(x, rest) != HashFrom(y, rest)
    decreases |rest|
  {
    hide Step;
    if rest != [] {
      var c := rest[0];
      if Step(x, c) == Step(y, c) {
        StepInjective(x, y, c);
      }
      StepLowNibble(x, c);
      StepLowNibble(y, c);
      StepBound(x, c);
      StepBound(y, c);
      NeverMeets(Step(x, c), Step(y, c), rest[1..]);
    }
  }

  lemma StepBound(h: nat, c: nat)
    ensures Step(h, c) < TWO28
  {
    hide Fold;
    FoldBound((h * TWO4 + c) % TWO32);
  }

  lemma RestKeepsApart(h: nat, b: Byte, rest: seq<Byte>)
    requires b >= 0x80 && Ascii(rest)
    ensures HashFrom(Step(h, 0xFFFD), DecodeAscii(rest)) != HashFrom(Step(h, b), DecodeAscii(rest))
  {
    hide Step;
    var x, y := Step(h, 0xFFFD), Step(h, b);
    var d := StepTellsApart(h, b);
    if rest != [] {
      var c := rest[0];
      assert DecodeAscii(rest)[0] == c && c < 0x80;
      StaysApart(x, y, d, c);
      StepLowNibble(x, c);
      StepLowNibble(y, c);
      StepBound(x, c);
      StepBound(y, c);
      NeverMeets(Step(x, c), Step(y, c), DecodeAscii(rest)[1..]);
    }
  }

  lemma {:induction false} HashConcat(h: nat, a: seq<nat>, b: seq<nat>)
    ensures HashFrom(h, a + b) == HashFrom(HashFrom(h, a), b)
    decreases |a|
  {
    if a == [] {
      assert a + b == b;
    } else {
      assert (a + b)[1..] == a[1..] + b;
      HashConcat(Step(h, a[0]), a[1..], b);
    }
  }

  lemma {:induction false} GabiConcat(modulus: nat, h: nat, a: seq<Byte>, b: seq<Byte>)
    requires modulus > 0
    ensures GabiFrom(modulus, h, a + b) == GabiFrom(modulus, GabiFrom(modulus, h, a), b)
    decreases |a|
  {
    if a == [] {
      assert a + b == b;
    } else {
      assert (a + b)[1..] == a[1..] + b;
      GabiConcat(modulus, GabiStep(modulus, h, a[0]), a[1..], b);
    }
  }

  /** A name with exactly one byte that is not ASCII never gets the gABI's hash, wherever the byte stands. */
  lemma OneNonAsciiByteHashesDifferently(modulus: nat, name: seq<Byte>, b: Byte, rest: seq<Byte>)
    requires modulus == TWO32 || modulus == TWO64
    requires Ascii(name) && b >= 0x80 && Ascii(rest)
    ensures Hash(name + [b] + rest) != GabiWord(modulus, name + [b] + rest)
  {
    hide Step, GabiStep, HashFrom, GabiFrom;
    var all := name + [b] + rest;
    assert DecodeAscii(all) == DecodeAscii(name) + [0xFFFD] + DecodeAscii(rest);
    HashConcat(0, DecodeAscii(name) + [0xFFFD], DecodeAscii(rest));
    HashAppend(0, DecodeAscii(name), 0xFFFD);
    GabiConcat(modulus, 0, name + [b], rest);
    GabiAppend(modulus, 0, name, b);
    var h, g := HashFrom(0, DecodeAscii(name)), GabiFrom(modulus, 0, name);
    AgreesFrom(modulus, 0, name);
    StepIsTruncatedGabiStep(modulus, g, b);
    AgreesFrom(modulus, GabiStep(modulus, g, b), rest);
    RestKeepsApart(h, b, rest);
  }

  /** Nor does one that ends in such a byte, whatever precedes it, unless its low nibble is that of U+FFFD. */
  lemma NonAsciiEndHashesDifferently(modulus: nat, name: seq<Byte>, b: Byte)
    requires modulus == TWO32 || modulus == TWO64
    requires b >= 0x80 && (Ascii(name) || b % TWO4 != 0xD)
    ensures Hash(name + [b]) != GabiWord(modulus, name + [b])
  {
    hide Step, GabiStep, HashFrom, GabiFrom;
    if Ascii(name) {
      assert name + [b] + [] == name + [b];
      OneNonAsciiByteHashesDifferently(modulus, name, b, []);
    } else {
      assert DecodeAscii(name + [b]) == DecodeAscii(name) + [0xFFFD];
      HashAppend(0, DecodeAscii(name), 0xFFFD);
      GabiAppend(modulus, 0, name, b);
      var h, g := HashFrom(0, DecodeAscii(name)), GabiFrom(modulus, 0, name);
      StepIsTruncatedGabiStep(modulus, g, b);
      StepLowNibble(h, 0xFFFD);
      StepLowNibble(g % TWO32, b);
    }
  }

  /** Whatever the name holds, one ASCII character after the last other byte settles whether the hashes agree. */
  lemma SettledByOneCharacter(modulus: nat, name: seq<Byte>, c: Byte, rest: seq<Byte>)
    requires modulus == TWO32 || modulus == TWO64
    requires c < 0x80 && Ascii(rest)
    ensures Hash(name + [c] + rest) == GabiWord(modulus, name + [c] + rest)
            <==> Hash(name + [c]) == GabiWord(modulus, name + [c])
  {
    hide Step, GabiStep, HashFrom, GabiFrom;
    assert DecodeAscii(name + [c]) == DecodeAscii(name) + [c];
    assert DecodeAscii(name + [c] + rest) == DecodeAscii(name + [c]) + DecodeAscii(rest);
    HashAppend(0, DecodeAscii(name), c);
    GabiAppend(modulus, 0, name, c);
    HashConcat(0, DecodeAscii(name + [c]), DecodeAscii(rest));
    GabiConcat(modulus, 0, name + [c], rest);
    var h, g := HashFrom(0, DecodeAscii(name)), GabiFrom(modulus, 0, name);
    StepIsTruncatedGabiStep(modulus, g, c);
    AgreesFrom(modulus, GabiStep(modulus, g, c), rest);
    var x, y := Step(h, c), Step(g % TWO32, c);
    if x != y {
      StepLowNibble(h, c);
      StepLowNibble(g % TWO32, c);
      StepBound(h, c);
      StepBound(g % TWO32, c);
      NeverMeets(x, y, DecodeAscii(rest));
    }
  }

  // ----- With two bytes that are not ASCII the hashes can agree

  /** Two of these are not ASCII, and yet both hashes agree. */
  const COLLIDING: seq<Byte> := [220, 88, 37, 66, 40, 35, 154, 105]

  lemma FoldOf(top: nat, middle: nat, low: Byte)
    requires top < TWO4 && middle < TWO20
    ensures var r := top * TWO28 + middle * 256 + low;
            Fold(r) == middle * 256 + (if top == 0 then low else Xor8(low, top * TWO4))
  {
    hide Xor8;
    var r := top * TWO28 + middle * 256 + low;
    assert r % 256 == low;
    assert r / 256 == top * TWO20 + middle;
    FoldSplits(r);
  }

  lemma StepOf(h: nat, c: nat, top: nat, middle: nat, low: Byte)
    requires top < TWO4 && middle < TWO20 && h * TWO4 + c == top * TWO28 + middle * 256 + low
    ensures var r := middle * 256 + (if top == 0 then low else Xor8(low, top * TWO4));
            Step(h, c) == r && (c < 256 ==> GabiStep(TWO64, h, c) == r)
  {
    hide Fold, Xor8;
    assert top * TWO28 + middle * 256 + low < TWO32;
    FoldOf(top, middle, low);
  }

  lemma SomeXors()
    ensures Xor8(0x92, 0x10) == 0x82
    ensures Xor8(0x39, 0x20) == 0x19
    ensures Xor8(0xca, 0xe0) == 0x2a
    ensures Xor8(0x9, 0x10) == 0x19
  {
    assert Xor4(9, 1) == 8;
    assert Xor4(3, 2) == 1;
    assert Xor4(12, 14) == 2;
    assert Xor4(0, 1) == 1;
    hide Xor4, Xor8;
    XorParts(9, 2, 1);
    XorParts(3, 9, 2);
    XorParts(12, 10, 14);
    XorParts(0, 9, 1);
  }

  lemma ScriptSteps()
    ensures Step(0x0, 0xfffd) == 0xfffd
    ensures Step(0xfffd, 0x58) == 0x100028
    ensures Step(0x100028, 0x25) == 0x10002a5
    ensures Step(0x10002a5, 0x42) == 0x2a82
    ensures Step(0x2a82, 0x28) == 0x2a848
    ensures Step(0x2a848, 0x23) == 0x2a84a3
    ensures Step(0x2a84a3, 0xfffd) == 0x2a94a2d
    ensures Step(0x2a94a2d, 0x69) == 0xa94a319
  {
    hide Step, GabiStep, Xor8;
    SomeXors();
    StepOf(0x0, 0xfffd, 0x0, 0xff, 0xfd);
    StepOf(0xfffd, 0x58, 0x0, 0x1000, 0x28);
    StepOf(0x100028, 0x25, 0x0, 0x10002, 0xa5);
    StepOf(0x10002a5, 0x42, 0x1, 0x2a, 0x92);
    StepOf(0x2a82, 0x28, 0x0, 0x2a8, 0x48);
    StepOf(0x2a848, 0x23, 0x0, 0x2a84, 0xa3);
    StepOf(0x2a84a3, 0xfffd, 0x0, 0x2a94a, 0x2d);
    StepOf(0x2a94a2d, 0x69, 0x2, 0xa94a3, 0x39);
  }

  lemma GabiSteps()
    ensures GabiStep(TWO64, 0x0, 0xdc) == 0xdc
    ensures GabiStep(TWO64, 0xdc, 0x58) == 0xe18
    ensures GabiStep(TWO64, 0xe18, 0x25) == 0xe1a5
    ensures GabiStep(TWO64, 0xe1a5, 0x42) == 0xe1a92
    ensures GabiStep(TWO64, 0xe1a92, 0x28) == 0xe1a948
    ensures GabiStep(TWO64, 0xe1a948, 0x23) == 0xe1a94a3
    ensures GabiStep(TWO64, 0xe1a94a3, 0x9a) == 0x1a94a2a
    ensures GabiStep(TWO64, 0x1a94a2a, 0x69) == 0xa94a319
  {
    hide Step, GabiStep, Xor8;
    SomeXors();
    StepOf(0x0, 0xdc, 0x0, 0x0, 0xdc);
    StepOf(0xdc, 0x58, 0x0, 0xe, 0x18);
    StepOf(0xe18, 0x25, 0x0, 0xe1, 0xa5);
    StepOf(0xe1a5, 0x42, 0x0, 0xe1a, 0x92);
    StepOf(0xe1a92, 0x28, 0x0, 0xe1a9, 0x48);
    StepOf(0xe1a948, 0x23, 0x0, 0xe1a94, 0xa3);
    StepOf(0xe1a94a3, 0x9a, 0xe, 0x1a94a, 0xca);
    StepOf(0x1a94a2a, 0x69, 0x1, 0xa94a3, 0x9);
  }

  ghost predicate HashesTo(name: seq<Byte>, h: nat, g: nat) {
    HashFrom(0, DecodeAscii(name)) == h && GabiFrom(TWO64, 0, name) == g
  }

  lemma OneMore(name: seq<Byte>, i: nat, h: nat, g: nat)
    requires i < |name| && HashesTo(name[..i], h, g)
    ensures HashesTo(name[..i + 1], Step(h, DecodeByte(name[i])), GabiStep(TWO64, g, name[i]))
  {
    hide HashFrom, GabiFrom;
    var init, b := name[..i], name[i];
    assert name[..i + 1] == init + [b];
    assert DecodeAscii(init + [b]) == DecodeAscii(init) + [DecodeByte(b)];
    HashAppend(0, DecodeAscii(init), DecodeByte(b));
    GabiAppend(TWO64, 0, init, b);
  }

  /** So ASCII is sufficient for the two hashes to agree, but not necessary. */
  lemma NonAsciiNameCanAgree()
    ensures !Ascii(COLLIDING) && Hash(COLLIDING) == GabiWord(TWO64, COLLIDING)
  {
    hide Step, GabiStep;
    ScriptSteps();
    GabiSteps();
    assert COLLIDING[0] == 220;
    assert HashesTo(COLLIDING[..0], 0, 0);
    hide HashesTo;
    OneMore(COLLIDING, 0, 0x0, 0x0);
    OneMore(COLLIDING, 1, 0xfffd, 0xdc);
    OneMore(COLLIDING, 2, 0x100028, 0xe18);
    OneMore(COLLIDING, 3, 0x10002a5, 0xe1a5);
    OneMore(COLLIDING, 4, 0x2a82, 0xe1a92);
    OneMore(COLLIDING, 5, 0x2a848, 0xe1a948);
    OneMore(COLLIDING, 6, 0x2a84a3, 0xe1a94a3);
    OneMore(COLLIDING, 7, 0x2a94a2d, 0x1a94a2a);
    assert COLLIDING[..8] == COLLIDING;
    assert HashesTo(COLLIDING, 0xa94a319, 0xa94a319);
    HashesMean(COLLIDING, 0xa94a319, 0xa94a319);
  }

  lemma HashesMean(name: seq<Byte>, h: nat, g: nat)
    requires HashesTo(name, h, g)
    ensures Hash(name) == h && GabiWord(TWO64, name) == g % TWO32
  {
  }

  // ----- One step in terms of bits, and known hashes

  /** `h ^= g >> 24; h &= ~g` for `g = h & 0xf0000000`: bits 28 to 31 go away, each of bits 4 to 7 is the sum
      modulo 2 of itself and the bit 24 places higher, and all others stay. */
  lemma FoldMeaning(r: nat)
    requires r < TWO32
    ensures var f, n, top := Fold(r), r / 16 % 16, r / TWO28;
            && f < TWO28 && f % 16 == r % 16 && f / 256 == r / 256 % TWO20
            && var m := f / 16 % 16;
               && m % 2 == (n + top) % 2 && m / 2 % 2 == (n / 2 + top / 2) % 2
               && m / 4 % 2 == (n / 4 + top / 4) % 2 && m / 8 % 2 == (n / 8 + top / 8) % 2
  {
    hide Fold, LowPart, Xor4;
    FoldBound(r);
    FoldKeepsLowNibble(r);
    FoldKeepsMiddle(r);
    var n, top := r / 16 % 16, r / TWO28;
    FoldSplits(r);
    LowPartIsXor(r);
    LowByteOf(r);
    XorParts(n, r % 16, top);
    hide Xor8;
    SecondNibbleOf(r / 256 % TWO20, Xor4(n, top), r % 16);
    XorBits(n, top);
  }

  lemma SecondNibbleOf(a: nat, b: Nibble, c: Nibble)
    ensures (a * 256 + (b * 16 + c)) / 16 % 16 == b
  {
    assert a * 256 + (b * 16 + c) == (a * 16 + b) * 16 + c;
  }

  /** The bytes of an ASCII text. */
  function Chars(text: string): (b: seq<Byte>)
    requires forall i :: 0 <= i < |text| ==> text[i] < '\U{80}'
    ensures |b| == |text| && Ascii(b) && forall i :: 0 <= i < |text| ==> b[i] == text[i] as int
  {
    seq(|text|, i requires 0 <= i < |text| => text[i] as int)
  }

  lemma HashOneMore(name: seq<Byte>, i: nat, h: nat)
    requires i < |name| && name[i] < 0x80 && HashFrom(0, DecodeAscii(name[..i])) == h
    ensures HashFrom(0, DecodeAscii(name[..i + 1])) == Step(h, name[i])
  {
    hide HashFrom;
    assert name[..i + 1] == name[..i] + [name[i]];
    assert DecodeAscii(name[..i + 1]) == DecodeAscii(name[..i]) + [name[i] as int];
    HashAppend(0, DecodeAscii(name[..i]), name[i]);
  }

  lemma NextHash(name: seq<Byte>, i: nat, h: nat, top: nat, middle: nat, low: Byte)
    requires i < |name| && name[i] < 0x80 && HashFrom(0, DecodeAscii(name[..i])) == h
    requires top < TWO4 && middle < TWO20 && h * TWO4 + name[i] == top * TWO28 + middle * 256 + low
    ensures HashFrom(0, DecodeAscii(name[..i + 1])) == middle * 256 + (if top == 0 then low else Xor8(low, top * TWO4))
  {
    hide Step, HashFrom, Xor8;
    HashOneMore(name, i, h);
    StepOf(h, name[i], top, middle, low);
  }

  lemma VersionXors()
    ensures Xor8(0x15, 0x60) == 0x75
    ensures Xor8(0x22, 0x40) == 0x62
    ensures Xor8(0x47, 0xd0) == 0x97
    ensures Xor8(0x4e, 0xc0) == 0x8e
    ensures Xor8(0x4e, 0xd0) == 0x9e
  {
    assert Xor4(1, 6) == 7;
    assert Xor4(2, 4) == 6;
    assert Xor4(4, 13) == 9;
    assert Xor4(4, 12) == 8;
    assert Xor4(4, 13) == 9;
    hide Xor4, Xor8;
    XorParts(1, 5, 6);
    XorParts(2, 2, 4);
    XorParts(4, 7, 13);
    XorParts(4, 14, 12);
    XorParts(4, 14, 13);
  }

  lemma Nothing(name: seq<Byte>)
    ensures HashFrom(0, DecodeAscii(name[..0])) == 0
  {
  }

  lemma HashIs(name: seq<Byte>)
    ensures Hash(name) == HashFrom(0, DecodeAscii(name))
  {
  }

  /** The well-known hash of the new version. */
  lemma HashOfNewVersion()
    ensures Hash(Chars("GLIBC_2.17")) == 0x06969197
  {
    hide Hash, HashFrom, Xor8, DecodeAscii;
    var name := Chars("GLIBC_2.17");
    VersionXors();
    Nothing(name);
    NextHash(name, 0, 0x0, 0x0, 0x0, 0x47);
    NextHash(name, 1, 0x47, 0x0, 0x4, 0xbc);
    NextHash(name, 2, 0x4bc, 0x0, 0x4c, 0x9);
    NextHash(name, 3, 0x4c09, 0x0, 0x4c0, 0xd2);
    NextHash(name, 4, 0x4c0d2, 0x0, 0x4c0d, 0x63);
    NextHash(name, 5, 0x4c0d63, 0x0, 0x4c0d6, 0x8f);
    NextHash(name, 6, 0x4c0d68f, 0x4, 0xc0d69, 0x22);
    NextHash(name, 7, 0xc0d6962, 0xc, 0xd696, 0x4e);
    NextHash(name, 8, 0xd6968e, 0x0, 0xd6969, 0x11);
    NextHash(name, 9, 0xd696911, 0xd, 0x69691, 0x47);
    assert name[..10] == name;
    HashIs(name);
  }

  /** And that of another one. */
  lemma HashOfOtherVersion()
    ensures Hash(Chars("GLIBC_2.2.5")) == 0x09691a75
  {
    hide Hash, HashFrom, Xor8, DecodeAscii;
    var name := Chars("GLIBC_2.2.5");
    VersionXors();
    Nothing(name);
    NextHash(name, 0, 0x0, 0x0, 0x0, 0x47);
    NextHash(name, 1, 0x47, 0x0, 0x4, 0xbc);
    NextHash(name, 2, 0x4bc, 0x0, 0x4c, 0x9);
    NextHash(name, 3, 0x4c09, 0x0, 0x4c0, 0xd2);
    NextHash(name, 4, 0x4c0d2, 0x0, 0x4c0d, 0x63);
    NextHash(name, 5, 0x4c0d63, 0x0, 0x4c0d6, 0x8f);
    NextHash(name, 6, 0x4c0d68f, 0x4, 0xc0d69, 0x22);
    NextHash(name, 7, 0xc0d6962, 0xc, 0xd696, 0x4e);
    NextHash(name, 8, 0xd6968e, 0x0, 0xd6969, 0x12);
    NextHash(name, 9, 0xd696912, 0xd, 0x69691, 0x4e);
    NextHash(name, 10, 0x696919e, 0x6, 0x9691a, 0x15);
    assert name[..11] == name;
    HashIs(name);
  }
}
