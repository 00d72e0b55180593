/** Bytes, little-endian fields and NUL-terminated strings inside an image. */
module Bytes {
  import opened Wrappers

  type Byte = x: int | 0 <= x < 256

  const TWO16: int := 0x1_0000
  const TWO32: int := 0x1_0000_0000

  /** The unsigned little-endian number that `b` spells. */
  function Unsigned(b: seq<Byte>): nat {
    if b == [] then 0 else b[0] as int + 0x100 * Unsigned(b[1..])
  }

  function U16(s: seq<Byte>, at: nat): nat
    requires at + 2 <= |s|
  {
    Unsigned(s[at..at + 2])
  }

  function U32(s: seq<Byte>, at: nat): nat
    requires at + 4 <= |s|
  {
    Unsigned(s[at..at + 4])
  }

  function U64(s: seq<Byte>, at: nat): nat
    requires at + 8 <= |s|
  {
    Unsigned(s[at..at + 8])
  }

  /** Little-endian, written out. */
  lemma LittleEndian(s: seq<Byte>, at: nat)
    ensures at + 2 <= |s| ==> U16(s, at) == s[at] as int + 0x100 * s[at + 1] as int
    ensures at + 4 <= |s| ==>
              U32(s, at) == s[at] as int +
                            0x100 * (s[at + 1] as int + 0x100 * (s[at + 2] as int + 0x100 * s[at + 3] as int))
    ensures at + 8 <= |s| ==> U64(s, at) == U32(s, at) + 0x1_0000_0000 * U32(s, at + 4)
  {
    if at + 2 <= |s| {
      Digit(s, at, 2);
      Digit(s, at + 1, 1);
    }
    if at + 4 <= |s| {
      ThreeMore(s, at, 0);
    }
    if at + 8 <= |s| {
      ThreeMore(s, at, 4);
      ThreeMore(s, at + 4, 0);
    }
  }

  lemma Digit(s: seq<Byte>, at: nat, n: nat)
    requires 0 < n && at + n <= |s|
    ensures Unsigned(s[at..at + n]) == s[at] as int + 0x100 * Unsigned(s[at + 1..at + n])
    ensures Unsigned(s[at + n..at + n]) == 0
  {
    assert s[at..at + n][1..] == s[at + 1..at + n];
  }

  lemma ThreeMore(s: seq<Byte>, at: nat, n: nat)
    requires at + 4 + n <= |s|
    ensures var rest := Unsigned(s[at + 4..at + 4 + n]);
            Unsigned(s[at..at + 4 + n])
            == s[at] as int +
               0x100 * (s[at + 1] as int + 0x100 * (s[at + 2] as int + 0x100 * (s[at + 3] as int + 0x100 * rest)))
    ensures n == 0 ==> Unsigned(s[at + 4..at + 4 + n]) == 0
  {
    Digit(s, at, 4 + n);
    Digit(s, at + 1, 3 + n);
    Digit(s, at + 2, 2 + n);
    Digit(s, at + 3, 1 + n);
  }

  /** The four bytes that struct.pack_into('<I', ...) stores. */
  function LE32(v: nat): (b: seq<Byte>)
    requires v < TWO32
    ensures |b| == 4
  {
    [v % 0x100, v / 0x100 % 0x100, v / TWO16 % 0x100, v / 0x100_0000]
  }

  lemma PackUnpack(v: nat)
    requires v < TWO32
    ensures Unsigned(LE32(v)) == v
  {
    hide Unsigned;
    FourDigits(v % 0x100, v / 0x100 % 0x100, v / TWO16 % 0x100, v / 0x100_0000);
    DigitsOf(v);
  }

  lemma DigitsOf(v: nat)
    ensures v % 0x100 + 0x100 * (v / 0x100 % 0x100 + 0x100 * (v / TWO16 % 0x100 + 0x100 * (v / 0x100_0000))) == v
  {
    assert v / TWO16 == v / 0x100 / 0x100 && v / 0x100_0000 == v / TWO16 / 0x100;
  }

  lemma FourDigits(a: Byte, b: Byte, c: Byte, d: Byte)
    ensures Unsigned([a, b, c, d]) == a as int + 0x100 * (b as int + 0x100 * (c as int + 0x100 * d as int))
  {
    assert [a, b, c, d][1..] == [b, c, d] && [b, c, d][1..] == [c, d] && [c, d][1..] == [d];
    assert Unsigned([d]) == d as int;
    assert Unsigned([c, d]) == c as int + 0x100 * d as int;
  }

  lemma {:induction false} UnsignedInjective(a: seq<Byte>, b: seq<Byte>)
    requires |a| == |b| && Unsigned(a) == Unsigned(b)
    ensures a == b
  {
    if a != [] {
      DigitUnique(a[0], Unsigned(a[1..]), b[0], Unsigned(b[1..]));
      UnsignedInjective(a[1..], b[1..]);
      assert a == [a[0]] + a[1..] && b == [b[0]] + b[1..];
    }
  }

  lemma DigitUnique(a: Byte, m: nat, b: Byte, n: nat)
    requires a as int + 0x100 * m == b as int + 0x100 * n
    ensures a == b && m == n
  {
  }

  /** The image with the word `w` stored at `at`. */
  function Store(s: seq<Byte>, at: nat, w: seq<Byte>): (t: seq<Byte>)
    requires at + |w| <= |s|
    ensures |t| == |s|
    ensures forall k :: at <= k < at + |w| ==> t[k] == w[k - at]
    ensures forall k :: 0 <= k < |s| && !(at <= k < at + |w|) ==> t[k] == s[k]
  {
    s[..at] + w + s[at + |w|..]
  }

  lemma StoreLoad(s: seq<Byte>, at: nat, v: nat)
    requires at + 4 <= |s| && v < TWO32
    ensures U32(Store(s, at, LE32(v)), at) == v
  {
    PackUnpack(v);
    assert Store(s, at, LE32(v))[at..at + 4] == LE32(v);
  }

  /** Where the NUL-terminated string that starts at `i` ends; None when it runs off the image. */
  function NulAt(s: seq<Byte>, i: nat): (r: Option<nat>)
    ensures r.Some? ==> i <= r.value < |s|
    decreases |s| - i
  {
    if i >= |s| then None
    else if s[i] == 0 then Some(i)
    else NulAt(s, i + 1)
  }

  lemma {:induction false} NulAtIsFirst(s: seq<Byte>, i: nat)
    ensures var r := NulAt(s, i);
            var e := if r.Some? then r.value else |s|;
            (r.Some? ==> s[e] == 0) && forall k :: i <= k < e ==> s[k] != 0
    decreases |s| - i
  {
    if i < |s| && s[i] != 0 {
      NulAtIsFirst(s, i + 1);
    }
  }

  lemma {:induction false} NulAtIs(s: seq<Byte>, i: nat, e: nat)
    requires i <= e < |s| && s[e] == 0
    requires forall k :: i <= k < e ==> s[k] != 0
    ensures NulAt(s, i) == Some(e)
    decreases e - i
  {
    if i < e {
      NulAtIs(s, i + 1, e);
    }
  }

  lemma {:induction false} NoNul(s: seq<Byte>, i: nat)
    requires forall k :: i <= k < |s| ==> s[k] != 0
    ensures NulAt(s, i) == None
    decreases |s| - i
  {
    if i < |s| {
      NoNul(s, i + 1);
    }
  }

  /** The bytes of the string at `i`, without its terminator. */
  function CString(s: seq<Byte>, i: nat): (r: Option<seq<Byte>>)
    ensures r.Some? ==> i + |r.value| < |s|
  {
    var e := NulAt(s, i);
    if e.None? then None else Some(s[i..e.value])
  }

  /** The string at `i` is the text up to the first NUL. */
  lemma CStringIff(s: seq<Byte>, i: nat, text: seq<Byte>)
    ensures CString(s, i) == Some(text)
            <==> i + |text| < |s| && s[i..i + |text|] == text && s[i + |text|] == 0 && 0 !in text
  {
    NulAtIsFirst(s, i);
    if CString(s, i) == Some(text) {
      assert forall k :: 0 <= k < |text| ==> text[k] == s[i + k];
    }
    if i + |text| < |s| && s[i..i + |text|] == text && s[i + |text|] == 0 && 0 !in text {
      forall k | i <= k < i + |text|
        ensures s[k] != 0
      {
        assert s[k] == text[k - i];
      }
      NulAtIs(s, i, i + |text|);
    }
  }
}
