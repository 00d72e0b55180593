/** strlcpy and strlcat of the libc compatibility shim. */
module BoundedStrings {
  import opened Bytes

  /** strnlen: the offset of the first NUL among the first `size` bytes at `at`, or `size`. */
  function StrNLen(s: seq<Byte>, at: nat, size: nat): (n: nat)
    requires at + size <= |s|
    ensures n <= size
    ensures n < size ==> s[at + n] == 0
    ensures forall k :: at <= k < at + n ==> s[k] != 0
    decreases size
  {
    if size == 0 || s[at] == 0 then 0 else 1 + StrNLen(s, at + 1, size - 1)
  }

  /** The string a terminated buffer holds. */
  function Text(s: seq<Byte>): (t: seq<Byte>)
    ensures |t| <= |s|
  {
    s[..StrNLen(s, 0, |s|)]
  }

  predicate Terminated(s: seq<Byte>) {
    0 in s
  }

  function Take<T>(s: seq<T>, n: nat): seq<T> {
    if |s| <= n then s else s[..n]
  }

  lemma TextIs(s: seq<Byte>, n: nat)
    requires n < |s| && s[n] == 0 && forall k :: 0 <= k < n ==> s[k] != 0
    ensures Text(s) == s[..n] && Terminated(s)
  {
    hide StrNLen;
    var m := StrNLen(s, 0, |s|);
    assert m >= n;
  }

  lemma TextEnds(s: seq<Byte>)
    requires Terminated(s)
    ensures |Text(s)| < |s| && s[|Text(s)|] == 0 && 0 !in Text(s)
  {
    hide StrNLen;
    var k :| 0 <= k < |s| && s[k] == 0;
    assert StrNLen(s, 0, |s|) <= k;
  }

  /** The bytes strlcpy leaves in a buffer `s` when it writes at `at` with room for `size`. */
  function Copied(s: seq<Byte>, at: nat, text: seq<Byte>, size: nat): (t: seq<Byte>)
    requires at + size <= |s|
    ensures |t| == |s|
  {
    if size == 0 then s
    else var w := Take(text, size - 1); s[..at] + w + [0] + s[at + |w| + 1..]
  }

  method Strlcpy(dst: array<Byte>, at: nat, src: array<Byte>, size: nat) returns (r: nat)
    requires dst != src && Terminated(src[..]) && at + size <= dst.Length
    modifies dst
    ensures r == |Text(src[..])|
    ensures dst[..] == Copied(old(dst[..]), at, Text(src[..]), size)
  {
    hide StrNLen;
    ghost var text := src[..];
    TextEnds(text);
    var srclen := StrNLen(src[..], 0, src.Length);
    if size > 0 {
      var copylen := if srclen < size - 1 then srclen else size - 1;
      CopyBytes(dst, at, src, copylen);
      dst[at + copylen] := 0;
      assert Take(Text(text), size - 1) == text[..copylen];
    }
    assert src[..] == text;
    return srclen;
  }

  /** memcpy(dst + at, src, n) */
  method CopyBytes(dst: array<Byte>, at: nat, src: array<Byte>, n: nat)
    requires dst != src && n <= src.Length && at + n <= dst.Length
    modifies dst
    ensures dst[..] == old(dst[..])[..at] + src[..n] + old(dst[..])[at + n..]
  {
    forall k | 0 <= k < n {
      dst[at + k] := src[k];
    }
  }

  /** Whatever the buffer held: after strlcpy it holds the text cut to size - 1 bytes, nothing is cut exactly
      when the returned length is below size, bytes outside what was written stay, and size 0 writes nothing. */
  lemma StrlcpyMeaning(s: seq<Byte>, text: seq<Byte>, size: nat)
    requires size <= |s| && 0 !in text
    ensures var t := Copied(s, 0, text, size);
            && (size == 0 ==> t == s)
            && (size > 0 ==>
                  && Text(t) == (if |text| < size then text else text[..size - 1])
                  && (|text| < size <==> Text(t) == text)
                  && |Text(t)| < size && t[|Text(t)| + 1..] == s[|Text(t)| + 1..])
  {
    hide StrNLen, Text;
    if size > 0 {
      var w := Take(text, size - 1);
      TakeParts(text, size - 1);
      NewText(s, 0, w, size);
      assert s[..0] + w == w;
    }
  }

  /** What strlcat does to the bytes of its destination. */
  function Appended(s: seq<Byte>, text: seq<Byte>, size: nat): (t: seq<Byte>)
    requires size <= |s|
    ensures |t| == |s|
  {
    var n := StrNLen(s, 0, size);
    if n == size then s else Copied(s, n, text, size - n)
  }

  method Strlcat(dst: array<Byte>, src: array<Byte>, size: nat) returns (r: nat)
    requires dst != src && Terminated(src[..]) && size <= dst.Length
    modifies dst
    ensures dst[..] == Appended(old(dst[..]), Text(src[..]), size)
    ensures r == StrNLen(old(dst[..]), 0, size) + |Text(src[..])|
  {
    hide StrNLen, Copied;
    var dstlen := StrNLen(dst[..], 0, size);
    if dstlen == size {
      return size + |Text(src[..])|;
    }
    var copied := Strlcpy(dst, dstlen, src, size - dstlen);
    return dstlen + copied;
  }

  /** With a terminator within `size`: the new string is the concatenation cut to size - 1 bytes, the
      result is its uncut length and reaches `size` exactly when something was cut, and bytes past
      `size` are untouched. Without one, nothing changes. */
  lemma StrlcatMeaning(s: seq<Byte>, text: seq<Byte>, size: nat)
    requires size <= |s| && 0 !in text
    ensures var n, t := StrNLen(s, 0, size), Appended(s, text, size);
            && (n == size ==> t == s)
            && (n < size ==>
                  && Text(s) == s[..n]
                  && Terminated(t[..size])
                  && Text(t) == Take(Text(s) + text, size - 1)
                  && (n + |text| >= size <==> Text(t) != Text(s) + text)
                  && t[size..] == s[size..])
  {
    hide StrNLen, Text, Take, Terminated;
    var n := StrNLen(s, 0, size);
    if n < size {
      TextIs(s, n);
      var w := Take(text, size - n - 1);
      TakeParts(text, size - n - 1);
      NewText(s, n, w, size);
      CutConcat(s[..n], text, size - 1);
    }
  }

  lemma TakeParts<T>(text: seq<T>, n: nat)
    ensures |Take(text, n)| <= n && Take(text, n) <= text
    ensures forall x :: x in Take(text, n) ==> x in text
  {
  }

  lemma CutConcat<T>(a: seq<T>, b: seq<T>, n: nat)
    requires |a| <= n
    ensures Take(a + b, n) == a + Take(b, n - |a|)
    ensures |a| + |b| > n <==> Take(a + b, n) != a + b
  {
  }

  /** A buffer rewritten from `n` on with `w` and a terminator. */
  lemma NewText(s: seq<Byte>, n: nat, w: seq<Byte>, size: nat)
    requires n + |w| < size <= |s| && 0 !in w && forall k :: 0 <= k < n ==> s[k] != 0
    ensures var t := s[..n] + w + [0] + s[n + |w| + 1..];
            Text(t) == s[..n] + w && Terminated(t[..size]) && t[size..] == s[size..]
  {
    hide StrNLen, Text;
    var end, t := n + |w|, s[..n] + w + [0] + s[n + |w| + 1..];
    assert t[..end] == s[..n] + w && t[end] == 0;
    forall k | 0 <= k < end
      ensures t[k] != 0
    {
      assert t[k] == (s[..n] + w)[k];
      assert k >= n ==> t[k] == w[k - n];
    }
    TextIs(t, end);
    assert t[..size][end] == 0;
  }

  /** The string in a buffer after a chain of strlcat calls. */
  function CatChain(s: seq<Byte>, texts: seq<seq<Byte>>, size: nat): (t: seq<Byte>)
    requires size <= |s|
    ensures |t| == |s|
    decreases |texts|
  {
    if texts == [] then s else CatChain(Appended(s, texts[0], size), texts[1..], size)
  }

  function Concat(texts: seq<seq<Byte>>): seq<Byte> {
    if texts == [] then [] else texts[0] + Concat(texts[1..])
  }

  lemma TakeTwice<T>(a: seq<T>, b: seq<T>, n: nat)
    ensures Take(Take(a, n) + b, n) == Take(a + b, n)
  {
  }

  /** A chain of calls cuts the whole concatenation once, wherever the cut falls. */
  lemma {:induction false} ChainCutsOnce(s: seq<Byte>, texts: seq<seq<Byte>>, size: nat)
    requires 0 < size <= |s| && StrNLen(s, 0, size) < size && forall t :: t in texts ==> 0 !in t
    ensures Text(CatChain(s, texts, size)) == Take(Text(s) + Concat(texts), size - 1)
    ensures CatChain(s, texts, size)[size..] == s[size..]
    decreases |texts|
  {
    hide StrNLen, Appended, Text, Terminated;
    if texts == [] {
      TextWithin(s, size);
      assert Text(s) + Concat(texts) == Text(s);
    } else {
      var t, rest := Appended(s, texts[0], size), Concat(texts[1..]);
      StrlcatMeaning(s, texts[0], size);
      StillTerminated(t, size);
      ChainCutsOnce(t, texts[1..], size);
      hide Take;
      TakeTwice(Text(s) + texts[0], rest, size - 1);
      Associates(Text(s), texts[0], rest);
    }
  }

  lemma Associates<T>(a: seq<T>, b: seq<T>, c: seq<T>)
    ensures a + b + c == a + (b + c)
  {
  }

  lemma TextWithin(s: seq<Byte>, size: nat)
    requires size <= |s| && StrNLen(s, 0, size) < size
    ensures |Text(s)| <= size - 1
  {
    hide StrNLen;
    TextIs(s, StrNLen(s, 0, size));
  }

  lemma StillTerminated(s: seq<Byte>, size: nat)
    requires size <= |s| && Terminated(s[..size])
    ensures StrNLen(s, 0, size) < size
  {
    hide StrNLen;
    var k :| 0 <= k < size && s[..size][k] == 0;
    assert s[k] == 0;
  }
}
