/** The string replacement pass of patch-glibc-versions.py. */
module Retagging {
  import opened Wrappers
  import opened Bytes

  const WORD: int := 11

  /** `GLIBC_2.` followed by two digits and a NUL. */
  function Version(tens: Byte, units: Byte): (w: seq<Byte>)
    ensures |w| == WORD
  {
    [0x47, 0x4c, 0x49, 0x42, 0x43, 0x5f, 0x32, 0x2e, tens, units, 0]
  }

  /** REPLACEMENTS, left column, in the script's order. */
  const OLD_VERSIONS: seq<seq<Byte>> := [
    Version(0x33, 0x38), Version(0x33, 0x36), Version(0x33, 0x35),
    Version(0x33, 0x34), Version(0x33, 0x33), Version(0x33, 0x32)]

  /** REPLACEMENTS, right column: GLIBC_2.17. */
  const NEW_VERSION: seq<Byte> := Version(0x31, 0x37)

  /** `w` is the text followed by a NUL. */
  ghost predicate Spells(w: seq<Byte>, text: string) {
    |w| == |text| + 1 && w[|text|] == 0 && forall i :: 0 <= i < |text| ==> w[i] == text[i] as int
  }

  /** The table, by its characters. */
  lemma VersionsSpelled()
    ensures Spells(NEW_VERSION, "GLIBC_2.17") && |OLD_VERSIONS| == 6
    ensures Spells(OLD_VERSIONS[0], "GLIBC_2.38") && Spells(OLD_VERSIONS[1], "GLIBC_2.36")
    ensures Spells(OLD_VERSIONS[2], "GLIBC_2.35") && Spells(OLD_VERSIONS[3], "GLIBC_2.34")
    ensures Spells(OLD_VERSIONS[4], "GLIBC_2.33") && Spells(OLD_VERSIONS[5], "GLIBC_2.32")
  {
  }

  /** What the in-place loop relies on: a fixed length, a 'G' at index 0 and nowhere else. */
  ghost predicate Replaceable(w: seq<Byte>) {
    && |w| == WORD
    && w[0] == 0x47
    && (forall i :: 0 < i < WORD ==> w[i] != 0x47)
    && w != NEW_VERSION
  }

  ghost predicate AllReplaceable(ws: set<seq<Byte>>) {
    forall w :: w in ws ==> Replaceable(w)
  }

  function Old(): set<seq<Byte>> {
    set w | w in OLD_VERSIONS
  }

  lemma OldVersionsReplaceable()
    ensures AllReplaceable(Old())
  {
    forall w | w in Old()
      ensures Replaceable(w)
    {
      assert w[8] == 0x33 && NEW_VERSION[8] == 0x31;
    }
  }

  /** One of the words `ws` starts at `p`. */
  predicate Hit(s: seq<Byte>, ws: set<seq<Byte>>, p: int) {
    0 <= p <= |s| - WORD && s[p..p + WORD] in ws
  }

  /** The original occurrence that covers `k`, if any. */
  ghost predicate Covered(s: seq<Byte>, ws: set<seq<Byte>>, k: int) {
    exists p :: p <= k < p + WORD && Hit(s, ws, p)
  }

  ghost function Start(s: seq<Byte>, ws: set<seq<Byte>>, k: int): (p: int)
    requires Covered(s, ws, k)
    ensures p <= k < p + WORD && Hit(s, ws, p)
  {
    var p :| p <= k < p + WORD && Hit(s, ws, p);
    p
  }

  /** Every original occurrence of a word of `ws` rewritten at once. */
  ghost function Substitute(s: seq<Byte>, ws: set<seq<Byte>>): (t: seq<Byte>)
    ensures |t| == |s|
  {
    seq(|s|, k requires 0 <= k < |s| =>
      if Covered(s, ws, k) then NEW_VERSION[k - Start(s, ws, k)] else s[k])
  }

  lemma HitByte(s: seq<Byte>, ws: set<seq<Byte>>, p: int, k: int)
    requires AllReplaceable(ws) && Hit(s, ws, p) && p <= k < p + WORD
    ensures s[k] == s[p..p + WORD][k - p]
    ensures s[k] == 0x47 <==> k == p
  {
  }

  /** Occurrences do not overlap: 'G' opens a word and never recurs in it. */
  lemma HitsApart(s: seq<Byte>, ws: set<seq<Byte>>, p: int, q: int)
    requires AllReplaceable(ws)
    requires Hit(s, ws, p) && Hit(s, ws, q) && p < q
    ensures p + WORD <= q
  {
    HitByte(s, ws, q, q);
    if q < p + WORD {
      HitByte(s, ws, p, q);
    }
  }

  lemma SubstituteAtHit(s: seq<Byte>, ws: set<seq<Byte>>, p: int)
    requires AllReplaceable(ws) && Hit(s, ws, p)
    ensures Substitute(s, ws)[p..p + WORD] == NEW_VERSION
  {
    forall k | p <= k < p + WORD
      ensures Substitute(s, ws)[k] == NEW_VERSION[k - p]
    {
      var q := Start(s, ws, k);
      if q < p {
        HitsApart(s, ws, q, p);
      } else if p < q {
        HitsApart(s, ws, p, q);
      }
    }
  }

  lemma SubstituteByte(s: seq<Byte>, ws: set<seq<Byte>>, p: int, k: int)
    requires AllReplaceable(ws) && Hit(s, ws, p) && p <= k < p + WORD
    ensures Substitute(s, ws)[k] == NEW_VERSION[k - p]
  {
    SubstituteAtHit(s, ws, p);
    assert Substitute(s, ws)[k] == Substitute(s, ws)[p..p + WORD][k - p];
  }

  /** A rewritten image has an occurrence exactly where the original had one that was not rewritten. */
  lemma HitAfterSubstitute(s: seq<Byte>, ws: set<seq<Byte>>, vs: set<seq<Byte>>, p: int)
    requires AllReplaceable(ws) && AllReplaceable(vs)
    ensures Hit(Substitute(s, ws), vs, p) <==> Hit(s, vs, p) && !Hit(s, ws, p)
  {
    var t := Substitute(s, ws);
    if 0 <= p <= |s| - WORD {
      if Hit(s, ws, p) {
        SubstituteAtHit(s, ws, p);
        assert NEW_VERSION !in vs;
      } else if exists k :: p <= k < p + WORD && Covered(s, ws, k) {
        var k :| p <= k < p + WORD && Covered(s, ws, k);
        NoOverlap(s, ws, vs, p, Start(s, ws, k));
      } else {
        assert t[p..p + WORD] == s[p..p + WORD];
      }
    }
  }

  lemma NoOverlap(s: seq<Byte>, ws: set<seq<Byte>>, vs: set<seq<Byte>>, p: int, q: int)
    requires AllReplaceable(ws) && AllReplaceable(vs)
    requires 0 <= p <= |s| - WORD && Hit(s, ws, q) && p != q && q - WORD < p < q + WORD
    ensures !Hit(s, vs, p) && !Hit(Substitute(s, ws), vs, p)
  {
    var t := Substitute(s, ws);
    SubstituteAtHit(s, ws, q);
    if q < p {
      HitByte(s, ws, q, p);
      assert t[p] == t[q..q + WORD][p - q] == NEW_VERSION[p - q] != 0x47;
      assert s[p..p + WORD][0] != 0x47 && t[p..p + WORD][0] != 0x47;
    } else {
      HitByte(s, ws, q, q);
      assert s[p..p + WORD][q - p] == 0x47;
      assert t[p..p + WORD][q - p] == t[q] == t[q..q + WORD][0] == 0x47;
    }
  }

  /** Two passes are one simultaneous substitution of both word sets. */
  lemma SubstituteTwice(s: seq<Byte>, ws: set<seq<Byte>>, vs: set<seq<Byte>>)
    requires AllReplaceable(ws) && AllReplaceable(vs)
    ensures AllReplaceable(ws + vs)
    ensures Substitute(Substitute(s, ws), vs) == Substitute(s, ws + vs)
  {
    var t, u := Substitute(s, ws), Substitute(s, ws + vs);
    forall k | 0 <= k < |s|
      ensures Substitute(t, vs)[k] == u[k]
    {
      if Covered(t, vs, k) {
        var p := Start(t, vs, k);
        HitAfterSubstitute(s, ws, vs, p);
        SubstituteByte(t, vs, p, k);
        SubstituteByte(s, ws + vs, p, k);
      } else if Covered(s, ws, k) {
        var p := Start(s, ws, k);
        SubstituteByte(s, ws, p, k);
        SubstituteByte(s, ws + vs, p, k);
      } else if Covered(s, ws + vs, k) {
        UncoveredStays(s, ws, vs, k);
      }
    }
  }

  lemma UncoveredStays(s: seq<Byte>, ws: set<seq<Byte>>, vs: set<seq<Byte>>, k: int)
    requires AllReplaceable(ws) && AllReplaceable(vs)
    requires Covered(s, ws + vs, k)
    ensures Covered(s, ws, k) || Covered(Substitute(s, ws), vs, k)
  {
    var p := Start(s, ws + vs, k);
    HitAfterSubstitute(s, ws, vs, p);
    assert Hit(s, ws, p) || Hit(Substitute(s, ws), vs, p);
  }

  /** After the substitution no rewritten word occurs anywhere. */
  lemma NothingLeft(s: seq<Byte>, ws: set<seq<Byte>>, p: int)
    requires AllReplaceable(ws)
    ensures !Hit(Substitute(s, ws), ws, p)
  {
    HitAfterSubstitute(s, ws, ws, p);
  }

  lemma OldDigits(w: seq<Byte>)
    requires w in Old()
    ensures |w| == WORD
    ensures forall i :: 0 <= i < WORD ==> (w[i] != NEW_VERSION[i] <==> i == 8 || i == 9)
    ensures forall i :: 0 <= i < WORD ==> (w[i] == 0 <==> i == 10)
  {
  }

  /** Bytes change exactly at the two digits of an occurrence, and no NUL appears or goes away. */
  lemma ChangedBytes(s: seq<Byte>, k: int)
    requires 0 <= k < |s|
    ensures Substitute(s, Old())[k] != s[k] <==> Hit(s, Old(), k - 8) || Hit(s, Old(), k - 9)
    ensures Substitute(s, Old())[k] == 0 <==> s[k] == 0
  {
    hide OLD_VERSIONS, Old;
    OldVersionsReplaceable();
    if Covered(s, Old(), k) {
      var p := Start(s, Old(), k);
      SubstituteByte(s, Old(), p, k);
      HitByte(s, Old(), p, k);
      OldDigits(s[p..p + WORD]);
      OnlyStart(s, Old(), p, k, k - 8);
      OnlyStart(s, Old(), p, k, k - 9);
    } else {
      assert !Hit(s, Old(), k - 8) && !Hit(s, Old(), k - 9);
    }
  }

  lemma OnlyStart(s: seq<Byte>, ws: set<seq<Byte>>, p: int, k: int, q: int)
    requires AllReplaceable(ws) && Hit(s, ws, p) && p <= k < p + WORD && q <= k < q + WORD
    ensures Hit(s, ws, q) <==> p == q
  {
    if Hit(s, ws, q) {
      if q < p {
        HitsApart(s, ws, q, p);
      } else if p < q {
        HitsApart(s, ws, p, q);
      }
    }
  }

  /** Eleven bytes of the image are one of the six old words. */
  predicate WordAt(s: seq<Byte>, p: int) {
    0 <= p && p + 11 <= |s| && s[p..p + 11] in OLD_VERSIONS
  }

  /** The string pass in plain terms: every eleven bytes that were one of the six words are the new version,
      none of the six is left, and a byte outside all of them is as it was. */
  lemma SubstituteMeaning(s: seq<Byte>, p: nat)
    ensures var t := Substitute(s, Old());
            && (WordAt(s, p) ==> t[p..p + 11] == NEW_VERSION)
            && !WordAt(t, p)
            && (p < |s| && t[p] != s[p] ==> exists q :: p - 11 < q <= p && WordAt(s, q))
  {
    hide OLD_VERSIONS, Substitute;
    OldVersionsReplaceable();
    NothingLeft(s, Old(), p);
    if WordAt(s, p) {
      SubstituteAtHit(s, Old(), p);
    }
    if p < |s| && Substitute(s, Old())[p] != s[p] {
      ChangedBytes(s, p);
      assert WordAt(s, p - 8) || WordAt(s, p - 9);
    }
  }

  // ----- The loops of patch()

  /** data.find(w, from): the first occurrence at or after `from`. */
  function Find(s: seq<Byte>, w: seq<Byte>, from: nat): (r: Option<nat>)
    requires |w| == WORD
    ensures r.Some? ==> from <= r.value && Hit(s, {w}, r.value)
    ensures r.Some? ==> forall p :: from <= p < r.value ==> !Hit(s, {w}, p)
    ensures r.None? ==> forall p :: from <= p ==> !Hit(s, {w}, p)
    decreases |s| - from
  {
    if from + WORD > |s| then None
    else if s[from..from + WORD] == w then Some(from)
    else Find(s, w, from + 1)
  }

  /** data[at:at + 11] = new */
  method Overwrite(data: array<Byte>, at: nat)
    requires at + WORD <= data.Length
    modifies data
    ensures data[..] == Store(old(data[..]), at, NEW_VERSION)
  {
    forall i | 0 <= i < WORD {
      data[at + i] := NEW_VERSION[i];
    }
  }

  ghost predicate Occurs(s: seq<Byte>, ws: set<seq<Byte>>) {
    exists p :: Hit(s, ws, p)
  }

  /** The inner loop: overwrite, left to right, every occurrence of one word. */
  method ReplaceAll(data: array<Byte>, w: seq<Byte>) returns (changed: bool)
    requires Replaceable(w)
    modifies data
    ensures data[..] == Substitute(old(data[..]), {w})
    ensures changed <==> Occurs(old(data[..]), {w})
  {
    hide Hit, Boundary, HitBefore, Occurs, Replaceable, Find, Progress, Substitute, Store;
    ghost var s := data[..];
    BeforeFirst(s, w);
    changed := false;
    var idx, pos := 0, Find(data[..], w, 0);
    while pos.Some?
      invariant 0 <= idx <= |s| == data.Length
      invariant data[..] == Progress(s, w, idx)
      invariant Boundary(s, w, idx)
      invariant pos == Find(s, w, idx)
      invariant changed <==> HitBefore(s, w, idx)
      decreases data.Length - idx
    {
      Advance(s, w, idx, pos.value);
      Overwrite(data, pos.value);
      assert data[..] == Progress(s, w, pos.value + WORD);
      changed := true;
      idx := pos.value + WORD;
      pos := Find(data[..], w, idx);
      FindAhead(s, w, idx);
    }
    AfterLast(s, w, idx);
  }

  /** The image while the loop runs: rewritten up to `idx`, original from there on. */
  ghost function Progress(s: seq<Byte>, w: seq<Byte>, idx: nat): (r: seq<Byte>)
    requires idx <= |s|
    ensures |r| == |s|
  {
    Substitute(s, {w})[..idx] + s[idx..]
  }

  lemma BeforeFirst(s: seq<Byte>, w: seq<Byte>)
    requires Replaceable(w)
    ensures |w| == WORD && Progress(s, w, 0) == s && Boundary(s, w, 0) && !HitBefore(s, w, 0)
  {
  }

  lemma FindAhead(s: seq<Byte>, w: seq<Byte>, idx: nat)
    requires |w| == WORD && idx <= |s|
    ensures Find(Progress(s, w, idx), w, idx) == Find(s, w, idx)
  {
    assert Progress(s, w, idx)[idx..] == s[idx..];
    FindInTail(Progress(s, w, idx), s, w, idx);
  }

  lemma AfterLast(s: seq<Byte>, w: seq<Byte>, idx: nat)
    requires |w| == WORD && idx <= |s| && Boundary(s, w, idx) && Find(s, w, idx).None?
    ensures Progress(s, w, idx) == Substitute(s, {w})
    ensures HitBefore(s, w, idx) <==> Occurs(s, {w})
  {
    UncoveredRange(s, w, idx, |s|);
    var t := Substitute(s, {w});
    assert t[..idx] + t[idx..] == t;
  }

  /** No occurrence straddles `idx`. */
  ghost predicate Boundary(s: seq<Byte>, w: seq<Byte>, idx: int) {
    forall p :: Hit(s, {w}, p) ==> p + WORD <= idx || idx <= p
  }

  ghost predicate HitBefore(s: seq<Byte>, w: seq<Byte>, idx: int) {
    exists p :: p < idx && Hit(s, {w}, p)
  }

  lemma Advance(s: seq<Byte>, w: seq<Byte>, idx: nat, at: nat)
    requires Replaceable(w) && Boundary(s, w, idx)
    requires idx <= at && Hit(s, {w}, at) && forall p :: idx <= p < at ==> !Hit(s, {w}, p)
    ensures at + WORD <= |s| == |Progress(s, w, idx)| && Boundary(s, w, at + WORD) && HitBefore(s, w, at + WORD)
    ensures Store(Progress(s, w, idx), at, NEW_VERSION) == Progress(s, w, at + WORD)
  {
    var t := Substitute(s, {w});
    SubstituteAtHit(s, {w}, at);
    UncoveredRange(s, w, idx, at);
    assert Store(Progress(s, w, idx), at, NEW_VERSION) == t[..idx] + s[idx..at] + NEW_VERSION + s[at + WORD..];
    assert t[..idx] + t[idx..at] + t[at..at + WORD] == t[..at + WORD];
    forall p | Hit(s, {w}, p)
      ensures p + WORD <= at + WORD || at + WORD <= p
    {
      if p > at {
        HitsApart(s, {w}, at, p);
      }
    }
  }

  lemma {:induction false} FindInTail(s: seq<Byte>, t: seq<Byte>, w: seq<Byte>, from: nat)
    requires |w| == WORD && |s| == |t| && from <= |s| && s[from..] == t[from..]
    ensures Find(s, w, from) == Find(t, w, from)
    decreases |s| - from
  {
    if from + WORD <= |s| {
      assert s[from..from + WORD] == s[from..][..WORD] == t[from..][..WORD] == t[from..from + WORD];
      assert s[from + 1..] == s[from..][1..] == t[from..][1..] == t[from + 1..];
      FindInTail(s, t, w, from + 1);
    }
  }

  lemma UncoveredRange(s: seq<Byte>, w: seq<Byte>, lo: nat, hi: nat)
    requires lo <= hi <= |s| && Boundary(s, w, lo)
    requires forall p :: lo <= p < hi ==> !Hit(s, {w}, p)
    ensures Substitute(s, {w})[lo..hi] == s[lo..hi]
  {
    assert forall k :: lo <= k < hi ==> !Covered(s, {w}, k);
  }

  /** The outer loop of patch() and patch_no_pthread(): one pass per entry of REPLACEMENTS. */
  method ReplaceVersions(data: array<Byte>) returns (changed: bool)
    modifies data
    ensures data[..] == Substitute(old(data[..]), Old())
    ensures changed <==> data[..] != old(data[..])
    ensures changed <==> Occurs(old(data[..]), Old())
  {
    ghost var s := data[..];
    changed := false;
    OldVersionsReplaceable();
    SubstituteNothing(s);
    for i := 0 to |OLD_VERSIONS|
      invariant data[..] == Substitute(s, FirstWords(i))
      invariant changed <==> Occurs(s, FirstWords(i))
    {
      NextPass(s, i);
      var found := ReplaceAll(data, OLD_VERSIONS[i]);
      changed := changed || found;
    }
    ChangedIffOccurs(s);
  }

  function FirstWords(n: nat): set<seq<Byte>>
    requires n <= |OLD_VERSIONS|
    ensures n == |OLD_VERSIONS| ==> FirstWords(n) == Old()
    ensures FirstWords(n) <= Old()
  {
    set i | 0 <= i < n :: OLD_VERSIONS[i]
  }

  lemma SubstituteNothing(s: seq<Byte>)
    ensures Substitute(s, FirstWords(0)) == s
    ensures !Occurs(s, FirstWords(0))
  {
  }

  lemma NextPass(s: seq<Byte>, i: nat)
    requires i < |OLD_VERSIONS|
    ensures Replaceable(OLD_VERSIONS[i])
    ensures var t := Substitute(s, FirstWords(i));
            && Substitute(t, {OLD_VERSIONS[i]}) == Substitute(s, FirstWords(i + 1))
            && (Occurs(s, FirstWords(i)) || Occurs(t, {OLD_VERSIONS[i]}) <==> Occurs(s, FirstWords(i + 1)))
  {
    OldVersionsReplaceable();
    var w, ws := OLD_VERSIONS[i], FirstWords(i);
    assert w in Old() && FirstWords(i + 1) == ws + {w};
    SubstituteTwice(s, ws, {w});
    forall p
      ensures Hit(s, ws, p) || Hit(Substitute(s, ws), {w}, p) <==> Hit(s, ws + {w}, p)
    {
      HitAfterSubstitute(s, ws, {w}, p);
    }
    OccursTwice(s, ws, {w});
  }

  lemma OccursTwice(s: seq<Byte>, ws: set<seq<Byte>>, vs: set<seq<Byte>>)
    requires forall p :: Hit(s, ws, p) || Hit(Substitute(s, ws), vs, p) <==> Hit(s, ws + vs, p)
    ensures Occurs(s, ws) || Occurs(Substitute(s, ws), vs) <==> Occurs(s, ws + vs)
  {
    if Occurs(s, ws + vs) {
      var p :| Hit(s, ws + vs, p);
      assert Hit(s, ws, p) || Hit(Substitute(s, ws), vs, p);
    }
  }

  lemma ChangedIffOccurs(s: seq<Byte>)
    ensures Substitute(s, Old()) != s <==> Occurs(s, Old())
  {
    if Occurs(s, Old()) {
      var p :| Hit(s, Old(), p);
      ChangedBytes(s, p + 8);
    } else {
      assert forall k :: 0 <= k < |s| ==> !Covered(s, Old(), k);
    }
  }

  /** Passes in any order, with any repetitions, amount to one simultaneous substitution. */
  ghost function Passes(s: seq<Byte>, words: seq<seq<Byte>>): seq<Byte>
    decreases |words|
  {
    if words == [] then s else Passes(Substitute(s, {words[0]}), words[1..])
  }

  lemma {:induction false} PassesAreSimultaneous(s: seq<Byte>, words: seq<seq<Byte>>)
    requires forall w :: w in words ==> Replaceable(w)
    ensures Passes(s, words) == Substitute(s, set w | w in words)
    decreases |words|
  {
    if words == [] {
      assert Substitute(s, set w | w in words) == s;
    } else {
      var rest := set w | w in words[1..];
      PassesAreSimultaneous(Substitute(s, {words[0]}), words[1..]);
      SubstituteTwice(s, {words[0]}, rest);
      assert (set w | w in words) == {words[0]} + rest;
    }
  }

  lemma OrderIrrelevant(s: seq<Byte>, words: seq<seq<Byte>>)
    requires (set w | w in words) == Old()
    ensures Passes(s, words) == Passes(s, OLD_VERSIONS)
    ensures forall p :: !Hit(Passes(s, words), Old(), p)
  {
    OldVersionsReplaceable();
    forall w | w in words
      ensures Replaceable(w)
    {
      assert w in set v | v in words;
    }
    PassesAreSimultaneous(s, words);
    forall w | w in OLD_VERSIONS
      ensures Replaceable(w)
    {
      assert w in Old();
    }
    PassesAreSimultaneous(s, OLD_VERSIONS);
    forall p
      ensures !Hit(Substitute(s, Old()), Old(), p)
    {
      NothingLeft(s, Old(), p);
    }
  }
}
