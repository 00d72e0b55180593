/** fix_verneed_hashes: the walk that repairs hash fields while it reads the image it writes. */
module Verneed {
  import opened Wrappers
  import opened Bytes
  import opened ElfHash
  import opened ElfImage

  /** What a walk leaves behind: an exception or a flag, and the image. */
  datatype Walk = Walk(raised: bool, changed: bool, data: seq<Byte>) {
    function After(before: bool): Walk {
      this.(changed := changed || before)
    }
  }

  /** The image with the hash field at `at` corrected. */
  function Correct(s: seq<Byte>, at: nat, h: nat): (t: seq<Byte>)
    requires at + 4 <= |s| && h < TWO32
    ensures |t| == |s|
  {
    if U32(s, at) != h then Store(s, at, LE32(h)) else s
  }

  function FixEntries(s: seq<Byte>, strtab: nat, at: nat): (w: Walk)
    ensures |w.data| == |s|
    decreases |s| - at
  {
    var head := ParseEntry(s, strtab, at);
    if head.None? then Walk(true, false, s)
    else
      var h := Hash(head.value.item.name);
      var t := Correct(s, at, h);
      if head.value.next == 0 then Walk(false, U32(s, at) != h, t)
      else FixEntries(t, strtab, at + head.value.next).After(U32(s, at) != h)
  }

  function FixNeeds(s: seq<Byte>, strtab: nat, off: nat, end: nat): (w: Walk)
    ensures |w.data| == |s|
    decreases |s| - off
  {
    if off >= end then Walk(false, false, s)
    else if off + 16 > |s| then Walk(true, false, s)
    else
      var w, next := FixEntries(s, strtab, off + U32(s, off + 8)), U32(s, off + 12);
      if w.raised || next == 0 then w else FixNeeds(w.data, strtab, off + next, end).After(w.changed)
  }

  function FixSection(s: seq<Byte>, h: Header, at: nat): (w: Walk)
    ensures |w.data| == |s|
  {
    if at + 0x2C > |s| then Walk(true, false, s)
    else
      var sh := ParseSectionHeader(s, h, at);
      var name := CString(s, sh.nameAt);
      if name.None? then Walk(true, false, s)
      else if name.value != VERSION_R then Walk(false, false, s)
      else if sh.linkAt + 0x20 > |s| then Walk(true, false, s)
      else FixNeeds(s, U64(s, sh.linkAt + 0x18), sh.start, sh.end)
  }

  function FixSections(s: seq<Byte>, h: Header, i: nat): (w: Walk)
    ensures |w.data| == |s|
    decreases h.count - i
  {
    if i >= h.count then Walk(false, false, s)
    else
      var w := FixSection(s, h, HeaderAt(h.shoff, i, h.entsize));
      if w.raised then w else FixSections(w.data, h, i + 1).After(w.changed)
  }

  function FixImage(s: seq<Byte>): (w: Walk)
    ensures |w.data| == |s|
  {
    match Identify(s)
    case Other => Walk(false, false, s)
    case Short => Walk(true, false, s)
    case Elf64LE =>
      var h := ParseHeader(s);
      if h.None? then Walk(true, false, s) else FixSections(s, h.value, 0)
  }

  // ----- The walk in place, on the script's bytearray

  datatype Outcome = Returned(changed: bool) | Raised

  ghost predicate Ends(r: Outcome, data: seq<Byte>, w: Walk) {
    && data == w.data
    && r == if w.raised then Raised else Returned(w.changed)
  }

  /** get_name */
  method GetName(data: array<Byte>, at: nat) returns (r: Option<seq<Byte>>)
    ensures r == CString(data[..], at)
  {
    var idx := at;
    while idx < data.Length && data[idx] != 0
      invariant at <= idx
      invariant NulAt(data[..], at) == NulAt(data[..], idx)
    {
      idx := idx + 1;
    }
    if idx < data.Length {
      return Some(data[at..idx]);
    }
    return None;
  }

  /** struct.pack_into('<I', data, at, h) */
  method PackInto(data: array<Byte>, at: nat, h: nat)
    requires at + 4 <= data.Length && h < TWO32
    modifies data
    ensures data[..] == Store(old(data[..]), at, LE32(h))
  {
    forall i | 0 <= i < 4 {
      data[at + i] := LE32(h)[i];
    }
  }

  /** One turn of the inner loop: read the entry, compare and overwrite its hash. */
  method FixEntry(data: array<Byte>, strtab: nat, at: nat) returns (next: Option<nat>, stale: bool)
    requires at + 16 <= data.Length
    modifies data
    ensures var s := old(data[..]);
            var head := ParseEntry(s, strtab, at);
            if head.None? then next.None? && data[..] == s
            else
              && next == Some(head.value.next)
              && stale == (U32(s, at) != Hash(head.value.item.name))
              && data[..] == Correct(s, at, Hash(head.value.item.name))
  {
    hide CString, Unsigned, DecodeAscii, HashFrom;
    var hash, nameIdx, nextIdx := U32(data[..], at), U32(data[..], at + 8), U32(data[..], at + 12);
    var name := GetName(data, strtab + nameIdx);
    if name.None? {
      return None, false;
    }
    var chars := DecodeAscii(name.value);
    var correct := ElfHash.ElfHash(chars);
    if hash != correct {
      PackInto(data, at, correct);
    }
    return Some(nextIdx), hash != correct;
  }

  /** The inner loop: one chain of Vernaux entries. */
  method FixAuxChain(data: array<Byte>, strtab: nat, start: nat) returns (r: Outcome)
    modifies data
    ensures Ends(r, data[..], FixEntries(old(data[..]), strtab, start))
  {
    hide ParseEntry, Correct, Hash, U32;
    ghost var total := FixEntries(data[..], strtab, start);
    var at, changed := start, false;
    while at + 16 <= data.Length
      invariant total == FixEntries(data[..], strtab, at).After(changed)
      decreases data.Length - at
    {
      var next, stale := FixEntry(data, strtab, at);
      if next.None? {
        return Raised;
      }
      changed := changed || stale;
      if next.value == 0 {
        return Returned(changed);
      }
      at := at + next.value;
    }
    return Raised;
  }

  /** The outer loop: the Verneed chain of one section. */
  method FixNeedChain(data: array<Byte>, strtab: nat, start: nat, end: nat) returns (r: Outcome)
    modifies data
    ensures Ends(r, data[..], FixNeeds(old(data[..]), strtab, start, end))
  {
    hide FixEntries, Unsigned;
    ghost var total := FixNeeds(data[..], strtab, start, end);
    var off, changed := start, false;
    while off < end
      invariant total == FixNeeds(data[..], strtab, off, end).After(changed)
      decreases data.Length - off
    {
      if off + 16 > data.Length {
        return Raised;
      }
      var aux, next := U32(data[..], off + 8), U32(data[..], off + 12);
      var chain := FixAuxChain(data, strtab, off + aux);
      if chain.Raised? {
        return Raised;
      }
      changed := changed || chain.changed;
      if next == 0 {
        return Returned(changed);
      }
      off := off + next;
    }
    return Returned(changed);
  }

  method FixVerneedHashes(data: array<Byte>) returns (r: Outcome)
    modifies data
    ensures Ends(r, data[..], FixImage(old(data[..])))
  {
    hide FixNeeds, ParseHeader, ParseSectionHeader, CString, Unsigned, HeaderAt;
    var ident := Identify(data[..]);
    if ident == Other {
      return Returned(false);
    }
    var header := ParseHeader(data[..]);
    if ident == Short || header.None? {
      return Raised;
    }
    var h, changed := header.value, false;
    ghost var total := FixSections(data[..], h, 0);
    for i := 0 to h.count
      invariant total == FixSections(data[..], h, i).After(changed)
    {
      var at := HeaderAt(h.shoff, i, h.entsize);
      if at + 0x2C > data.Length {
        return Raised;
      }
      var sh := ParseSectionHeader(data[..], h, at);
      var name := GetName(data, sh.nameAt);
      if name.None? {
        return Raised;
      }
      if name.value == VERSION_R {
        if sh.linkAt + 0x20 > data.Length {
          return Raised;
        }
        var strtab := U64(data[..], sh.linkAt + 0x18);
        var chain := FixNeedChain(data, strtab, sh.start, sh.end);
        if chain.Raised? {
          return Raised;
        }
        changed := changed || chain.changed;
      }
    }
    return Returned(changed);
  }
}
