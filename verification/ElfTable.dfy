/** What an image says, byte by byte: the parsed table is the one, and the only one, that the header fields
    and the two chains spell out at their offsets. */
module ElfTable {
  import opened Wrappers
  import opened Bytes
  import opened ElfHash
  import opened ElfImage
  import opened Verneed
  import opened VerneedRepair
  import opened GlibcPatch

  // ----- Section headers, by the offsets of the ELF-64 format

  /** e_shoff + k * e_shentsize */
  function SectionOffset(s: seq<Byte>, k: nat): nat
    requires |s| >= 0x40
  {
    U64(s, 0x28) + k * U16(s, 0x3A)
  }

  predicate IsElf64LE(s: seq<Byte>) {
    && |s| >= 0x40
    && s[0] == 0x7f && s[1] == 'E' as int && s[2] == 'L' as int && s[3] == 'F' as int
    && s[4] == 2 && s[5] == 1
  }

  /** `.gnu.version_r`, by its characters. */
  predicate IsVersionR(name: seq<Byte>) {
    |name| == 14 && forall i :: 0 <= i < 14 ==> name[i] == ".gnu.version_r"[i] as int
  }

  predicate HasHeader(s: seq<Byte>, k: nat, size: nat)
    requires |s| >= 0x40
  {
    SectionOffset(s, k) + size <= |s|
  }

  /** Where the section names are: sh_offset of header e_shstrndx. */
  function NamesAt(s: seq<Byte>): nat
    requires |s| >= 0x40 && HasHeader(s, U16(s, 0x3E), 0x20)
  {
    U64(s, SectionOffset(s, U16(s, 0x3E)) + 0x18)
  }

  // ----- The two chains

  /** vn_next or vna_next */
  function Next(s: seq<Byte>, at: nat): nat
    requires at + 16 <= |s|
  {
    U32(s, at + 12)
  }

  ghost predicate EntryIsRead(s: seq<Byte>, strtab: nat, e: Entry) {
    && e.at + 16 <= |s|
    && e.hash == U32(s, e.at) && e.flags == U16(s, e.at + 4) && e.other == U16(s, e.at + 6)
    && e.nameAt == strtab + U32(s, e.at + 8) && CString(s, e.nameAt) == Some(e.name)
  }

  /** The entries are those met from `at` on, until one has no successor. */
  ghost predicate EntriesAreRead(s: seq<Byte>, strtab: nat, at: nat, es: seq<Entry>) {
    && es != [] && es[0].at == at
    && (forall j :: 0 <= j < |es| ==> EntryIsRead(s, strtab, es[j]))
    && (forall j :: 0 <= j < |es| - 1 ==> Next(s, es[j].at) != 0 && es[j + 1].at == es[j].at + Next(s, es[j].at))
    && Next(s, es[|es| - 1].at) == 0
  }

  ghost predicate NeedIsRead(s: seq<Byte>, strtab: nat, n: Need) {
    && n.at + 16 <= |s|
    && n.version == U16(s, n.at) && n.count == U16(s, n.at + 2)
    && n.fileAt == strtab + U32(s, n.at + 4) && n.file == CString(s, n.fileAt)
    && EntriesAreRead(s, strtab, n.at + U32(s, n.at + 8), n.entries)
  }

  /** The same for Verneed entries, which also end where the section does. */
  ghost predicate NeedsAreRead(s: seq<Byte>, strtab: nat, at: nat, end: nat, ns: seq<Need>) {
    if at >= end then ns == []
    else
      && ns != [] && ns[0].at == at
      && (forall i :: 0 <= i < |ns| ==> NeedIsRead(s, strtab, ns[i]))
      && (forall i :: 0 <= i < |ns| - 1 ==>
            Next(s, ns[i].at) != 0 && ns[i + 1].at == ns[i].at + Next(s, ns[i].at) < end)
      && var last := ns[|ns| - 1].at; Next(s, last) == 0 || last + Next(s, last) >= end
  }

  ghost predicate SectionIsRead(s: seq<Byte>, k: nat, sec: Section)
    requires |s| >= 0x40 && HasHeader(s, U16(s, 0x3E), 0x20)
  {
    && HasHeader(s, k, 0x2C)
    && var at := SectionOffset(s, k);
       && sec.at == at && sec.nameAt == NamesAt(s) + U32(s, at) && CString(s, sec.nameAt) == Some(sec.name)
       && (sec.Requirements? <==> IsVersionR(sec.name))
       && (sec.Requirements? ==>
             && HasHeader(s, U32(s, at + 0x28), 0x20)
             && sec.linkAt == SectionOffset(s, U32(s, at + 0x28))
             && sec.start == U64(s, at + 0x18) && sec.end == U64(s, at + 0x18) + U64(s, at + 0x20)
             && NeedsAreRead(s, U64(s, sec.linkAt + 0x18), sec.start, sec.end, sec.needs))
  }

  /** `sections` is what the image spells out. */
  ghost predicate TableIsRead(s: seq<Byte>, sections: seq<Section>) {
    && IsElf64LE(s) && HasHeader(s, U16(s, 0x3E), 0x20)
    && |sections| == U16(s, 0x3C)
    && forall k :: 0 <= k < |sections| ==> SectionIsRead(s, k, sections[k])
  }

  // ----- The parser computes exactly that

  lemma EntryRead(s: seq<Byte>, strtab: nat, e: Entry)
    ensures var head := ParseEntry(s, strtab, e.at);
            && (EntryIsRead(s, strtab, e) <==> head.Some? && head.value.item == e)
            && (head.Some? ==> head.value.next == Next(s, e.at))
  {
    hide CString, U16, U32;
  }

  lemma {:induction false} EntriesRead(s: seq<Byte>, strtab: nat, at: nat, es: seq<Entry>)
    ensures ParseEntries(s, strtab, at) == Some(es) <==> EntriesAreRead(s, strtab, at, es)
    decreases |s| - at
  {
    hide ParseEntry, EntryIsRead, U32;
    if es != [] && es[0].at == at {
      EntryRead(s, strtab, es[0]);
      assert es == [es[0]] + es[1..];
      if EntryIsRead(s, strtab, es[0]) {
        HeadOfEntries(s, strtab, at, es);
        if Next(s, at) != 0 {
          EntriesRead(s, strtab, at + Next(s, at), es[1..]);
        }
      }
    }
  }

  /** The chain from its head: one entry, then nothing or the chain from its successor. */
  lemma HeadOfEntries(s: seq<Byte>, strtab: nat, at: nat, es: seq<Entry>)
    requires es != [] && es[0].at == at && at + 16 <= |s| && EntryIsRead(s, strtab, es[0])
    ensures EntriesAreRead(s, strtab, at, es)
            <==> if Next(s, at) == 0 then es[1..] == [] else EntriesAreRead(s, strtab, at + Next(s, at), es[1..])
  {
    hide Next;
    var rest := es[1..];
    assert forall j :: 0 <= j < |rest| ==> rest[j] == es[j + 1];
    assert forall j :: 0 < j < |es| ==> es[j] == rest[j - 1];
  }

  lemma NeedRead(s: seq<Byte>, strtab: nat, n: Need)
    ensures var head := ParseNeed(s, strtab, n.at);
            && (NeedIsRead(s, strtab, n) <==> head.Some? && head.value.item == n)
            && (head.Some? ==> head.value.next == Next(s, n.at))
  {
    hide CString, U16, U32, ParseEntries, EntriesAreRead;
    if n.at + 16 <= |s| {
      EntriesRead(s, strtab, n.at + U32(s, n.at + 8), n.entries);
    }
  }

  lemma {:induction false} NeedsRead(s: seq<Byte>, strtab: nat, at: nat, end: nat, ns: seq<Need>)
    ensures ParseNeeds(s, strtab, at, end) == Some(ns) <==> NeedsAreRead(s, strtab, at, end, ns)
    decreases |s| - at
  {
    hide ParseNeed, NeedIsRead, U32;
    if at < end && ns != [] && ns[0].at == at {
      NeedRead(s, strtab, ns[0]);
      assert ns == [ns[0]] + ns[1..];
      if NeedIsRead(s, strtab, ns[0]) {
        NeedFits(s, strtab, ns[0]);
        HeadOfNeeds(s, strtab, at, end, ns);
        if Next(s, at) != 0 {
          NeedsRead(s, strtab, at + Next(s, at), end, ns[1..]);
        }
      }
    }
  }

  lemma NeedFits(s: seq<Byte>, strtab: nat, n: Need)
    requires NeedIsRead(s, strtab, n)
    ensures n.at + 16 <= |s|
  {
  }

  lemma HeadOfNeeds(s: seq<Byte>, strtab: nat, at: nat, end: nat, ns: seq<Need>)
    requires at < end && ns != [] && ns[0].at == at && at + 16 <= |s| && NeedIsRead(s, strtab, ns[0])
    ensures NeedsAreRead(s, strtab, at, end, ns)
            <==> if Next(s, at) == 0 then ns[1..] == [] else NeedsAreRead(s, strtab, at + Next(s, at), end, ns[1..])
  {
    hide Next, EntriesAreRead, CString, U16, U32;
    var rest := ns[1..];
    assert forall j :: 0 <= j < |rest| ==> rest[j] == ns[j + 1];
    assert forall j :: 0 < j < |ns| ==> ns[j] == rest[j - 1];
  }

  lemma VersionRName(name: seq<Byte>)
    ensures IsVersionR(name) <==> name == VERSION_R
  {
  }

  lemma SectionRead(s: seq<Byte>, h: Header, k: nat, sec: Section)
    requires ParseHeader(s) == Some(h)
    ensures |s| >= 0x40 && HasHeader(s, U16(s, 0x3E), 0x20)
    ensures ParseSection(s, h, HeaderAt(h.shoff, k, h.entsize)) == Some(sec) <==> SectionIsRead(s, k, sec)
  {
    hide CString, U16, U32, U64, ParseNeeds, NeedsAreRead, IsVersionR, VERSION_R;
    VersionRName(sec.name);
    if sec.Requirements? && sec.linkAt + 0x20 <= |s| {
      NeedsRead(s, U64(s, sec.linkAt + 0x18), sec.start, sec.end, sec.needs);
    }
  }

  lemma {:induction false} SectionsRead(s: seq<Byte>, h: Header, i: nat, secs: seq<Section>)
    requires ParseHeader(s) == Some(h) && |s| >= 0x40 && HasHeader(s, U16(s, 0x3E), 0x20)
    ensures ParseSections(s, h, i) == Some(secs)
            <==> i + |secs| == (if i < h.count then h.count else i)
                 && SectionsAreRead(s, i, secs)
    decreases h.count - i
  {
    hide ParseSection, SectionIsRead, ParseHeader, HasHeader, SectionsAreRead;
    NoSections(s, i);
    if i < h.count && secs != [] {
      var rest := secs[1..];
      assert secs == [secs[0]] + rest;
      SectionRead(s, h, i, secs[0]);
      SectionsRead(s, h, i + 1, rest);
      HeadOfSections(s, i, secs);
    }
  }

  lemma NoSections(s: seq<Byte>, i: nat)
    requires |s| >= 0x40 && HasHeader(s, U16(s, 0x3E), 0x20)
    ensures SectionsAreRead(s, i, [])
  {
  }

  ghost predicate SectionsAreRead(s: seq<Byte>, i: nat, secs: seq<Section>)
    requires |s| >= 0x40 && HasHeader(s, U16(s, 0x3E), 0x20)
  {
    forall k :: 0 <= k < |secs| ==> SectionIsRead(s, i + k, secs[k])
  }

  lemma HeadOfSections(s: seq<Byte>, i: nat, secs: seq<Section>)
    requires |s| >= 0x40 && HasHeader(s, U16(s, 0x3E), 0x20) && secs != []
    ensures SectionsAreRead(s, i, secs) <==> SectionIsRead(s, i, secs[0]) && SectionsAreRead(s, i + 1, secs[1..])
  {
    hide SectionIsRead, HasHeader;
    var rest := secs[1..];
    if SectionIsRead(s, i, secs[0]) && SectionsAreRead(s, i + 1, rest) {
      forall k | 0 <= k < |secs|
        ensures SectionIsRead(s, i + k, secs[k])
      {
        assert k > 0 ==> SectionIsRead(s, i + 1 + (k - 1), rest[k - 1]);
      }
    }
    if SectionsAreRead(s, i, secs) {
      forall k | 0 <= k < |rest|
        ensures SectionIsRead(s, i + 1 + k, rest[k])
      {
        assert SectionIsRead(s, i + (k + 1), secs[k + 1]);
      }
      assert SectionIsRead(s, i + 0, secs[0]);
    }
  }

  /** An image has the table `sections` exactly when its bytes spell it out. */
  lemma ParsedIffRead(s: seq<Byte>, sections: seq<Section>)
    ensures Parse(s).Elf? && Parse(s).sections == sections <==> TableIsRead(s, sections)
  {
    hide ParseSections, SectionIsRead, U16, U64;
    HeaderRead(s);
    if ParseHeader(s).Some? {
      Identified(s);
      SectionsRead(s, ParseHeader(s).value, 0, sections);
    }
  }

  lemma Identified(s: seq<Byte>)
    requires |s| >= 0x40
    ensures Identify(s) == Elf64LE <==> IsElf64LE(s)
  {
    if IsElf64LE(s) {
      assert s[..4] == MAGIC;
    }
    if s[..4] == MAGIC {
      assert s[..4][0] == s[0] && s[..4][1] == s[1] && s[..4][2] == s[2] && s[..4][3] == s[3];
    }
  }

  lemma HeaderRead(s: seq<Byte>)
    ensures ParseHeader(s).Some? <==> |s| >= 0x40 && HasHeader(s, U16(s, 0x3E), 0x20)
    ensures ParseHeader(s).Some? ==> ParseHeader(s).value.count == U16(s, 0x3C)
  {
    hide U16, U64;
  }

  // ----- What a repair does to that table

  /** A Vernaux entry of the table. */
  ghost predicate Listed(sections: seq<Section>, e: Entry) {
    exists k, i :: ListedAt(sections, k, i, e)
  }

  ghost predicate ListedAt(sections: seq<Section>, k: int, i: int, e: Entry) {
    && 0 <= k < |sections| && sections[k].Requirements?
    && 0 <= i < |sections[k].needs| && e in sections[k].needs[i].entries
  }

  lemma {:induction false} EntryCells(es: seq<Entry>, c: Cell)
    ensures c in EntriesCells(es) <==> exists e :: e in es && c == Cell(e.at, e.nameAt, |e.name|)
  {
    if es != [] {
      EntryCells(es[1..], c);
      assert forall e :: e in es <==> e == es[0] || e in es[1..];
    }
  }

  ghost predicate CellOfNeeds(ns: seq<Need>, i: int, e: Entry, c: Cell) {
    0 <= i < |ns| && e in ns[i].entries && c == Cell(e.at, e.nameAt, |e.name|)
  }

  lemma {:induction false} NeedCells(ns: seq<Need>, c: Cell)
    ensures c in NeedsCells(ns) <==> exists i, e :: CellOfNeeds(ns, i, e, c)
  {
    if ns != [] {
      EntryCells(ns[0].entries, c);
      NeedCells(ns[1..], c);
      if c in EntriesCells(ns[0].entries) {
        var e :| e in ns[0].entries && c == Cell(e.at, e.nameAt, |e.name|);
        assert CellOfNeeds(ns, 0, e, c);
      } else if c in NeedsCells(ns[1..]) {
        var i, e :| CellOfNeeds(ns[1..], i, e, c);
        assert CellOfNeeds(ns, i + 1, e, c);
      }
      forall i, e | CellOfNeeds(ns, i, e, c)
        ensures c in NeedsCells(ns)
      {
        assert i > 0 ==> CellOfNeeds(ns[1..], i - 1, e, c);
      }
    }
  }

  ghost predicate CellOfSections(secs: seq<Section>, e: Entry, c: Cell) {
    Listed(secs, e) && c == Cell(e.at, e.nameAt, |e.name|)
  }

  lemma ListedInHeadOrTail(secs: seq<Section>, e: Entry)
    requires secs != []
    ensures Listed(secs, e)
            <==> (secs[0].Requirements? && exists i :: 0 <= i < |secs[0].needs| && e in secs[0].needs[i].entries)
                 || Listed(secs[1..], e)
  {
    if Listed(secs[1..], e) {
      var k, i :| ListedAt(secs[1..], k, i, e);
      assert ListedAt(secs, k + 1, i, e);
    }
    if secs[0].Requirements? && exists i :: 0 <= i < |secs[0].needs| && e in secs[0].needs[i].entries {
      var i :| 0 <= i < |secs[0].needs| && e in secs[0].needs[i].entries;
      assert ListedAt(secs, 0, i, e);
    }
    if Listed(secs, e) {
      var k, i :| ListedAt(secs, k, i, e);
      assert k > 0 ==> ListedAt(secs[1..], k - 1, i, e);
    }
  }

  lemma {:induction false} SectionCellsListed(secs: seq<Section>, c: Cell)
    ensures c in SectionsCells(secs) <==> exists e :: CellOfSections(secs, e, c)
  {
    if secs == [] {
      assert forall e :: !Listed(secs, e);
    } else {
      SectionCellsListed(secs[1..], c);
      if secs[0].Requirements? {
        NeedCells(secs[0].needs, c);
      }
      hide NeedsCells, Listed;
      if c in SectionCells(secs[0]) {
        var i, e :| CellOfNeeds(secs[0].needs, i, e, c);
        ListedInHeadOrTail(secs, e);
        assert CellOfSections(secs, e, c);
      } else if c in SectionsCells(secs[1..]) {
        var e :| CellOfSections(secs[1..], e, c);
        ListedInHeadOrTail(secs, e);
        assert CellOfSections(secs, e, c);
      }
      forall e | CellOfSections(secs, e, c)
        ensures c in SectionsCells(secs)
      {
        ListedInHeadOrTail(secs, e);
        if Listed(secs[1..], e) {
          assert CellOfSections(secs[1..], e, c);
        } else {
          var i :| 0 <= i < |secs[0].needs| && e in secs[0].needs[i].entries;
          assert CellOfNeeds(secs[0].needs, i, e, c);
        }
      }
    }
  }

  lemma NamesOfSection(s: seq<Byte>, k: nat, sec: Section, i: nat, e: Entry)
    requires |s| >= 0x40 && HasHeader(s, U16(s, 0x3E), 0x20) && SectionIsRead(s, k, sec)
    requires sec.Requirements? && i < |sec.needs| && e in sec.needs[i].entries
    ensures CString(s, e.nameAt) == Some(e.name)
  {
    hide CString, U16, U32, U64, IsVersionR, EntriesAreRead;
    assert sec.start < sec.end;
    var strtab := U64(s, sec.linkAt + 0x18);
    assert NeedIsRead(s, strtab, sec.needs[i]);
    NamesOfEntries(s, strtab, sec.needs[i].at + U32(s, sec.needs[i].at + 8), sec.needs[i].entries, e);
  }

  lemma NamesOfEntries(s: seq<Byte>, strtab: nat, at: nat, es: seq<Entry>, e: Entry)
    requires EntriesAreRead(s, strtab, at, es) && e in es
    ensures CString(s, e.nameAt) == Some(e.name)
  {
    hide CString, U16, U32, Next;
    var j :| 0 <= j < |es| && es[j] == e;
    assert EntryIsRead(s, strtab, es[j]);
  }

  lemma ListedNameIsRead(s: seq<Byte>, sections: seq<Section>, e: Entry)
    requires TableIsRead(s, sections) && Listed(sections, e)
    ensures CString(s, e.nameAt) == Some(e.name) && Slice(s, e.nameAt, |e.name|) == e.name
  {
    hide CString, U16, U32, U64, SectionIsRead, HasHeader;
    var k, i :| ListedAt(sections, k, i, e);
    NamesOfSection(s, k, sections[k], i, e);
    StringBytes(s, e.nameAt, e.name);
  }

  lemma StringBytes(s: seq<Byte>, at: nat, text: seq<Byte>)
    requires CString(s, at) == Some(text)
    ensures Slice(s, at, |text|) == text
  {
  }

  /** Every entry that the bytes spell out, in any section and at any place of its chains, holds the hash of
      its name after the walk, and every byte that changed is in the hash field of one. */
  lemma TableRepaired(s: seq<Byte>, sections: seq<Section>)
    requires TableIsRead(s, sections) && Repairable(NO_CHANGE, |s|, Parse(s))
    ensures var w := FixImage(s);
            && !w.raised && |w.data| == |s|
            && (forall e :: Listed(sections, e) ==> e.at + 4 <= |s| && U32(w.data, e.at) == Hash(e.name))
            && (forall b :: 0 <= b < |s| && w.data[b] != s[b] ==>
                  exists e :: Listed(sections, e) && e.at <= b < e.at + 4)
  {
    hide Parse, FixImage, Repairable, TableIsRead, Listed, Hash, Slice, SectionsCells;
    ParsedIffRead(s, sections);
    ImageRepaired(NO_CHANGE, s, s) by { Unchanged(s); }
    var t, cells := FixImage(s).data, SectionsCells(sections);
    forall e | Listed(sections, e)
      ensures e.at + 4 <= |s| && U32(t, e.at) == Hash(e.name)
    {
      var c := Cell(e.at, e.nameAt, |e.name|);
      SectionCellsListed(sections, c);
      assert CellOfSections(sections, e, c);
      ListedNameIsRead(s, sections, e);
      assert Holds(s, t, c);
    }
    forall b | 0 <= b < |s| && t[b] != s[b]
      ensures exists e :: Listed(sections, e) && e.at <= b < e.at + 4
    {
      assert b in CellBytes(cells);
      var c :| c in cells && b in FieldBytes(c);
      SectionCellsListed(sections, c);
      var e :| CellOfSections(sections, e, c);
      assert Listed(sections, e) && e.at <= b < e.at + 4;
    }
  }

  lemma Unchanged(s: seq<Byte>)
    ensures NO_CHANGE.Between(s, s)
  {
  }

  // ----- The whole of patch(), in these terms

  /** The patched file spells out the table of the original one with the six versions renamed. */
  lemma PatchedTableIsRead(s: seq<Byte>, sections: seq<Section>)
    requires TableIsRead(s, sections) && Repairable(DigitChange(s), |s|, Parse(s)) && ImageIntact(s, Parse(s))
    ensures TableIsRead(Patched(s), RenameSections(sections))
  {
    hide Parse, Patched, Repairable, ImageIntact, TableIsRead, RenameSections;
    ParsedIffRead(s, sections);
    MeaningPreserved(s);
    ParsedIffRead(Patched(s), RenameSections(sections));
  }
}
