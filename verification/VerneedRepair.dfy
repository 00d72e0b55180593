/** What the hash-repair walk leaves behind, read off the layout of the image it started from. */
module VerneedRepair {
  import opened Wrappers
  import opened Bytes
  import opened ElfHash
  import opened ElfImage
  import opened Verneed

  /** A hash field and the place of the name it must hash. */
  datatype Cell = Cell(at: nat, nameAt: nat, len: nat)

  function EntryCell(e: Entry): Cell {
    Cell(e.at, e.nameAt, |e.name|)
  }

  function EntriesCells(es: seq<Entry>): set<Cell> {
    if es == [] then {} else {EntryCell(es[0])} + EntriesCells(es[1..])
  }

  function NeedsCells(ns: seq<Need>): set<Cell> {
    if ns == [] then {} else EntriesCells(ns[0].entries) + NeedsCells(ns[1..])
  }

  function SectionCells(sec: Section): set<Cell> {
    if sec.Plain? then {} else NeedsCells(sec.needs)
  }

  function SectionsCells(secs: seq<Section>): set<Cell> {
    if secs == [] then {} else SectionCells(secs[0]) + SectionsCells(secs[1..])
  }

  /** The hash fields of every entry reachable through vn_next and vna_next. */
  function ImageCells(img: Image): set<Cell> {
    if img.Elf? then SectionsCells(img.sections) else {}
  }

  function FieldBytes(c: Cell): set<int> {
    {c.at, c.at + 1, c.at + 2, c.at + 3}
  }

  function CellBytes(cells: set<Cell>): set<int> {
    set c, k | c in cells && k in FieldBytes(c) :: k
  }

  /** Two hash fields are the same field of the same name, or do not overlap. */
  ghost predicate Coherent(cells: set<Cell>) {
    forall c, d :: c in cells && d in cells ==> c == d || c.at + 4 <= d.at || d.at + 4 <= c.at
  }

  /** The change a walk over `cells` makes on top of the change `c` made before it. */
  function Writing(c: Change, cells: set<Cell>): Change {
    Change(c.bytes + CellBytes(cells), c.ends + CellBytes(cells))
  }

  const NO_CHANGE := Change({}, {})

  ghost predicate Holds(names: seq<Byte>, t: seq<Byte>, c: Cell) {
    c.at + 4 <= |t| && U32(t, c.at) == Hash(Slice(names, c.nameAt, c.len))
  }

  /** From `s` to `t` only hash fields of `cells` changed, and each now holds the hash of its name. */
  ghost predicate Repaired(names: seq<Byte>, s: seq<Byte>, t: seq<Byte>, cells: set<Cell>) {
    && |t| == |s|
    && (forall k :: 0 <= k < |s| && k !in CellBytes(cells) ==> t[k] == s[k])
    && (forall c :: c in cells ==> Holds(names, t, c))
  }

  lemma CorrectRepairs(names: seq<Byte>, s: seq<Byte>, c: Cell)
    requires c.at + 4 <= |s|
    ensures var h := Hash(Slice(names, c.nameAt, c.len));
            && h < TWO32
            && Repaired(names, s, Correct(s, c.at, h), {c})
            && (Correct(s, c.at, h) != s <==> U32(s, c.at) != h)
  {
    hide Hash, Slice, U32, LE32, Store, CellBytes;
    var h := Hash(Slice(names, c.nameAt, c.len));
    StoreLoad(s, c.at, h);
    OneCell(c);
  }

  lemma OneCell(c: Cell)
    ensures CellBytes({c}) == FieldBytes(c)
  {
    assert c in {c};
  }

  /** A field that was stale is different afterwards. */
  lemma StaleShows(names: seq<Byte>, s: seq<Byte>, t: seq<Byte>, c: Cell)
    requires |s| == |t| && Holds(names, t, c) && !Holds(names, s, c)
    ensures s != t
  {
  }

  lemma DifferenceIsStale(names: seq<Byte>, s: seq<Byte>, t: seq<Byte>, cells: set<Cell>) returns (c: Cell)
    requires Repaired(names, s, t, cells) && s != t
    ensures c in cells && !Holds(names, s, c) && Holds(names, t, c)
  {
    hide Hash, Slice, Unsigned;
    var k :| 0 <= k < |s| && s[k] != t[k];
    assert k in CellBytes(cells);
    c :| c in cells && k in FieldBytes(c);
    assert Holds(names, t, c);
    FieldDiffers(s, t, c.at, k);
  }

  lemma FieldDiffers(s: seq<Byte>, t: seq<Byte>, at: nat, k: nat)
    requires |s| == |t| && at <= k < at + 4 <= |s| && s[k] != t[k]
    ensures U32(s, at) != U32(t, at)
  {
    var a, b := s[at..at + 4], t[at..at + 4];
    assert a[k - at] == s[k] && b[k - at] == t[k];
    if Unsigned(a) == Unsigned(b) {
      UnsignedInjective(a, b);
    }
  }

  lemma CellKept(names: seq<Byte>, all: set<Cell>, t: seq<Byte>, u: seq<Byte>, cells: set<Cell>, c: Cell)
    requires Coherent(all) && cells <= all && c in all
    requires Repaired(names, t, u, cells) && Holds(names, t, c)
    ensures Holds(names, u, c)
  {
    hide Hash, Slice, Unsigned;
    if c !in cells {
      forall k | c.at <= k < c.at + 4
        ensures k !in CellBytes(cells)
      {
        assert forall d :: d in cells ==> d in all && d != c;
      }
      assert u[c.at..c.at + 4] == t[c.at..c.at + 4];
    }
  }

  /** Two repairs in a row are one, and what the first changed stays changed. */
  lemma RepairTwice(names: seq<Byte>, all: set<Cell>, s: seq<Byte>, t: seq<Byte>, u: seq<Byte>, a: set<Cell>,
                    b: set<Cell>)
    requires Coherent(all) && a <= all && b <= all
    requires Repaired(names, s, t, a) && Repaired(names, t, u, b)
    ensures Repaired(names, s, u, a + b)
    ensures s != u <==> s != t || t != u
  {
    hide Holds;
    assert CellBytes(a) <= CellBytes(a + b) && CellBytes(b) <= CellBytes(a + b) by {
      assert forall c :: c in a ==> c in a + b;
      assert forall c :: c in b ==> c in a + b;
    }
    forall c | c in a + b
      ensures Holds(names, u, c)
    {
      if c in a {
        CellKept(names, all, t, u, b, c);
      }
    }
    if s != t {
      var c := DifferenceIsStale(names, s, t, a);
      StaleShows(names, s, u, c);
    }
  }

  // ----- The walk, level by level. `s0` is the image whose layout is known, `c` a change made to it
  //       before the walk, `names` the image at the start of the walk, `s` the image now.

  ghost predicate Underway(c: Change, all: set<Cell>, s0: seq<Byte>, names: seq<Byte>, s: seq<Byte>) {
    && Coherent(all)
    && Writing(c, all).Between(s0, s)
    && Writing(NO_CHANGE, all).Between(names, s)
  }

  lemma StillUnderway(c: Change, all: set<Cell>, s0: seq<Byte>, names: seq<Byte>, s: seq<Byte>, t: seq<Byte>,
                      cells: set<Cell>)
    requires Underway(c, all, s0, names, s) && Repaired(names, s, t, cells) && cells <= all
    ensures Underway(c, all, s0, names, t)
  {
    hide Holds;
    assert CellBytes(cells) <= CellBytes(all) by {
      assert forall d :: d in cells ==> d in all;
    }
  }

  lemma NameNow(c: Change, all: set<Cell>, s0: seq<Byte>, names: seq<Byte>, s: seq<Byte>, e: Entry)
    requires Underway(c, all, s0, names, s) && EntryClear(Writing(c, all), e)
    ensures RereadEntry(s, e).name == Slice(names, e.nameAt, |e.name|)
  {
    assert forall k :: e.nameAt <= k < e.nameAt + |e.name| ==> k !in CellBytes(all);
    assert Slice(s, e.nameAt, |e.name|) == Slice(names, e.nameAt, |e.name|);
  }

  lemma {:induction false} EntriesRepaired(c: Change, all: set<Cell>, s0: seq<Byte>, names: seq<Byte>, s: seq<Byte>,
                                           strtab: nat, at: nat, es: seq<Entry>)
    requires Underway(c, all, s0, names, s)
    requires ParseEntries(s0, strtab, at) == Some(es) && EntriesClear(Writing(c, all), es) && EntriesCells(es) <= all
    ensures var w := FixEntries(s, strtab, at);
            !w.raised && Repaired(names, s, w.data, EntriesCells(es)) && (w.changed <==> w.data != s)
    decreases |s0| - at
  {
    hide ParseEntry, EntryClear, Underway, Repaired, Correct, Slice, Hash, U32, Writing, Coherent;
    var Link(e, next) := ParseEntry(s0, strtab, at).value;
    assert Writing(c, all).Between(s0, s) && Coherent(all) by { UnderwayParts(c, all, s0, names, s); }
    EntryAgain(Writing(c, all), s0, s, strtab, at, e, next);
    NameNow(c, all, s0, names, s, e);
    var h := Hash(RereadEntry(s, e).name);
    CorrectRepairs(names, s, EntryCell(e));
    var t := Correct(s, at, h);
    if next == 0 {
      assert EntriesCells(es) == {EntryCell(e)};
    } else {
      StillUnderway(c, all, s0, names, s, t, {EntryCell(e)});
      EntriesRepaired(c, all, s0, names, t, strtab, at + next, es[1..]);
      RepairTwice(names, all, s, t, FixEntries(t, strtab, at + next).data, {EntryCell(e)}, EntriesCells(es[1..]));
    }
  }

  lemma UnderwayParts(c: Change, all: set<Cell>, s0: seq<Byte>, names: seq<Byte>, s: seq<Byte>)
    requires Underway(c, all, s0, names, s)
    ensures Writing(c, all).Between(s0, s) && Coherent(all)
  {
  }

  lemma NeedParts(s: seq<Byte>, strtab: nat, off: nat, n: Need, next: nat)
    requires ParseNeed(s, strtab, off) == Some(Link(n, next))
    ensures off + 16 <= |s| && n.at == off && next == U32(s, off + 12)
    ensures ParseEntries(s, strtab, off + U32(s, off + 8)) == Some(n.entries)
  {
    hide ParseEntries, CString, U16, U32;
  }

  lemma NeedClearParts(size: nat, c: Change, n: Need)
    requires NeedClear(size, c, n)
    ensures Clear(c.bytes, n.at, n.at + 16) && EntriesClear(c, n.entries)
  {
  }

  lemma NothingToRepair(names: seq<Byte>, s: seq<Byte>)
    ensures Repaired(names, s, s, {})
  {
  }

  lemma NeedRepaired(c: Change, all: set<Cell>, s0: seq<Byte>, names: seq<Byte>, s: seq<Byte>,
                     strtab: nat, off: nat, n: Need, next: nat)
    requires Underway(c, all, s0, names, s)
    requires ParseNeed(s0, strtab, off) == Some(Link(n, next)) && NeedClear(|s0|, Writing(c, all), n)
    requires EntriesCells(n.entries) <= all
    ensures off + 16 <= |s| == |s0| && U32(s, off + 12) == next
    ensures var w := FixEntries(s, strtab, off + U32(s, off + 8));
            !w.raised && Repaired(names, s, w.data, EntriesCells(n.entries)) && (w.changed <==> w.data != s)
  {
    hide ParseNeed, NeedClear, Underway, Repaired, FixEntries, U32, Writing, Coherent, EntriesCells, ParseEntries,
      EntriesClear;
    UnderwayParts(c, all, s0, names, s);
    NeedParts(s0, strtab, off, n, next);
    NeedClearParts(|s0|, Writing(c, all), n);
    NeedFieldsAgain(Writing(c, all), s0, s, off);
    EntriesRepaired(c, all, s0, names, s, strtab, off + U32(s, off + 8), n.entries);
  }

  lemma {:induction false} NeedsRepaired(c: Change, all: set<Cell>, s0: seq<Byte>, names: seq<Byte>, s: seq<Byte>,
                                         strtab: nat, off: nat, end: nat, ns: seq<Need>)
    requires Underway(c, all, s0, names, s)
    requires ParseNeeds(s0, strtab, off, end) == Some(ns) && NeedsClear(|s0|, Writing(c, all), ns)
             && NeedsCells(ns) <= all
    ensures var w := FixNeeds(s, strtab, off, end);
            !w.raised && Repaired(names, s, w.data, NeedsCells(ns)) && (w.changed <==> w.data != s)
    decreases |s0| - off
  {
    hide ParseNeed, NeedClear, Underway, Repaired, FixEntries, U32, Writing, Coherent, EntriesCells;
    NothingToRepair(names, s);
    if off < end {
      var Link(n, next) := ParseNeed(s0, strtab, off).value;
      NeedRepaired(c, all, s0, names, s, strtab, off, n, next);
      var t := FixEntries(s, strtab, off + U32(s, off + 8)).data;
      if next == 0 {
        assert NeedsCells(ns) == EntriesCells(n.entries);
      } else {
        StillUnderway(c, all, s0, names, s, t, EntriesCells(n.entries));
        NeedsRepaired(c, all, s0, names, t, strtab, off + next, end, ns[1..]);
        UnderwayParts(c, all, s0, names, s);
        RepairTwice(names, all, s, t, FixNeeds(t, strtab, off + next, end).data, EntriesCells(n.entries),
                    NeedsCells(ns[1..]));
      }
    }
  }

  lemma SectionRepaired(c: Change, all: set<Cell>, s0: seq<Byte>, names: seq<Byte>, s: seq<Byte>,
                        h: Header, at: nat, sec: Section)
    requires Underway(c, all, s0, names, s) && c.ends <= c.bytes
    requires ParseSection(s0, h, at) == Some(sec) && SectionClear(|s0|, Writing(c, all), sec)
             && SectionCells(sec) <= all
    ensures var w := FixSection(s, h, at);
            !w.raised && Repaired(names, s, w.data, SectionCells(sec)) && (w.changed <==> w.data != s)
  {
    hide ParseNeeds, NeedsClear, Holds, FixNeeds, CString, Unsigned, Coherent, NeedsCells, ParseSectionHeader;
    var d := Writing(c, all);
    SectionHeaderAgain(d, s0, s, h, at);
    SectionNameAgain(d, s0, s, h, at, sec);
    if sec.Requirements? {
      BytesKept(d, s0, s, sec.linkAt + 0x18, sec.linkAt + 0x20);
      SectionParts(s0, h, at, sec);
      NeedsRepaired(c, all, s0, names, s, U64(s, sec.linkAt + 0x18), sec.start, sec.end, sec.needs);
    }
  }

  lemma SectionNameAgain(d: Change, s0: seq<Byte>, s: seq<Byte>, h: Header, at: nat, sec: Section)
    requires d.Between(s0, s) && d.ends <= d.bytes
    requires ParseSection(s0, h, at) == Some(sec) && SectionClear(|s0|, d, sec)
    ensures CString(s, sec.nameAt) == Some(sec.name)
  {
    hide ParseNeeds, NeedsClear;
    StringKept(d, s0, s, sec.nameAt);
  }

  lemma SectionParts(s: seq<Byte>, h: Header, at: nat, sec: Section)
    requires ParseSection(s, h, at) == Some(sec) && sec.Requirements?
    ensures var sh := ParseSectionHeader(s, h, at);
            sec.nameAt == sh.nameAt && sec.linkAt == sh.linkAt && sec.start == sh.start && sec.end == sh.end
    ensures sec.name == VERSION_R && sec.linkAt + 0x20 <= |s|
    ensures ParseNeeds(s, U64(s, sec.linkAt + 0x18), sec.start, sec.end) == Some(sec.needs)
  {
    hide ParseNeeds, ParseSectionHeader, CString;
  }

  lemma {:induction false} SectionsRepaired(c: Change, all: set<Cell>, s0: seq<Byte>, names: seq<Byte>, s: seq<Byte>,
                                            h: Header, i: nat, secs: seq<Section>)
    requires Underway(c, all, s0, names, s) && c.ends <= c.bytes
    requires ParseSections(s0, h, i) == Some(secs) && SectionsClear(|s0|, Writing(c, all), secs)
             && SectionsCells(secs) <= all
    ensures var w := FixSections(s, h, i);
            !w.raised && Repaired(names, s, w.data, SectionsCells(secs)) && (w.changed <==> w.data != s)
    decreases h.count - i
  {
    hide ParseSection, SectionClear, Underway, Holds, FixSection, Writing, Coherent;
    if i < h.count {
      var at := HeaderAt(h.shoff, i, h.entsize);
      SectionRepaired(c, all, s0, names, s, h, at, secs[0]);
      var t := FixSection(s, h, at).data;
      StillUnderway(c, all, s0, names, s, t, SectionCells(secs[0]));
      SectionsRepaired(c, all, s0, names, t, h, i + 1, secs[1..]);
      assert Coherent(all) by { UnderwayParts(c, all, s0, names, s); }
      RepairTwice(names, all, s, t, FixSections(t, h, i + 1).data, SectionCells(secs[0]), SectionsCells(secs[1..]));
    }
  }

  /** The layout `img` keeps clear of the earlier change `c` and of its own hash fields. */
  ghost predicate Repairable(c: Change, size: nat, img: Image) {
    && img.Elf?
    && c.ends <= c.bytes
    && Coherent(ImageCells(img))
    && ImageClear(size, Writing(c, ImageCells(img)), img)
  }

  /** The walk over an image `s` that differs from a known, well-formed `s0` by the change `c`. */
  lemma ImageRepaired(c: Change, s0: seq<Byte>, s: seq<Byte>)
    requires Repairable(c, |s0|, Parse(s0)) && c.Between(s0, s)
    ensures var w, cells := FixImage(s), ImageCells(Parse(s0));
            && !w.raised
            && Repaired(s, s, w.data, cells)
            && (w.changed <==> w.data != s)
            && FixImage(w.data) == Walk(false, false, w.data)
    ensures Parse(FixImage(s).data) == Reread(FixImage(s).data, Parse(s0))
  {
    hide Holds, ParseSections, ParseHeader, FixSections, SectionsClear, HeaderClear, SectionsCells;
    var img := Parse(s0);
    var cells := ImageCells(img);
    var d := Writing(c, cells);
    assert d.Between(s0, s) && Writing(NO_CHANGE, cells).Between(s, s);
    HeaderAgain(d, s0, s);
    SectionsRepaired(c, cells, s0, s, s, img.header, 0, img.sections);
    var t := FixImage(s).data;
    StillUnderway(c, cells, s0, s, s, t, cells);
    HeaderAgain(d, s0, t);
    ParseAgain(d, s0, t);
    SectionsRepaired(c, cells, s0, s, t, img.header, 0, img.sections);
    var u := FixImage(t).data;
    NothingStale(s, t, u, cells);
  }

  lemma NothingStale(names: seq<Byte>, t: seq<Byte>, u: seq<Byte>, cells: set<Cell>)
    requires Repaired(names, t, u, cells) && forall c :: c in cells ==> Holds(names, t, c)
    ensures t == u
  {
    hide Holds;
    if t != u {
      var c := DifferenceIsStale(names, t, u, cells);
    }
  }

  /** After a repair every version whose name is ASCII carries the hash its loader computes. */
  lemma RepairedHashIsGabiWord(s: seq<Byte>, c: Cell)
    requires Repairable(NO_CHANGE, |s|, Parse(s)) && c in ImageCells(Parse(s))
    requires Ascii(Slice(s, c.nameAt, c.len))
    ensures !FixImage(s).raised && c.at + 4 <= |FixImage(s).data|
    ensures U32(FixImage(s).data, c.at) == GabiWord(TWO64, Slice(s, c.nameAt, c.len))
  {
    hide FixImage, Parse, ImageCells, Hash, GabiWord, Slice, U32, Repairable, CellBytes;
    ImageRepaired(NO_CHANGE, s, s);
    HashIsGabiWord(TWO64, Slice(s, c.nameAt, c.len));
    assert Holds(s, FixImage(s).data, c);
  }
}
