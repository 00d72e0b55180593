/** patch(): both passes over one file, and what they do to its version requirements. */
module GlibcPatch {
  import opened Wrappers
  import opened Bytes
  import opened ElfHash
  import opened Retagging
  import opened ElfImage
  import opened Verneed
  import opened VerneedRepair

  /** The file after patch(): an exception in the walk leaves it unwritten. */
  ghost function Patched(s: seq<Byte>): seq<Byte> {
    var w := FixImage(Substitute(s, Old()));
    if w.raised then s else w.data
  }

  /** The body that patch() and patch_no_pthread() share, from read_bytes to write_bytes. */
  method Patch(file: seq<Byte>) returns (out: seq<Byte>, raised: bool)
    ensures out == Patched(file)
    ensures raised == FixImage(Substitute(file, Old())).raised
    ensures raised ==> out == file
  {
    var data := new Byte[|file|](i requires 0 <= i < |file| => file[i]);
    assert data[..] == file;
    var retagged := ReplaceVersions(data);
    ghost var s := data[..];
    var r := FixVerneedHashes(data);
    if r.Raised? {
      return file, true;
    }
    if !r.changed {
      ImageUnchanged(s);
    }
    if retagged || r.changed {
      return data[..], false;
    }
    return file, false;
  }

  // ----- On every image, well formed or not: a walk that reports no change

  lemma {:induction false} EntriesQuiet(s: seq<Byte>, strtab: nat, at: nat)
    ensures var w := FixEntries(s, strtab, at);
            !w.changed ==> w.data == s && (w.raised <==> ParseEntries(s, strtab, at).None?)
    decreases |s| - at
  {
    hide ParseEntry, Hash, U32, Store;
    var head := ParseEntry(s, strtab, at);
    if head.Some? && head.value.next != 0 {
      EntriesQuiet(Correct(s, at, Hash(head.value.item.name)), strtab, at + head.value.next);
    }
  }

  lemma {:induction false} NeedsQuiet(s: seq<Byte>, strtab: nat, off: nat, end: nat)
    ensures var w := FixNeeds(s, strtab, off, end);
            !w.changed ==> w.data == s && (w.raised <==> ParseNeeds(s, strtab, off, end).None?)
    decreases |s| - off
  {
    hide FixEntries, ParseEntries, Unsigned, CString;
    if off < end && off + 16 <= |s| {
      EntriesQuiet(s, strtab, off + U32(s, off + 8));
      var w, next := FixEntries(s, strtab, off + U32(s, off + 8)), U32(s, off + 12);
      if !w.raised && next != 0 {
        NeedsQuiet(w.data, strtab, off + next, end);
      }
    }
  }

  lemma SectionQuiet(s: seq<Byte>, h: Header, at: nat)
    ensures var w := FixSection(s, h, at);
            !w.changed ==> w.data == s && (w.raised <==> ParseSection(s, h, at).None?)
  {
    hide FixNeeds, ParseNeeds, Unsigned, CString, VERSION_R;
    if at + 0x2C <= |s| {
      var sh := ParseSectionHeader(s, h, at);
      if sh.linkAt + 0x20 <= |s| {
        NeedsQuiet(s, U64(s, sh.linkAt + 0x18), sh.start, sh.end);
      }
    }
  }

  lemma {:induction false} SectionsQuiet(s: seq<Byte>, h: Header, i: nat)
    ensures var w := FixSections(s, h, i);
            !w.changed ==> w.data == s && (w.raised <==> ParseSections(s, h, i).None?)
    decreases h.count - i
  {
    hide FixSection, ParseSection;
    if i < h.count {
      var at := HeaderAt(h.shoff, i, h.entsize);
      SectionQuiet(s, h, at);
      if !FixSection(s, h, at).raised {
        SectionsQuiet(FixSection(s, h, at).data, h, i + 1);
      }
    }
  }

  /** On every byte array: a walk that corrects nothing leaves it alone, and raises exactly when the image
      claims to be one it handles but cannot be read to the end. */
  lemma ImageUnchanged(s: seq<Byte>)
    ensures var w := FixImage(s);
            !w.changed ==> w.data == s && (w.raised <==> Parse(s).Malformed?)
  {
    hide FixSections, ParseSections, ParseHeader;
    if ParseHeader(s).Some? {
      SectionsQuiet(s, ParseHeader(s).value, 0);
    }
  }

  // ----- The string pass as a change of the image

  predicate IsDigit(s: seq<Byte>, k: int) {
    Hit(s, Old(), k - 8) || Hit(s, Old(), k - 9)
  }

  /** The bytes the string pass changes: the two digits of every occurrence. */
  function Digits(s: seq<Byte>): set<int> {
    set k | 0 <= k < |s| && IsDigit(s, k)
  }

  function DigitChange(s: seq<Byte>): Change {
    Change(Digits(s), {})
  }

  lemma SubstituteIsDigitChange(s: seq<Byte>)
    ensures DigitChange(s).Between(s, Substitute(s, Old()))
    ensures forall k :: 0 <= k < |s| ==> (k in Digits(s) <==> Substitute(s, Old())[k] != s[k])
  {
    forall k | 0 <= k < |s|
      ensures k in Digits(s) <==> Substitute(s, Old())[k] != s[k]
      ensures s[k] == 0 <==> Substitute(s, Old())[k] == 0
    {
      ChangedBytes(s, k);
    }
  }

  // ----- The intended meaning: the same table with six version names renamed

  /** GLIBC_2.32 to GLIBC_2.38 become GLIBC_2.17; every other name stays. */
  function Rename(name: seq<Byte>): seq<Byte> {
    if name + [0] in Old() then NEW_VERSION[..WORD - 1] else name
  }

  /** The six names, without their NUL, and no others. */
  lemma RenameMeaning(name: seq<Byte>)
    ensures (exists i :: 0 <= i < 6 && OLD_VERSIONS[i] == name + [0]) ==> Rename(name) + [0] == NEW_VERSION
    ensures (forall i :: 0 <= i < 6 ==> OLD_VERSIONS[i] != name + [0]) ==> Rename(name) == name
  {
    assert NEW_VERSION == NEW_VERSION[..10] + [0];
  }

  function RenameEntry(e: Entry): Entry {
    e.(name := Rename(e.name), hash := Hash(Rename(e.name)))
  }

  function RenameEntries(es: seq<Entry>): seq<Entry> {
    if es == [] then [] else [RenameEntry(es[0])] + RenameEntries(es[1..])
  }

  function RenameNeeds(ns: seq<Need>): seq<Need> {
    if ns == [] then [] else [ns[0].(entries := RenameEntries(ns[0].entries))] + RenameNeeds(ns[1..])
  }

  function RenameSection(sec: Section): Section {
    if sec.Plain? then sec else sec.(needs := RenameNeeds(sec.needs))
  }

  function RenameSections(secs: seq<Section>): seq<Section> {
    if secs == [] then [] else [RenameSection(secs[0])] + RenameSections(secs[1..])
  }

  function RenameImage(img: Image): Image {
    if img.Elf? then img.(sections := RenameSections(img.sections)) else img
  }

  // ----- When a name means what the script thinks it means

  /** An occurrence that reaches into the name starts where the name starts. */
  ghost predicate EntryIntact(s: seq<Byte>, e: Entry) {
    Hit(s, Old(), e.nameAt) || Clear(Digits(s), e.nameAt, e.nameAt + |e.name|)
  }

  ghost predicate EntriesIntact(s: seq<Byte>, es: seq<Entry>) {
    es == [] || (EntryIntact(s, es[0]) && EntriesIntact(s, es[1..]))
  }

  /** No occurrence reaches into the file name. */
  ghost predicate FileIntact(s: seq<Byte>, n: Need) {
    n.file.Some? ==> Clear(Digits(s), n.fileAt, n.fileAt + |n.file.value|)
  }

  ghost predicate NeedsIntact(s: seq<Byte>, ns: seq<Need>) {
    ns == [] || (FileIntact(s, ns[0]) && EntriesIntact(s, ns[0].entries) && NeedsIntact(s, ns[1..]))
  }

  ghost predicate SectionIntact(s: seq<Byte>, sec: Section) {
    sec.Requirements? ==> NeedsIntact(s, sec.needs)
  }

  ghost predicate SectionsIntact(s: seq<Byte>, secs: seq<Section>) {
    secs == [] || (SectionIntact(s, secs[0]) && SectionsIntact(s, secs[1..]))
  }

  ghost predicate ImageIntact(s: seq<Byte>, img: Image) {
    img.Elf? ==> SectionsIntact(s, img.sections)
  }

  // ----- One name

  lemma HitIsWholeName(s: seq<Byte>, at: nat, name: seq<Byte>)
    requires CString(s, at) == Some(name)
    ensures Hit(s, Old(), at) <==> name + [0] in Old()
    ensures Hit(s, Old(), at) ==> |name| == WORD - 1
  {
    hide Old;
    NulAtIsFirst(s, at);
    var e := at + |name|;
    assert s[e] == 0 && forall k :: at <= k < e ==> s[k] != 0;
    if Hit(s, Old(), at) {
      var w := s[at..at + WORD];
      OldDigits(w);
      assert s[at + 10] == w[10] == 0;
      forall k | at <= k < at + 10
        ensures s[k] != 0
      {
        assert s[k] == w[k - at];
      }
      assert e == at + 10;
      assert name + [0] == w;
    }
    if name + [0] in Old() {
      OldDigits(name + [0]);
      assert s[at..at + WORD] == name + [0];
    }
  }

  lemma NameBecomes(s: seq<Byte>, at: nat, name: seq<Byte>)
    requires CString(s, at) == Some(name)
    ensures var t := Substitute(s, Old());
            Slice(t, at, |name|) == Rename(name) <==> Hit(s, Old(), at) || Clear(Digits(s), at, at + |name|)
  {
    hide Old, Substitute;
    var t := Substitute(s, Old());
    HitIsWholeName(s, at, name);
    if Hit(s, Old(), at) {
      OldVersionsReplaceable();
      SubstituteAtHit(s, Old(), at);
      assert |name| == WORD - 1 && at + WORD <= |t|;
      assert t[at..at + WORD - 1] == t[at..at + WORD][..WORD - 1];
    } else {
      SliceUnchanged(s, at, |name|);
      assert name == s[at..at + |name|];
    }
  }

  lemma SliceUnchanged(s: seq<Byte>, at: nat, n: nat)
    requires at + n <= |s|
    ensures Slice(Substitute(s, Old()), at, n) == s[at..at + n] <==> Clear(Digits(s), at, at + n)
  {
    hide Old, Substitute, Hit;
    var t := Substitute(s, Old());
    SubstituteIsDigitChange(s);
    if Clear(Digits(s), at, at + n) {
      assert t[at..at + n] == s[at..at + n];
    } else {
      var k :| k in Digits(s) && at <= k < at + n;
      assert t[at..at + n][k - at] == t[k] && s[at..at + n][k - at] == s[k];
    }
  }

  // ----- The table, level by level. `t` is the final image, `r` the image after the string pass.

  ghost predicate Final(s: seq<Byte>, t: seq<Byte>, cells: set<Cell>) {
    var r := Substitute(s, Old());
    && Writing(NO_CHANGE, cells).Between(r, t)
    && forall c :: c in cells ==> Holds(r, t, c)
  }

  lemma EntryMeaning(s: seq<Byte>, t: seq<Byte>, cells: set<Cell>, strtab: nat, at: nat, e: Entry, next: nat)
    requires Final(s, t, cells) && EntryCell(e) in cells
    requires ParseEntry(s, strtab, at) == Some(Link(e, next))
    requires Clear(CellBytes(cells), e.nameAt, e.nameAt + |e.name| + 1)
    ensures RereadEntry(t, e) == RenameEntry(e) <==> EntryIntact(s, e)
  {
    hide Old, Substitute, Hit, Hash, Unsigned, CString, Rename, CellBytes, Slice;
    var r := Substitute(s, Old());
    assert CString(s, e.nameAt) == Some(e.name);
    NameBecomes(s, e.nameAt, e.name);
    SliceKept(cells, r, t, e.nameAt, |e.name|);
    assert Holds(r, t, EntryCell(e));
  }

  lemma SliceKept(cells: set<Cell>, r: seq<Byte>, t: seq<Byte>, at: nat, n: nat)
    requires Writing(NO_CHANGE, cells).Between(r, t) && Clear(CellBytes(cells), at, at + n)
    ensures Slice(t, at, n) == Slice(r, at, n)
  {
    hide CellBytes;
  }

  lemma {:induction false} EntriesMeaning(s: seq<Byte>, t: seq<Byte>, cells: set<Cell>, strtab: nat, at: nat,
                                          es: seq<Entry>)
    requires Final(s, t, cells) && EntriesCells(es) <= cells
    requires ParseEntries(s, strtab, at) == Some(es) && EntriesClear(Writing(DigitChange(s), cells), es)
    ensures RereadEntries(t, es) == RenameEntries(es) <==> EntriesIntact(s, es)
    decreases |s| - at
  {
    hide Final, ParseEntry, RereadEntry, RenameEntry, EntryIntact, EntryCell, CellBytes, Digits;
    var Link(e, next) := ParseEntry(s, strtab, at).value;
    EntryMeaning(s, t, cells, strtab, at, e, next);
    assert RereadEntries(t, es)[1..] == RereadEntries(t, es[1..]) && RenameEntries(es)[1..] == RenameEntries(es[1..]);
    if next != 0 {
      EntriesMeaning(s, t, cells, strtab, at + next, es[1..]);
    }
    HeadAndTail(RereadEntries(t, es), RenameEntries(es));
  }

  lemma HeadAndTail<T>(a: seq<T>, b: seq<T>)
    requires a != [] && b != []
    ensures a == b <==> a[0] == b[0] && a[1..] == b[1..]
  {
    assert a == [a[0]] + a[1..] && b == [b[0]] + b[1..];
  }

  lemma FileMeaning(s: seq<Byte>, t: seq<Byte>, cells: set<Cell>, strtab: nat, off: nat, n: Need, next: nat)
    requires Final(s, t, cells)
    requires ParseNeed(s, strtab, off) == Some(Link(n, next)) && NeedClear(|s|, Writing(DigitChange(s), cells), n)
    ensures RereadNeed(t, n).file == n.file <==> FileIntact(s, n)
  {
    hide Old, Substitute, Hit, Hash, Unsigned, CellBytes, Slice, ParseEntries, RereadEntries, EntriesClear, Holds,
      Digits, NulAt;
    assert CString(s, n.fileAt) == n.file;
    if n.file.Some? {
      SliceKept(cells, Substitute(s, Old()), t, n.fileAt, |n.file.value|);
      SliceUnchanged(s, n.fileAt, |n.file.value|);
    }
  }

  lemma NeedMeaning(s: seq<Byte>, t: seq<Byte>, cells: set<Cell>, strtab: nat, off: nat, n: Need, next: nat)
    requires Final(s, t, cells) && EntriesCells(n.entries) <= cells
    requires ParseNeed(s, strtab, off) == Some(Link(n, next)) && NeedClear(|s|, Writing(DigitChange(s), cells), n)
    ensures RereadNeed(t, n) == n.(entries := RenameEntries(n.entries))
            <==> FileIntact(s, n) && EntriesIntact(s, n.entries)
  {
    hide Final, ParseNeed, NeedClear, RereadEntries, RenameEntries, EntriesIntact, FileIntact, EntriesClear,
      ParseEntries, Slice;
    NeedParts(s, strtab, off, n, next);
    NeedClearParts(|s|, Writing(DigitChange(s), cells), n);
    FileMeaning(s, t, cells, strtab, off, n, next);
    EntriesMeaning(s, t, cells, strtab, off + U32(s, off + 8), n.entries);
  }

  lemma {:induction false} NeedsMeaning(s: seq<Byte>, t: seq<Byte>, cells: set<Cell>, strtab: nat, off: nat, end: nat,
                                        ns: seq<Need>)
    requires Final(s, t, cells) && NeedsCells(ns) <= cells
    requires ParseNeeds(s, strtab, off, end) == Some(ns) && NeedsClear(|s|, Writing(DigitChange(s), cells), ns)
    ensures RereadNeeds(t, ns) == RenameNeeds(ns) <==> NeedsIntact(s, ns)
    decreases |s| - off
  {
    hide Final, ParseNeed, RereadNeed, NeedClear, RenameEntries, EntriesIntact, FileIntact, EntriesCells, CellBytes,
      Digits;
    if off < end {
      var Link(n, next) := ParseNeed(s, strtab, off).value;
      NeedMeaning(s, t, cells, strtab, off, n, next);
      if next != 0 {
        NeedsMeaning(s, t, cells, strtab, off + next, end, ns[1..]);
      }
      assert RereadNeeds(t, ns)[1..] == RereadNeeds(t, ns[1..]) && RenameNeeds(ns)[1..] == RenameNeeds(ns[1..]);
      HeadAndTail(RereadNeeds(t, ns), RenameNeeds(ns));
    }
  }

  lemma SectionMeaning(s: seq<Byte>, t: seq<Byte>, cells: set<Cell>, h: Header, at: nat, sec: Section)
    requires Final(s, t, cells) && SectionCells(sec) <= cells
    requires ParseSection(s, h, at) == Some(sec) && SectionClear(|s|, Writing(DigitChange(s), cells), sec)
    ensures RereadSection(t, sec) == RenameSection(sec) <==> SectionIntact(s, sec)
  {
    hide Final, ParseNeeds, RereadNeeds, RenameNeeds, NeedsIntact, NeedsClear, NeedsCells, CellBytes, Digits;
    if sec.Requirements? {
      SectionParts(s, h, at, sec);
      NeedsMeaning(s, t, cells, U64(s, sec.linkAt + 0x18), sec.start, sec.end, sec.needs);
    }
  }

  lemma {:induction false} SectionsMeaning(s: seq<Byte>, t: seq<Byte>, cells: set<Cell>, h: Header, i: nat,
                                           secs: seq<Section>)
    requires Final(s, t, cells) && SectionsCells(secs) <= cells
    requires ParseSections(s, h, i) == Some(secs) && SectionsClear(|s|, Writing(DigitChange(s), cells), secs)
    ensures RereadSections(t, secs) == RenameSections(secs) <==> SectionsIntact(s, secs)
    decreases h.count - i
  {
    hide Final, ParseSection, RereadSection, SectionClear, RenameSection, SectionIntact, SectionCells, CellBytes,
      Digits;
    if i < h.count {
      SectionMeaning(s, t, cells, h, HeaderAt(h.shoff, i, h.entsize), secs[0]);
      SectionsMeaning(s, t, cells, h, i + 1, secs[1..]);
      assert RereadSections(t, secs)[1..] == RereadSections(t, secs[1..])
             && RenameSections(secs)[1..] == RenameSections(secs[1..]);
      HeadAndTail(RereadSections(t, secs), RenameSections(secs));
    }
  }

  /** On an image whose structure holds no occurrence and no foreign hash field, patch() renames the
      six versions, corrects every hash and changes nothing else, exactly when no occurrence reaches
      into a file name, or into a version name other than as the whole name. */
  lemma MeaningPreserved(s: seq<Byte>)
    requires Repairable(DigitChange(s), |s|, Parse(s))
    ensures Parse(Patched(s)) == RenameImage(Parse(s)) <==> ImageIntact(s, Parse(s))
  {
    hide Substitute, Old, ImageClear, Holds, SectionsIntact, RenameSections, RereadSections, Digits, SectionsClear,
      ParseSections, SectionsCells, FixImage, ParseHeader, Coherent, CellBytes;
    var r, img := Substitute(s, Old()), Parse(s);
    var cells := ImageCells(img);
    SubstituteIsDigitChange(s);
    ImageRepaired(DigitChange(s), s, r);
    ClearSections(s, cells);
    SectionsMeaning(s, Patched(s), cells, img.header, 0, img.sections);
  }

  lemma ClearSections(s: seq<Byte>, cells: set<Cell>)
    requires Parse(s).Elf? && ImageClear(|s|, Writing(DigitChange(s), cells), Parse(s))
    ensures SectionsClear(|s|, Writing(DigitChange(s), cells), Parse(s).sections)
  {
  }

  // ----- A second run

  /** The hash that field `c` receives completes an occurrence at `p` that has a digit before the field. */
  ghost predicate Completes(r: seq<Byte>, cells: set<Cell>, c: Cell, p: int) {
    && c in cells && 0 <= p && p + 9 <= c.at <= p + 10 && c.at + 4 <= |r|
    && Clear(CellBytes(cells), p, c.at)
    && Hit(Store(r, c.at, LE32(Hash(Slice(r, c.nameAt, c.len)))), Old(), p)
  }

  /** `r` is the image after the string pass. */
  ghost predicate CompletesWord(r: seq<Byte>, cells: set<Cell>) {
    exists c, p :: Completes(r, cells, c, p)
  }

  /** The highest byte of a hash is below every byte of a version word but its last. */
  lemma HashTopByte(r: seq<Byte>, t: seq<Byte>, c: Cell)
    requires Holds(r, t, c)
    ensures t[c.at + 3] < 0x10
  {
    hide Hash, Slice;
    var b := t[c.at..c.at + 4];
    assert b == [b[0], b[1], b[2], b[3]];
    FourDigits(b[0], b[1], b[2], b[3]);
  }

  lemma OldWordBytes(t: seq<Byte>, p: int)
    requires Hit(t, Old(), p)
    ensures t[p] == 0x47 && forall k :: p <= k < p + 10 ==> t[k] >= 0x10
  {
    var w := t[p..p + WORD];
    OldBytes(w);
    forall k | p <= k < p + 10
      ensures t[k] >= 0x10
    {
      assert t[k] == w[k - p];
    }
    assert t[p] == w[0];
  }

  lemma OldBytes(w: seq<Byte>)
    requires w in Old()
    ensures |w| == WORD && w[0] == 0x47 && forall i :: 0 <= i < 10 ==> w[i] >= 0x10
  {
  }

  lemma NoFieldNoHit(s: seq<Byte>, t: seq<Byte>, cells: set<Cell>, p: int)
    requires Final(s, t, cells) && forall d :: d in cells ==> d.at + 4 <= p || d.at > p + 10
    ensures !Hit(t, Old(), p)
  {
    hide Old, Substitute, Holds;
    var r := Substitute(s, Old());
    OldVersionsReplaceable();
    NothingLeft(s, Old(), p);
    if 0 <= p <= |t| - WORD {
      assert forall k :: p <= k < p + WORD ==> k !in CellBytes(cells);
      assert t[p..p + WORD] == r[p..p + WORD];
    }
  }

  /** An occurrence in the patched image ends in a hash field, and nothing before that field was written. */
  lemma HitEndsInField(s: seq<Byte>, t: seq<Byte>, cells: set<Cell>, p: int) returns (c: Cell)
    requires Final(s, t, cells) && Coherent(cells) && Hit(t, Old(), p)
    ensures c in cells && p + 7 <= c.at <= p + 10 && Clear(CellBytes(cells), p, c.at)
  {
    hide Old, Substitute, Holds;
    var r := Substitute(s, Old());
    OldWordBytes(t, p);
    forall d | d in cells
      ensures d.at + 4 <= p || d.at >= p + 7
    {
      HoldsFits(r, t, d, cells);
      HashTopByte(r, t, d);
    }
    if forall d :: d in cells ==> d.at + 4 <= p || d.at > p + 10 {
      NoFieldNoHit(s, t, cells, p);
      assert false;
    }
    c :| c in cells && !(c.at + 4 <= p || c.at > p + 10);
    assert forall d :: d in cells ==> d == c || d.at + 4 <= p || d.at >= c.at;
  }

  lemma HoldsFits(r: seq<Byte>, t: seq<Byte>, c: Cell, cells: set<Cell>)
    requires c in cells && forall d :: d in cells ==> Holds(r, t, d)
    ensures Holds(r, t, c) && c.at + 4 <= |t|
  {
  }

  /** The patched image has an occurrence where this one hash alone would make one. */
  lemma StampedAlike(s: seq<Byte>, t: seq<Byte>, cells: set<Cell>, c: Cell, p: int)
    requires Final(s, t, cells) && c in cells && 0 <= p && p + 7 <= c.at <= p + 10
    requires Clear(CellBytes(cells), p, c.at) && c.at + 4 <= |t|
    ensures var r := Substitute(s, Old());
            |r| == |t| &&
            (Hit(Store(r, c.at, LE32(Hash(Slice(r, c.nameAt, c.len)))), Old(), p) <==> Hit(t, Old(), p))
  {
    hide Old, Substitute, Hash, Slice, Unsigned, LE32, CellBytes;
    var r := Substitute(s, Old());
    var h := Hash(Slice(r, c.nameAt, c.len));
    var u := Store(r, c.at, LE32(h));
    assert Holds(r, t, c);
    StoreLoad(r, c.at, h);
    UnsignedInjective(t[c.at..c.at + 4], u[c.at..c.at + 4]);
    forall k | p <= k < p + WORD && k < |t|
      ensures t[k] == u[k]
    {
      if k < c.at {
        assert k !in CellBytes(cells);
      } else {
        assert t[k] == t[c.at..c.at + 4][k - c.at] && u[k] == u[c.at..c.at + 4][k - c.at];
      }
    }
    if p + WORD <= |t| {
      assert t[p..p + WORD] == u[p..p + WORD];
    }
  }

  /** What a second string pass would change lies in hash fields, unless a hash completed a word. */
  lemma DigitsInFields(s: seq<Byte>, t: seq<Byte>, cells: set<Cell>, k: int)
    requires Final(s, t, cells) && Coherent(cells) && !CompletesWord(Substitute(s, Old()), cells) && k in Digits(t)
    ensures k in CellBytes(cells)
  {
    hide Old, Substitute, Coherent, Holds;
    var p := if Hit(t, Old(), k - 8) then k - 8 else k - 9;
    var c := HitEndsInField(s, t, cells, p);
    FieldFits(s, t, cells, c);
    if c.at >= p + 9 {
      FieldCompletes(s, t, cells, c, p);
      assert false;
    }
    assert k in FieldBytes(c);
  }

  lemma FieldCompletes(s: seq<Byte>, t: seq<Byte>, cells: set<Cell>, c: Cell, p: int)
    requires Final(s, t, cells) && c in cells && c.at + 4 <= |t| && Clear(CellBytes(cells), p, c.at)
    requires Hit(t, Old(), p) && p + 9 <= c.at <= p + 10
    ensures CompletesWord(Substitute(s, Old()), cells)
  {
    hide Old, Substitute, Holds, CellBytes;
    StampedAlike(s, t, cells, c, p);
    assert Completes(Substitute(s, Old()), cells, c, p);
  }

  lemma FieldFits(s: seq<Byte>, t: seq<Byte>, cells: set<Cell>, c: Cell)
    requires Final(s, t, cells) && c in cells
    ensures c.at + 4 <= |t|
  {
    hide Substitute;
  }

  lemma CompletedDigit(s: seq<Byte>, t: seq<Byte>, cells: set<Cell>, c: Cell, p: int)
    requires Final(s, t, cells) && Completes(Substitute(s, Old()), cells, c, p)
    ensures p + 8 in Digits(t) && p + 8 !in CellBytes(cells)
  {
    hide Old, Substitute, Holds, CellBytes;
    StampedAlike(s, t, cells, c, p);
  }

  // ----- Hash fields and the names they hash

  ghost predicate NamesClear(d: Change, cells: set<Cell>) {
    forall c :: c in cells ==> Clear(d.ends, c.nameAt, c.nameAt + c.len)
  }

  lemma {:induction false} EntryNamesClear(d: Change, es: seq<Entry>)
    requires EntriesClear(d, es)
    ensures NamesClear(d, EntriesCells(es))
  {
    if es != [] {
      EntryNamesClear(d, es[1..]);
    }
  }

  lemma {:induction false} NeedNamesClear(size: nat, d: Change, ns: seq<Need>)
    requires NeedsClear(size, d, ns)
    ensures NamesClear(d, NeedsCells(ns))
  {
    if ns != [] {
      EntryNamesClear(d, ns[0].entries);
      NeedNamesClear(size, d, ns[1..]);
    }
  }

  lemma {:induction false} SectionNamesClear(size: nat, d: Change, secs: seq<Section>)
    requires SectionsClear(size, d, secs)
    ensures NamesClear(d, SectionsCells(secs))
  {
    if secs != [] {
      if secs[0].Requirements? {
        NeedNamesClear(size, d, secs[0].needs);
      }
      SectionNamesClear(size, d, secs[1..]);
    }
  }

  lemma {:induction false} EntryCellsAgain(t: seq<Byte>, es: seq<Entry>)
    ensures EntriesCells(RereadEntries(t, es)) == EntriesCells(es)
  {
    hide Slice;
    if es != [] {
      assert RereadEntries(t, es)[1..] == RereadEntries(t, es[1..]);
      EntryCellsAgain(t, es[1..]);
    }
  }

  lemma {:induction false} NeedCellsAgain(t: seq<Byte>, ns: seq<Need>)
    ensures NeedsCells(RereadNeeds(t, ns)) == NeedsCells(ns)
  {
    hide Slice;
    if ns != [] {
      assert RereadNeeds(t, ns)[1..] == RereadNeeds(t, ns[1..]);
      EntryCellsAgain(t, ns[0].entries);
      NeedCellsAgain(t, ns[1..]);
    }
  }

  lemma {:induction false} SectionCellsAgain(t: seq<Byte>, secs: seq<Section>)
    ensures SectionsCells(RereadSections(t, secs)) == SectionsCells(secs)
  {
    if secs != [] {
      assert RereadSections(t, secs)[1..] == RereadSections(t, secs[1..]);
      if secs[0].Requirements? {
        NeedCellsAgain(t, secs[0].needs);
      }
      SectionCellsAgain(t, secs[1..]);
    }
  }

  // ----- The second run

  /** What the first run guarantees. */
  lemma FirstRun(s: seq<Byte>)
    requires Repairable(DigitChange(s), |s|, Parse(s))
    ensures var cells := ImageCells(Parse(s));
            && Coherent(cells) && Final(s, Patched(s), cells)
            && ImageCells(Parse(Patched(s))) == cells
            && NamesClear(Writing(DigitChange(s), cells), cells)
  {
    hide Substitute, Old, Holds, Digits, FixImage, CellBytes, SectionsClear, SectionsCells, RereadSections, HeaderClear,
      ParseSections, ParseHeader;
    SubstituteIsDigitChange(s);
    ImageRepaired(DigitChange(s), s, Substitute(s, Old()));
    SectionCellsAgain(Patched(s), Parse(s).sections);
    SectionNamesClear(|s|, Writing(DigitChange(s), ImageCells(Parse(s))), Parse(s).sections);
  }

  /** The image after a second string pass is the original one but for digits and hash fields. */
  lemma SecondPass(s: seq<Byte>, t: seq<Byte>, cells: set<Cell>)
    requires Final(s, t, cells) && forall k :: k in Digits(t) ==> k in CellBytes(cells)
    ensures var u := Substitute(t, Old());
            && Change(Digits(s) + CellBytes(cells), CellBytes(cells)).Between(s, u)
            && Writing(NO_CHANGE, cells).Between(t, u) && Writing(NO_CHANGE, cells).Between(Substitute(s, Old()), u)
  {
    hide Old, Substitute, Holds, Digits, CellBytes;
    SubstituteIsDigitChange(s);
    SubstituteIsDigitChange(t);
  }

  lemma SecondRepairable(s: seq<Byte>, img: Image)
    requires Repairable(DigitChange(s), |s|, img)
    ensures var cells := ImageCells(img); Repairable(Change(Digits(s) + CellBytes(cells), CellBytes(cells)), |s|, img)
  {
    hide Digits, CellBytes, ImageClear, Coherent;
    var cells := ImageCells(img);
    var c := Change(Digits(s) + CellBytes(cells), CellBytes(cells));
    assert Writing(c, cells) == Writing(DigitChange(s), cells) by {
      assert Digits(s) + CellBytes(cells) + CellBytes(cells) == Digits(s) + CellBytes(cells);
      assert CellBytes(cells) + CellBytes(cells) == {} + CellBytes(cells);
    }
  }

  /** Patching twice is patching once, unless a hash completes an occurrence that starts before it. */
  lemma PatchedTwice(s: seq<Byte>)
    requires Repairable(DigitChange(s), |s|, Parse(s))
    requires !CompletesWord(Substitute(s, Old()), ImageCells(Parse(s)))
    ensures Patched(Patched(s)) == Patched(s)
  {
    hide Substitute, Old, Holds, Digits, Parse, FixImage, Coherent, CellBytes, Repairable, ImageCells, CompletesWord;
    var r, t, cells := Substitute(s, Old()), Patched(s), ImageCells(Parse(s));
    var u := Substitute(t, Old());
    FirstRun(s);
    forall k | k in Digits(t)
      ensures k in CellBytes(cells)
    {
      DigitsInFields(s, t, cells, k);
    }
    SecondPass(s, t, cells);
    SecondRepairable(s, Parse(s));
    ImageRepaired(Change(Digits(s) + CellBytes(cells), CellBytes(cells)), s, u);
    forall c | c in cells
      ensures Holds(u, t, c)
    {
      HoldsStill(s, t, u, cells, c);
    }
    NothingStale(u, t, FixImage(u).data, cells);
  }

  lemma HoldsStill(s: seq<Byte>, t: seq<Byte>, u: seq<Byte>, cells: set<Cell>, c: Cell)
    requires Final(s, t, cells) && NamesClear(Writing(DigitChange(s), cells), cells) && c in cells
    requires Writing(NO_CHANGE, cells).Between(Substitute(s, Old()), u)
    ensures Holds(u, t, c)
  {
    hide Substitute, Old, Hash, Slice, Unsigned, CellBytes;
    assert Clear(CellBytes(cells), c.nameAt, c.nameAt + c.len);
    SliceKept(cells, Substitute(s, Old()), u, c.nameAt, c.len);
    assert Holds(Substitute(s, Old()), t, c);
  }

  /** When the patched image meets the hypothesis again, that condition is exact. */
  lemma PatchedTwiceIff(s: seq<Byte>)
    requires Repairable(DigitChange(s), |s|, Parse(s))
    requires var t := Patched(s); Repairable(DigitChange(t), |t|, Parse(t))
    ensures Patched(Patched(s)) == Patched(s) <==> !CompletesWord(Substitute(s, Old()), ImageCells(Parse(s)))
  {
    hide Substitute, Old, Holds, Digits, Parse, FixImage, Coherent, CellBytes, Repairable, ImageCells, Completes;
    var r, t, cells := Substitute(s, Old()), Patched(s), ImageCells(Parse(s));
    if CompletesWord(r, cells) {
      var c, p :| Completes(r, cells, c, p);
      FirstRun(s);
      CompletedDigit(s, t, cells, c, p);
      SubstituteIsDigitChange(t);
      ImageRepaired(DigitChange(t), t, Substitute(t, Old()));
      assert Patched(t)[p + 8] != t[p + 8] by { DigitPlace(t, p + 8); }
    } else {
      PatchedTwice(s);
    }
  }

  lemma DigitPlace(t: seq<Byte>, k: int)
    requires k in Digits(t)
    ensures 0 <= k < |t|
  {
  }
}
