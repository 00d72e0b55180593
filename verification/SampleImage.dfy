/** Smallest images with a version requirement: what patch() does to one whose name is intact, to one whose
    name is not, and to one that a second run changes again. */
module SampleImage {
  import opened Wrappers
  import opened Bytes
  import opened ElfHash
  import opened Retagging
  import opened ElfImage
  import opened VerneedRepair
  import opened GlibcPatch

  function Zeros(n: nat): (s: seq<Byte>)
    ensures |s| == n
  {
    seq(n, i => 0)
  }

  /** 64-bit, little-endian, one section header at 0x40 that also locates the string table. */
  const IDENT: seq<Byte> := MAGIC + [2, 1]
  const FILE_HEADER: seq<Byte> := IDENT + Zeros(34) + ([0x40] + Zeros(7)) + Zeros(10) + ([0x40, 0] + [1, 0] + [0, 0])

  /** Its name is at 42 in the string table, which starts where the section does. */
  const SECTION_HEADER: seq<Byte> :=
    ([42] + Zeros(3)) + Zeros(20) + ([108] + Zeros(7)) + ([16] + Zeros(7)) + Zeros(4)
  const NEED: seq<Byte> := [1, 0] + [1, 0] + ([57] + Zeros(3)) + ([26] + Zeros(3)) + Zeros(4)

  /** What follows the hash field of the Vernaux entry. */
  const ENTRY: seq<Byte> := Zeros(2) + [2, 0] + ([62] + Zeros(3)) + Zeros(4)

  /** `libc` */
  const FILE_NAME: seq<Byte> := [0x6c, 0x69, 0x62, 0x63]

  const FRONT: seq<Byte> := FILE_HEADER + SECTION_HEADER + NEED
  const BACK: seq<Byte> := ENTRY + (VERSION_R + [0]) + (FILE_NAME + [0])

  /** Ten bytes that belong to nothing, the hash field after them, and the version name. */
  datatype Sample = Sample(gap: seq<Byte>, hash: nat, name: seq<Byte>)

  predicate Proper(x: Sample) {
    |x.gap| == 10 && x.hash < TWO32 && 0 !in x.name
  }

  function Build(x: Sample): (s: seq<Byte>)
    requires Proper(x)
    ensures |s| == 171 + |x.name|
  {
    FRONT + x.gap + LE32(x.hash) + BACK + x.name + [0]
  }

  function EntryOf(x: Sample): Entry {
    Entry(134, x.hash, 0, 2, 170, x.name)
  }

  function NeedOf(x: Sample): Need {
    Need(108, 1, 1, 165, Some(FILE_NAME), [EntryOf(x)])
  }

  function SectionOf(x: Sample): Section {
    Requirements(64, 150, VERSION_R, 64, 108, 124, [NeedOf(x)])
  }

  function CellOf(x: Sample): Cell {
    Cell(134, 170, |x.name|)
  }

  const HEADER := Header(64, 64, 1, 64, 108)

  // ----- Its layout

  lemma {:induction false} NumberOf(low: Byte, n: nat)
    ensures Unsigned(Zeros(n)) == 0 && Unsigned([low] + Zeros(n)) == low
  {
    if n > 0 {
      assert Zeros(n)[1..] == Zeros(n - 1);
      NumberOf(low, n - 1);
    }
    assert ([low] + Zeros(n))[1..] == Zeros(n);
  }

  lemma Within(s: seq<Byte>, at: nat, part: seq<Byte>, from: nat, to: nat)
    requires at + |part| <= |s| && s[at..at + |part|] == part && from <= to <= |part|
    ensures s[at + from..at + to] == part[from..to]
  {
    forall k | from <= k < to
      ensures s[at + k] == part[k]
    {
      assert s[at + k] == s[at..at + |part|][k];
    }
  }

  lemma Sizes()
    ensures |FILE_HEADER| == 64 && |SECTION_HEADER| == 44 && |NEED| == 16 && |ENTRY| == 12
    ensures |VERSION_R| == 14 && |FILE_NAME| == 4 && |FRONT| == 124 && |BACK| == 32
    ensures FRONT == FILE_HEADER + SECTION_HEADER + NEED
    ensures BACK == ENTRY + (VERSION_R + [0]) + (FILE_NAME + [0])
  {
  }

  lemma Parts(x: Sample)
    requires Proper(x)
    ensures var s := Build(x);
            && s[0..124] == FRONT && s[124..134] == x.gap && s[134..138] == LE32(x.hash) && s[138..170] == BACK
            && s[170..] == x.name + [0]
  {
    Sizes();
    hide FRONT, BACK, LE32;
    var a, b, c, d, e := FRONT, x.gap, LE32(x.hash), BACK, x.name + [0];
    assert Build(x) == a + b + c + d + e;
  }

  lemma FrontParts(x: Sample)
    requires Proper(x)
    ensures var s := Build(x);
            s[0..64] == FILE_HEADER && s[64..108] == SECTION_HEADER && s[108..124] == NEED
  {
    Parts(x);
    Sizes();
    hide Build, FRONT, BACK, FILE_HEADER, SECTION_HEADER, NEED;
    Within(Build(x), 0, FRONT, 0, 64);
    Within(Build(x), 0, FRONT, 64, 108);
    Within(Build(x), 0, FRONT, 108, 124);
  }

  lemma BackParts(x: Sample)
    requires Proper(x)
    ensures var s := Build(x);
            s[138..150] == ENTRY && s[150..165] == VERSION_R + [0] && s[165..170] == FILE_NAME + [0]
  {
    Parts(x);
    Sizes();
    hide Build, FRONT, BACK, ENTRY, VERSION_R, FILE_NAME;
    Within(Build(x), 138, BACK, 0, 12);
    Within(Build(x), 138, BACK, 12, 27);
    Within(Build(x), 138, BACK, 27, 32);
  }

  lemma FileHeaderFields(x: Sample)
    requires Proper(x)
    ensures var s := Build(x);
            && Identify(s) == Elf64LE
            && U64(s, 0x28) == 64 && U16(s, 0x3A) == 64 && U16(s, 0x3C) == 1 && U16(s, 0x3E) == 0
  {
    var s := Build(x);
    FrontParts(x);
    hide Build, Unsigned;
    Within(s, 0, FILE_HEADER, 0, 6);
    assert s[0..6] == IDENT;
    assert s[..4] == s[0..6][..4] == MAGIC && s[4] == s[0..6][4] && s[5] == s[0..6][5];
    Within(s, 0, FILE_HEADER, 0x28, 0x30);
    Within(s, 0, FILE_HEADER, 0x3A, 0x3C);
    Within(s, 0, FILE_HEADER, 0x3C, 0x3E);
    Within(s, 0, FILE_HEADER, 0x3E, 0x40);
    assert FILE_HEADER[0x28..0x30] == [0x40] + Zeros(7);
    assert FILE_HEADER[0x3A..0x3C] == [0x40] + Zeros(1);
    assert FILE_HEADER[0x3C..0x3E] == [1] + Zeros(1);
    assert FILE_HEADER[0x3E..0x40] == Zeros(2);
    NumberOf(0x40, 7);
    NumberOf(0x40, 1);
    NumberOf(1, 1);
    NumberOf(0, 2);
  }

  lemma SectionHeaderFields(x: Sample)
    requires Proper(x)
    ensures var s := Build(x);
            U32(s, 64) == 42 && U64(s, 88) == 108 && U64(s, 96) == 16 && U32(s, 104) == 0
  {
    var s := Build(x);
    FrontParts(x);
    hide Build, Unsigned;
    Within(s, 64, SECTION_HEADER, 0, 4);
    Within(s, 64, SECTION_HEADER, 24, 32);
    Within(s, 64, SECTION_HEADER, 32, 40);
    Within(s, 64, SECTION_HEADER, 40, 44);
    assert SECTION_HEADER[0..4] == [42] + Zeros(3) && SECTION_HEADER[24..32] == [108] + Zeros(7);
    assert SECTION_HEADER[32..40] == [16] + Zeros(7) && SECTION_HEADER[40..44] == Zeros(4);
    NumberOf(42, 3);
    NumberOf(108, 7);
    NumberOf(16, 7);
    NumberOf(0, 4);
  }

  lemma NeedFields(x: Sample)
    requires Proper(x)
    ensures var s := Build(x);
            && U16(s, 108) == 1 && U16(s, 110) == 1
            && U32(s, 112) == 57 && U32(s, 116) == 26 && U32(s, 120) == 0
  {
    var s := Build(x);
    FrontParts(x);
    hide Build, Unsigned;
    Within(s, 108, NEED, 0, 2);
    Within(s, 108, NEED, 2, 4);
    Within(s, 108, NEED, 4, 8);
    Within(s, 108, NEED, 8, 12);
    Within(s, 108, NEED, 12, 16);
    assert NEED[0..2] == NEED[2..4] == [1] + Zeros(1);
    assert NEED[4..8] == [57] + Zeros(3) && NEED[8..12] == [26] + Zeros(3) && NEED[12..16] == Zeros(4);
    NumberOf(1, 1);
    NumberOf(57, 3);
    NumberOf(26, 3);
    NumberOf(0, 4);
  }

  lemma EntryFields(x: Sample)
    requires Proper(x)
    ensures var s := Build(x);
            && U32(s, 134) == x.hash && U16(s, 138) == 0 && U16(s, 140) == 2
            && U32(s, 142) == 62 && U32(s, 146) == 0
  {
    var s := Build(x);
    Parts(x);
    BackParts(x);
    PackUnpack(x.hash);
    hide Build, Unsigned, LE32;
    Within(s, 138, ENTRY, 0, 2);
    Within(s, 138, ENTRY, 2, 4);
    Within(s, 138, ENTRY, 4, 8);
    Within(s, 138, ENTRY, 8, 12);
    assert ENTRY[0..2] == Zeros(2) && ENTRY[2..4] == [2] + Zeros(1);
    assert ENTRY[4..8] == [62] + Zeros(3) && ENTRY[8..12] == Zeros(4);
    NumberOf(2, 1);
    NumberOf(0, 2);
    NumberOf(62, 3);
    NumberOf(0, 4);
  }

  lemma StringAt(s: seq<Byte>, at: nat, text: seq<Byte>)
    requires at + |text| < |s| && s[at..at + |text| + 1] == text + [0] && 0 !in text
    ensures CString(s, at) == Some(text)
  {
    var part := s[at..at + |text| + 1];
    assert part[|text|] == 0 && s[at + |text|] == 0;
    forall k | at <= k < at + |text|
      ensures s[k] != 0
    {
      assert s[k] == part[k - at] == text[k - at];
    }
    NulAtIs(s, at, at + |text|);
    assert s[at..at + |text|] == part[..|text|] == text;
  }

  lemma Strings(x: Sample)
    requires Proper(x)
    ensures var s := Build(x);
            CString(s, 150) == Some(VERSION_R) && CString(s, 165) == Some(FILE_NAME) && CString(s, 170) == Some(x.name)
  {
    var s := Build(x);
    Parts(x);
    BackParts(x);
    hide Build;
    assert s[170..170 + |x.name| + 1] == s[170..];
    StringAt(s, 150, VERSION_R);
    StringAt(s, 165, FILE_NAME);
    StringAt(s, 170, x.name);
  }

  lemma Single<T>(x: T)
    ensures Prepend(x, Some([])) == Some([x])
  {
    assert [x] + [] == [x];
  }

  lemma EntriesParse(x: Sample)
    requires Proper(x)
    ensures ParseEntries(Build(x), 108, 134) == Some([EntryOf(x)])
  {
    var s := Build(x);
    EntryFields(x);
    Strings(x);
    hide Build, CString, U16, U32, Prepend;
    assert ParseEntry(s, 108, 134) == Some(Link(EntryOf(x), 0));
    hide ParseEntry;
    Single(EntryOf(x));
  }

  lemma NeedsParse(x: Sample)
    requires Proper(x)
    ensures ParseNeeds(Build(x), 108, 108, 124) == Some([NeedOf(x)])
  {
    var s := Build(x);
    NeedFields(x);
    Strings(x);
    EntriesParse(x);
    hide Build, CString, U16, U32, ParseEntries, Prepend;
    assert ParseNeed(s, 108, 108) == Some(Link(NeedOf(x), 0));
    hide ParseNeed;
    Single(NeedOf(x));
  }

  lemma SectionParses(x: Sample)
    requires Proper(x)
    ensures ParseSection(Build(x), HEADER, 64) == Some(SectionOf(x))
  {
    SectionHeaderFields(x);
    Strings(x);
    NeedsParse(x);
    hide Build, CString, U32, U64, ParseNeeds, VERSION_R, NeedOf;
    assert ParseSectionHeader(Build(x), HEADER, 64) == SectionHeader(150, 108, 124, 64);
    hide ParseSectionHeader;
  }

  lemma SectionsParse(x: Sample)
    requires Proper(x)
    ensures ParseSections(Build(x), HEADER, 0) == Some([SectionOf(x)])
  {
    SectionParses(x);
    hide Build, Prepend, ParseSection, SectionOf;
    assert ParseSections(Build(x), HEADER, 1) == Some([]);
    Single(SectionOf(x));
  }

  lemma SampleParses(x: Sample)
    requires Proper(x)
    ensures Parse(Build(x)) == Elf(HEADER, [SectionOf(x)])
  {
    FileHeaderFields(x);
    SectionHeaderFields(x);
    SectionsParse(x);
    hide Build, U16, U64, Identify, ParseSections;
    assert ParseHeader(Build(x)) == Some(HEADER);
  }

  // ----- The hypothesis of the patch theorems

  /** A version word can only start where the gap does, or in the name. */
  predicate Tame(x: Sample) {
    Proper(x) && 0x47 !in x.gap[1..] && 0x47 !in LE32(x.hash)
  }

  lemma NoGAround()
    ensures 0x47 !in FRONT && 0x47 !in BACK
  {
    assert 0x47 !in FILE_HEADER && 0x47 !in SECTION_HEADER;
    assert 0x47 !in NEED && 0x47 !in ENTRY && 0x47 !in VERSION_R + [0] && 0x47 !in FILE_NAME + [0];
    hide FILE_HEADER, SECTION_HEADER, NEED, ENTRY, VERSION_R, FILE_NAME;
  }

  lemma HitsInSample(x: Sample, p: int)
    requires Tame(x) && Hit(Build(x), Old(), p)
    ensures p == 124 || p >= 170
  {
    var s := Build(x);
    OldVersionsReplaceable();
    HitByte(s, Old(), p, p);
    hide Old, Hit;
    Parts(x);
    Sizes();
    NoGAround();
    hide FRONT, BACK, Build, LE32;
    assert forall k :: 0 <= k < 124 ==> s[k] == s[0..124][k];
    assert forall k :: 124 < k < 134 ==> s[k] == s[124..134][k - 124] == x.gap[1..][k - 125];
    assert forall k :: 134 <= k < 138 ==> s[k] == s[134..138][k - 134];
    assert forall k :: 138 <= k < 170 ==> s[k] == s[138..170][k - 138];
  }

  lemma DigitsInSample(x: Sample, k: int)
    requires Tame(x) && k in Digits(Build(x))
    ensures 132 <= k < 134 || k >= 178
  {
    HitsInSample(x, if Hit(Build(x), Old(), k - 8) then k - 8 else k - 9);
  }

  lemma SampleCells(x: Sample)
    requires Proper(x)
    ensures ImageCells(Parse(Build(x))) == {CellOf(x)}
    ensures CellBytes({CellOf(x)}) == {134, 135, 136, 137}
  {
    SampleParses(x);
    hide Build, Parse;
    var e, n, sec := EntryOf(x), NeedOf(x), SectionOf(x);
    assert [e][1..] == [] && EntriesCells([e]) == {CellOf(x)};
    assert [n][1..] == [] && NeedsCells([n]) == {CellOf(x)};
    assert [sec][1..] == [] && SectionsCells([sec]) == {CellOf(x)};
    OneCell(CellOf(x));
  }

  /** A change of the gap's last bytes, the hash field and the name's own bytes touches no structure. */
  lemma LayoutClear(c: Change, size: nat, x: Sample)
    requires forall k :: k in c.bytes ==> 132 <= k < 138 || k >= 178
    requires forall k :: k in c.ends ==> 134 <= k < 138
    ensures ImageClear(size, c, Elf(HEADER, [SectionOf(x)]))
  {
    var e, n, sec := EntryOf(x), NeedOf(x), SectionOf(x);
    assert [e][1..] == [] && EntriesClear(c, [e]);
    assert [n][1..] == [] && NeedsClear(size, c, [n]);
    assert [sec][1..] == [] && SectionsClear(size, c, [sec]);
  }

  lemma RepairableFromParts(digits: set<int>, size: nat, img: Image, x: Sample)
    requires img == Elf(HEADER, [SectionOf(x)])
    requires ImageCells(img) == {CellOf(x)} && CellBytes(ImageCells(img)) == {134, 135, 136, 137}
    requires forall k :: k in digits ==> 132 <= k < 134 || k >= 178
    ensures Repairable(Change(digits, {}), size, img)
  {
    hide ImageClear, ImageCells, CellBytes, SectionOf;
    LayoutClear(Writing(Change(digits, {}), ImageCells(img)), size, x);
  }

  lemma SampleRepairable(x: Sample)
    requires Tame(x)
    ensures var s := Build(x); Repairable(DigitChange(s), |s|, Parse(s))
  {
    var s := Build(x);
    SampleParses(x);
    SampleCells(x);
    forall k | k in Digits(s)
      ensures 132 <= k < 134 || k >= 178
    {
      DigitsInSample(x, k);
    }
    hide Build, Parse, Digits, ImageCells, CellBytes, SectionOf, Repairable;
    RepairableFromParts(Digits(s), |s|, Parse(s), x);
  }

  lemma SampleIntactIff(x: Sample)
    requires Tame(x)
    ensures ImageIntact(Build(x), Parse(Build(x))) <==> EntryIntact(Build(x), EntryOf(x))
  {
    SampleParses(x);
    forall k | k in Digits(Build(x))
      ensures 132 <= k < 134 || k >= 178
    {
      DigitsInSample(x, k);
    }
    hide Build, Parse, EntryIntact, Digits;
    var s := Build(x);
    var e, n, sec := EntryOf(x), NeedOf(x), SectionOf(x);
    assert [e][1..] == [] && (EntriesIntact(s, [e]) <==> EntryIntact(s, e));
    assert [n][1..] == [] && (NeedsIntact(s, [n]) <==> EntryIntact(s, e));
    assert [sec][1..] == [] && (SectionsIntact(s, [sec]) <==> EntryIntact(s, e));
  }

  // ----- An intact name and one that is not

  /** GLIBC_2.34 */
  const OLD_NAME: seq<Byte> := Version(0x33, 0x34)[..10]

  /** A requirement of a version, in an image without any other content. */
  function Plain(name: seq<Byte>): Sample {
    Sample(Zeros(10), 0, name)
  }

  lemma PlainIsTame(name: seq<Byte>)
    requires 0 !in name
    ensures Tame(Plain(name))
  {
  }

  lemma OldNameHasNoNuls()
    ensures 0 !in OLD_NAME && 0 !in [0x58] + OLD_NAME
  {
  }

  lemma HitInPlain(prefix: seq<Byte>)
    requires 0 !in prefix + OLD_NAME
    ensures Hit(Build(Plain(prefix + OLD_NAME)), Old(), 170 + |prefix|)
  {
    var x, w := Plain(prefix + OLD_NAME), Version(0x33, 0x34);
    var s := Build(x);
    Parts(x);
    hide FRONT, BACK, LE32, Build;
    assert OLD_NAME + [0] == w && w in OLD_VERSIONS && w in Old();
    assert s[170..] == prefix + (OLD_NAME + [0]);
    assert s[170 + |prefix|..170 + |prefix| + WORD] == s[170..][|prefix|..|prefix| + WORD] == w;
  }

  lemma RenamesOldName()
    ensures Rename(OLD_NAME) != OLD_NAME
  {
    assert OLD_NAME + [0] == Version(0x33, 0x34) && Version(0x33, 0x34) in OLD_VERSIONS;
    assert OLD_NAME[8] == 0x33 && NEW_VERSION[8] == 0x31;
  }

  /** A requirement of GLIBC_2.34 becomes one of GLIBC_2.17. */
  lemma WholeNameIsRenamed()
    ensures Proper(Plain(OLD_NAME)) && Rename(OLD_NAME) != OLD_NAME
    ensures var s := Build(Plain(OLD_NAME)); Parse(Patched(s)) == RenameImage(Parse(s))
    ensures HasOneEntry(Parse(Patched(Build(Plain(OLD_NAME)))), Chars("GLIBC_2.17"), 0x06969197)
  {
    hide Build, Parse, Patched, RenameImage, ImageIntact, Old, Repairable, Hit, Rename, Digits, OLD_NAME;
    var x := Plain(OLD_NAME);
    assert [] + OLD_NAME == OLD_NAME;
    OldNameHasNoNuls();
    PlainIsTame(OLD_NAME);
    HitInPlain([]);
    SampleRepairable(x);
    SampleIntactIff(x);
    MeaningPreserved(Build(x));
    RenamesOldName();
    SampleParses(x);
    RenamedEntry(x);
  }

  /** The only requirement in the image is of `name`, with this hash. */
  predicate HasOneEntry(img: Image, name: seq<Byte>, hash: nat) {
    img.Elf? && |img.sections| == 1 && img.sections[0].Requirements? && |img.sections[0].needs| == 1
    && var es := img.sections[0].needs[0].entries; |es| == 1 && es[0].name == name && es[0].hash == hash
  }

  lemma RenamedEntry(x: Sample)
    requires x.name == OLD_NAME
    ensures HasOneEntry(RenameImage(Elf(HEADER, [SectionOf(x)])), Chars("GLIBC_2.17"), 0x06969197)
  {
    HashOfNewVersion();
    NewName();
    hide Hash, Chars, Rename, OLD_NAME;
    var e, n, sec := EntryOf(x), NeedOf(x), SectionOf(x);
    assert [e][1..] == [] && RenameEntries([e]) == [RenameEntry(e)];
    assert [n][1..] == [] && RenameNeeds([n]) == [n.(entries := [RenameEntry(e)])];
    assert [sec][1..] == [] && RenameSections([sec]) == [RenameSection(sec)];
  }

  lemma NewName()
    ensures Rename(OLD_NAME) == Chars("GLIBC_2.17")
  {
    assert OLD_NAME + [0] == Version(0x33, 0x34) && Version(0x33, 0x34) in OLD_VERSIONS;
  }

  /** A requirement of XGLIBC_2.34 is rewritten although no version has that name. */
  lemma PartOfNameIsRewritten()
    ensures var name := [0x58] + OLD_NAME;
            && Proper(Plain(name)) && Rename(name) == name
            && Parse(Patched(Build(Plain(name)))) != RenameImage(Parse(Build(Plain(name))))
  {
    hide Build, Parse, Patched, RenameImage, ImageIntact, Old, Repairable;
    var name := [0x58] + OLD_NAME;
    var x := Plain(name);
    OldNameHasNoNuls();
    PlainIsTame(name);
    var s := Build(x);
    HitInPlain([0x58]);
    SampleRepairable(x);
    SampleIntactIff(x);
    MeaningPreserved(s);
    Strings(x);
    HitIsWholeName(s, 170, name);
    assert !Hit(s, Old(), 170);
    assert Hit(s, Old(), 179 - 8) && 179 in Digits(s);
  }

  // ----- A second run that is not idle

  /** GLIBC_2.36 without its NUL, right before the hash field. */
  const WORD_START: seq<Byte> := Version(0x33, 0x36)[..10]

  /** A name whose hash is 0x500: its lowest byte, the first that is stored, is a NUL. */
  const SHORT_NAME: seq<Byte> := [0x4c, 0x40]

  function Unfinished(hash: nat): Sample {
    Sample(WORD_START, hash, SHORT_NAME)
  }

  lemma ShortNameHash()
    ensures Hash(SHORT_NAME) == 0x500
  {
    hide Step;
    assert DecodeAscii(SHORT_NAME) == [0x4c, 0x40] && [0x4c, 0x40][1..] == [0x40] && [0x40][1..] == [];
    StepOf(0, 0x4c, 0, 0, 0x4c);
    StepOf(0x4c, 0x40, 0, 5, 0);
  }

  lemma UnfinishedIsTame(hash: nat)
    requires hash == 1 || hash == 0x500
    ensures Tame(Unfinished(hash))
  {
    assert LE32(1) == [1, 0, 0, 0] && LE32(0x500) == [0, 5, 0, 0];
  }

  lemma NotOld(w: seq<Byte>)
    requires |w| == WORD && w[10] != 0
    ensures w !in Old()
  {
    if w in Old() {
      OldDigits(w);
    }
  }

  /** With the stale hash 1 there is no word anywhere, so the string pass changes nothing. */
  lemma NothingToRetag()
    requires Tame(Unfinished(1))
    ensures Substitute(Build(Unfinished(1)), Old()) == Build(Unfinished(1))
  {
    hide Old, Substitute;
    var s := Build(Unfinished(1));
    Parts(Unfinished(1));
    assert s[134..138][0] == 1;
    NotOld(s[124..135]);
    forall p
      ensures !Hit(s, Old(), p)
    {
      if Hit(s, Old(), p) {
        HitsInSample(Unfinished(1), p);
      }
    }
    ChangedIffOccurs(s);
  }

  lemma WordIsOld()
    ensures WORD_START + [0] in Old()
  {
    assert WORD_START + [0] == Version(0x33, 0x36) && Version(0x33, 0x36) in OLD_VERSIONS;
  }

  lemma FieldCompletesOld(s: seq<Byte>, c: Cell)
    requires c.at == 134 && |s| >= 138 && s[124..134] + [0] in Old()
    requires LE32(Hash(Slice(s, c.nameAt, c.len)))[0] == 0
    ensures CompletesWord(s, {c})
  {
    OneCell(c);
    hide Old, Hash, Slice, LE32, CellBytes, Store;
    assert Clear(CellBytes({c}), 124, 134);
    var t := Store(s, 134, LE32(Hash(Slice(s, c.nameAt, c.len))));
    assert t[124..135] == s[124..134] + [0];
    assert Completes(s, {c}, c, 124);
  }

  lemma HashCompletesWord()
    requires Tame(Unfinished(1))
    ensures CompletesWord(Build(Unfinished(1)), {CellOf(Unfinished(1))})
  {
    var x := Unfinished(1);
    var s := Build(x);
    Parts(x);
    NameInSample(x);
    ShortNameHash();
    assert LE32(0x500)[0] == 0;
    WordIsOld();
    hide Build, Old, Hash, LE32, Slice;
    FieldCompletesOld(s, CellOf(x));
  }

  lemma NameInSample(x: Sample)
    requires Proper(x)
    ensures Slice(Build(x), 170, |x.name|) == x.name
  {
    var s := Build(x);
    Parts(x);
    hide Build;
    assert s[170..170 + |x.name|] == s[170..][..|x.name|] == x.name;
  }

  lemma PatchedBytes(s: seq<Byte>, t: seq<Byte>, c: Cell)
    requires Final(s, t, {c}) && Substitute(s, Old()) == s
    ensures |t| == |s| && c.at + 4 <= |t| && U32(t, c.at) == Hash(Slice(s, c.nameAt, c.len))
    ensures forall k :: 0 <= k < |s| && !(c.at <= k < c.at + 4) ==> t[k] == s[k]
  {
    OneCell(c);
    hide Substitute, Old, Hash, Slice, Unsigned, CellBytes;
    assert c in {c} && Holds(s, t, c);
    forall k | 0 <= k < |s| && !(c.at <= k < c.at + 4)
      ensures t[k] == s[k]
    {
      assert k !in CellBytes({c});
    }
  }

  lemma SameButHash(k: nat)
    requires Tame(Unfinished(1)) && Tame(Unfinished(0x500)) && k < 173 && !(134 <= k < 138)
    ensures Build(Unfinished(1))[k] == Build(Unfinished(0x500))[k]
  {
    Sizes();
    hide FRONT, BACK, LE32;
  }

  lemma PatchedUnfinished()
    requires Tame(Unfinished(1)) && Tame(Unfinished(0x500))
    ensures Patched(Build(Unfinished(1))) == Build(Unfinished(0x500))
  {
    var x, y := Unfinished(1), Unfinished(0x500);
    var s, t, u := Build(x), Patched(Build(x)), Build(y);
    SampleRepairable(x);
    SampleCells(x);
    NothingToRetag();
    hide Build, Patched, Parse, Repairable, Substitute, Old, ImageCells, CellBytes, CellOf;
    FirstRun(s);
    HashOfShort();
    hide Tame;
    assert Final(s, t, {CellOf(x)});
    PatchedFields(s, t);
    EntryFields(y);
    hide Final, Unfinished, Hash, Slice, U16, U32;
    forall k | 0 <= k < 173 && !(134 <= k < 138)
      ensures t[k] == u[k]
    {
      SameButHash(k);
    }
    EqualFields(t, u, 134);
  }

  lemma EqualFields(t: seq<Byte>, u: seq<Byte>, at: nat)
    requires |t| == |u| && at + 4 <= |t| && U32(t, at) == U32(u, at)
    requires forall k :: 0 <= k < |t| && !(at <= k < at + 4) ==> t[k] == u[k]
    ensures t == u
  {
    UnsignedInjective(t[at..at + 4], u[at..at + 4]);
    forall k | at <= k < at + 4
      ensures t[k] == u[k]
    {
      assert t[k] == t[at..at + 4][k - at] && u[k] == u[at..at + 4][k - at];
    }
  }

  /** The hash that the walk computes for the short name. */
  lemma HashOfShort()
    requires Tame(Unfinished(1))
    ensures Hash(Slice(Build(Unfinished(1)), 170, 2)) == 0x500
  {
    NameInSample(Unfinished(1));
    ShortNameHash();
    assert |SHORT_NAME| == 2;
  }

  lemma PatchedFields(s: seq<Byte>, t: seq<Byte>)
    requires Final(s, t, {CellOf(Unfinished(1))}) && Substitute(s, Old()) == s && Hash(Slice(s, 170, 2)) == 0x500
    ensures |t| == |s| && 138 <= |t| && U32(t, 134) == 0x500
    ensures forall k :: 0 <= k < |s| && !(134 <= k < 138) ==> t[k] == s[k]
  {
    hide Substitute, Old, Hash, Slice, Unsigned, Final;
    PatchedBytes(s, t, CellOf(Unfinished(1)));
    assert CellOf(Unfinished(1)) == Cell(134, 170, 2);
  }

  /** The first run stores a hash that completes a version word, so that the second run changes it. */
  lemma SecondRunDiffers()
    ensures Proper(Unfinished(1))
    ensures var s := Build(Unfinished(1)); Patched(Patched(s)) != Patched(s)
  {
    UnfinishedIsTame(1);
    UnfinishedIsTame(0x500);
    var s := Build(Unfinished(1));
    SampleRepairable(Unfinished(1));
    SampleRepairable(Unfinished(0x500));
    SampleCells(Unfinished(1));
    PatchedUnfinished();
    NothingToRetag();
    HashCompletesWord();
    hide Build, Patched, Parse, ImageCells, Repairable, Substitute, Old, CompletesWord, CellOf;
    PatchedTwiceIff(s);
  }
}
