/** The part of a 64-bit little-endian ELF image that describes version requirements
    (sections 10.7.2 to 10.7.4 of the Linux Standard Base Core specification), as values. */
module ElfImage {
  import opened Wrappers
  import opened Bytes

  /** One Vernaux entry. `at` is its offset, which is also the offset of its hash field. */
  datatype Entry = Entry(at: nat, hash: nat, flags: nat, other: nat, nameAt: nat, name: seq<Byte>)

  /** One Verneed entry with the chain it heads. A file name that runs off the image is None. */
  datatype Need = Need(at: nat, version: nat, count: nat, fileAt: nat, file: Option<seq<Byte>>, entries: seq<Entry>)

  datatype Section =
    | Plain(at: nat, nameAt: nat, name: seq<Byte>)
    | Requirements(at: nat, nameAt: nat, name: seq<Byte>, linkAt: nat, start: nat, end: nat, needs: seq<Need>)

  datatype Header = Header(shoff: nat, entsize: nat, count: nat, strAt: nat, strtab: nat)

  /** Malformed: following the image raises IndexError or struct.error. */
  datatype Image = Foreign | Malformed | Elf(header: Header, sections: seq<Section>)

  const MAGIC: seq<Byte> := [0x7f, 0x45, 0x4c, 0x46]

  /** `.gnu.version_r` */
  const VERSION_R: seq<Byte> := [
    0x2e, 0x67, 0x6e, 0x75, 0x2e, 0x76, 0x65, 0x72, 0x73, 0x69, 0x6f, 0x6e, 0x5f, 0x72]

  /** A chain element and the distance to its successor; 0 ends the chain. */
  datatype Link<T> = Link(item: T, next: nat)

  function Prepend<T>(x: T, rest: Option<seq<T>>): (r: Option<seq<T>>)
    ensures r.Some? <==> rest.Some?
    ensures r.Some? ==> |r.value| > 0 && r.value[0] == x && r.value[1..] == rest.value
  {
    if rest.None? then None else Some([x] + rest.value)
  }

  function ParseEntry(s: seq<Byte>, strtab: nat, at: nat): (r: Option<Link<Entry>>)
    ensures r.Some? ==> at + 16 <= |s| && r.value.item.at == at
  {
    if at + 16 > |s| then None
    else
      var nameAt := strtab + U32(s, at + 8);
      var name := CString(s, nameAt);
      if name.None? then None
      else
        Some(Link(Entry(at, U32(s, at), U16(s, at + 4), U16(s, at + 6), nameAt, name.value), U32(s, at + 12)))
  }

  function ParseEntries(s: seq<Byte>, strtab: nat, at: nat): (r: Option<seq<Entry>>)
    decreases |s| - at
  {
    var head := ParseEntry(s, strtab, at);
    if head.None? then None
    else
      var rest := if head.value.next == 0 then Some([]) else ParseEntries(s, strtab, at + head.value.next);
      Prepend(head.value.item, rest)
  }

  function ParseNeed(s: seq<Byte>, strtab: nat, off: nat): (r: Option<Link<Need>>)
    ensures r.Some? ==> off + 16 <= |s| && r.value.item.at == off
  {
    if off + 16 > |s| then None
    else
      var entries, fileAt := ParseEntries(s, strtab, off + U32(s, off + 8)), strtab + U32(s, off + 4);
      if entries.None? then None
      else
        Some(Link(Need(off, U16(s, off), U16(s, off + 2), fileAt, CString(s, fileAt), entries.value), U32(s, off + 12)))
  }

  function ParseNeeds(s: seq<Byte>, strtab: nat, off: nat, end: nat): (r: Option<seq<Need>>)
    decreases |s| - off
  {
    if off >= end then Some([])
    else
      var head := ParseNeed(s, strtab, off);
      if head.None? then None
      else
        var rest := if head.value.next == 0 then Some([]) else ParseNeeds(s, strtab, off + head.value.next, end);
        Prepend(head.value.item, rest)
  }

  /** The offset of element `i` of the section header table. */
  function HeaderAt(shoff: nat, i: nat, entsize: nat): nat {
    shoff + i * entsize
  }

  /** The fields of a section header that the script reads. */
  datatype SectionHeader = SectionHeader(nameAt: nat, start: nat, end: nat, linkAt: nat)

  function ParseSectionHeader(s: seq<Byte>, h: Header, at: nat): SectionHeader
    requires at + 0x2C <= |s|
  {
    var start := U64(s, at + 0x18);
    SectionHeader(h.strtab + U32(s, at), start, start + U64(s, at + 0x20),
                  HeaderAt(h.shoff, U32(s, at + 0x28), h.entsize))
  }

  function ParseSection(s: seq<Byte>, h: Header, at: nat): (r: Option<Section>)
    ensures r.Some? ==> at + 0x2C <= |s| && r.value.at == at
  {
    if at + 0x2C > |s| then None
    else
      var sh := ParseSectionHeader(s, h, at);
      var name := CString(s, sh.nameAt);
      if name.None? then None
      else if name.value != VERSION_R then Some(Plain(at, sh.nameAt, name.value))
      else if sh.linkAt + 0x20 > |s| then None
      else
        var needs := ParseNeeds(s, U64(s, sh.linkAt + 0x18), sh.start, sh.end);
        if needs.None? then None
        else Some(Requirements(at, sh.nameAt, name.value, sh.linkAt, sh.start, sh.end, needs.value))
  }

  function ParseSections(s: seq<Byte>, h: Header, i: nat): (r: Option<seq<Section>>)
    decreases h.count - i
  {
    if i >= h.count then Some([])
    else
      var head := ParseSection(s, h, HeaderAt(h.shoff, i, h.entsize));
      if head.None? then None else Prepend(head.value, ParseSections(s, h, i + 1))
  }

  /** The identification checks, in the order the script's `or` evaluates them. */
  datatype Ident = Elf64LE | Other | Short

  function Identify(s: seq<Byte>): Ident {
    if |s| < 4 || s[..4] != MAGIC then Other
    else if |s| == 4 then Short
    else if s[4] != 2 then Other
    else if |s| == 5 then Short
    else if s[5] != 1 then Other
    else Elf64LE
  }

  function ParseHeader(s: seq<Byte>): (r: Option<Header>)
  {
    if |s| < 0x40 then None
    else
      var shoff, entsize := U64(s, 0x28), U16(s, 0x3A);
      var strAt := HeaderAt(shoff, U16(s, 0x3E), entsize);
      if strAt + 0x20 > |s| then None
      else Some(Header(shoff, entsize, U16(s, 0x3C), strAt, U64(s, strAt + 0x18)))
  }

  function Parse(s: seq<Byte>): Image {
    match Identify(s)
    case Other => Foreign
    case Short => Malformed
    case Elf64LE =>
      match ParseHeader(s)
      case None => Malformed
      case Some(h) =>
        match ParseSections(s, h, 0)
        case None => Malformed
        case Some(sections) => Elf(h, sections)
  }

  // ----- Which bytes an image is made of

  /** Positions whose byte may change, and positions where a string end may appear or go away. */
  datatype Change = Change(bytes: set<int>, ends: set<int>) {
    ghost predicate Between(s: seq<Byte>, t: seq<Byte>) {
      && |s| == |t|
      && (forall k :: 0 <= k < |s| && k !in bytes ==> s[k] == t[k])
      && (forall k :: 0 <= k < |s| && k !in ends ==> (s[k] == 0 <==> t[k] == 0))
    }
  }

  ghost predicate Clear(ks: set<int>, lo: int, hi: int) {
    forall k :: k in ks ==> !(lo <= k < hi)
  }

  /** Apart from the hash field, the entry's bytes do not change, nor does its name change length. */
  ghost predicate EntryClear(c: Change, e: Entry) {
    && Clear(c.bytes, e.at + 4, e.at + 16)
    && Clear(c.ends, e.nameAt, e.nameAt + |e.name| + 1)
  }

  ghost predicate EntriesClear(c: Change, es: seq<Entry>) {
    es == [] || (EntryClear(c, es[0]) && EntriesClear(c, es[1..]))
  }

  ghost predicate NeedClear(size: nat, c: Change, n: Need) {
    && Clear(c.bytes, n.at, n.at + 16)
    && Clear(c.ends, n.fileAt, if n.file.Some? then n.fileAt + |n.file.value| + 1 else size)
    && EntriesClear(c, n.entries)
  }

  /** `size` is the length of the image: it bounds a file name that never ends. */
  ghost predicate NeedsClear(size: nat, c: Change, ns: seq<Need>) {
    ns == [] || (NeedClear(size, c, ns[0]) && NeedsClear(size, c, ns[1..]))
  }

  ghost predicate SectionClear(size: nat, c: Change, sec: Section) {
    && Clear(c.bytes, sec.at, sec.at + 8)
    && Clear(c.bytes, sec.at + 0x18, sec.at + 0x2C)
    && Clear(c.bytes, sec.nameAt, sec.nameAt + |sec.name| + 1)
    && (sec.Requirements? ==> Clear(c.bytes, sec.linkAt + 0x18, sec.linkAt + 0x20) && NeedsClear(size, c, sec.needs))
  }

  ghost predicate SectionsClear(size: nat, c: Change, secs: seq<Section>) {
    secs == [] || (SectionClear(size, c, secs[0]) && SectionsClear(size, c, secs[1..]))
  }

  ghost predicate HeaderClear(c: Change, h: Header) {
    && Clear(c.bytes, 0, 6) && Clear(c.bytes, 0x28, 0x30) && Clear(c.bytes, 0x3A, 0x40)
    && Clear(c.bytes, h.strAt + 0x18, h.strAt + 0x20)
  }

  ghost predicate ImageClear(size: nat, c: Change, img: Image) {
    img.Elf? ==> HeaderClear(c, img.header) && SectionsClear(size, c, img.sections)
  }

  // ----- Reading an image again after some of its bytes changed

  /** `n` bytes from `at`, padded past the end of the image. */
  function Slice(t: seq<Byte>, at: nat, n: nat): (r: seq<Byte>)
    ensures |r| == n
    ensures at + n <= |t| ==> r == t[at..at + n]
  {
    seq(n, i requires 0 <= i < n => if at + i < |t| then t[at + i] else 0)
  }

  function RereadEntry(t: seq<Byte>, e: Entry): Entry {
    e.(hash := if e.at + 4 <= |t| then U32(t, e.at) else 0, name := Slice(t, e.nameAt, |e.name|))
  }

  function RereadEntries(t: seq<Byte>, es: seq<Entry>): seq<Entry> {
    if es == [] then [] else [RereadEntry(t, es[0])] + RereadEntries(t, es[1..])
  }

  function RereadNeed(t: seq<Byte>, n: Need): Need {
    n.(file := if n.file.None? then None else Some(Slice(t, n.fileAt, |n.file.value|)),
       entries := RereadEntries(t, n.entries))
  }

  function RereadNeeds(t: seq<Byte>, ns: seq<Need>): seq<Need> {
    if ns == [] then [] else [RereadNeed(t, ns[0])] + RereadNeeds(t, ns[1..])
  }

  function RereadSection(t: seq<Byte>, sec: Section): Section {
    if sec.Plain? then sec else sec.(needs := RereadNeeds(t, sec.needs))
  }

  function RereadSections(t: seq<Byte>, secs: seq<Section>): seq<Section> {
    if secs == [] then [] else [RereadSection(t, secs[0])] + RereadSections(t, secs[1..])
  }

  /** The same layout with hash fields, version names and file names taken from `t`. */
  function Reread(t: seq<Byte>, img: Image): Image {
    if img.Elf? then img.(sections := RereadSections(t, img.sections)) else img
  }

  lemma StringAgain(c: Change, s: seq<Byte>, t: seq<Byte>, at: nat)
    requires c.Between(s, t)
    requires var r := CString(s, at); Clear(c.ends, at, if r.Some? then at + |r.value| + 1 else |s|)
    ensures var r := CString(s, at);
            CString(t, at) == if r.None? then None else Some(Slice(t, at, |r.value|))
  {
    var r := NulAt(s, at);
    NulAtIsFirst(s, at);
    if r.Some? {
      NulAtIs(t, at, r.value);
    } else {
      NoNul(t, at);
    }
  }

  lemma BytesKept(c: Change, s: seq<Byte>, t: seq<Byte>, lo: nat, hi: nat)
    requires c.Between(s, t) && lo <= hi <= |s| && Clear(c.bytes, lo, hi)
    ensures t[lo..hi] == s[lo..hi]
  {
  }

  lemma StringKept(c: Change, s: seq<Byte>, t: seq<Byte>, at: nat)
    requires c.Between(s, t) && c.ends <= c.bytes && CString(s, at).Some?
    requires Clear(c.bytes, at, at + |CString(s, at).value| + 1)
    ensures CString(t, at) == CString(s, at)
  {
    StringAgain(c, s, t, at);
    BytesKept(c, s, t, at, at + |CString(s, at).value|);
  }

  lemma EntryFieldsAgain(c: Change, s: seq<Byte>, t: seq<Byte>, at: nat)
    requires c.Between(s, t) && at + 16 <= |s| && Clear(c.bytes, at + 4, at + 16)
    ensures U16(t, at + 4) == U16(s, at + 4) && U16(t, at + 6) == U16(s, at + 6)
    ensures U32(t, at + 8) == U32(s, at + 8) && U32(t, at + 12) == U32(s, at + 12)
  {
    BytesKept(c, s, t, at + 4, at + 6);
    BytesKept(c, s, t, at + 6, at + 8);
    BytesKept(c, s, t, at + 8, at + 12);
    BytesKept(c, s, t, at + 12, at + 16);
  }

  lemma EntryAgain(c: Change, s: seq<Byte>, t: seq<Byte>, strtab: nat, at: nat, e: Entry, next: nat)
    requires c.Between(s, t) && ParseEntry(s, strtab, at) == Some(Link(e, next)) && EntryClear(c, e)
    ensures ParseEntry(t, strtab, at) == Some(Link(RereadEntry(t, e), next))
  {
    hide NulAt, Unsigned;
    EntryFieldsAgain(c, s, t, at);
    StringAgain(c, s, t, e.nameAt);
  }

  lemma {:induction false} EntriesAgain(c: Change, s: seq<Byte>, t: seq<Byte>, strtab: nat, at: nat, es: seq<Entry>)
    requires c.Between(s, t) && ParseEntries(s, strtab, at) == Some(es) && EntriesClear(c, es)
    ensures ParseEntries(t, strtab, at) == Some(RereadEntries(t, es))
    decreases |s| - at
  {
    hide ParseEntry, RereadEntry, EntryClear;
    var Link(e, next) := ParseEntry(s, strtab, at).value;
    EntryAgain(c, s, t, strtab, at, e, next);
    if next != 0 {
      EntriesAgain(c, s, t, strtab, at + next, es[1..]);
    }
  }

  lemma NeedFieldsAgain(c: Change, s: seq<Byte>, t: seq<Byte>, at: nat)
    requires c.Between(s, t) && at + 16 <= |s| && Clear(c.bytes, at, at + 16)
    ensures U16(t, at) == U16(s, at) && U16(t, at + 2) == U16(s, at + 2) && U32(t, at + 4) == U32(s, at + 4)
    ensures U32(t, at + 8) == U32(s, at + 8) && U32(t, at + 12) == U32(s, at + 12)
  {
    BytesKept(c, s, t, at, at + 2);
    BytesKept(c, s, t, at + 2, at + 4);
    BytesKept(c, s, t, at + 4, at + 8);
    BytesKept(c, s, t, at + 8, at + 12);
    BytesKept(c, s, t, at + 12, at + 16);
  }

  lemma NeedAgain(c: Change, s: seq<Byte>, t: seq<Byte>, strtab: nat, off: nat, n: Need, next: nat)
    requires c.Between(s, t) && ParseNeed(s, strtab, off) == Some(Link(n, next)) && NeedClear(|s|, c, n)
    ensures ParseNeed(t, strtab, off) == Some(Link(RereadNeed(t, n), next))
  {
    hide ParseEntries, RereadEntries, EntriesClear, CString, U16, U32;
    NeedFieldsAgain(c, s, t, off);
    StringAgain(c, s, t, n.fileAt);
    EntriesAgain(c, s, t, strtab, off + U32(s, off + 8), n.entries);
    NeedFromParts(s, t, strtab, off, n, next);
  }

  lemma NeedFromParts(s: seq<Byte>, t: seq<Byte>, strtab: nat, off: nat, n: Need, next: nat)
    requires |s| == |t| && ParseNeed(s, strtab, off) == Some(Link(n, next))
    requires U16(t, off) == U16(s, off) && U16(t, off + 2) == U16(s, off + 2) && U32(t, off + 4) == U32(s, off + 4)
    requires U32(t, off + 8) == U32(s, off + 8) && U32(t, off + 12) == U32(s, off + 12)
    requires CString(t, n.fileAt) == RereadNeed(t, n).file
    requires ParseEntries(t, strtab, off + U32(s, off + 8)) == Some(RereadEntries(t, n.entries))
    ensures ParseNeed(t, strtab, off) == Some(Link(RereadNeed(t, n), next))
  {
    hide ParseEntries, RereadEntries, CString, U16, U32;
  }

  lemma {:induction false} NeedsAgain(c: Change, s: seq<Byte>, t: seq<Byte>, strtab: nat, off: nat, end: nat,
                                      ns: seq<Need>)
    requires c.Between(s, t) && ParseNeeds(s, strtab, off, end) == Some(ns) && NeedsClear(|s|, c, ns)
    ensures ParseNeeds(t, strtab, off, end) == Some(RereadNeeds(t, ns))
    decreases |s| - off
  {
    hide ParseNeed, RereadNeed, NeedClear;
    if off < end {
      var Link(n, next) := ParseNeed(s, strtab, off).value;
      NeedAgain(c, s, t, strtab, off, n, next);
      if next != 0 {
        NeedsAgain(c, s, t, strtab, off + next, end, ns[1..]);
      }
    }
  }

  lemma SectionHeaderAgain(c: Change, s: seq<Byte>, t: seq<Byte>, h: Header, at: nat)
    requires c.Between(s, t) && at + 0x2C <= |s|
    requires Clear(c.bytes, at, at + 8) && Clear(c.bytes, at + 0x18, at + 0x2C)
    ensures ParseSectionHeader(t, h, at) == ParseSectionHeader(s, h, at)
  {
    BytesKept(c, s, t, at, at + 4);
    BytesKept(c, s, t, at + 0x18, at + 0x20);
    BytesKept(c, s, t, at + 0x20, at + 0x28);
    BytesKept(c, s, t, at + 0x28, at + 0x2C);
  }

  lemma SectionAgain(c: Change, s: seq<Byte>, t: seq<Byte>, h: Header, at: nat, sec: Section)
    requires c.Between(s, t) && c.ends <= c.bytes && ParseSection(s, h, at) == Some(sec) && SectionClear(|s|, c, sec)
    ensures ParseSection(t, h, at) == Some(RereadSection(t, sec))
  {
    hide ParseNeeds, RereadNeeds, NeedsClear, CString, Unsigned;
    SectionHeaderAgain(c, s, t, h, at);
    StringKept(c, s, t, sec.nameAt);
    if sec.Requirements? {
      BytesKept(c, s, t, sec.linkAt + 0x18, sec.linkAt + 0x20);
      NeedsAgain(c, s, t, U64(s, sec.linkAt + 0x18), sec.start, sec.end, sec.needs);
      SectionFromParts(s, t, h, at, sec);
    }
  }

  lemma SectionFromParts(s: seq<Byte>, t: seq<Byte>, h: Header, at: nat, sec: Section)
    requires |s| == |t| && ParseSection(s, h, at) == Some(sec) && sec.Requirements?
    requires ParseSectionHeader(t, h, at) == ParseSectionHeader(s, h, at)
    requires CString(t, sec.nameAt) == CString(s, sec.nameAt)
    requires U64(t, sec.linkAt + 0x18) == U64(s, sec.linkAt + 0x18)
    requires ParseNeeds(t, U64(s, sec.linkAt + 0x18), sec.start, sec.end) == Some(RereadNeeds(t, sec.needs))
    ensures ParseSection(t, h, at) == Some(RereadSection(t, sec))
  {
    hide ParseNeeds, RereadNeeds, ParseSectionHeader, CString, U64;
  }

  lemma SectionsFromParts(t: seq<Byte>, h: Header, i: nat, secs: seq<Section>)
    requires i < h.count && secs != []
    requires ParseSection(t, h, HeaderAt(h.shoff, i, h.entsize)) == Some(RereadSection(t, secs[0]))
    requires ParseSections(t, h, i + 1) == Some(RereadSections(t, secs[1..]))
    ensures ParseSections(t, h, i) == Some(RereadSections(t, secs))
  {
    hide ParseSection, RereadSection;
  }

  lemma {:induction false} SectionsAgain(c: Change, s: seq<Byte>, t: seq<Byte>, h: Header, i: nat, secs: seq<Section>)
    requires c.Between(s, t) && c.ends <= c.bytes && ParseSections(s, h, i) == Some(secs) && SectionsClear(|s|, c, secs)
    ensures ParseSections(t, h, i) == Some(RereadSections(t, secs))
    decreases h.count - i
  {
    hide ParseSection, RereadSection, SectionClear;
    if i < h.count {
      SectionAgain(c, s, t, h, HeaderAt(h.shoff, i, h.entsize), secs[0]);
      SectionsAgain(c, s, t, h, i + 1, secs[1..]);
      SectionsFromParts(t, h, i, secs);
    }
  }

  lemma IdentityKept(c: Change, s: seq<Byte>, t: seq<Byte>)
    requires c.Between(s, t) && 6 <= |s| && Clear(c.bytes, 0, 6)
    ensures Identify(t) == Identify(s)
  {
    BytesKept(c, s, t, 0, 6);
    assert t[..4] == t[0..6][..4] && s[..4] == s[0..6][..4];
    assert t[4] == t[0..6][4] && s[4] == s[0..6][4] && t[5] == t[0..6][5] && s[5] == s[0..6][5];
  }

  lemma HeaderAgain(c: Change, s: seq<Byte>, t: seq<Byte>)
    requires c.Between(s, t) && Parse(s).Elf? && HeaderClear(c, Parse(s).header)
    ensures Identify(t) == Identify(s) && ParseHeader(t) == ParseHeader(s)
  {
    hide ParseSections, SectionsClear, Unsigned;
    var h := Parse(s).header;
    IdentityKept(c, s, t);
    BytesKept(c, s, t, 0x28, 0x30);
    BytesKept(c, s, t, 0x3A, 0x3C);
    BytesKept(c, s, t, 0x3C, 0x3E);
    BytesKept(c, s, t, 0x3E, 0x40);
    BytesKept(c, s, t, h.strAt + 0x18, h.strAt + 0x20);
  }

  /** A change outside the structure, and away from string ends, leaves the layout as it was. */
  lemma ParseAgain(c: Change, s: seq<Byte>, t: seq<Byte>)
    requires c.Between(s, t) && c.ends <= c.bytes && Parse(s).Elf? && ImageClear(|s|, c, Parse(s))
    ensures Parse(t) == Reread(t, Parse(s))
  {
    HeaderAgain(c, s, t);
    SectionsAgain(c, s, t, Parse(s).header, 0, Parse(s).sections);
  }
}
