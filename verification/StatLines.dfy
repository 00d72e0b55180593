/** The parser of /proc/<pid>/task/<tid>/stat lines in the cpu command of atldbg. */
module StatLines {
  import opened Wrappers

  // ----- Python string operations

  /** Where str.splitlines breaks. */
  predicate IsBreak(c: char) {
    c in {'\n', '\U{0b}', '\U{0c}', '\r', '\U{1c}', '\U{1d}', '\U{1e}', '\U{85}', '\U{2028}', '\U{2029}'}
  }

  /** Python's white space. */
  predicate IsSpace(c: char) {
    || IsBreak(c)
    || c in {' ', '\t', '\U{1f}', '\U{a0}', '\U{1680}', '\U{202f}', '\U{205f}', '\U{3000}'}
    || '\U{2000}' <= c <= '\U{200a}'
  }

  predicate NoBreak(s: string) {
    forall i :: 0 <= i < |s| ==> !IsBreak(s[i])
  }

  function LineLength(s: string): (n: nat)
    ensures n <= |s| && NoBreak(s[..n])
    ensures n < |s| ==> IsBreak(s[n])
  {
    if s == [] || IsBreak(s[0]) then 0 else 1 + LineLength(s[1..])
  }

  /** s.splitlines(): a carriage return and a line feed are one break, and a break at the end starts no line. */
  function SplitLines(s: string): (lines: seq<string>)
    ensures forall line :: line in lines ==> NoBreak(line)
    decreases |s|
  {
    if s == [] then []
    else
      var n := LineLength(s);
      var width := if "\r\n" <= s[n..] then 2 else 1;
      [s[..n]] + if n + width <= |s| then SplitLines(s[n + width..]) else []
  }

  /** Position of the first `c`, or the length. */
  function First(s: string, c: char): (r: nat)
    ensures r <= |s|
  {
    if s == [] || s[0] == c then 0 else 1 + First(s[1..], c)
  }

  /** One past the last `c`; 0 when there is none. */
  function PastLast(s: string, c: char): (r: nat)
    ensures r <= |s|
  {
    if s == [] then 0 else if s[|s| - 1] == c then |s| else PastLast(s[..|s| - 1], c)
  }

  function SkipSpace(s: string): (r: string)
    ensures |r| <= |s|
  {
    if s != [] && IsSpace(s[0]) then SkipSpace(s[1..]) else s
  }

  /** Length of the leading run of characters that are not white space. */
  function WordLength(s: string): (n: nat)
    ensures n <= |s|
  {
    if s == [] || IsSpace(s[0]) then 0 else 1 + WordLength(s[1..])
  }

  /** s.split() */
  function Split(s: string): seq<string>
    decreases |s|
  {
    var t := SkipSpace(s);
    if t == [] then []
    else
      var n := WordLength(t);
      if n == 0 then [] else [t[..n]] + Split(t[n..])
  }

  predicate IsDigit(c: char) {
    '0' <= c <= '9'
  }

  function DigitsValue(s: string): (r: Option<nat>)
  {
    if s == [] then Some(0)
    else
      var r := DigitsValue(s[..|s| - 1]);
      if r.None? || !IsDigit(s[|s| - 1]) then None else Some(10 * r.value + (s[|s| - 1] - '0') as nat)
  }

  /** int(s) for an optionally signed run of decimal digits; None is ValueError. */
  function ParseInt(s: string): Option<int> {
    if s == [] then None
    else if s[0] == '-' || s[0] == '+' then
      var r := if |s| > 1 then DigitsValue(s[1..]) else None;
      if r.None? then None else Some(if s[0] == '-' then -(r.value as int) else r.value as int)
    else
      var r := DigitsValue(s);
      if r.None? then None else Some(r.value)
  }

  // ----- The parser

  datatype Thread = Thread(comm: string, jiffies: int, owner: int)

  /** Skip: the line is ignored. Raise: int(owner), outside the try block, fails. */
  datatype Line = Entry(tid: int, thread: Thread) | Skip | Raise

  function ParseStat(owner: string, stat: string): Line {
    var close := PastLast(stat, ')');
    if close <= 1 then Skip
    else
      var head, fields := stat[..close - 1], Split(stat[close..]);
      var words, open := Split(head), First(head, '(');
      var tid := if words == [] then None else ParseInt(words[0]);
      if tid.None? || open == |head| || |fields| <= 12 then Skip
      else
        var utime, stime := ParseInt(fields[11]), ParseInt(fields[12]);
        if utime.None? || stime.None? then Skip
        else if ParseInt(owner).None? then Raise
        else Entry(tid.value, Thread(head[open + 1..], utime.value + stime.value, ParseInt(owner).value))
  }

  function ParseLine(line: string): Line {
    var bar := First(line, '|');
    if bar == |line| then Skip else ParseStat(line[..bar], line[bar + 1..])
  }

  function ParseAll(lines: seq<string>): seq<Line> {
    seq(|lines|, i requires 0 <= i < |lines| => ParseLine(lines[i]))
  }

  /** The dictionary that parsed lines fill; None when an exception leaves the loop. */
  function Collect(parsed: seq<Line>): Option<map<int, Thread>> {
    if parsed == [] then Some(map[])
    else
      var res := Collect(parsed[..|parsed| - 1]);
      if res.None? then None
      else
        match parsed[|parsed| - 1]
        case Skip => res
        case Raise => None
        case Entry(tid, thread) => Some(res.value[tid := thread])
  }

  /** The `res` dictionary. */
  function Stats(out: string): Option<map<int, Thread>> {
    Collect(ParseAll(SplitLines(out)))
  }

  method ReadStats(out: string) returns (res: Option<map<int, Thread>>)
    ensures res == Stats(out)
  {
    hide ParseLine, SplitLines;
    var lines := SplitLines(out);
    ghost var parsed := ParseAll(lines);
    var found: map<int, Thread> := map[];
    for i := 0 to |lines|
      invariant Collect(parsed[..i]) == Some(found)
    {
      assert parsed[..i + 1][..i] == parsed[..i];
      match ParseLine(lines[i]) {
        case Skip =>
        case Raise =>
          StaysRaised(parsed, i + 1);
          return None;
        case Entry(tid, thread) =>
          found := found[tid := thread];
      }
    }
    assert parsed[..|lines|] == parsed;
    return Some(found);
  }

  lemma {:induction false} StaysRaised(parsed: seq<Line>, n: nat)
    requires n <= |parsed| && Collect(parsed[..n]).None?
    ensures Collect(parsed).None?
    decreases |parsed| - n
  {
    if n == |parsed| {
      assert parsed[..n] == parsed;
    } else {
      assert parsed[..n + 1][..n] == parsed[..n];
      StaysRaised(parsed, n + 1);
    }
  }

  // ----- What the kernel and the shell print

  function Decimal(n: nat): (s: string)
    ensures s != []
    decreases n
  {
    if n < 10 then ['0' + n as char] else Decimal(n / 10) + ['0' + (n % 10) as char]
  }

  function Spaced(fields: seq<string>): string {
    if fields == [] then [] else " " + fields[0] + Spaced(fields[1..])
  }

  /** A task of a process, with the numeric fields that follow the name. */
  datatype Task = Task(owner: nat, tid: nat, comm: string, fields: seq<string>, utime: nat, stime: nat)

  predicate PlainField(f: string) {
    f != [] && forall i :: 0 <= i < |f| ==> !IsSpace(f[i]) && f[i] != ')'
  }

  predicate WellFormed(t: Task) {
    && |t.fields| > 12
    && (forall f :: f in t.fields ==> PlainField(f))
    && t.fields[11] == Decimal(t.utime) && t.fields[12] == Decimal(t.stime)
  }

  /** `echo -n "<owner>|"` and then the stat line. The name may hold spaces, parentheses and bars. */
  function PrintStat(t: Task): string {
    Decimal(t.tid) + " (" + t.comm + ")" + Spaced(t.fields)
  }

  function Print(t: Task): string {
    Decimal(t.owner) + "|" + PrintStat(t)
  }

  /** What one turn of the shell loop prints: a line, or only the owner when the task has ended meanwhile
      and cat fails, which leaves the next turn on the same line. */
  datatype Turn = Shown(task: Task) | Gone(owner: nat)

  function Text(turns: seq<Turn>): string {
    if turns == [] then []
    else
      match turns[0]
      case Shown(t) => Print(t) + "\n" + Text(turns[1..])
      case Gone(owner) => Decimal(owner) + "|" + Text(turns[1..])
  }

  function Parsed(t: Task): Line {
    Entry(t.tid, Thread(t.comm, t.utime + t.stime, t.owner))
  }

  // ----- Round trip

  predicate AllDigits(s: string) {
    forall i :: 0 <= i < |s| ==> IsDigit(s[i])
  }

  lemma {:induction false} DecimalDigits(n: nat)
    ensures AllDigits(Decimal(n)) && DigitsValue(Decimal(n)) == Some(n)
    decreases n
  {
    if n >= 10 {
      DecimalDigits(n / 10);
      assert Decimal(n)[..|Decimal(n)| - 1] == Decimal(n / 10);
    } else {
      assert Decimal(n)[..0] == [];
    }
  }

  lemma DecimalParses(n: nat)
    ensures ParseInt(Decimal(n)) == Some(n)
  {
    DecimalDigits(n);
    assert IsDigit(Decimal(n)[0]);
  }

  lemma {:induction false} FirstAt(a: string, c: char, b: string)
    requires c !in a
    ensures First(a + [c] + b, c) == |a|
  {
    var s := a + [c] + b;
    if a != [] {
      assert s[1..] == a[1..] + [c] + b;
      FirstAt(a[1..], c, b);
    }
  }

  lemma {:induction false} PastLastAt(a: string, c: char, b: string)
    requires c !in b
    ensures PastLast(a + [c] + b, c) == |a| + 1
  {
    var s := a + [c] + b;
    if b != [] {
      assert s[..|s| - 1] == a + [c] + b[..|b| - 1];
      PastLastAt(a, c, b[..|b| - 1]);
    }
  }

  predicate Word(w: string) {
    w != [] && forall i :: 0 <= i < |w| ==> !IsSpace(w[i])
  }

  lemma {:induction false} WordLengthAt(w: string, rest: string)
    requires forall i :: 0 <= i < |w| ==> !IsSpace(w[i])
    requires rest == [] || IsSpace(rest[0])
    ensures WordLength(w + rest) == |w|
  {
    var s := w + rest;
    if w != [] {
      assert s[1..] == w[1..] + rest;
      WordLengthAt(w[1..], rest);
    } else {
      assert s == rest;
    }
  }

  lemma SplitWord(w: string, rest: string)
    requires Word(w) && (rest == [] || IsSpace(rest[0]))
    ensures Split(w + rest) == [w] + Split(rest)
  {
    hide WordLength;
    var s := w + rest;
    assert s[0] == w[0];
    WordLengthAt(w, rest);
    assert s[..|w|] == w && s[|w|..] == rest;
  }

  lemma SplitSpace(s: string)
    ensures Split(" " + s) == Split(s)
  {
    hide WordLength;
    assert (" " + s)[1..] == s;
  }

  /** Any white space separates, in runs of any length. */
  lemma SplitAnySpace(w: string, c: char, rest: string)
    requires Word(w) && IsSpace(c)
    ensures Split([c] + rest) == Split(rest)
    ensures Split(w + [c] + rest) == [w] + Split(rest)
  {
    hide WordLength, IsSpace;
    assert ([c] + rest)[1..] == rest;
    SplitWord(w, [c] + rest);
    assert w + [c] + rest == w + ([c] + rest);
  }

  lemma {:induction false} SplitSpaced(fields: seq<string>)
    requires forall f :: f in fields ==> PlainField(f)
    ensures Split(Spaced(fields)) == fields
  {
    if fields != [] {
      var f, rest := fields[0], Spaced(fields[1..]);
      assert f in fields && PlainField(f);
      assert Word(f);
      SplitSpaced(fields[1..]);
      SplitWord(f, rest);
      SplitSpace(f + rest);
      assert " " + f + rest == " " + (f + rest);
      assert fields == [f] + fields[1..];
    }
  }

  lemma {:induction false} SpacedHasNoParen(fields: seq<string>)
    requires forall f :: f in fields ==> PlainField(f)
    ensures ')' !in Spaced(fields)
  {
    if fields != [] {
      SpacedHasNoParen(fields[1..]);
      assert PlainField(fields[0]);
    }
  }

  lemma DigitsHold(n: nat, c: char)
    requires !IsDigit(c)
    ensures c !in Decimal(n)
  {
    DecimalDigits(n);
  }

  lemma DigitsAreWord(n: nat)
    ensures Word(Decimal(n))
  {
    hide Decimal;
    DecimalDigits(n);
    forall i | 0 <= i < |Decimal(n)|
      ensures !IsSpace(Decimal(n)[i])
    {
      assert IsDigit(Decimal(n)[i]);
    }
  }

  // ----- Lines of any shape

  lemma OwnerAndStat(owner: string, stat: string)
    requires '|' !in owner
    ensures ParseLine(owner + "|" + stat) == ParseStat(owner, stat)
  {
    hide First, ParseStat;
    var line := owner + "|" + stat;
    assert line == owner + ['|'] + stat;
    FirstAt(owner, '|', stat);
    assert line[..|owner|] == owner && line[|owner| + 1..] == stat;
  }

  /** A line without a bar, or without a closing parenthesis after it, is skipped. */
  lemma UnparsableSkips(owner: string, stat: string)
    ensures '|' !in stat ==> ParseLine(stat) == Skip
    ensures '|' !in owner && ')' !in stat ==> ParseLine(owner + "|" + stat) == Skip
  {
    hide Split, ParseInt;
    if '|' !in stat {
      FirstNone(stat, '|');
    }
    if '|' !in owner && ')' !in stat {
      OwnerAndStat(owner, stat);
      NoParen(stat);
    }
  }

  lemma {:induction false} FirstNone(s: string, c: char)
    requires c !in s
    ensures First(s, c) == |s|
  {
    if s != [] {
      FirstNone(s[1..], c);
    }
  }

  /** A line with a parenthesised name: it is skipped when the first word or one of the two times is no
      number or there are too few fields; else an owner that is no number stops everything. */
  lemma LineOfShape(owner: string, word: string, comm: string, fields: seq<string>)
    requires '|' !in owner && Word(word) && '(' !in word && forall f :: f in fields ==> PlainField(f)
    ensures var line := ParseLine(owner + "|" + (word + " (" + comm + ")" + Spaced(fields)));
            var tid := ParseInt(word);
            var utime := if |fields| >= 13 then ParseInt(fields[11]) else None;
            var stime := if |fields| >= 13 then ParseInt(fields[12]) else None;
            var good := tid.Some? && utime.Some? && stime.Some?;
            && (!good ==> line == Skip)
            && (good && ParseInt(owner).None? ==> line == Raise)
            && (good && ParseInt(owner).Some? ==>
                  line == Entry(tid.value, Thread(comm, utime.value + stime.value, ParseInt(owner).value)))
  {
    hide PastLast, First, Split, ParseInt, Spaced, ParseLine, ParseStat, Word, PlainField;
    var head, tail := word + " (" + comm, Spaced(fields);
    var stat := word + " (" + comm + ")" + tail;
    assert stat == head + [')'] + tail;
    OwnerAndStat(owner, stat);
    SpacedHasNoParen(fields);
    PastLastAt(head, ')', tail);
    assert stat[..|head|] == head && stat[|head| + 1..] == tail;
    SplitSpaced(fields);
    WordThenName(word, comm);
    StatOfParts(owner, stat, head, tail);
  }

  lemma StatOfParts(owner: string, stat: string, head: string, tail: string)
    requires |stat| == |head| + 1 + |tail| && PastLast(stat, ')') == |head| + 1 > 1
    requires stat[..|head|] == head && stat[|head| + 1..] == tail
    ensures var words, fields, open := Split(head), Split(tail), First(head, '(');
            var tid := if words == [] then None else ParseInt(words[0]);
            var utime := if |fields| >= 13 then ParseInt(fields[11]) else None;
            var stime := if |fields| >= 13 then ParseInt(fields[12]) else None;
            ParseStat(owner, stat) ==
            if tid.None? || open == |head| || utime.None? || stime.None? then Skip
            else if ParseInt(owner).None? then Raise
            else Entry(tid.value, Thread(head[open + 1..], utime.value + stime.value, ParseInt(owner).value))
  {
    hide PastLast, First, Split, ParseInt;
  }

  lemma WordThenName(word: string, comm: string)
    requires Word(word) && '(' !in word
    ensures var head := word + " (" + comm;
            && Split(head) != [] && Split(head)[0] == word
            && First(head, '(') == |word| + 1 < |head|
            && head[First(head, '(') + 1..] == comm
  {
    hide First, Split, WordLength;
    var rest := " (" + comm;
    assert word + " (" + comm == word + rest;
    SplitWord(word, rest);
    assert '(' !in word + " ";
    assert word + " (" + comm == (word + " ") + ['('] + comm;
    FirstAt(word + " ", '(', comm);
  }

  /** Signs. */
  lemma SignedNumbers(n: nat)
    ensures ParseInt("-" + Decimal(n)) == Some(-(n as int)) && ParseInt("+" + Decimal(n)) == Some(n)
    ensures ParseInt("") == ParseInt("-") == None
  {
    DecimalDigits(n);
    assert ("-" + Decimal(n))[1..] == Decimal(n) && ("+" + Decimal(n))[1..] == Decimal(n);
  }

  /** Of several lines for the same thread the last one counts. */
  lemma {:induction false} LastLineCounts(a: seq<Line>, tid: int, thread: Thread, b: seq<Line>)
    requires Raise !in a && Raise !in b && forall line :: line in b && line.Entry? ==> line.tid != tid
    ensures var res := Collect(a + [Entry(tid, thread)] + b);
            res.Some? && tid in res.value && res.value[tid] == thread
  {
    var all := a + [Entry(tid, thread)] + b;
    if b == [] {
      assert all[..|all| - 1] == a;
      NoRaise(a);
    } else {
      var init := b[..|b| - 1];
      assert all[..|all| - 1] == a + [Entry(tid, thread)] + init;
      assert b[|b| - 1] in b && forall line :: line in init ==> line in b;
      LastLineCounts(a, tid, thread, init);
    }
  }

  /** An owner that is no number ends the whole loop, wherever its line is. */
  lemma {:induction false} RaiseEndsAll(parsed: seq<Line>)
    requires Raise in parsed
    ensures Collect(parsed).None?
  {
    var init := parsed[..|parsed| - 1];
    assert parsed == init + [parsed[|parsed| - 1]];
    if Raise in init {
      RaiseEndsAll(init);
    }
  }

  lemma {:induction false} NoRaise(parsed: seq<Line>)
    requires Raise !in parsed
    ensures Collect(parsed).Some?
  {
    if parsed != [] {
      NoRaise(parsed[..|parsed| - 1]);
    }
  }

  // ----- Printed lines

  /** Whatever the thread is called, its printed line parses to itself. */
  lemma LineRoundTrip(t: Task)
    requires WellFormed(t)
    ensures ParseLine(Print(t)) == Parsed(t)
  {
    hide ParseLine, Decimal, ParseInt, Spaced;
    DigitsHold(t.owner, '|');
    DigitsHold(t.tid, '(');
    DigitsAreWord(t.tid);
    DecimalParses(t.owner);
    DecimalParses(t.tid);
    DecimalParses(t.utime);
    DecimalParses(t.stime);
    LineOfShape(Decimal(t.owner), Decimal(t.tid), t.comm, t.fields);
  }

  // ----- The whole text

  lemma {:induction false} LineLengthAt(line: string, rest: string)
    requires NoBreak(line) && (rest == [] || IsBreak(rest[0]))
    ensures LineLength(line + rest) == |line|
  {
    if line != [] {
      assert (line + rest)[1..] == line[1..] + rest;
      LineLengthAt(line[1..], rest);
    }
  }

  lemma SplitLine(line: string, rest: string)
    requires NoBreak(line)
    ensures SplitLines(line + "\n" + rest) == [line] + SplitLines(rest)
    ensures line != [] ==> SplitLines(line) == [line]
  {
    hide LineLength;
    BreakAfter(line, "\n" + rest);
    assert line + "\n" + rest == line + ("\n" + rest) && ("\n" + rest)[1..] == rest;
    LineLengthAt(line, []);
    assert line + [] == line;
  }

  /** Any of the break characters ends a line, and a carriage return with a line feed ends one. */
  lemma SplitAnyBreak(line: string, c: char, rest: string)
    requires NoBreak(line) && IsBreak(c)
    ensures c != '\r' || rest == [] || rest[0] != '\n' ==> SplitLines(line + [c] + rest) == [line] + SplitLines(rest)
    ensures SplitLines(line + "\r\n" + rest) == [line] + SplitLines(rest)
  {
    hide SplitLines, IsBreak, NoBreak;
    CarriageReturn();
    BreakAfter(line, [c] + rest);
    BreakAfter(line, "\r\n" + rest);
    assert line + [c] + rest == line + ([c] + rest) && line + "\r\n" + rest == line + ("\r\n" + rest);
    assert ([c] + rest)[1..] == rest && ("\r\n" + rest)[2..] == rest;
    assert c != '\r' || rest == [] || rest[0] != '\n' ==> !("\r\n" <= [c] + rest);
  }

  lemma BreakAfter(line: string, tail: string)
    requires NoBreak(line) && tail != [] && IsBreak(tail[0])
    ensures SplitLines(line + tail) == [line] + SplitLines(if "\r\n" <= tail then tail[2..] else tail[1..])
  {
    hide LineLength, IsBreak, NoBreak;
    var s := line + tail;
    LineLengthAt(line, tail);
    assert s[..|line|] == line && s[|line|..] == tail;
    assert s[|line| + 1..] == tail[1..];
    if |tail| >= 2 {
      assert s[|line| + 2..] == tail[2..];
    }
  }

  lemma CarriageReturn()
    ensures IsBreak('\r')
  {
  }

  /** The lines of a text that starts with `before`, left there by turns that printed no line. */
  function Lines(before: string, turns: seq<Turn>): seq<string>
    decreases |turns|
  {
    if turns == [] then if before == [] then [] else [before]
    else
      match turns[0]
      case Shown(t) => [before + Print(t)] + Lines([], turns[1..])
      case Gone(owner) => Lines(before + (Decimal(owner) + "|"), turns[1..])
  }

  ghost predicate Printable(turns: seq<Turn>) {
    forall u :: u in turns && u.Shown? ==> WellFormed(u.task) && NoBreak(u.task.comm)
  }

  lemma {:induction false} SpacedHasNoBreak(fields: seq<string>)
    requires forall f :: f in fields ==> PlainField(f)
    ensures NoBreak(Spaced(fields))
  {
    if fields != [] {
      SpacedHasNoBreak(fields[1..]);
      assert PlainField(fields[0]);
    }
  }

  lemma DigitsNoBreak(n: nat)
    ensures NoBreak(Decimal(n))
  {
    hide Decimal;
    DigitsAreWord(n);
  }

  lemma PrintHasNoBreak(t: Task)
    requires WellFormed(t) && NoBreak(t.comm)
    ensures NoBreak(Print(t))
  {
    hide Decimal, Spaced;
    DigitsNoBreak(t.owner);
    DigitsNoBreak(t.tid);
    SpacedHasNoBreak(t.fields);
  }

  lemma {:induction false} TextSplits(before: string, turns: seq<Turn>)
    requires NoBreak(before) && Printable(turns)
    ensures SplitLines(before + Text(turns)) == Lines(before, turns)
    decreases |turns|
  {
    hide SplitLines, Print, Decimal, WellFormed;
    if turns == [] {
      SplitLine(before, []);
      assert before + Text(turns) == before;
      NothingSplits();
    } else {
      assert turns[0] in turns && forall u :: u in turns[1..] ==> u in turns;
      match turns[0] {
        case Shown(t) =>
          PrintHasNoBreak(t);
          Regroup(before, Print(t), "\n", Text(turns[1..]));
          SplitLine(before + Print(t), Text(turns[1..]));
          TextSplits([], turns[1..]);
          assert [] + Text(turns[1..]) == Text(turns[1..]);
        case Gone(owner) =>
          DigitsNoBreak(owner);
          Regroup(before, Decimal(owner), "|", Text(turns[1..]));
          TextSplits(before + (Decimal(owner) + "|"), turns[1..]);
      }
    }
  }

  lemma Regroup(a: string, b: string, c: string, d: string)
    ensures a + (b + c + d) == a + b + c + d == a + (b + c) + d
  {
  }

  lemma NothingSplits()
    ensures SplitLines([]) == []
  {
  }

  // ----- A line that starts with the owner of a task that is gone

  /** One or more owners, each with its bar. */
  ghost predicate Owners(s: string) {
    s != [] && s[|s| - 1] == '|' && (forall i :: 0 <= i < |s| ==> IsDigit(s[i]) || s[i] == '|') && s[0] != '|'
  }

  lemma {:induction false} NotANumber(s: string, i: nat)
    requires i < |s| && !IsDigit(s[i])
    ensures DigitsValue(s).None?
  {
    if i < |s| - 1 {
      NotANumber(s[..|s| - 1], i);
    }
  }

  lemma BarIsNoNumber(s: string, i: nat)
    requires i < |s| && s[i] == '|'
    ensures ParseInt(s).None?
  {
    NotANumber(s, i);
    if i > 0 {
      NotANumber(s[1..], i - 1);
    }
  }

  /** The first word after the first bar is then no number. */
  lemma SwallowedSkips(before: string, t: Task)
    requires Owners(before) && WellFormed(t)
    ensures ParseLine(before + Print(t)) == Skip
  {
    hide ParseLine, First, ParseInt, Decimal, Spaced;
    var bar := First(before, '|');
    FirstBar(before, []);
    assert before + [] == before;
    FirstIs(before, '|');
    var owner, left := before[..bar], before[bar + 1..];
    var word := left + Decimal(t.owner) + "|" + Decimal(t.tid);
    DigitsAreWord(t.owner);
    DigitsAreWord(t.tid);
    DigitsHold(t.owner, '(');
    DigitsHold(t.tid, '(');
    assert word[|left + Decimal(t.owner)|] == '|';
    BarIsNoNumber(word, |left + Decimal(t.owner)|);
    assert before + Print(t) == owner + "|" + (word + " (" + t.comm + ")" + Spaced(t.fields)) by {
      assert before == owner + "|" + left;
    }
    LineOfShape(owner, word, t.comm, t.fields);
  }

  lemma {:induction false} FirstIs(s: string, c: char)
    requires c in s
    ensures First(s, c) < |s| && s[First(s, c)] == c && c !in s[..First(s, c)]
  {
    if s[0] != c {
      FirstIs(s[1..], c);
    }
  }

  lemma {:induction false} FirstBar(before: string, rest: string)
    requires '|' in before
    ensures First(before + rest, '|') == First(before, '|') < |before|
  {
    if before[0] != '|' {
      assert (before + rest)[1..] == before[1..] + rest;
      FirstBar(before[1..], rest);
    }
  }

  lemma {:induction false} NoParen(s: string)
    requires ')' !in s
    ensures PastLast(s, ')') == 0
  {
    if s != [] {
      NoParen(s[..|s| - 1]);
    }
  }

  lemma OwnersSkip(before: string)
    requires Owners(before)
    ensures ParseLine(before) == Skip
  {
    hide First, Split, ParseInt;
    FirstBar(before, []);
    assert before + [] == before;
    NoParen(before[First(before, '|') + 1..]);
  }

  /** What the lines parse to: a task is lost when the turn before it printed no line. */
  function Expected(gone: bool, turns: seq<Turn>): seq<Line>
    decreases |turns|
  {
    if turns == [] then if gone then [Skip] else []
    else
      match turns[0]
      case Shown(t) => [if gone then Skip else Parsed(t)] + Expected(false, turns[1..])
      case Gone(owner) => Expected(true, turns[1..])
  }

  lemma MoreOwners(before: string, owner: nat)
    requires before == [] || Owners(before)
    ensures Owners(before + (Decimal(owner) + "|"))
  {
    hide Decimal;
    DecimalDigits(owner);
    assert IsDigit(Decimal(owner)[0]);
  }

  lemma {:induction false} LinesParse(before: string, turns: seq<Turn>)
    requires (before == [] || Owners(before)) && Printable(turns)
    ensures ParseAll(Lines(before, turns)) == Expected(before != [], turns)
    decreases |turns|
  {
    hide ParseLine, Print, Decimal, WellFormed, Owners;
    if turns == [] {
      if before != [] {
        OwnersSkip(before);
      }
    } else {
      assert turns[0] in turns && forall u :: u in turns[1..] ==> u in turns;
      match turns[0] {
        case Shown(t) =>
          if before == [] {
            LineRoundTrip(t);
            assert before + Print(t) == Print(t);
          } else {
            SwallowedSkips(before, t);
          }
          LinesParse([], turns[1..]);
          ParseFirst(before + Print(t), Lines([], turns[1..]));
        case Gone(owner) =>
          MoreOwners(before, owner);
          LinesParse(before + (Decimal(owner) + "|"), turns[1..]);
      }
    }
  }

  lemma ParseFirst(line: string, rest: seq<string>)
    ensures ParseAll([line] + rest) == [ParseLine(line)] + ParseAll(rest)
  {
    hide ParseLine;
  }

  // ----- The dictionary

  /** Turn `i` shows a task, and the turn before it printed a line; `gone` says whether one before the
      first did not. */
  predicate Kept(gone: bool, turns: seq<Turn>, i: int) {
    0 <= i < |turns| && turns[i].Shown? && !(if i == 0 then gone else turns[i - 1].Gone?)
  }

  ghost predicate From(gone: bool, turns: seq<Turn>, line: Line, i: int) {
    Kept(gone, turns, i) && line == Parsed(turns[i].task)
  }

  lemma {:induction false} ExpectedFromTurns(gone: bool, turns: seq<Turn>)
    ensures forall i :: Kept(gone, turns, i) ==> Parsed(turns[i].task) in Expected(gone, turns)
    ensures forall line :: line in Expected(gone, turns) ==> line == Skip || exists i :: From(gone, turns, line, i)
    decreases |turns|
  {
    if turns != [] {
      var rest, next := turns[1..], turns[0].Gone?;
      ExpectedFromTurns(next, rest);
      forall i | Kept(gone, turns, i)
        ensures Parsed(turns[i].task) in Expected(gone, turns)
      {
        if i > 0 {
          assert Kept(next, rest, i - 1);
        }
      }
      forall line | line in Expected(gone, turns) && line != Skip
        ensures exists i :: From(gone, turns, line, i)
      {
        if line in Expected(next, rest) {
          var i :| From(next, rest, line, i);
          assert From(gone, turns, line, i + 1);
        } else {
          assert From(gone, turns, line, 0);
        }
      }
    }
  }

  /** Entries for the same thread agree, so it does not matter which comes last. */
  ghost predicate Functional(parsed: seq<Line>) {
    forall a, b :: a in parsed && b in parsed && a.Entry? && b.Entry? && a.tid == b.tid ==> a == b
  }

  lemma {:induction false} CollectsAll(parsed: seq<Line>)
    requires Raise !in parsed && Functional(parsed)
    ensures var res := Collect(parsed);
            && res.Some?
            && forall tid, thread :: tid in res.value && res.value[tid] == thread <==> Entry(tid, thread) in parsed
  {
    if parsed != [] {
      var init, last := parsed[..|parsed| - 1], parsed[|parsed| - 1];
      assert parsed == init + [last];
      CollectsAll(init);
    }
  }

  ghost predicate DistinctIds(turns: seq<Turn>) {
    forall i, j :: 0 <= i < j < |turns| && turns[i].Shown? && turns[j].Shown? ==>
      turns[i].task.tid != turns[j].task.tid
  }

  /** A thread is listed with its name, time and owner. */
  predicate Listed(res: map<int, Thread>, t: Task) {
    t.tid in res && res[t.tid] == Parsed(t).thread
  }

  /** The dictionary lists every task that was shown, and nothing else, except those whose line starts
      with the owner of a task that had ended. */
  lemma StatsRoundTrip(turns: seq<Turn>)
    requires Printable(turns) && DistinctIds(turns)
    ensures var res := Stats(Text(turns));
            && res.Some?
            && (forall i :: 0 <= i < |turns| && turns[i].Shown? ==>
                  (turns[i].task.tid in res.value <==> Kept(false, turns, i)) &&
                  (Kept(false, turns, i) ==> Listed(res.value, turns[i].task)))
            && (forall tid :: tid in res.value ==> exists i :: Kept(false, turns, i) && turns[i].task.tid == tid)
  {
    hide SplitLines, ParseAll, Text, Collect, WellFormed, Expected, NoBreak;
    EmptyHasNoBreak();
    TextSplits([], turns);
    assert [] + Text(turns) == Text(turns);
    LinesParse([], turns);
    var parsed := Expected(false, turns);
    ExpectedFromTurns(false, turns);
    CollectsAll(parsed);
    var res := Stats(Text(turns));
    forall tid | tid in res.value
      ensures exists i :: Kept(false, turns, i) && turns[i].task.tid == tid
    {
      var line := Entry(tid, res.value[tid]);
      assert line in parsed;
      var i :| From(false, turns, line, i);
    }
    forall i | 0 <= i < |turns| && turns[i].Shown? && turns[i].task.tid in res.value
      ensures Kept(false, turns, i)
    {
      var j :| Kept(false, turns, j) && turns[j].task.tid == turns[i].task.tid;
    }
  }

  lemma EmptyHasNoBreak()
    ensures NoBreak([])
  {
  }

  /** When cat never fails: every task is listed exactly when no name holds a line break. */
  lemma AllListedIff(tasks: seq<Task>)
    requires forall t :: t in tasks ==> WellFormed(t)
    requires DistinctIds(AllShown(tasks))
    ensures var res := Stats(Text(AllShown(tasks)));
            (res.Some? && forall t :: t in tasks ==> Listed(res.value, t))
              <==> forall t :: t in tasks ==> NoBreak(t.comm)
  {
    hide SplitLines, ParseAll, Text, Collect, WellFormed, NoBreak;
    var turns := AllShown(tasks);
    var res := Stats(Text(turns));
    if forall t :: t in tasks ==> NoBreak(t.comm) {
      StatsRoundTrip(turns);
      forall t | t in tasks
        ensures Listed(res.value, t)
      {
        var i :| 0 <= i < |tasks| && tasks[i] == t;
        assert Kept(false, turns, i);
      }
    }
    if res.Some? {
      forall t | t in tasks && Listed(res.value, t)
        ensures NoBreak(t.comm)
      {
        NamesHaveNoBreak(Text(turns), t.tid);
      }
    }
  }

  function AllShown(tasks: seq<Task>): seq<Turn> {
    seq(|tasks|, i requires 0 <= i < |tasks| => Shown(tasks[i]))
  }

  lemma {:induction false} EntryOfLine(parsed: seq<Line>, tid: int)
    requires Collect(parsed).Some? && tid in Collect(parsed).value
    ensures Entry(tid, Collect(parsed).value[tid]) in parsed
  {
    var init, last := parsed[..|parsed| - 1], parsed[|parsed| - 1];
    assert parsed == init + [last];
    if !(last.Entry? && last.tid == tid) {
      EntryOfLine(init, tid);
    }
  }

  /** A parsed name is a part of one line. */
  lemma NamesHaveNoBreak(out: string, tid: int)
    requires Stats(out).Some? && tid in Stats(out).value
    ensures NoBreak(Stats(out).value[tid].comm)
  {
    hide SplitLines, Collect, ParseLine;
    var lines, entry := SplitLines(out), Entry(tid, Stats(out).value[tid]);
    EntryOfLine(ParseAll(lines), tid);
    var i :| 0 <= i < |lines| && ParseLine(lines[i]) == entry;
    assert NoBreak(lines[i]);
    NameInLine(lines[i]);
  }

  lemma NameInLine(line: string)
    requires NoBreak(line) && ParseLine(line).Entry?
    ensures NoBreak(ParseLine(line).thread.comm)
  {
    hide First, PastLast, Split, ParseInt;
    var stat := line[First(line, '|') + 1..];
    var head := stat[..PastLast(stat, ')') - 1];
    var comm := head[First(head, '(') + 1..];
    assert ParseLine(line).thread.comm == comm;
    assert comm == line[First(line, '|') + 1 + First(head, '(') + 1..][..|comm|];
  }
}
