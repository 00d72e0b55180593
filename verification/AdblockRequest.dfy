/** How the web-process extension classifies a request: related hosts, and the URL's extension. */
module AdblockRequest {
  import opened Wrappers

  /** A C string: the bytes before the terminator. */
  type CString = seq<char>

  // ----- hosts_related

  function Lower(c: char): char {
    if 'A' <= c <= 'Z' then c - 'A' + 'a' else c
  }

  function LowerAll(s: CString): (r: CString)
    ensures |r| == |s| && forall i :: 0 <= i < |s| ==> r[i] == Lower(s[i])
  {
    seq(|s|, i requires 0 <= i < |s| => Lower(s[i]))
  }

  /** !g_ascii_strcasecmp(a, b) */
  predicate SameIgnoringCase(a: CString, b: CString) {
    LowerAll(a) == LowerAll(b)
  }

  /** `a` ends in a dot followed by `b`. */
  predicate DottedSuffix(a: CString, b: CString) {
    |a| > |b| && a[|a| - |b| - 1] == '.' && SameIgnoringCase(a[|a| - |b|..], b)
  }

  predicate HostsRelated(a: Option<CString>, b: Option<CString>) {
    a.Some? && b.Some? &&
    (SameIgnoringCase(a.value, b.value) || DottedSuffix(a.value, b.value) || DottedSuffix(b.value, a.value))
  }

  /** Labels of a string from those of its tail. */
  function Cons(c: char, rest: seq<CString>): (r: seq<CString>)
    requires |rest| > 0
    ensures |r| > 0
  {
    if c == '.' then [[]] + rest else [[c] + rest[0]] + rest[1..]
  }

  /** The labels between the dots; a leading, trailing or doubled dot makes an empty label. */
  function Labels(s: CString): (r: seq<CString>)
    ensures |r| > 0
  {
    if s == [] then [[]]
    else
      Cons(s[0], Labels(s[1..]))
  }

  function Join(labels: seq<CString>): CString
    requires |labels| > 0
  {
    if |labels| == 1 then labels[0] else labels[0] + "." + Join(labels[1..])
  }

  ghost predicate IsSuffix<T>(xs: seq<T>, ys: seq<T>) {
    |xs| <= |ys| && ys[|ys| - |xs|..] == xs
  }

  lemma {:induction false} JoinLabels(s: CString)
    ensures Join(Labels(s)) == s
  {
    if s != [] {
      var rest := Labels(s[1..]);
      JoinLabels(s[1..]);
      if s[0] == '.' {
        assert Labels(s)[1..] == rest;
      } else {
        assert Labels(s)[1..] == rest[1..];
      }
    }
  }

  lemma ConsAppend(c: char, xs: seq<CString>, ys: seq<CString>)
    requires |xs| > 0
    ensures Cons(c, xs + ys) == Cons(c, xs) + ys
  {
    if c == '.' {
      assert [[]] + (xs + ys) == [[]] + xs + ys;
    } else {
      assert (xs + ys)[1..] == xs[1..] + ys;
      assert [[c] + xs[0]] + (xs[1..] + ys) == [[c] + xs[0]] + xs[1..] + ys;
    }
  }

  lemma {:induction false} LabelsOfDotted(x: CString, y: CString)
    ensures Labels(x + "." + y) == Labels(x) + Labels(y)
  {
    hide Cons;
    var s := x + "." + y;
    if x == [] {
      assert s[1..] == y && s[0] == '.';
      ConsDot(Labels(y));
      assert Labels(x) == [[]];
    } else {
      LabelsOfDotted(x[1..], y);
      assert s[1..] == x[1..] + "." + y && s[0] == x[0];
      ConsAppend(x[0], Labels(x[1..]), Labels(y));
    }
  }

  lemma ConsDot(rest: seq<CString>)
    requires |rest| > 0
    ensures Cons('.', rest) == [[]] + rest
  {
  }

  lemma {:induction false} JoinAppend(xs: seq<CString>, ys: seq<CString>)
    requires |xs| > 0 && |ys| > 0
    ensures Join(xs + ys) == Join(xs) + "." + Join(ys)
  {
    if |xs| == 1 {
      assert (xs + ys)[1..] == ys;
    } else {
      assert (xs + ys)[1..] == xs[1..] + ys;
      JoinAppend(xs[1..], ys);
      assert Join(xs + ys) == xs[0] + "." + (Join(xs[1..]) + "." + Join(ys));
    }
  }

  predicate EndsDotted(a: CString, b: CString) {
    |a| > |b| && a[|a| - |b| - 1] == '.' && a[|a| - |b|..] == b
  }

  lemma DottedGivesSuffix(a: CString, b: CString)
    requires EndsDotted(a, b)
    ensures IsSuffix(Labels(b), Labels(a)) && a != b
  {
    hide Labels;
    var x := a[..|a| - |b| - 1];
    assert a == x + "." + b;
    LabelsOfDotted(x, b);
    assert Labels(a)[|Labels(x)|..] == Labels(b);
  }

  lemma SuffixGivesDotted(a: CString, b: CString)
    requires IsSuffix(Labels(b), Labels(a)) && a != b
    ensures EndsDotted(a, b)
  {
    hide Labels, Join;
    JoinLabels(a);
    JoinLabels(b);
    var head := Labels(a)[..|Labels(a)| - |Labels(b)|];
    assert Labels(a) == head + Labels(b);
    if head != [] {
      JoinAppend(head, Labels(b));
      assert a == Join(head) + "." + b;
    }
  }

  /** On lower-cased hosts, a dotted suffix is a proper suffix of the label list. */
  lemma LabelSuffix(a: CString, b: CString)
    ensures EndsDotted(a, b) <==> IsSuffix(Labels(b), Labels(a)) && a != b
  {
    hide Labels, EndsDotted;
    if EndsDotted(a, b) {
      DottedGivesSuffix(a, b);
    } else if IsSuffix(Labels(b), Labels(a)) && a != b {
      SuffixGivesDotted(a, b);
    }
  }

  lemma LowerDotted(a: CString, b: CString)
    ensures DottedSuffix(a, b) <==> EndsDotted(LowerAll(a), LowerAll(b))
  {
    if |a| > |b| {
      assert LowerAll(a)[|a| - |b|..] == LowerAll(a[|a| - |b|..]);
    }
  }

  /** Hosts are related exactly when one's label list, in lower case, is a suffix of the other's. */
  lemma RelatedIffLabelSuffix(a: CString, b: CString)
    ensures var x, y := Labels(LowerAll(a)), Labels(LowerAll(b));
            HostsRelated(Some(a), Some(b)) <==> IsSuffix(x, y) || IsSuffix(y, x)
  {
    hide Labels;
    LowerDotted(a, b);
    LowerDotted(b, a);
    LabelSuffix(LowerAll(a), LowerAll(b));
    LabelSuffix(LowerAll(b), LowerAll(a));
  }

  lemma RelatedIsReflexiveSymmetric(a: CString, b: CString)
    ensures HostsRelated(Some(a), Some(a))
    ensures HostsRelated(Some(a), Some(b)) <==> HostsRelated(Some(b), Some(a))
  {
  }

  /** Siblings are not related, although each is related to their parent. */
  lemma RelatedIsNotTransitive()
    ensures HostsRelated(Some("a.x"), Some("x")) && HostsRelated(Some("x"), Some("b.x"))
    ensures !HostsRelated(Some("a.x"), Some("b.x"))
  {
    assert LowerAll("a.x"[2..]) == LowerAll("x") && LowerAll("b.x"[2..]) == LowerAll("x");
    assert LowerAll("a.x")[0] != LowerAll("b.x")[0];
  }

  /** Third party: both URIs parse and their hosts are not related. An unknown page is first party. */
  predicate ThirdParty(page: Option<CString>, pageHost: Option<Option<CString>>, requestHost: Option<Option<CString>>) {
    page.Some? && page.value != [] && pageHost.Some? && requestHost.Some? &&
    !HostsRelated(pageHost.value, requestHost.value)
  }

  /** Between two parsed URIs with hosts: third party exactly when neither label list ends the other. */
  lemma ThirdPartyIffNoSuffix(page: CString, pageHost: CString, requestHost: CString)
    ensures var x, y := Labels(LowerAll(pageHost)), Labels(LowerAll(requestHost));
            ThirdParty(Some(page), Some(Some(pageHost)), Some(Some(requestHost)))
            <==> page != [] && !IsSuffix(x, y) && !IsSuffix(y, x)
  {
    hide Labels, HostsRelated;
    RelatedIffLabelSuffix(pageHost, requestHost);
  }

  /** A host that a parsed URI does not have is related to none, so such a request is third party; an empty
      page URI, or one of the two that does not parse, makes it first party. */
  lemma MissingHosts(page: CString, host: Option<CString>)
    ensures page != [] ==> ThirdParty(Some(page), Some(None), Some(host))
    ensures page != [] ==> ThirdParty(Some(page), Some(host), Some(None))
    ensures !ThirdParty(None, Some(host), Some(None)) && !ThirdParty(Some([]), Some(host), Some(None))
    ensures !ThirdParty(Some(page), None, Some(host)) && !ThirdParty(Some(page), Some(host), None)
  {
  }

  const UPPER := "ABCDEFGHIJKLMNOPQRSTUVWXYZ"
  const LOWER := "abcdefghijklmnopqrstuvwxyz"

  /** Case folding is that of the 26 ASCII letters. */
  lemma LowerIsAscii(c: char)
    ensures forall i :: 0 <= i < 26 ==> Lower(UPPER[i]) == LOWER[i]
    ensures c !in UPPER ==> Lower(c) == c
  {
    assert forall i :: 0 <= i < 26 ==> UPPER[i] as int == 'A' as int + i && LOWER[i] as int == 'a' as int + i;
    if 'A' <= c <= 'Z' {
      assert UPPER[c as int - 'A' as int] == c;
    }
  }

  lemma CaseDoesNotMatter()
    ensures HostsRelated(Some("CDN.A.Com"), Some("a.cOM")) && !HostsRelated(Some("CDNA.Com"), Some("a.cOM"))
  {
    assert LowerAll("CDN.A.Com"[4..]) == LowerAll("a.cOM") == "a.com";
    assert LowerAll("CDNA.Com")[0] == 'c' && LowerAll("a.cOM")[0] == 'a';
  }

  // ----- The URL-extension fallback of resource_type_for

  datatype Kind = Script | Stylesheet | Picture | Font | Media | Unknown

  /** The strcmp ladder over a lower-cased extension. */
  function KindOf(ext: CString): Kind {
    if ext == "js" || ext == "mjs" then Script
    else if ext == "css" then Stylesheet
    else if ext in {"png", "jpg", "jpeg", "gif", "webp", "svg", "ico", "bmp"} then Picture
    else if ext in {"woff", "woff2", "ttf", "otf", "eot"} then Font
    else if ext in {"mp4", "webm", "m3u8", "mp3", "ogg"} then Media
    else Unknown
  }

  /** Position of the first `c`, or the length. */
  function FirstOf(s: CString, c: char): (r: nat)
    ensures r <= |s| && (r < |s| ==> s[r] == c) && forall i :: 0 <= i < r ==> s[i] != c
  {
    if s == [] then 0
    else if s[0] == c then 0
    else
      var r := FirstOf(s[1..], c);
      assert forall i :: 0 < i < r + 1 ==> s[i] == s[1..][i - 1];
      r + 1
  }

  /** One past the last `c`; 0 when there is none. */
  function AfterLast(s: CString, c: char): (r: nat)
    ensures r <= |s| && (r > 0 ==> s[r - 1] == c) && forall i :: r <= i < |s| ==> s[i] != c
  {
    if s == [] then 0
    else if s[|s| - 1] == c then |s|
    else AfterLast(s[..|s| - 1], c)
  }

  /** The text after the last '.' of the last '/'-segment of what precedes the first '?'. */
  function Extension(uri: CString): Option<CString> {
    var path := uri[..FirstOf(uri, '?')];
    var segment := path[AfterLast(path, '/')..];
    var dot := AfterLast(segment, '.');
    if dot == 0 then None else Some(segment[dot..])
  }

  const EXT_SIZE: int := 12

  function KindOfUri(uri: CString): Kind {
    var ext := Extension(uri);
    if ext.Some? && 0 < |ext.value| < EXT_SIZE then KindOf(LowerAll(ext.value)) else Unknown
  }

  method KindForUri(uri: Option<CString>) returns (kind: Kind)
    ensures kind == if uri.Some? then KindOfUri(uri.value) else Unknown
  {
    if uri.None? {
      return Unknown;
    }
    hide FirstOf, AfterLast, KindOf;
    var u := uri.value;
    var len := FirstOf(u, '?');
    var dot: Option<nat> := None;
    var i := len;
    while i > 0
      invariant 0 <= i <= len && dot.None?
      invariant forall k :: i <= k < len ==> u[k] != '.' && u[k] != '/'
    {
      var c := u[i - 1];
      if c == '.' {
        dot := Some(i);
        break;
      }
      if c == '/' {
        break;
      }
      i := i - 1;
    }
    ScanFindsExtension(u, len, i, dot);
    if dot.Some? {
      kind := KindOfExtension(u, dot.value, len);
      return;
    }
    return Unknown;
  }

  /** The bounded copy into `char ext[12]` and the comparisons on it. */
  method KindOfExtension(u: CString, dot: nat, len: nat) returns (kind: Kind)
    requires dot <= len <= |u|
    ensures kind == if 0 < len - dot < EXT_SIZE then KindOf(LowerAll(u[dot..len])) else Unknown
  {
    hide KindOf;
    var elen := len - dot;
    if 0 < elen < EXT_SIZE {
      var ext := new char[EXT_SIZE](_ => '\0');
      for k := 0 to elen
        invariant forall m :: 0 <= m < k ==> ext[m] == Lower(u[dot + m])
      {
        ext[k] := Lower(u[dot + k]);
      }
      ext[elen] := '\0';
      assert ext[..elen] == LowerAll(u[dot..len]);
      return KindOf(ext[..elen]);
    }
    return Unknown;
  }

  lemma AfterLastIs(s: CString, c: char, r: nat)
    requires r <= |s| && (r > 0 ==> s[r - 1] == c) && forall i :: r <= i < |s| ==> s[i] != c
    ensures AfterLast(s, c) == r
  {
    hide AfterLast;
    var q := AfterLast(s, c);
    if q > 0 && r > 0 {
      assert s[q - 1] == c && s[r - 1] == c;
    }
  }

  /** Where the backward loop stops is the extension. */
  lemma ScanFindsExtension(uri: CString, len: nat, i: nat, dot: Option<nat>)
    requires len == FirstOf(uri, '?') && i <= len
    requires forall k :: i <= k < len ==> uri[k] != '.' && uri[k] != '/'
    requires if dot.Some? then dot.value == i > 0 && uri[i - 1] == '.' else i == 0 || uri[i - 1] == '/'
    ensures Extension(uri) == if dot.Some? then Some(uri[i..len]) else None
  {
    hide FirstOf, AfterLast;
    var path := uri[..len];
    var slash := AfterLast(path, '/');
    var segment := path[slash..];
    assert slash <= i;
    if dot.Some? {
      assert slash < i;
      AfterLastIs(segment, '.', i - slash);
    } else {
      AfterLastIs(path, '/', i);
      AfterLastIs(segment, '.', 0);
    }
  }

  /** A query never changes the class: only what precedes the first '?' is looked at. */
  lemma QueryIrrelevant(uri: CString, query: CString)
    ensures Extension(uri + "?" + query) == Extension(uri)
    ensures KindOfUri(uri + "?" + query) == KindOfUri(uri)
  {
    hide FirstOf, AfterLast;
    var long := uri + "?" + query;
    var n, m := FirstOf(uri, '?'), FirstOf(long, '?');
    assert long[|uri|] == '?';
    assert forall i :: 0 <= i < |uri| ==> long[i] == uri[i];
    assert n == m;
    assert uri[..n] == long[..m];
  }

  /** The extension in plain terms: what follows the last dot of the last segment of the path. */
  lemma ExtensionIs(folder: CString, stem: CString, ext: CString)
    requires '?' !in folder && '?' !in stem && '?' !in ext
    requires '/' !in stem && '/' !in ext && '.' !in ext
    requires folder == [] || folder[|folder| - 1] == '/'
    ensures Extension(folder + stem + "." + ext) == Some(ext)
    ensures '.' !in stem ==> Extension(folder + stem) == None
  {
    hide FirstOf, AfterLast;
    var uri := folder + stem + "." + ext;
    assert forall k :: 0 <= k < |uri| ==> uri[k] in folder || uri[k] in stem || uri[k] == '.' || uri[k] in ext;
    assert FirstOf(uri, '?') == |uri|;
    var at := |folder| + |stem| + 1;
    assert uri[at - 1] == '.' && uri[at..|uri|] == uri[at..] == ext;
    assert forall k :: at <= k < |uri| ==> uri[k] == ext[k - at];
    ScanFindsExtension(uri, |uri|, at, Some(at));
    if '.' !in stem {
      var bare := folder + stem;
      assert forall k :: 0 <= k < |bare| ==> bare[k] in folder || bare[k] in stem;
      assert FirstOf(bare, '?') == |bare|;
      assert forall k :: |folder| <= k < |bare| ==> bare[k] == stem[k - |folder|];
      assert folder != [] ==> bare[|folder| - 1] == folder[|folder| - 1];
      ScanFindsExtension(bare, |bare|, |folder|, None);
    }
  }

  /** The class of each extension; every other one has none. */
  lemma Classes(ext: CString)
    ensures KindOf(ext) == Script <==> ext in {"js", "mjs"}
    ensures KindOf(ext) == Stylesheet <==> ext == "css"
    ensures KindOf(ext) == Picture <==> ext in {"png", "jpg", "jpeg", "gif", "webp", "svg", "ico", "bmp"}
    ensures KindOf(ext) == Font <==> ext in {"woff", "woff2", "ttf", "otf", "eot"}
    ensures KindOf(ext) == Media <==> ext in {"mp4", "webm", "m3u8", "mp3", "ogg"}
  {
  }

  /** A whole URL: the class is that of the lower-cased extension when that has 1 to 11 characters. */
  lemma UrlClass(folder: CString, stem: CString, ext: CString, query: CString)
    requires '?' !in folder && '?' !in stem && '?' !in ext
    requires '/' !in stem && '/' !in ext && '.' !in ext
    requires folder == [] || folder[|folder| - 1] == '/'
    ensures KindOfUri(folder + stem + "." + ext + "?" + query)
            == if 1 <= |ext| <= 11 then KindOf(LowerAll(ext)) else Unknown
  {
    hide FirstOf, AfterLast, KindOf, Extension, LowerAll;
    var uri := folder + stem + "." + ext;
    ExtensionIs(folder, stem, ext);
    QueryIrrelevant(uri, query);
    assert KindOfUri(uri) == if 1 <= |ext| <= 11 then KindOf(LowerAll(ext)) else Unknown;
  }
}
