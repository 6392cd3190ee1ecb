/** The version of a deployed application travels inside a query string: printed by
    deployApplication, parsed back by getRancherAppsFromProject with Go's net/url
    (version 1.12, which also splits a query at semicolons). */
module ExternalId {
  import opened Wrappers

  const HEAD := "catalog://?"

  const CATALOG := "catalog=automium"

  function TemplateOf(name: string): string {
    "template" + "=" + name
  }

  const VERSION_KEY := "version="

  function VersionOf(version: string): string {
    VERSION_KEY + version
  }

  function QueryOf(name: string, version: string): string {
    CATALOG + "&" + (TemplateOf(name) + "&" + VersionOf(version))
  }

  /** `catalog://?catalog=automium&template=%s&version=%s` */
  function Format(name: string, version: string): (url: string)
    ensures HEAD <= url
  {
    HEAD + QueryOf(name, version)
  }

  /* ---- net/url ---- */

  predicate IsHex(c: char) {
    '0' <= c <= '9' || 'a' <= c <= 'f' || 'A' <= c <= 'F'
  }

  function Hex(c: char): nat
    requires IsHex(c)
    ensures Hex(c) < 16
  {
    if '0' <= c <= '9' then (c - '0') as nat
    else if 'a' <= c <= 'f' then (c - 'a') as nat + 10
    else (c - 'A') as nat + 10
  }

  /** Undoes percent and plus encoding; None for a malformed escape. */
  function Unescape(s: string): Option<string> {
    if s == "" then Some("")
    else if s[0] == '%' then
      if |s| < 3 || !IsHex(s[1]) || !IsHex(s[2]) then None
      else
        match Unescape(s[3..])
        case None => None
        case Some(r) => Some([(Hex(s[1]) * 16 + Hex(s[2])) as char] + r)
    else
      match Unescape(s[1..])
      case None => None
      case Some(r) => Some([if s[0] == '+' then ' ' else s[0]] + r)
  }

  /** The place of the first `c` or `d`, or the length. */
  function Find(s: string, c: char, d: char): (n: nat)
    ensures n <= |s|
    ensures forall k | 0 <= k < n :: s[k] != c && s[k] != d
    ensures n < |s| ==> s[n] == c || s[n] == d
  {
    if s == "" || s[0] == c || s[0] == d then 0 else 1 + Find(s[1..], c, d)
  }

  datatype Pair = Pair(key: string, value: string)

  /** One piece of a query; an empty or malformed one is dropped. */
  function PairOf(segment: string): (r: seq<Pair>)
    ensures |r| <= 1
  {
    if segment == "" then []
    else
      var e := Find(segment, '=', '=');
      var key, value := Unescape(segment[..e]), Unescape(if e < |segment| then segment[e + 1..] else "");
      if key.None? || value.None? then [] else [Pair(key.value, value.value)]
  }

  function ParseQuery(q: string): seq<Pair> {
    if q == "" then []
    else
      var n := Find(q, '&', ';');
      PairOf(q[..n]) + if n < |q| then ParseQuery(q[n + 1..]) else []
  }

  /** The first value of the key, or the empty string. */
  function Get(pairs: seq<Pair>, key: string): string {
    if pairs == [] then "" else if pairs[0].key == key then pairs[0].value else Get(pairs[1..], key)
  }

  predicate IsControl(c: char) {
    c < ' ' || c == 127 as char
  }

  predicate HasControl(s: string, n: nat)
    requires n <= |s|
  {
    exists k :: 0 <= k < n && IsControl(s[k])
  }

  /** What url.Parse rejects in the part of a URL after the scheme: a control character
      before the first '#', or a malformed escape after it. */
  predicate UrlParses(url: string) {
    var n := Find(url, '#', '#');
    !HasControl(url, n) && (n < |url| ==> !BadEscape(url[n + 1..]))
  }

  /** A percent sign without two hexadecimal digits after it. */
  predicate BadEscape(s: string) {
    exists i :: 0 <= i < |s| && s[i] == '%' && !(i + 2 < |s| && IsHex(s[i + 1]) && IsHex(s[i + 2]))
  }

  /** The query of a URL of the form catalog://?..., the only form the operator posts; None
      when url.Parse reports an error. */
  function UrlQuery(url: string): Option<string>
    requires HEAD <= url
  {
    var n := Find(url, '#', '#');
    if !UrlParses(url) then None
    else if n < |HEAD| then Some("")
    else Some(url[|HEAD|..n])
  }

  /** The version read back from an external ID. */
  function ParsedVersion(url: string): Option<string>
    requires HEAD <= url
  {
    match UrlQuery(url)
    case None => None
    case Some(q) => Some(Get(ParseQuery(q), "version"))
  }

  /* ---- when the round trip works ---- */

  predicate Plain(c: char) {
    c != '&' && c != ';' && c != '#' && c != '%' && c != '+' && !IsControl(c)
  }

  predicate HasKey(pairs: seq<Pair>, key: string) {
    exists k :: 0 <= k < |pairs| && pairs[k].key == key
  }

  /** Printed into the query, the name leaves the rest alone: it does not end the query and
      does not bring a version of its own. */
  predicate NameOk(name: string) {
    && (forall k | 0 <= k < |name| :: name[k] != '#' && !IsControl(name[k]))
    && !HasKey(ParseQuery(TemplateOf(name)), "version")
  }

  /** The version that any other name brings, whatever version is printed after it. */
  function Carried(name: string): string {
    Get(ParseQuery(TemplateOf(name[..Find(name, '#', '#')])), "version")
  }

  /** What is printed after `template=`. */
  function Tail(name: string, version: string): string {
    name + "&" + VersionOf(version)
  }

  /** Which versions are read back as they were printed beside this name. */
  predicate Survives(name: string, version: string) {
    if NameOk(name) then Safe(version)
    else UrlParses(Tail(name, version)) && version == Carried(name)
  }

  /** No character with a meaning in a query. */
  predicate Safe(s: string) {
    forall k | 0 <= k < |s| :: Plain(s[k])
  }

  /** Section 2.3 of RFC 3986. */
  predicate IsUnreserved(c: char) {
    'a' <= c <= 'z' || 'A' <= c <= 'Z' || '0' <= c <= '9' || c == '-' || c == '.' || c == '_' || c == '~'
  }

  lemma UnreservedIsSafe(s: string)
    requires forall k | 0 <= k < |s| :: IsUnreserved(s[k])
    ensures Safe(s)
  {
  }

  lemma {:induction false} UnescapeShrinks(s: string)
    ensures Unescape(s).Some? ==> |Unescape(s).value| <= |s|
  {
    if s != "" {
      UnescapeShrinks(s[1..]);
      if |s| >= 3 {
        UnescapeShrinks(s[3..]);
      }
    }
  }

  lemma {:induction false} UnescapeKeepsIff(s: string)
    ensures Unescape(s) == Some(s) <==> forall k | 0 <= k < |s| :: s[k] != '%' && s[k] != '+'
  {
    if s != "" {
      UnescapeKeepsIff(s[1..]);
      if s[0] == '%' && |s| >= 3 {
        UnescapeShrinks(s[3..]);
      }
      if Unescape(s[1..]).Some? && s[0] != '%' {
        var r := Unescape(s[1..]).value;
        assert Unescape(s).value[1..] == r;
        assert forall k | 1 <= k < |s| :: s[k] == s[1..][k - 1];
        assert Unescape(s).value == [Unescape(s).value[0]] + r && s == [s[0]] + s[1..];
      }
    }
  }

  lemma {:induction false} FindAppend(p: string, s: string, c: char, d: char)
    requires forall k | 0 <= k < |p| :: p[k] != c && p[k] != d
    ensures Find(p + s, c, d) == |p| + Find(s, c, d)
  {
    if p == "" {
      assert p + s == s;
    } else {
      assert (p + s)[1..] == p[1..] + s;
      FindAppend(p[1..], s, c, d);
    }
  }

  lemma ParseSegment(segment: string, rest: string)
    requires forall k | 0 <= k < |segment| :: segment[k] != '&' && segment[k] != ';'
    ensures ParseQuery(segment + "&" + rest) == PairOf(segment) + ParseQuery(rest)
  {
    var q := segment + "&" + rest;
    assert q == segment + ("&" + rest);
    FindAppend(segment, "&" + rest, '&', ';');
    assert Find("&" + rest, '&', ';') == 0;
    assert q[..|segment|] == segment && q[|segment| + 1..] == rest;
  }

  lemma ParseStep(q: string)
    requires q != ""
    ensures var n := Find(q, '&', ';'); ParseQuery(q) == PairOf(q[..n]) + if n < |q| then ParseQuery(q[n + 1..]) else []
  {
  }

  lemma ParseNothing()
    ensures ParseQuery("") == [] && PairOf("") == []
  {
  }

  /** A separator between two queries. */
  lemma {:induction false} ParseAppend(a: string, b: string)
    ensures ParseQuery(a + "&" + b) == ParseQuery(a) + ParseQuery(b)
    decreases |a|
  {
    hide PairOf, ParseQuery, Find;
    var n := Find(a, '&', ';');
    if n == |a| {
      ParseSegment(a, b);
      assert a[..n] == a;
      if a == "" {
        ParseNothing();
      } else {
        ParseStep(a);
      }
    } else {
      ParseStep(a);
      ParseStep(a + "&" + b);
      FindStops(a, "&" + b);
      SplitAt(a, n, b);
      ParseAppend(a[n + 1..], b);
    }
  }

  lemma SplitAt(a: string, n: nat, b: string)
    requires n < |a|
    ensures var q := a + "&" + b; q == a + ("&" + b) && q[..n] == a[..n] && q[n + 1..] == a[n + 1..] + "&" + b
  {
  }

  lemma {:induction false} FindStops(a: string, b: string)
    requires Find(a, '&', ';') < |a|
    ensures Find(a + b, '&', ';') == Find(a, '&', ';')
  {
    if a[0] != '&' && a[0] != ';' {
      assert (a + b)[1..] == a[1..] + b;
      FindStops(a[1..], b);
    }
  }

  lemma {:induction false} GetAppend(a: seq<Pair>, b: seq<Pair>, key: string)
    ensures Get(a + b, key) == if HasKey(a, key) then Get(a, key) else Get(b, key)
  {
    if a == [] {
      assert a + b == b;
    } else {
      assert (a + b)[1..] == a[1..] + b;
      GetAppend(a[1..], b, key);
      if HasKey(a, key) && a[0].key != key {
        var k :| 0 <= k < |a| && a[k].key == key;
        assert a[1..][k - 1].key == key;
      }
    }
  }

  lemma {:induction false} UnescapeFailsIff(s: string)
    ensures Unescape(s).None? <==> BadEscape(s)
    decreases |s|
  {
    if s != "" {
      if s[0] != '%' {
        UnescapeFailsIff(s[1..]);
        BadEscapeShift(s, 1);
      } else if |s| >= 3 && IsHex(s[1]) && IsHex(s[2]) {
        UnescapeFailsIff(s[3..]);
        BadEscapeShift(s, 3);
      } else {
        assert s[0] == '%';
      }
    }
  }

  lemma BadEscapeShift(s: string, n: nat)
    requires n <= |s| && forall i | 0 <= i < n :: s[i] != '%' || (i + 2 < |s| && IsHex(s[i + 1]) && IsHex(s[i + 2]))
    ensures BadEscape(s[n..]) <==> BadEscape(s)
  {
    if BadEscape(s) {
      var i :| 0 <= i < |s| && s[i] == '%' && !(i + 2 < |s| && IsHex(s[i + 1]) && IsHex(s[i + 2]));
      assert s[n..][i - n] == '%';
    }
    if BadEscape(s[n..]) {
      var t := s[n..];
      var i :| 0 <= i < |t| && t[i] == '%' && !(i + 2 < |t| && IsHex(t[i + 1]) && IsHex(t[i + 2]));
      assert s[n + i] == '%';
    }
  }

  lemma KeyOf(key: string, value: string)
    requires Safe(key) && forall k | 0 <= k < |key| :: key[k] != '='
    ensures PairOf(key + "=" + value) == match Unescape(value) { case None => [] case Some(v) => [Pair(key, v)] }
  {
    var s := key + "=" + value;
    assert s == key + ("=" + value);
    FindAppend(key, "=" + value, '=', '=');
    assert Find("=" + value, '=', '=') == 0;
    assert s[..|key|] == key && s[|key| + 1..] == value;
    UnescapeKeepsIff(key);
  }

  lemma PairIsShort(segment: string)
    ensures forall k | 0 <= k < |PairOf(segment)| :: |PairOf(segment)[k].value| <= |segment|
  {
    hide Unescape;
    var e := Find(segment, '=', '=');
    UnescapeShrinks(if e < |segment| then segment[e + 1..] else "");
  }

  lemma {:induction false} GetIsShort(q: string, key: string)
    ensures |Get(ParseQuery(q), key)| <= |q|
    decreases |q|
  {
    hide PairOf, ParseQuery, Find;
    if q == "" {
      ParseNothing();
    } else {
      var n := Find(q, '&', ';');
      ParseStep(q);
      PairIsShort(q[..n]);
      GetAppend(PairOf(q[..n]), if n < |q| then ParseQuery(q[n + 1..]) else [], key);
      if n < |q| {
        GetIsShort(q[n + 1..], key);
      }
    }
  }

  /** The catalog comes first and names no version. */
  lemma CatalogPiece(rest: string)
    ensures forall k | 0 <= k < |CATALOG| :: Plain(CATALOG[k])
    ensures Get(ParseQuery(CATALOG + "&" + rest), "version") == Get(ParseQuery(rest), "version")
  {
    hide PairOf, Unescape, ParseQuery, Get, CATALOG;
    CatalogPlain();
    CatalogKey();
    assert |"catalog"| == |"version"| && "catalog"[0] != "version"[0];
    ParseSegment(CATALOG, rest);
    GetAppend(PairOf(CATALOG), ParseQuery(rest), "version");
  }

  lemma CatalogPlain()
    ensures forall k | 0 <= k < |CATALOG| :: Plain(CATALOG[k])
  {
  }

  lemma CatalogKey()
    ensures PairOf(CATALOG) == match Unescape("automium") { case None => [] case Some(v) => [Pair("catalog", v)] }
  {
    hide PairOf, Unescape;
    assert CATALOG == "catalog" + "=" + "automium";
    KeyOf("catalog", "automium");
  }

  lemma SafeNameOk(name: string)
    requires Safe(name)
    ensures NameOk(name)
  {
    hide PairOf, Unescape;
    KeyOf("template", name);
    assert |"template"| != |"version"|;
    var head, s := "template" + "=", TemplateOf(name);
    assert s == head + name;
    assert forall k | 0 <= k < |head| :: Plain(head[k]);
    FindAppend(s, "", '&', ';');
    assert s + "" == s && Find(s, '&', ';') == |s| && s[..|s|] == s;
    ParseStep(s);
  }

  lemma PiecesAfter(head: string, tail: string)
    requires head != "" && forall k | 0 <= k < |head| :: head[k] != '&' && head[k] != ';'
    ensures var m := Find(tail, '&', ';');
      ParseQuery(head + tail) == PairOf(head + tail[..m]) + if m < |tail| then ParseQuery(tail[m + 1..]) else []
  {
    hide PairOf, Unescape, ParseQuery, Find;
    var q := head + tail;
    var m := Find(tail, '&', ';');
    ParseStep(q);
    FindAppend(head, tail, '&', ';');
    assert q[..|head| + m] == head + tail[..m];
    assert m < |tail| ==> q[|head| + m + 1..] == tail[m + 1..];
  }

  /** The pieces of version=... */
  lemma VersionPieces(tail: string)
    ensures var m := Find(tail, '&', ';');
      ParseQuery(VersionOf(tail)) == PairOf(VersionOf(tail[..m])) + if m < |tail| then ParseQuery(tail[m + 1..]) else []
  {
    hide PairOf, Unescape, ParseQuery, Find, VERSION_KEY;
    VersionKeyPlain();
    PiecesAfter(VERSION_KEY, tail);
  }

  lemma VersionKeyPlain()
    ensures VERSION_KEY != "" && forall k | 0 <= k < |VERSION_KEY| :: VERSION_KEY[k] != '&' && VERSION_KEY[k] != ';'
  {
  }

  lemma VersionText(v: string)
    ensures VersionOf(v) == "version" + "=" + v
  {
    assert VERSION_KEY == "version" + "=";
  }

  predicate Untouched(s: string) {
    forall k | 0 <= k < |s| :: s[k] != '&' && s[k] != ';' && s[k] != '%' && s[k] != '+'
  }

  /** The value got for the key version out of version=..., compared with the text. */
  lemma VersionValueIff(tail: string)
    ensures var got := Get(ParseQuery(VersionOf(tail)), "version");
      |got| <= |tail| && (got == tail <==> Untouched(tail))
  {
    hide PairOf, Unescape, ParseQuery, Find, VersionOf;
    var m := Find(tail, '&', ';');
    VersionPieces(tail);
    VersionText(tail[..m]);
    KeyOf("version", tail[..m]);
    var head := PairOf(VersionOf(tail[..m]));
    var rest := if m < |tail| then ParseQuery(tail[m + 1..]) else [];
    UnescapeShrinks(tail[..m]);
    UnescapeKeepsIff(tail[..m]);
    if m < |tail| {
      GetIsShort(tail[m + 1..], "version");
    } else {
      assert tail[..m] == tail;
    }
    if head == [] {
      assert head + rest == rest;
    } else {
      assert (head + rest)[0] == Pair("version", Unescape(tail[..m]).value);
    }
  }

  /* ---- url.Parse on a URL whose first part is plain ---- */

  predicate PlainUrl(s: string) {
    forall k | 0 <= k < |s| :: s[k] != '#' && !IsControl(s[k])
  }

  lemma SafeIsPlainUrl(s: string)
    requires Safe(s)
    ensures PlainUrl(s)
  {
  }

  lemma ControlShift(p: string, v: string, n: nat)
    requires n <= |v| && PlainUrl(p)
    ensures HasControl(p + v, |p| + n) <==> HasControl(v, n)
  {
    hide IsControl;
    assert forall k | 0 <= k < n :: (p + v)[|p| + k] == v[k];
    assert forall k | |p| <= k < |p| + n :: (p + v)[k] == v[k - |p|];
  }

  lemma UrlCut(prefix: string, v: string)
    requires PlainUrl(prefix)
    ensures Find(prefix + v, '#', '#') == |prefix| + Find(v, '#', '#')
    ensures UrlParses(prefix + v) <==> UrlParses(v)
  {
    hide Find, IsControl, HasControl, BadEscape;
    var n, url := Find(v, '#', '#'), prefix + v;
    FindAppend(prefix, v, '#', '#');
    ControlShift(prefix, v, n);
    assert n < |v| ==> url[|prefix| + n + 1..] == v[n + 1..];
  }

  /** What comes before the name in every posted ID. */
  const START := CATALOG + "&" + TemplateOf("")

  lemma StartIsPlain()
    ensures PlainUrl(HEAD + START) && |START| >= |CATALOG|
  {
    hide CATALOG;
    CatalogPlain();
    assert PlainUrl(HEAD) && PlainUrl("&" + TemplateOf(""));
    assert HEAD + START == HEAD + CATALOG + ("&" + TemplateOf(""));
  }

  lemma FormatQuery(name: string, version: string)
    ensures var t := Tail(name, version);
      UrlQuery(Format(name, version)) == if UrlParses(t) then Some(START + t[..Find(t, '#', '#')]) else None
  {
    hide Find, UrlParses, CATALOG, HEAD, PlainUrl;
    var t, url := Tail(name, version), Format(name, version);
    assert TemplateOf(name) == TemplateOf("") + name;
    assert url == HEAD + START + t;
    StartIsPlain();
    UrlCut(HEAD + START, t);
    var n := Find(t, '#', '#');
    assert url[|HEAD|..|HEAD + START| + n] == START + t[..n];
  }

  /* ---- the three cases ---- */

  /** The name ends the query: its own version, or none, is read. */
  lemma HashInName(name: string, version: string)
    requires Find(name, '#', '#') < |name|
    ensures var t := Tail(name, version);
      Get(ParseQuery(START + t[..Find(t, '#', '#')]), "version") == Carried(name)
  {
    hide ParseQuery, Get, CATALOG, Find, TemplateOf, VersionOf;
    var h, t := Find(name, '#', '#'), Tail(name, version);
    assert t == name + ("&" + VersionOf(version));
    StartThen(name[..h], "");
    HashStops(name, "&" + VersionOf(version));
    assert t[..h] == name[..h];
    CatalogPiece(TemplateOf(name[..h]));
  }

  lemma Regroup(catalog: string, template: string, name: string, rest: string)
    ensures (catalog + "&" + template) + name == catalog + "&" + (template + name)
    ensures (catalog + "&" + template) + (name + rest) == catalog + "&" + ((template + name) + rest)
  {
  }

  lemma StartThen(name: string, rest: string)
    ensures START + name == CATALOG + "&" + TemplateOf(name)
    ensures START + (name + "&" + rest) == CATALOG + "&" + (TemplateOf(name) + "&" + rest)
  {
    hide CATALOG;
    assert TemplateOf("") + name == TemplateOf(name);
    Regroup(CATALOG, TemplateOf(""), name, "&" + rest);
    assert name + "&" + rest == name + ("&" + rest);
    assert TemplateOf(name) + "&" + rest == TemplateOf(name) + ("&" + rest);
  }

  lemma {:induction false} HashStops(a: string, b: string)
    requires Find(a, '#', '#') < |a|
    ensures Find(a + b, '#', '#') == Find(a, '#', '#')
  {
    if a[0] != '#' {
      assert (a + b)[1..] == a[1..] + b;
      HashStops(a[1..], b);
    }
  }

  lemma TailCut(name: string, version: string)
    requires Find(name, '#', '#') == |name|
    ensures var t := Tail(name, version);
      t[..Find(t, '#', '#')] == name + "&" + VersionOf(version[..Find(version, '#', '#')])
  {
    hide Find;
    var t, m := Tail(name, version), Find(version, '#', '#');
    var before := name + "&" + VERSION_KEY;
    assert t == before + version;
    assert forall k | 0 <= k < |VERSION_KEY| :: VERSION_KEY[k] != '#';
    FindAppend(before, version, '#', '#');
  }

  /** The name does not end the query: its own version hides the printed one. */
  lemma NoHashInName(name: string, version: string)
    requires Find(name, '#', '#') == |name|
    ensures var t, m := Tail(name, version), Find(version, '#', '#');
      Get(ParseQuery(START + t[..Find(t, '#', '#')]), "version") ==
        if HasKey(ParseQuery(TemplateOf(name)), "version") then Carried(name)
        else Get(ParseQuery(VersionOf(version[..m])), "version")
  {
    hide ParseQuery, Get, CATALOG, HasKey, Find, TemplateOf, START;
    var t, m := Tail(name, version), Find(version, '#', '#');
    TailCut(name, version);
    var template, rest := TemplateOf(name), VersionOf(version[..m]);
    StartThen(name, rest);
    CatalogPiece(template + "&" + rest);
    ParseAppend(template, rest);
    GetAppend(ParseQuery(template), ParseQuery(rest), "version");
    assert name[..|name|] == name;
  }

  lemma TailText(name: string, version: string)
    ensures Tail(name, version) == name + ("&" + VersionOf(version))
  {
  }

  lemma ControlInName(name: string, version: string)
    requires Find(name, '#', '#') == |name| && exists k :: 0 <= k < |name| && IsControl(name[k])
    ensures !UrlParses(Tail(name, version))
  {
    hide IsControl, BadEscape, Find, VersionOf, Tail;
    var t := Tail(name, version);
    assert t == name + ("&" + VersionOf(version)) by { TailText(name, version); }
    var k :| 0 <= k < |name| && IsControl(name[k]);
    FindAppend(name, "&" + VersionOf(version), '#', '#');
    assert t[k] == name[k];
  }

  lemma PlainNameParses(name: string, version: string)
    requires PlainUrl(name)
    ensures UrlParses(Tail(name, version)) <==> UrlParses(version)
  {
    hide UrlParses;
    var before := name + "&" + VERSION_KEY;
    assert Tail(name, version) == before + version;
    assert PlainUrl(before) by {
      assert forall k | 0 <= k < |VERSION_KEY| :: Plain(VERSION_KEY[k]);
    }
    UrlCut(before, version);
  }

  lemma SafeVersionIff(version: string)
    ensures Safe(version) <==>
      UrlParses(version) && Get(ParseQuery(VersionOf(version[..Find(version, '#', '#')])), "version") == version
  {
    hide ParseQuery, Get, VersionOf, BadEscape;
    var n := Find(version, '#', '#');
    VersionValueIff(version[..n]);
    if n == |version| {
      assert version[..n] == version;
    }
  }

  /** An ID is unreadable exactly when a control character comes before the first '#' or a
      malformed escape after it. Otherwise the version read back is the one printed exactly
      when the name is harmless and the version has no character with a meaning in a query,
      or the name brings this very version itself. */
  lemma VersionRoundTripIff(name: string, version: string)
    ensures ParsedVersion(Format(name, version)).Some? <==> UrlParses(Tail(name, version))
    ensures ParsedVersion(Format(name, version)) == Some(version) <==> Survives(name, version)
  {
    hide UrlQuery, UrlParses, ParseQuery, Get, Find, CATALOG, HEAD, HasKey, Safe, TemplateOf, VersionOf, START,
      IsControl;
    FormatQuery(name, version);
    if Find(name, '#', '#') < |name| {
      HashInName(name, version);
      assert !NameOk(name);
    } else {
      NoHashInName(name, version);
      if exists k :: 0 <= k < |name| && IsControl(name[k]) {
        ControlInName(name, version);
      } else {
        PlainNameParses(name, version);
        SafeVersionIff(version);
      }
    }
  }

  /** The names beside which exactly the safe versions survive are the harmless ones; beside
      any other name at most one version does. */
  lemma NameOkIff(name: string)
    ensures (forall version :: ParsedVersion(Format(name, version)) == Some(version) <==> Safe(version))
      <==> NameOk(name)
    ensures !NameOk(name) ==> forall v, w ::
      ParsedVersion(Format(name, v)) == Some(v) && ParsedVersion(Format(name, w)) == Some(w) ==> v == w
  {
    hide NameOk, ParsedVersion, Format, UrlParses, Tail, Carried;
    forall version ensures ParsedVersion(Format(name, version)) == Some(version) <==> Survives(name, version) {
      VersionRoundTripIff(name, version);
    }
    if !NameOk(name) {
      assert Safe("") && Safe("1") && "" != "1";
    }
  }

  /* ---- versions and names that fail ---- */

  /** A line break makes an external ID unreadable; a plus sign changes the version. */
  lemma VersionsThatFail()
    ensures !UrlParses("1\n") && UrlParses("1+2") && !Safe("1+2")
  {
    hide Find;
    FindAppend("1\n", "", '#', '#');
    FindAppend("1+2", "", '#', '#');
    assert "1\n" + "" == "1\n" && "1+2" + "" == "1+2";
    assert IsControl("1\n"[1]) && HasControl("1\n", 2);
    assert !Plain("1+2"[1]);
  }

  lemma OnePiece(segment: string)
    requires forall k | 0 <= k < |segment| :: segment[k] != '&' && segment[k] != ';'
    ensures ParseQuery(segment) == PairOf(segment)
  {
    hide PairOf, Unescape;
    FindAppend(segment, "", '&', ';');
    assert segment + "" == segment && segment[..|segment|] == segment;
    if segment == "" {
      ParseNothing();
    } else {
      ParseStep(segment);
    }
  }

  /** A name may hold a separator, but not end the query or bring a version. */
  lemma NamesThatFail()
    ensures NameOk("a&b") && !NameOk("a#") && !NameOk("a&version=x")
  {
    hide ParseQuery, PairOf, Unescape, Find;
    assert "a#"[1] == '#';
    UnescapeKeepsIff("a");
    UnescapeKeepsIff("b");
    UnescapeKeepsIff("x");
    KeyOf("template", "a");
    OnePiece("template=a");
    assert "template" + "=" + "a" == "template=a";
    assert TemplateOf("a&b") == "template=a" + "&" + "b";
    ParseAppend("template=a", "b");
    OnePiece("b");
    PairWithoutValue();
    assert |"template"| != |"version"| && |"b"| != |"version"|;
    assert TemplateOf("a&version=x") == "template=a" + "&" + "version=x";
    ParseAppend("template=a", "version=x");
    KeyOf("version", "x");
    OnePiece("version=x");
    assert "version" + "=" + "x" == "version=x";
    assert ParseQuery(TemplateOf("a&version=x"))[1].key == "version";
  }

  lemma PairWithoutValue()
    ensures PairOf("b") == [Pair("b", "")]
  {
    hide Unescape;
    UnescapeKeepsIff("b");
    UnescapeKeepsIff("");
    assert "b"[..1] == "b";
  }
}
