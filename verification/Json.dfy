/** The JSON string scanner of the request handlers (src/api/publish_event.c:61-112; the copy in
    src/socket/server_event_handler.c:39-89 skips fewer kinds of white space). A C pointer into the text is
    modelled by the text from there on. */
module Json {
  import opened Machine

  const QUOTE := '"'
  const BACKSLASH := '\\'

  /** What `isspace` skips, and what the socket's copy skips. */
  const SPACES: set<char> := {' ', '\t', '\n', '\U{0B}', '\U{0C}', '\r'}
  const BLANKS: set<char> := {' ', '\t'}

  const KEY_BUFFER := 256

  /** `snprintf` into `search_key`: the quoted key, cut to what fits before the terminator. */
  function SearchKey(key: string): string {
    var quoted := [QUOTE] + key + [QUOTE];
    if |quoted| < KEY_BUFFER then quoted else quoted[..KEY_BUFFER - 1]
  }

  /** `strstr`: the text from the first occurrence of `needle` on. */
  function StrStr(s: string, needle: string): (r: Option<string>)
    decreases |s|
  {
    if needle <= s then Some(s) else if s == [] then None else StrStr(s[1..], needle)
  }

  /** `strchr` */
  function StrChr(s: string, c: char): (r: Option<string>)
    ensures r.Some? ==> r.value != [] && r.value[0] == c
    decreases |s|
  {
    if s == [] then None else if s[0] == c then Some(s) else StrChr(s[1..], c)
  }

  function SkipSpaces(s: string, spaces: set<char>): string
    decreases |s|
  {
    if s != [] && s[0] in spaces then SkipSpaces(s[1..], spaces) else s
  }

  /** How far the closing quote is: a backslash takes the next character with it. */
  function ScanLength(s: string): (n: nat)
    ensures n <= |s|
    decreases |s|
  {
    if s == [] || s[0] == QUOTE then 0
    else if s[0] == BACKSLASH && |s| > 1 then 2 + ScanLength(s[2..])
    else 1 + ScanLength(s[1..])
  }

  /** The string value behind a colon. */
  function ValueBehind(s: string, spaces: set<char>): Option<string> {
    var start := SkipSpaces(s, spaces);
    if start == [] || start[0] != QUOTE then None
    else
      var body := start[1..];
      var n := ScanLength(body);
      if n == |body| || body[n] != QUOTE then None else Some(body[..n])
  }

  function ValueAfterKey(s: string, spaces: set<char>): Option<string> {
    match StrChr(s, ':')
    case None => None
    case Some(colon) => ValueBehind(colon[1..], spaces)
  }

  /** The value behind the first occurrence of `needle` and the next colon. */
  function Scan(s: string, needle: string, spaces: set<char>): Option<string> {
    match StrStr(s, needle)
    case None => None
    case Some(found) => ValueAfterKey(found, spaces)
  }

  function Extract(json: string, key: string, spaces: set<char>): Option<string> {
    Scan(json, SearchKey(key), spaces)
  }

  /** `extract_json_string`: its two scanning loops compute `Extract`. */
  method ExtractJsonString(json: string, key: string, spaces: set<char>, canAlloc: bool) returns (r: Option<string>)
    requires '\0' !in json && '\0' !in key
    ensures canAlloc ==> r == Extract(json, key, spaces)
    ensures !canAlloc ==> r == None
  {
    var keyPos := StrStr(json, SearchKey(key));
    if keyPos == None {
      return None;
    }
    var colon := StrChr(keyPos.value, ':');
    if colon == None {
      return None;
    }
    var start := colon.value[1..];
    while start != [] && start[0] in spaces
      invariant SkipSpaces(start, spaces) == SkipSpaces(colon.value[1..], spaces)
      decreases |start|
    {
      start := start[1..];
    }
    if start == [] || start[0] != QUOTE {
      return None;
    }
    start := start[1..];
    var end := 0;
    while end < |start| && start[end] != QUOTE
      invariant end <= |start|
      invariant ScanLength(start) == end + ScanLength(start[end..])
      decreases |start| - end
    {
      if start[end] == BACKSLASH && end + 1 < |start| {
        assert start[end..][2..] == start[end + 2..];
        end := end + 2;
      } else {
        assert start[end..][1..] == start[end + 1..];
        end := end + 1;
      }
    }
    if end == |start| || !canAlloc {
      return None;
    }
    return Some(start[..end]);
  }

  /** Text without quotes, backslashes, colons and terminators: keys and the text between members. */
  predicate Plain(s: string) {
    QUOTE !in s && BACKSLASH !in s && ':' !in s && '\0' !in s
  }

  /** A string body in which every quote and every backslash belongs to an escape (section 7 of RFC 8259). */
  predicate WellEscaped(s: string)
    decreases |s|
  {
    s == [] ||
    (if s[0] == BACKSLASH then |s| > 1 && WellEscaped(s[2..]) else s[0] != QUOTE && WellEscaped(s[1..]))
  }

  /** One member: its key, the text between key and colon, the white space behind the colon, its value as
      written, and the text up to the next member or the end. */
  datatype Field = Field(key: string, gap: string, post: string, value: string, sep: string)

  predicate Proper(f: Field, spaces: set<char>) {
    && f.key != [] && Plain(f.key) && Plain(f.gap) && Plain(f.sep)
    && Plain(f.post) && (forall c :: c in f.post ==> c in spaces)
    && WellEscaped(f.value) && '\0' !in f.value
  }

  predicate AllProper(fs: seq<Field>, spaces: set<char>) {
    forall i :: 0 <= i < |fs| ==> Proper(fs[i], spaces)
  }

  /** From a value's closing quote on. */
  function AfterValue(f: Field, rest: string): string {
    [QUOTE] + (f.sep + rest)
  }

  /** From the colon on. */
  function FromColon(f: Field, rest: string): string {
    [':'] + (f.post + ([QUOTE] + (f.value + AfterValue(f, rest))))
  }

  function Members(fs: seq<Field>): string {
    if fs == [] then []
    else [QUOTE] + (fs[0].key + ([QUOTE] + (fs[0].gap + FromColon(fs[0], Members(fs[1..])))))
  }

  /** A document: `{` and perhaps white space, then the members; the last one's `sep` closes it. */
  function Document(lead: string, fs: seq<Field>): string {
    lead + Members(fs)
  }

  /** A value, or the text behind it, that looks like the quoted key to `strstr`. */
  predicate Mimics(f: Field, key: string) {
    f.value == key || EndsWith(f.value, [QUOTE] + key) || f.sep == key
  }

  predicate EndsWith(s: string, t: string) {
    |t| <= |s| && s[|s| - |t|..] == t
  }

  /** What the scanner finds: the value of the first member with that key or behind the first mimic. */
  function Lookup(fs: seq<Field>, key: string): Option<string> {
    if fs == [] then None
    else if fs[0].key == key then Some(fs[0].value)
    else if Mimics(fs[0], key) then (if |fs| > 1 then Some(fs[1].value) else None)
    else Lookup(fs[1..], key)
  }

  lemma {:induction false} SkipQuoteFree(a: string, t: string, needle: string)
    requires QUOTE !in a && needle != [] && needle[0] == QUOTE
    ensures StrStr(a + t, needle) == StrStr(t, needle)
  {
    if a == [] {
      assert a + t == t;
    } else {
      assert (a + t)[1..] == a[1..] + t;
      SkipQuoteFree(a[1..], t, needle);
    }
  }

  lemma {:induction false} SkipColonFree(a: string, t: string)
    requires ':' !in a
    ensures StrChr(a + t, ':') == StrChr(t, ':')
  {
    if a == [] {
      assert a + t == t;
    } else {
      assert (a + t)[1..] == a[1..] + t;
      SkipColonFree(a[1..], t);
    }
  }

  lemma {:induction false} SkipAllSpaces(a: string, t: string, spaces: set<char>)
    requires forall c :: c in a ==> c in spaces
    requires t != [] && t[0] !in spaces
    ensures SkipSpaces(a + t, spaces) == t
  {
    if a == [] {
      assert a + t == t;
    } else {
      assert (a + t)[1..] == a[1..] + t;
      SkipAllSpaces(a[1..], t, spaces);
    }
  }

  lemma {:induction false} ScanWellEscaped(v: string, t: string)
    requires WellEscaped(v)
    ensures ScanLength(v + ([QUOTE] + t)) == |v|
    decreases |v|
  {
    var s := v + ([QUOTE] + t);
    if v == [] {
      assert s[0] == QUOTE;
    } else if v[0] == BACKSLASH {
      assert s[2..] == v[2..] + ([QUOTE] + t);
      ScanWellEscaped(v[2..], t);
    } else {
      assert s[1..] == v[1..] + ([QUOTE] + t);
      ScanWellEscaped(v[1..], t);
    }
  }

  /** Every quote in a well-escaped body stands right behind a backslash. */
  ghost predicate QuotesEscaped(v: string) {
    forall i :: 0 <= i < |v| && v[i] == QUOTE ==> i > 0 && v[i - 1] == BACKSLASH
  }

  lemma {:induction false} WellEscapedQuotes(v: string)
    requires WellEscaped(v)
    ensures QuotesEscaped(v)
    decreases |v|
  {
    if v != [] {
      var k := if v[0] == BACKSLASH then 2 else 1;
      WellEscapedQuotes(v[k..]);
      forall i | 0 <= i < |v| && v[i] == QUOTE ensures i > 0 && v[i - 1] == BACKSLASH {
        if i >= k {
          assert v[k..][i - k] == QUOTE;
          assert v[k..][i - k - 1] == v[i - 1];
        }
      }
    }
  }

  lemma SpacesAreNotQuotes(spaces: set<char>)
    requires spaces == SPACES || spaces == BLANKS
    ensures QUOTE !in spaces
  {
  }

  /** From anywhere with no colon before a member's colon, the scanner returns that member's value. */
  lemma ValueOfNextMember(x: string, f: Field, rest: string, spaces: set<char>)
    requires ':' !in x && Proper(f, spaces) && QUOTE !in spaces
    ensures ValueAfterKey(x + FromColon(f, rest), spaces) == Some(f.value)
  {
    var quoted := [QUOTE] + (f.value + AfterValue(f, rest));
    SkipColonFree(x, FromColon(f, rest));
    assert FromColon(f, rest)[0] == ':' && FromColon(f, rest)[1..] == f.post + quoted;
    SkipAllSpaces(f.post, quoted, spaces);
    var body := f.value + AfterValue(f, rest);
    assert quoted[1..] == body;
    ScanWellEscaped(f.value, f.sep + rest);
    assert body[|f.value|] == QUOTE && body[..|f.value|] == f.value;
  }

  /** The same when the colon to come is that of the first of the members. */
  lemma ValueOfFirstMember(x: string, fs: seq<Field>, spaces: set<char>)
    requires ':' !in x && AllProper(fs, spaces) && QUOTE !in spaces
    ensures ValueAfterKey(x + Members(fs), spaces) == if fs == [] then None else Some(fs[0].value)
  {
    if fs == [] {
      assert x + Members(fs) == x + [];
      SkipColonFree(x, []);
    } else {
      var f, rest := fs[0], Members(fs[1..]);
      var y := x + ([QUOTE] + f.key + [QUOTE] + f.gap);
      assert x + Members(fs) == y + FromColon(f, rest);
      ValueOfNextMember(y, f, rest, spaces);
    }
  }

  /** A quote-free key followed by a quote can only match a quote-free text that is the key. */
  lemma KeyMatch(key: string, k: string, rest: string)
    requires QUOTE !in key && QUOTE !in k
    ensures key + [QUOTE] <= k + ([QUOTE] + rest) <==> key == k
  {
    var s := k + ([QUOTE] + rest);
    assert s[|k|] == QUOTE;
    if key + [QUOTE] <= s {
      assert (key + [QUOTE])[|key|] == s[|key|] == QUOTE;
      assert key == s[..|key|] == k;
    }
    if key == k {
      assert s[..|key| + 1] == key + [QUOTE];
    }
  }

  /** Behind a quote inside a well-escaped value, the key matches only if it is all the rest of the value. */
  lemma KeyMatchInValue(key: string, v: string, t: string)
    requires key != [] && Plain(key)
    requires forall i :: 0 < i < |v| && v[i] == QUOTE ==> v[i - 1] == BACKSLASH
    requires v != [] ==> v[0] != QUOTE
    ensures key + [QUOTE] <= v + ([QUOTE] + t) <==> key == v
  {
    var s := v + ([QUOTE] + t);
    assert s[|v|] == QUOTE;
    if key + [QUOTE] <= s {
      assert (key + [QUOTE])[|key|] == s[|key|] == QUOTE;
      assert key[|key| - 1] in key;
      assert key == s[..|key|] == v;
    }
    if key == v {
      assert s[..|key| + 1] == key + [QUOTE];
    }
  }

  /** `strstr` at a quote: it stops there exactly when the key and another quote follow. */
  lemma AtQuote(key: string, s: string)
    ensures
      var n := [QUOTE] + key + [QUOTE];
      StrStr([QUOTE] + s, n) == if key + [QUOTE] <= s then Some([QUOTE] + s) else StrStr(s, n)
  {
  }

  lemma EndsWithStep(v: string, t: string)
    requires v != []
    ensures EndsWith(v, t) <==> v == t || EndsWith(v[1..], t) || t == []
  {
  }

  lemma AtValueQuote(key: string, w: string, t: string)
    requires key != [] && Plain(key) && (w != [] ==> w[0] != QUOTE)
    requires forall i :: 0 < i < |w| && w[i] == QUOTE ==> w[i - 1] == BACKSLASH
    ensures
      var n := [QUOTE] + key + [QUOTE];
      StrStr([QUOTE] + (w + ([QUOTE] + t)), n)
      == if w == key then Some([QUOTE] + (key + ([QUOTE] + t))) else StrStr(w + ([QUOTE] + t), n)
  {
    AtQuote(key, w + ([QUOTE] + t));
    KeyMatchInValue(key, w, t);
  }

  /** `strstr` through a value: it stops inside only at an escaped quote whose rest of the value is the key. */
  lemma {:induction false} ThroughValue(key: string, v: string, t: string)
    requires key != [] && Plain(key)
    requires forall i :: 0 < i < |v| && v[i] == QUOTE ==> v[i - 1] == BACKSLASH
    ensures
      var n := [QUOTE] + key + [QUOTE];
      StrStr(v + ([QUOTE] + t), n)
      == if EndsWith(v, [QUOTE] + key) then Some([QUOTE] + key + ([QUOTE] + t)) else StrStr([QUOTE] + t, n)
    decreases |v|
  {
    if v == [] {
      assert v + ([QUOTE] + t) == [QUOTE] + t;
    } else {
      var w := v[1..];
      assert v == [v[0]] + w;
      assert forall i :: 0 < i < |w| && w[i] == QUOTE ==> w[i - 1] == v[i] == BACKSLASH;
      ThroughValue(key, w, t);
      EndsWithStep(v, [QUOTE] + key);
      Assoc([v[0]], w, [QUOTE] + t);
      if v[0] == QUOTE {
        AtValueQuote(key, w, t);
        Assoc([QUOTE], key, [QUOTE] + t);
        assert ([QUOTE] + key)[1..] == key;
      } else {
        assert v != [QUOTE] + key;
        SkipQuoteFree([v[0]], w + ([QUOTE] + t), [QUOTE] + key + [QUOTE]);
      }
    }
  }

  /** Where `strstr` ends up when the first member does not have the key. */
  lemma PastMember(f: Field, rest: string, key: string, spaces: set<char>)
    requires Proper(f, spaces) && key != [] && Plain(key) && f.key != key && QUOTE !in spaces
    ensures
      var n := [QUOTE] + key + [QUOTE];
      var tail := AfterValue(f, rest);
      StrStr([QUOTE] + (f.key + ([QUOTE] + (f.gap + FromColon(f, rest)))), n)
      == (if f.value == key then Some([QUOTE] + (f.value + tail))
          else if EndsWith(f.value, [QUOTE] + key) then Some([QUOTE] + key + tail)
          else StrStr(tail, n))
  {
    var n := [QUOTE] + key + [QUOTE];
    var tail := AfterValue(f, rest);
    var fromGap := f.gap + FromColon(f, rest);
    AtQuote(key, f.key + ([QUOTE] + fromGap));
    KeyMatch(key, f.key, fromGap);
    SkipQuoteFree(f.key, [QUOTE] + fromGap, n);
    AtQuote(key, fromGap);
    var g := f.gap + [':'] + f.post;
    assert fromGap == g + ([QUOTE] + (f.value + tail));
    assert QUOTE !in g && ':' in g;
    KeyMatch(key, g, f.value + tail);
    SkipQuoteFree(g, [QUOTE] + (f.value + tail), n);
    AtQuote(key, f.value + tail);
    WellEscapedQuotes(f.value);
    KeyMatchInValue(key, f.value, f.sep + rest);
    ThroughValue(key, f.value, f.sep + rest);
  }

  lemma MatchHasQuote(key: string, s: string)
    ensures key + [QUOTE] <= s ==> QUOTE in s
  {
    if key + [QUOTE] <= s {
      assert (key + [QUOTE])[|key|] == s[|key|];
    }
  }

  lemma PastSeparator(f: Field, fs: seq<Field>, key: string, spaces: set<char>)
    requires Proper(f, spaces) && key != [] && Plain(key)
    ensures
      var n := [QUOTE] + key + [QUOTE];
      StrStr(AfterValue(f, Members(fs)), n)
      == if fs != [] && f.sep == key then Some(AfterValue(f, Members(fs))) else StrStr(Members(fs), n)
  {
    var n := [QUOTE] + key + [QUOTE];
    AtQuote(key, f.sep + Members(fs));
    SkipQuoteFree(f.sep, Members(fs), n);
    if fs != [] {
      KeyMatch(key, f.sep, Members(fs)[1..]);
      assert Members(fs) == [QUOTE] + Members(fs)[1..];
    } else {
      assert f.sep + Members(fs) == f.sep;
      MatchHasQuote(key, f.sep);
    }
  }

  function FirstValue(fs: seq<Field>): Option<string> {
    if fs == [] then None else Some(fs[0].value)
  }

  lemma QuotedFirst(fs: seq<Field>)
    requires fs != []
    ensures [QUOTE] + fs[0].key + [QUOTE] <= Members(fs)
  {
    var rest := fs[0].gap + FromColon(fs[0], Members(fs[1..]));
    Assoc([QUOTE], fs[0].key, [QUOTE] + rest);
    Assoc([QUOTE] + fs[0].key, [QUOTE], rest);
  }

  lemma HitFirst(fs: seq<Field>, key: string, spaces: set<char>)
    requires AllProper(fs, spaces) && QUOTE !in spaces && fs != [] && fs[0].key == key
    ensures Scan(Members(fs), [QUOTE] + key + [QUOTE], spaces) == FirstValue(fs)
  {
    QuotedFirst(fs);
    ValueOfFirstMember([], fs, spaces);
    assert [] + Members(fs) == Members(fs);
  }

  lemma ValueBehindMatch(f: Field, fs: seq<Field>, key: string, spaces: set<char>)
    requires Proper(f, spaces) && AllProper(fs, spaces) && QUOTE !in spaces && Plain(key)
    ensures ValueAfterKey([QUOTE] + key + AfterValue(f, Members(fs)), spaces) == FirstValue(fs)
    ensures ValueAfterKey([QUOTE] + (key + AfterValue(f, Members(fs))), spaces) == FirstValue(fs)
  {
    var x, rest := [QUOTE] + key + [QUOTE] + f.sep, Members(fs);
    Assoc([QUOTE], key, AfterValue(f, rest));
    Assoc([QUOTE] + key, [QUOTE], f.sep + rest);
    Assoc([QUOTE] + key + [QUOTE], f.sep, rest);
    ValueOfFirstMember(x, fs, spaces);
  }

  lemma HijackedByValue(f: Field, fs: seq<Field>, key: string, spaces: set<char>)
    requires Proper(f, spaces) && AllProper(fs, spaces) && QUOTE !in spaces && key != [] && Plain(key) && f.key != key
    requires f.value == key || EndsWith(f.value, [QUOTE] + key)
    ensures Scan([QUOTE] + (f.key + ([QUOTE] + (f.gap + FromColon(f, Members(fs))))), [QUOTE] + key + [QUOTE], spaces)
         == FirstValue(fs)
  {
    PastMember(f, Members(fs), key, spaces);
    ValueBehindMatch(f, fs, key, spaces);
  }

  lemma HijackedBySeparator(f: Field, fs: seq<Field>, key: string, spaces: set<char>)
    requires Proper(f, spaces) && AllProper(fs, spaces) && QUOTE !in spaces && key != [] && Plain(key)
    ensures Scan(AfterValue(f, Members(fs)), [QUOTE] + key + [QUOTE], spaces)
         == if fs != [] && f.sep == key then FirstValue(fs) else Scan(Members(fs), [QUOTE] + key + [QUOTE], spaces)
  {
    PastSeparator(f, fs, key, spaces);
    if fs != [] && f.sep == key {
      assert AfterValue(f, Members(fs)) == [QUOTE] + f.sep + Members(fs);
      ValueOfFirstMember([QUOTE] + f.sep, fs, spaces);
    }
  }

  /** What the scanner makes of members whose quoted key fits its buffer. */
  lemma {:induction false} SearchMembers(fs: seq<Field>, key: string, spaces: set<char>)
    requires AllProper(fs, spaces) && QUOTE !in spaces && key != [] && Plain(key)
    ensures Scan(Members(fs), [QUOTE] + key + [QUOTE], spaces) == Lookup(fs, key)
    decreases |fs|
  {
    if fs == [] {
      assert Scan([], [QUOTE] + key + [QUOTE], spaces) == None;
    } else {
      var f, rest := fs[0], fs[1..];
      assert AllProper(rest, spaces) by {
        assert forall i :: 0 <= i < |rest| ==> rest[i] == fs[i + 1];
      }
      assert rest != [] ==> rest[0] == fs[1];
      if f.key == key {
        HitFirst(fs, key, spaces);
      } else if f.value == key || EndsWith(f.value, [QUOTE] + key) {
        HijackedByValue(f, rest, key, spaces);
      } else {
        PastMember(f, Members(rest), key, spaces);
        HijackedBySeparator(f, rest, key, spaces);
        SearchMembers(rest, key, spaces);
      }
    }
  }

  const LONGEST_KEY := 253

  lemma SearchKeyFits(key: string)
    requires |key| <= LONGEST_KEY
    ensures SearchKey(key) == [QUOTE] + key + [QUOTE]
  {
  }

  /** A string literal behind white space and before anything else (section 7 of RFC 8259). */
  function Literal(post: string, v: string, t: string): string {
    post + ([QUOTE] + (v + ([QUOTE] + t)))
  }

  ghost predicate SpellsString(s: string, spaces: set<char>, v: string) {
    WellEscaped(v) && exists post, t :: s == Literal(post, v, t) && forall c :: c in post ==> c in spaces
  }

  lemma {:induction false} ScannedIsEscaped(s: string)
    requires ScanLength(s) < |s|
    ensures s[ScanLength(s)] == QUOTE && WellEscaped(s[..ScanLength(s)])
    decreases |s|
  {
    if s[0] != QUOTE {
      var k, n := if s[0] == BACKSLASH && |s| > 1 then 2 else 1, ScanLength(s);
      ScannedIsEscaped(s[k..]);
      assert s[..n][k..] == s[k..][..n - k];
    }
  }

  lemma {:induction false} SkippedAreSpaces(s: string, spaces: set<char>) returns (post: string)
    ensures s == post + SkipSpaces(s, spaces) && forall c :: c in post ==> c in spaces
    decreases |s|
  {
    post := [];
    if s != [] && s[0] in spaces {
      var rest := SkippedAreSpaces(s[1..], spaces);
      post := [s[0]] + rest;
    }
  }

  lemma LiteralIsRead(post: string, v: string, t: string, spaces: set<char>)
    requires QUOTE !in spaces && WellEscaped(v) && forall c :: c in post ==> c in spaces
    ensures ValueBehind(Literal(post, v, t), spaces) == Some(v)
  {
    SkipAllSpaces(post, [QUOTE] + (v + ([QUOTE] + t)), spaces);
    ScanWellEscaped(v, t);
    assert (v + ([QUOTE] + t))[..|v|] == v;
  }

  lemma ReadIsLiteral(s: string, spaces: set<char>) returns (post: string, t: string)
    requires QUOTE !in spaces && ValueBehind(s, spaces).Some?
    ensures WellEscaped(ValueBehind(s, spaces).value) && s == Literal(post, ValueBehind(s, spaces).value, t)
    ensures forall c :: c in post ==> c in spaces
  {
    var body := SkipSpaces(s, spaces)[1..];
    var n := ScanLength(body);
    ScannedIsEscaped(body);
    post := SkippedAreSpaces(s, spaces);
    t := body[n + 1..];
    assert body == body[..n] + ([QUOTE] + t);
  }

  /** Behind a colon the scanner returns `v` if and only if a string literal with the value `v` stands there. */
  lemma ValueBehindExactly(s: string, spaces: set<char>, v: string)
    requires QUOTE !in spaces
    ensures ValueBehind(s, spaces) == Some(v) <==> SpellsString(s, spaces, v)
  {
    if SpellsString(s, spaces, v) {
      var post, t :| s == Literal(post, v, t) && forall c :: c in post ==> c in spaces;
      LiteralIsRead(post, v, t, spaces);
    }
    if ValueBehind(s, spaces) == Some(v) {
      var post, t := ReadIsLiteral(s, spaces);
    }
  }

  /** The first occurrence of `needle` is at `k`. */
  ghost predicate FirstAt(s: string, needle: string, k: nat) {
    k <= |s| && needle <= s[k..] && forall j: nat :: j < k ==> !(needle <= s[j..])
  }

  lemma {:induction false} StrStrFinds(s: string, needle: string) returns (k: nat)
    requires StrStr(s, needle).Some?
    ensures FirstAt(s, needle, k) && StrStr(s, needle) == Some(s[k..])
    decreases |s|
  {
    k := 0;
    if !(needle <= s) {
      k := StrStrFinds(s[1..], needle);
      forall j: nat | j < k + 1 ensures !(needle <= s[j..]) {
        assert j > 0 ==> s[j..] == s[1..][j - 1..];
      }
      assert s[k + 1..] == s[1..][k..];
      k := k + 1;
    }
  }

  lemma {:induction false} FirstIsFound(s: string, needle: string, k: nat)
    requires FirstAt(s, needle, k)
    ensures StrStr(s, needle) == Some(s[k..])
    decreases k
  {
    assert s[0..] == s;
    if k > 0 {
      assert !(needle <= s[0..]);
      assert forall j: nat :: j <= |s| - 1 ==> s[1..][j..] == s[j + 1..];
      FirstIsFound(s[1..], needle, k - 1);
    }
  }

  lemma {:induction false} BeforeColon(s: string) returns (x: string)
    requires StrChr(s, ':').Some?
    ensures ':' !in x && s == x + StrChr(s, ':').value
    decreases |s|
  {
    x := [];
    if s[0] != ':' {
      var rest := BeforeColon(s[1..]);
      x := [s[0]] + rest;
    }
  }

  /** From `k` on: text without a colon, the colon, and a string literal with the value `v`. */
  ghost predicate SpellsMember(json: string, k: nat, spaces: set<char>, v: string) {
    k <= |json| && exists x, r :: ':' !in x && json[k..] == x + ([':'] + r) && SpellsString(r, spaces, v)
  }

  lemma FoundIsSpelled(json: string, key: string, spaces: set<char>, v: string) returns (k: nat)
    requires QUOTE !in spaces && Extract(json, key, spaces) == Some(v)
    ensures FirstAt(json, SearchKey(key), k) && SpellsMember(json, k, spaces, v)
  {
    k := StrStrFinds(json, SearchKey(key));
    var x := BeforeColon(json[k..]);
    var r := StrChr(json[k..], ':').value[1..];
    assert json[k..] == x + ([':'] + r);
    ValueBehindExactly(r, spaces, v);
  }

  lemma SpelledIsFound(json: string, key: string, k: nat, spaces: set<char>, v: string)
    requires QUOTE !in spaces && FirstAt(json, SearchKey(key), k) && SpellsMember(json, k, spaces, v)
    ensures Extract(json, key, spaces) == Some(v)
  {
    var x, r :| ':' !in x && json[k..] == x + ([':'] + r) && SpellsString(r, spaces, v);
    FirstIsFound(json, SearchKey(key), k);
    SkipColonFree(x, [':'] + r);
    assert ([':'] + r)[1..] == r;
    ValueBehindExactly(r, spaces, v);
  }

  /** For every text at all, well-formed or not: the scanner returns `v` if and only if from the first occurrence of
      the quoted key on, the next colon is followed by a string literal with the value `v`. */
  lemma ExtractExactly(json: string, key: string, spaces: set<char>, v: string)
    requires QUOTE !in spaces
    ensures Extract(json, key, spaces) == Some(v)
       <==> exists k: nat :: FirstAt(json, SearchKey(key), k) && SpellsMember(json, k, spaces, v)
  {
    if Extract(json, key, spaces) == Some(v) {
      var k := FoundIsSpelled(json, key, spaces, v);
    }
    if k: nat :| FirstAt(json, SearchKey(key), k) && SpellsMember(json, k, spaces, v) {
      SpelledIsFound(json, key, k, spaces, v);
    }
  }

  /** A first member with the key yields `v` if and only if a string literal with the value `v` stands behind its
      colon. A number, nothing at all, or a string that is never closed yields NULL. */
  lemma FirstMemberExactly(lead: string, key: string, gap: string, rest: string, spaces: set<char>, v: string)
    requires Plain(lead) && Plain(key) && |key| <= LONGEST_KEY && Plain(gap) && QUOTE !in spaces
    ensures Extract(lead + ([QUOTE] + key + [QUOTE] + gap + ([':'] + rest)), key, spaces) == Some(v)
       <==> SpellsString(rest, spaces, v)
  {
    SearchKeyFits(key);
    var x, needle := [QUOTE] + key + [QUOTE] + gap, SearchKey(key);
    SkipQuoteFree(lead, x + ([':'] + rest), needle);
    assert needle <= x + ([':'] + rest) by {
      assert (x + ([':'] + rest))[..|needle|] == needle;
    }
    SkipColonFree(x, [':'] + rest);
    assert ([':'] + rest)[1..] == rest;
    ValueBehindExactly(rest, spaces, v);
  }

  /** White space by section 2 of RFC 8259 before a value never hides it from the request handlers; the socket's copy
      finds the value exactly when no line break or the like is among it. */
  lemma WhiteSpaceBeforeValue(post: string, v: string, t: string)
    requires WellEscaped(v) && forall c :: c in post ==> c in {' ', '\t', '\n', '\r'}
    ensures ValueBehind(Literal(post, v, t), SPACES) == Some(v)
    ensures ValueBehind(Literal(post, v, t), BLANKS) == Some(v) <==> '\n' !in post && '\r' !in post
  {
    ValueBehindExactly(Literal(post, v, t), SPACES, v);
    if '\n' !in post && '\r' !in post {
      ValueBehindExactly(Literal(post, v, t), BLANKS, v);
    } else {
      BlanksStopAtBreak(post, [QUOTE] + (v + ([QUOTE] + t)));
    }
  }

  lemma {:induction false} BlanksStopAtBreak(post: string, t: string)
    requires '\n' in post || '\r' in post
    requires forall c :: c in post ==> c in {' ', '\t', '\n', '\r'}
    ensures SkipSpaces(post + t, BLANKS) != [] && SkipSpaces(post + t, BLANKS)[0] in {'\n', '\r'}
    decreases |post|
  {
    assert (post + t)[0] == post[0] && (post + t)[1..] == post[1..] + t;
    assert post[0] in post && forall c :: c in post[1..] ==> c in post;
    if post[0] in BLANKS {
      assert post == [post[0]] + post[1..];
      BlanksStopAtBreak(post[1..], t);
    }
  }

  /** For every document of string members, however many, and every key that fits the buffer, the scanner returns
      exactly what `Lookup` says. */
  lemma ExtractIsLookup(lead: string, fs: seq<Field>, key: string, spaces: set<char>)
    requires Plain(lead) && AllProper(fs, spaces) && QUOTE !in spaces
    requires key != [] && Plain(key) && |key| <= LONGEST_KEY
    ensures Extract(Document(lead, fs), key, spaces) == Lookup(fs, key)
  {
    SearchKeyFits(key);
    SkipQuoteFree(lead, Members(fs), SearchKey(key));
    SearchMembers(fs, key, spaces);
  }

  /** In a document of two members with distinct keys, each key gets its own value, whatever the values are:
      even when the first value is the second key or ends in an escaped quote followed by it. */
  lemma TwoMembersAreSafe(lead: string, a: Field, b: Field, spaces: set<char>)
    requires Plain(lead) && Proper(a, spaces) && Proper(b, spaces) && QUOTE !in spaces
    requires a.key != b.key && |a.key| <= LONGEST_KEY && |b.key| <= LONGEST_KEY
    ensures Extract(Document(lead, [a, b]), a.key, spaces) == Some(a.value)
    ensures Extract(Document(lead, [a, b]), b.key, spaces) == Some(b.value)
  {
    ExtractIsLookup(lead, [a, b], a.key, spaces);
    ExtractIsLookup(lead, [a, b], b.key, spaces);
    assert [a, b][1..] == [b];
  }

  /** The members before the one with the key: the first that mimics it decides. */
  ghost predicate FirstMimic(fs: seq<Field>, key: string, j: nat) {
    j < |fs| && Mimics(fs[j], key) && forall k :: 0 <= k < j ==> !Mimics(fs[k], key)
  }

  /** In larger documents the key gets its member's value exactly when the value behind the first earlier
      mimic, if there is one, is the same. */
  lemma {:induction false} LookupIsRightExactly(fs: seq<Field>, key: string, i: nat)
    requires i < |fs| && fs[i].key == key && forall k :: 0 <= k < i ==> fs[k].key != key
    ensures Lookup(fs, key) == Some(fs[i].value)
       <==> forall j: nat :: j < i && FirstMimic(fs, key, j) ==> fs[j + 1].value == fs[i].value
    decreases i
  {
    if i > 0 {
      if Mimics(fs[0], key) {
        assert FirstMimic(fs, key, 0);
        assert forall j: nat :: FirstMimic(fs, key, j) ==> j == 0;
      } else {
        var rest := fs[1..];
        assert forall k :: 0 <= k < |rest| ==> rest[k] == fs[k + 1];
        LookupIsRightExactly(rest, key, i - 1);
        forall j: nat | j < i - 1 ensures FirstMimic(rest, key, j) <==> FirstMimic(fs, key, j + 1) {
          if FirstMimic(rest, key, j) {
            forall k | 0 <= k < j + 1 ensures !Mimics(fs[k], key) {
              if k > 0 {
                assert !Mimics(rest[k - 1], key);
              }
            }
          }
        }
        assert !FirstMimic(fs, key, 0);
        assert forall j: nat :: 0 < j < i && FirstMimic(fs, key, j) ==> FirstMimic(rest, key, j - 1);
      }
    }
  }

  lemma DataIsEscaped()
    ensures WellEscaped("data")
  {
    assert "data"[1..] == "ata" && "ata"[1..] == "ta" && "ta"[1..] == "a";
    SingleIsEscaped("a");
  }

  /** Three members are enough to go wrong: `{"a":"data","b":"x","data":"y"}` yields `x` for `data`. */
  lemma ThirdMemberHijacked()
    ensures
      var fs := [Field("a", "", "", "data", ","), Field("b", "", "", "x", ","), Field("data", "", "", "y", "}")];
      AllProper(fs, SPACES) && Extract(Document("{", fs), "data", SPACES) == Some("x")
  {
    var fs := [Field("a", "", "", "data", ","), Field("b", "", "", "x", ","), Field("data", "", "", "y", "}")];
    assert Plain("data") && Plain("{") && |fs[0].key| != |"data"|;
    SingleIsEscaped("x");
    SingleIsEscaped("y");
    DataIsEscaped();
    assert Proper(fs[0], SPACES) && Proper(fs[1], SPACES) && Proper(fs[2], SPACES);
    SpacesAreNotQuotes(SPACES);
    ExtractIsLookup("{", fs, "data", SPACES);
  }

  lemma SingleIsEscaped(s: string)
    requires |s| == 1 && s[0] != QUOTE && s[0] != BACKSLASH
    ensures WellEscaped(s)
  {
    assert s[1..] == [];
  }

  /** The document `{"k1":"A","k2":"B"}`. */
  function TwoMembers(k1: string, a: string, k2: string, b: string): seq<Field> {
    [Field(k1, [], [], a, [',']), Field(k2, [], [], b, ['}'])]
  }

  /** The scanner finds the second of two members for all first members and values. */
  ghost predicate AlwaysFound(key: string) {
    forall k1: string, a: string, b: string ::
      k1 != key && AllProper(TwoMembers(k1, a, key, b), SPACES)
      ==> Extract(Document("{", TwoMembers(k1, a, key, b)), key, SPACES) == Some(b)
  }

  lemma LongKeyIsCut(key: string)
    requires |key| > LONGEST_KEY
    ensures SearchKey(key) == [QUOTE] + key[..254]
  {
  }

  lemma LongKeyFails(key: string)
    requires key != [] && Plain(key) && |key| > LONGEST_KEY
    ensures AllProper(TwoMembers(key + "x", "a", key, "b"), SPACES)
    ensures Extract(Document("{", TwoMembers(key + "x", "a", key, "b")), key, SPACES) == Some("a")
  {
    var fs := TwoMembers(key + "x", "a", key, "b");
    SingleIsEscaped("a");
    SingleIsEscaped("b");
    assert Proper(fs[0], SPACES) && Proper(fs[1], SPACES);
    SpacesAreNotQuotes(SPACES);
    LongKeyIsCut(key);
    SkipQuoteFree("{", Members(fs), SearchKey(key));
    assert SearchKey(key) <= Members(fs) by {
      assert (key + "x")[..254] == key[..254];
      assert Members(fs)[..255] == [QUOTE] + key[..254];
    }
    ValueOfFirstMember([], fs, SPACES);
    assert [] + Members(fs) == Members(fs);
  }

  /** The key buffer's limit is exact: a key is found behind every other member if and only if it has at most
      253 characters. */
  lemma KeyLengthIsExact(key: string)
    requires key != [] && Plain(key)
    ensures AlwaysFound(key) <==> |key| <= 253
  {
    if |key| <= LONGEST_KEY {
      forall k1: string, a: string, b: string
        | k1 != key && AllProper(TwoMembers(k1, a, key, b), SPACES)
        ensures Extract(Document("{", TwoMembers(k1, a, key, b)), key, SPACES) == Some(b)
      {
        var fs := TwoMembers(k1, a, key, b);
        SpacesAreNotQuotes(SPACES);
        ExtractIsLookup("{", fs, key, SPACES);
        assert fs[1..] == [fs[1]];
      }
    } else {
      LongKeyFails(key);
      assert key + "x" != key by {
        assert |key + "x"| == |key| + 1;
      }
    }
  }
}
