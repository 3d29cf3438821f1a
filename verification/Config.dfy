/** The configuration file: sections of keys with one or more values, read line by line and printed. */
module Config {
  import opened Options

  /** Section, key, and the key's values with a NUL between each two. */
  type Sections = map<string, map<string, string>>

  const NUL := '\0'
  const LINE_BUFFER := 4096
  const KEY_BUFFER := 128

  // ----- scanning -----

  predicate Blank(c: char) {
    c == ' ' || c == '\t' || c == '\r' || c == '\n'
  }

  /** The first place from `i` on that holds `c`, or the end. */
  function Find(s: string, c: char, i: nat): (r: nat)
    requires i <= |s|
    ensures i <= r <= |s| && (r < |s| ==> s[r] == c) && forall j :: i <= j < r ==> s[j] != c
    decreases |s| - i
  {
    if i == |s| || s[i] == c then i else Find(s, c, i + 1)
  }

  function SkipBlanks(s: string, i: nat): (r: nat)
    requires i <= |s|
    ensures i <= r <= |s| && (r < |s| ==> !Blank(s[r])) && forall j :: i <= j < r ==> Blank(s[j])
    decreases |s| - i
  {
    if i < |s| && Blank(s[i]) then SkipBlanks(s, i + 1) else i
  }

  function SkipSpaces(s: string, i: nat): (r: nat)
    requires i <= |s|
    ensures i <= r <= |s| && (r < |s| ==> s[r] != ' ') && forall j :: i <= j < r ==> s[j] == ' '
    decreases |s| - i
  {
    if i < |s| && s[i] == ' ' then SkipSpaces(s, i + 1) else i
  }

  /** Back from `i` over blanks, but not past `low`. */
  function BackBlanks(s: string, low: nat, i: nat): (r: nat)
    requires low <= i <= |s|
    ensures low <= r <= i && (low < r ==> !Blank(s[r - 1])) && forall j :: r <= j < i ==> Blank(s[j])
  {
    if low < i && Blank(s[i - 1]) then BackBlanks(s, low, i - 1) else i
  }

  function BackSpaces(s: string, i: nat): (r: nat)
    requires i <= |s|
    ensures r <= i && (0 < r ==> s[r - 1] != ' ') && forall j :: r <= j < i ==> s[j] == ' '
  {
    if 0 < i && s[i - 1] == ' ' then BackSpaces(s, i - 1) else i
  }

  /** Back over everything up to and including the space character, NUL among it. */
  function BackLow(s: string, i: nat): (r: nat)
    requires i <= |s|
    ensures r <= i && (0 < r ==> s[r - 1] > ' ') && forall j :: r <= j < i ==> s[j] <= ' '
  {
    if 0 < i && s[i - 1] <= ' ' then BackLow(s, i - 1) else i
  }

  /** The C string that starts at `i`. */
  function CString(s: string, i: nat): string
    requires i <= |s|
  {
    s[i..Find(s, NUL, i)]
  }

  /** Ending the string at `i`, in place. */
  function Cut(s: string, i: nat): string {
    if i < |s| then s[i := NUL] else s
  }

  // ----- one line -----

  datatype Parsed = Nothing | Malformed | Pair(key: string, val: string)

  /** What a line that is not a section name says. */
  function Parse(line: string): Parsed {
    var p := SkipBlanks(line, 0);
    ParseText(line[..BackBlanks(line, p, |line|)], p)
  }

  /** The line without the blanks at its end, and the place `p` where its text begins. */
  function ParseText(t: string, p: nat): Parsed
    requires p <= |t|
  {
    if p == |t| || t[p] == '#' then Nothing
    else
      var e := Find(t, '=', 0);
      if e == |t| then Malformed else KeyedAt(t, p, e, BackSpaces(t, e))
  }

  /** The key ends at `b`, before the equals sign at `e`. */
  function KeyedAt(t: string, p: nat, e: nat, b: nat): Parsed
    requires p <= |t| && e < |t|
  {
    var t1 := Cut(t, b);
    PairAt(t1, p, SkipSpaces(t1, e + 1))
  }

  /** The key that starts at `p` and ends with a NUL, and the value that starts at `v`. */
  function PairAt(t: string, p: nat, v: nat): Parsed
    requires p <= |t| && v <= |t|
  {
    var t2 := Cut(t, BackLow(t, Find(t, '#', v)));
    var key := CString(t2, p);
    if key == "" then Malformed else Pair(key, CString(t2, v))
  }

  predicate NameChar(c: char) {
    'A' <= c <= 'Z' || 'a' <= c <= 'z' || '0' <= c <= '9' || c == '_'
  }

  /** The section a line names, if it does, and the line buffer afterwards: a line in brackets that is
      no name has lost its closing bracket. */
  function SectionName(line: string): (Option<string>, string) {
    if |line| <= 2 || line[0] != '[' then (None, line)
    else
      var hi := BackBlanks(line, 1, |line|);
      if line[hi - 1] != ']' then (None, line)
      else if forall j :: 1 <= j < hi - 1 ==> NameChar(line[j]) then (Some(line[1..hi - 1]), line[..hi - 1])
      else (None, line[..hi - 1])
  }

  // ----- the file -----

  /** A reader of lines: what has been collected, and the section lines belong to now. */
  datatype Loader = Loader(config: Sections, section: Option<string>, failed: bool)

  /** One more value for a key: the first, or after those it has. */
  function AddValue(config: Sections, section: string, key: string, val: string): Sections {
    var m := if section in config then config[section] else map[];
    config[section := m[key := if key in m then m[key] + [NUL] + val else val]]
  }

  function Feed(st: Loader, data: string): Loader {
    var line := CString(data, 0);
    match SectionName(line)
    case (Some(name), _) =>
      var config := if name in st.config then st.config else st.config[name := map[]];
      Loader(config, Some(name), false)
    case (None, buffer) =>
      match Parse(buffer)
      case Malformed => st.(failed := true)
      case Nothing => st
      case Pair(key, val) =>
        match st.section
        case None => st.(failed := true)
        case Some(name) => st.(config := AddValue(st.config, name, key, val))
  }

  /** What one read of a line takes: up to and with the line end, at most the buffer. */
  function LineLength(text: string): (n: nat)
    ensures n <= |text| && n < LINE_BUFFER && (text != "" ==> n > 0)
    ensures forall i :: 0 <= i < n - 1 ==> text[i] != '\n'
    ensures n < |text| ==> text[n - 1] == '\n' || n == LINE_BUFFER - 1
  {
    var e := Find(text, '\n', 0);
    var n := if e < |text| then e + 1 else e;
    if n < LINE_BUFFER then n else LINE_BUFFER - 1
  }

  function FeedAll(st: Loader, text: string): Loader
    decreases |text|
  {
    if text == "" || st.failed then st
    else
      var n := LineLength(text);
      FeedAll(Feed(st, text[..n]), text[n..])
  }

  /** Reading can stop and go on at any line end. */
  lemma {:induction false} FeedAppend(st: Loader, a: string, b: string)
    requires a == "" || a[|a| - 1] == '\n'
    ensures FeedAll(st, a + b) == FeedAll(FeedAll(st, a), b)
    decreases |a|
  {
    if a == "" {
      assert a + b == b;
    } else if !st.failed {
      var n := LineLength(a);
      assert Find(a + b, '\n', 0) == Find(a, '\n', 0) by { FindAppend(a, b, '\n', 0); }
      assert (a + b)[..n] == a[..n] && (a + b)[n..] == a[n..] + b;
      FeedAppend(Feed(st, a[..n]), a[n..], b);
    }
  }

  lemma {:induction false} FindAppend(a: string, b: string, c: char, i: nat)
    requires i < |a| && exists j :: i <= j < |a| && a[j] == c
    ensures Find(a + b, c, i) == Find(a, c, i)
    decreases |a| - i
  {
    if a[i] != c {
      FindAppend(a, b, c, i + 1);
    }
  }

  // ----- printing -----

  function KeyLine(key: string, val: string): string {
    "    " + key + " = " + val + "\n"
  }

  function SectionLine(name: string): string {
    "[" + name + "]\n"
  }

  predicate Printable(s: string) {
    forall i :: 0 <= i < |s| ==> ' ' <= s[i] <= '~'
  }

  predicate Trimmed(s: string) {
    s != "" ==> s[0] != ' ' && s[|s| - 1] != ' '
  }

  predicate GoodKey(s: string) {
    0 < |s| < KEY_BUFFER && Printable(s) && Trimmed(s) && s[0] != '#' && '=' !in s
  }

  predicate GoodValue(s: string) {
    Printable(s) && Trimmed(s) && '#' !in s
  }

  predicate GoodName(s: string) {
    (forall i :: 0 <= i < |s| ==> NameChar(s[i])) && |SectionLine(s)| < LINE_BUFFER
  }

  lemma FindIs(s: string, c: char, i: nat, r: nat)
    requires i <= r <= |s| && (r < |s| ==> s[r] == c) && forall j :: i <= j < r ==> s[j] != c
    ensures Find(s, c, i) == r
  {
  }

  lemma BackBlanksIs(s: string, low: nat, i: nat, r: nat)
    requires low <= r <= i <= |s| && (low < r ==> !Blank(s[r - 1])) && forall j :: r <= j < i ==> Blank(s[j])
    ensures BackBlanks(s, low, i) == r
  {
  }

  /** A printed key line without its end. */
  function KeyText(key: string, val: string): string {
    "    " + key + (if val == "" then " =" else " = " + val)
  }

  lemma TrimKeyLine(key: string, val: string)
    requires GoodKey(key) && GoodValue(val)
    ensures var line := KeyLine(key, val);
            SkipBlanks(line, 0) == 4 && line[..BackBlanks(line, 4, |line|)] == KeyText(key, val)
  {
    var line, n := KeyLine(key, val), |KeyText(key, val)|;
    assert line[4] == key[0];
    assert line[..n] == KeyText(key, val);
    assert val != "" ==> line[n - 1] == val[|val| - 1];
    BackBlanksIs(line, 4, |line|, n);
  }

  /** The scans, one after the other, on a text with a value and no comment. */
  lemma ParseTextIs(t: string, p: nat, e: nat, b: nat, v: nat)
    requires p < b <= e < |t| && t[p] != '#' && Find(t, '=', 0) == e && BackSpaces(t, e) == b
    requires var t1 := t[b := NUL];
             && SkipSpaces(t1, e + 1) == v && Find(t1, '#', v) == |t| && t1[|t| - 1] > ' '
             && Find(t1, NUL, p) == b && Find(t1, NUL, v) == |t|
    ensures ParseText(t, p) == Pair(t[p..b], t[v..])
  {
    PairAtIs(Cut(t, b), p, b, v);
    CutKeeps(t, b, p, v);
    ParsesPair(t, p, e, b);
  }

  lemma ParsesPair(t: string, p: nat, e: nat, b: nat)
    requires p < b <= e < |t| && t[p] != '#' && Find(t, '=', 0) == e && BackSpaces(t, e) == b
    ensures ParseText(t, p) == PairAt(Cut(t, b), p, SkipSpaces(Cut(t, b), e + 1))
  {
  }

  lemma CutKeeps(t: string, b: nat, p: nat, v: nat)
    requires p <= b < v <= |t|
    ensures Cut(t, b)[p..b] == t[p..b] && Cut(t, b)[v..] == t[v..]
  {
  }

  lemma PairAtIs(t: string, p: nat, b: nat, v: nat)
    requires p < b < v <= |t| && Find(t, '#', v) == |t| && t[|t| - 1] > ' '
    requires Find(t, NUL, p) == b && Find(t, NUL, v) == |t|
    ensures PairAt(t, p, v) == Pair(t[p..b], t[v..])
  {
    LowStays(t, |t|);
    assert Cut(t, |t|) == t;
  }

  lemma LowStays(s: string, i: nat)
    requires 0 < i <= |s| && s[i - 1] > ' '
    ensures BackLow(s, i) == i
  {
  }

  lemma LastShows(t: string, val: string, v: nat)
    requires GoodValue(val) && 0 < v && |t| == v + |val| && t[v..] == val && (val == "" ==> t[v - 1] == '=')
    ensures t[|t| - 1] > ' '
  {
    if val != "" {
      assert t[|t| - 1] == t[v..][|val| - 1];
    }
  }

  /** The text of a key line, part by part; the value begins at `v`. */
  predicate Shaped(t: string, key: string, val: string, v: nat) {
    var k := 4 + |key|;
    && (v == if val == "" then k + 2 else k + 3) && |t| == v + |val|
    && t[..4] == "    " && t[4..k] == key && t[k] == ' ' && t[k + 1] == '=' && (v == k + 3 ==> t[k + 2] == ' ')
    && t[v..] == val
  }

  lemma ScanKey(t: string, key: string, val: string, v: nat)
    requires GoodKey(key) && Shaped(t, key, val, v)
    ensures t[4] != '#' && Find(t, '=', 0) == 5 + |key| && BackSpaces(t, 5 + |key|) == 4 + |key|
    ensures Find(t[4 + |key| := NUL], NUL, 4) == 4 + |key|
  {
    var k := 4 + |key|;
    assert forall j :: 0 <= j < 4 ==> t[j] == t[..4][j];
    assert forall j :: 4 <= j < k ==> t[j] == key[j - 4];
    FindIs(t, '=', 0, k + 1);
    FindIs(t[k := NUL], NUL, 4, k);
  }

  lemma ScanValue(t: string, key: string, val: string, v: nat)
    requires GoodValue(val) && Shaped(t, key, val, v)
    ensures var t1 := t[4 + |key| := NUL];
            && SkipSpaces(t1, 6 + |key|) == v && Find(t1, '#', v) == |t|
            && Find(t1, NUL, v) == |t| && t1[|t| - 1] > ' '
  {
    var k := 4 + |key|;
    var t1 := t[k := NUL];
    assert forall j :: v <= j < |t| ==> t1[j] == val[j - v];
    FindIs(t1, '#', v, |t1|);
    FindIs(t1, NUL, v, |t1|);
    assert t1[v..] == val;
    LastShows(t1, val, v);
  }

  lemma ParseShaped(t: string, key: string, val: string, v: nat)
    requires GoodKey(key) && GoodValue(val) && Shaped(t, key, val, v)
    ensures ParseText(t, 4) == Pair(key, val)
  {
    ScanKey(t, key, val, v);
    ScanValue(t, key, val, v);
    ParseTextIs(t, 4, 5 + |key|, 4 + |key|, v);
  }

  lemma ParseKeyText(key: string, val: string)
    requires GoodKey(key) && GoodValue(val)
    ensures ParseText(KeyText(key, val), 4) == Pair(key, val)
  {
    var t, k := KeyText(key, val), 4 + |key|;
    var v := if val == "" then k + 2 else k + 3;
    assert t[..4] == "    " && t[4..k] == key && t[v..] == val;
    ParseShaped(t, key, val, v);
  }

  /** A printed key line reads as that key and value. */
  lemma ParseKeyLine(key: string, val: string)
    requires GoodKey(key) && GoodValue(val)
    ensures Parse(KeyLine(key, val)) == Pair(key, val)
  {
    TrimKeyLine(key, val);
    ParseKeyText(key, val);
  }

  /** A line that fits the buffer is read whole. */
  lemma FeedOne(st: Loader, line: string)
    requires 0 < |line| < LINE_BUFFER && line[|line| - 1] == '\n' && '\n' !in line[..|line| - 1] && !st.failed
    ensures FeedAll(st, line) == Feed(st, line)
  {
    WholeLine(line);
    assert line[..|line|] == line && line[|line|..] == "";
  }

  lemma WholeLine(line: string)
    requires 0 < |line| < LINE_BUFFER && line[|line| - 1] == '\n' && '\n' !in line[..|line| - 1]
    ensures LineLength(line) == |line|
  {
    assert forall j :: 0 <= j < |line| - 1 ==> line[j] == line[..|line| - 1][j];
    FindIs(line, '\n', 0, |line| - 1);
  }

  lemma NoNul(line: string)
    requires NUL !in line
    ensures CString(line, 0) == line
  {
    FindIs(line, NUL, 0, |line|);
  }

  lemma FeedPair(st: Loader, line: string, name: string, key: string, val: string)
    requires NUL !in line && line != "" && line[0] != '[' && Parse(line) == Pair(key, val)
    requires st.section == Some(name)
    ensures Feed(st, line) == st.(config := AddValue(st.config, name, key, val))
  {
    NoNul(line);
  }

  lemma KeyLineIsLine(key: string, val: string)
    requires GoodKey(key) && GoodValue(val)
    ensures var line := KeyLine(key, val);
            NUL !in line && line[0] == ' ' && line[|line| - 1] == '\n' && '\n' !in line[..|line| - 1]
  {
    var line := KeyLine(key, val);
    assert line[..|line| - 1] == "    " + key + " = " + val;
  }

  lemma FeedKeyLine(st: Loader, name: string, key: string, val: string)
    requires GoodKey(key) && GoodValue(val) && |KeyLine(key, val)| < LINE_BUFFER
    requires st.section == Some(name) && !st.failed
    ensures FeedAll(st, KeyLine(key, val)) == st.(config := AddValue(st.config, name, key, val))
  {
    KeyLineIsLine(key, val);
    ParseKeyLine(key, val);
    FeedOne(st, KeyLine(key, val));
    FeedPair(st, KeyLine(key, val), name, key, val);
  }

  lemma SectionLineIsLine(name: string)
    requires GoodName(name)
    ensures var line := SectionLine(name);
            NUL !in line && line[|line| - 1] == '\n' && '\n' !in line[..|line| - 1]
  {
    var line := SectionLine(name);
    assert line[..|line| - 1] == "[" + name + "]";
  }

  /** A printed section line reads as that section's name. */
  lemma SectionLineNames(name: string)
    requires GoodName(name)
    ensures SectionName(SectionLine(name)).0 == Some(name)
  {
    var line, n := SectionLine(name), |name|;
    BackBlanksIs(line, 1, |line|, n + 2);
    assert forall j :: 1 <= j < n + 1 ==> line[j] == name[j - 1];
    assert line[1..n + 1] == name;
  }

  /** A section begins without keys; one that is named again keeps those it has. */
  lemma FeedSectionLine(st: Loader, name: string)
    requires GoodName(name) && !st.failed
    ensures FeedAll(st, SectionLine(name))
            == Loader(if name in st.config then st.config else st.config[name := map[]], Some(name), false)
  {
    SectionLineIsLine(name);
    SectionLineNames(name);
    FeedOne(st, SectionLine(name));
    NoNul(SectionLine(name));
  }

  // ----- what any line says -----

  predicate Blanks(s: string) {
    forall i :: 0 <= i < |s| ==> Blank(s[i])
  }

  /** The first character of `s` that is not blank is at `p`. */
  predicate FirstAt(s: string, p: nat) {
    p < |s| && !Blank(s[p]) && forall i :: 0 <= i < p ==> Blank(s[i])
  }

  /** A line of blanks, or one whose first other character begins a comment. */
  predicate Idle(line: string) {
    Blanks(line) || exists p :: 0 <= p < |line| && FirstAt(line, p) && line[p] == '#'
  }

  /** Exactly the blank lines and the comments say nothing. */
  lemma NothingIsIdle(line: string)
    ensures Parse(line) == Nothing <==> Idle(line)
  {
    var p := SkipBlanks(line, 0);
    NothingAt(line, p, BackBlanks(line, p, |line|));
    if p < |line| {
      assert FirstAt(line, p);
      forall q | 0 <= q < |line| && FirstAt(line, q) ensures q == p {
        SkipBlanksIs(line, q);
      }
    }
  }

  lemma NothingAt(line: string, p: nat, n: nat)
    requires p == SkipBlanks(line, 0) && n == BackBlanks(line, p, |line|)
    ensures Parse(line) == Nothing <==> p == |line| || line[p] == '#'
  {}

  /** Such a line leaves a reader as it was. */
  lemma FeedIdle(st: Loader, line: string)
    requires Idle(line) && NUL !in line && !st.failed
    requires 0 < |line| < LINE_BUFFER && line[|line| - 1] == '\n' && '\n' !in line[..|line| - 1]
    ensures FeedAll(st, line) == st
  {
    NothingIsIdle(line);
    NoNul(line);
    FeedOne(st, line);
    assert Blank(line[0]) || line[0] == '#';
  }

  /** A text that has a key and an equals sign: the key is in `p..b`, the sign at `e`, and the value, if
      there is one, begins at `v`, before the comment at `h`. */
  ghost predicate Parts(t: string, p: nat, b: nat, e: nat, v: nat, h: nat) {
    && p < b <= e < v <= h <= |t| && e < |t| && NUL !in t
    && Blanks(t[..p]) && !Blank(t[p]) && t[p] != '#' && !Blank(t[|t| - 1])
    && '=' !in t[..e] && t[e] == '=' && t[b - 1] != ' ' && (forall j :: b <= j < e ==> t[j] == ' ')
    && (forall j :: e < j < v ==> t[j] == ' ') && (v < |t| ==> t[v] != ' ')
    && '#' !in t[v..h] && (h < |t| ==> t[h] == '#')
  }

  /** The scans of such a text find its parts. */
  lemma ScanParts(t: string, p: nat, b: nat, e: nat, v: nat, h: nat)
    requires Parts(t, p, b, e, v, h)
    ensures SkipBlanks(t, 0) == p && Find(t, '=', 0) == e && BackSpaces(t, e) == b
    ensures ParseText(t, p) == PairAt(Cut(t, b), p, SkipSpaces(Cut(t, b), e + 1))
  {
    assert forall j :: 0 <= j < p ==> t[j] == t[..p][j];
    assert forall j :: 0 <= j < e ==> t[j] == t[..e][j];
    FindIs(t, '=', 0, e);
    BackSpacesIs(t, e, b);
    ParsesPair(t, p, e, b);
  }

  lemma BackSpacesIs(s: string, i: nat, r: nat)
    requires r <= i <= |s| && (0 < r ==> s[r - 1] != ' ') && forall j :: r <= j < i ==> s[j] == ' '
    ensures BackSpaces(s, i) == r
  {}

  lemma SkipSpacesIs(s: string, i: nat, r: nat)
    requires i <= r <= |s| && (r < |s| ==> s[r] != ' ') && forall j :: i <= j < r ==> s[j] == ' '
    ensures SkipSpaces(s, i) == r
  {}

  lemma BackLowIs(s: string, i: nat, r: nat)
    requires r <= i <= |s| && (0 < r ==> s[r - 1] > ' ') && forall j :: r <= j < i ==> s[j] <= ' '
    ensures BackLow(s, i) == r
  {}

  lemma FindParts(t: string, p: nat, b: nat, e: nat, v: nat, h: nat)
    requires Parts(t, p, b, e, v, h)
    ensures var t1 := Cut(t, b);
            SkipSpaces(t1, e + 1) == v && Find(t1, '#', v) == h && Find(t1, NUL, p) == b && Find(t1, NUL, v) == |t|
  {
    var t1 := Cut(t, b);
    assert t1 == t[b := NUL];
    SkipSpacesIs(t1, e + 1, v);
    assert forall j :: v <= j < h ==> t1[j] == t[v..h][j - v];
    FindIs(t1, '#', v, h);
    FindIs(t1, NUL, p, b);
    FindIs(t1, NUL, v, |t|);
  }

  /** Where the string from `i` ends once it was cut at `b` and at `c`. */
  lemma CutsEnd(t: string, b: nat, c: nat, i: nat, r: nat)
    requires NUL !in t && i <= r <= |t| && (r < |t| ==> r == b || r == c)
    requires (b < i || r <= b) && (c < i || r <= c)
    ensures CString(Cut(Cut(t, b), c), i) == t[i..r]
  {
    var u := Cut(Cut(t, b), c);
    FindIs(u, NUL, i, r);
    assert u[i..r] == t[i..r];
  }

  /** The text is cut behind the key at `b` and behind the value at `c`. */
  lemma CutParts(t: string, p: nat, b: nat, e: nat, v: nat, h: nat, c: nat, k: nat, m: nat)
    requires Parts(t, p, b, e, v, h) && BackLow(Cut(t, b), h) == c && p < k <= |t| && v <= m <= |t|
    requires (k < |t| ==> k == b || k == c) && (b < p || k <= b) && (c < p || k <= c)
    requires (m < |t| ==> m == b || m == c) && (b < v || m <= b) && (c < v || m <= c)
    ensures ParseText(t, p) == Pair(t[p..k], t[v..m])
  {
    ScanParts(t, p, b, e, v, h);
    FindParts(t, p, b, e, v, h);
    CutsEnd(t, b, c, p, k);
    CutsEnd(t, b, c, v, m);
  }

  /** The key is what stands before the equals sign, without the spaces there. The value is what stands
      behind it and before a comment, without the spaces in front and anything not visible at its end. */
  lemma ValueIs(t: string, p: nat, b: nat, e: nat, v: nat, h: nat, w: nat)
    requires Parts(t, p, b, e, v, h) && v < w <= h && t[w - 1] > ' ' && forall j :: w <= j < h ==> t[j] <= ' '
    ensures ParseText(t, p) == Pair(t[p..b], t[v..w])
  {
    BackLowIs(Cut(t, b), h, w);
    CutParts(t, p, b, e, v, h, w, b, w);
  }

  /** With nothing visible there, and a space before the equals sign, the value is empty, unless a space
      follows the sign as well: then it is the rest of the text, comment and all. */
  lemma NoValueAfterSpace(t: string, p: nat, b: nat, e: nat, v: nat, h: nat)
    requires Parts(t, p, b, e, v, h) && b < e && forall j :: v <= j < h ==> t[j] <= ' '
    ensures ParseText(t, p) == Pair(t[p..b], if v == e + 1 then "" else t[v..])
  {
    BackLowIs(Cut(t, b), h, e + 1);
    if v == e + 1 {
      assert t[v..v] == "";
      CutParts(t, p, b, e, v, h, e + 1, b, v);
    } else {
      assert t[v..|t|] == t[v..];
      CutParts(t, p, b, e, v, h, e + 1, b, |t|);
    }
  }

  /** With no space before the sign it is the rest of the text, and the key loses what is not visible at
      its end. */
  lemma NoValueTight(t: string, p: nat, b: nat, v: nat, h: nat, c: nat)
    requires Parts(t, p, b, b, v, h) && forall j :: v <= j < h ==> t[j] <= ' '
    requires p < c <= b && t[c - 1] > ' ' && forall j :: c <= j < b ==> t[j] <= ' '
    ensures ParseText(t, p) == Pair(t[p..c], t[v..])
  {
    BackLowIs(Cut(t, b), h, c);
    assert t[v..|t|] == t[v..];
    CutParts(t, p, b, b, v, h, c, c, |t|);
  }

  /** A comment at the end of a line stays out of the value exactly if there is something visible between the
      equals sign and it, or there is a space before the sign and none behind it. */
  lemma CommentStaysOut(t: string, p: nat, b: nat, e: nat, v: nat, h: nat)
    requires Parts(t, p, b, e, v, h) && h < |t| && t[p] > ' '
    ensures ParseText(t, p).Pair?
    ensures '#' !in ParseText(t, p).val <==> (exists j :: v <= j < h && t[j] > ' ') || (b < e && v == e + 1)
  {
    if j :| v <= j < h && t[j] > ' ' {
      ValueIs(t, p, b, e, v, h, BackLow(t, h));
      NoHash(t, v, h, BackLow(t, h));
    } else if b < e {
      NoValueAfterSpace(t, p, b, e, v, h);
      HashStays(t, v, h);
    } else {
      NoValueTight(t, p, b, v, h, BackLow(t, b));
      HashStays(t, v, h);
    }
  }

  lemma NoHash(t: string, v: nat, h: nat, w: nat)
    requires v <= w <= h <= |t| && '#' !in t[v..h]
    ensures '#' !in t[v..w]
  {
    assert forall i :: 0 <= i < w - v ==> t[v..w][i] == t[v..h][i];
  }

  lemma HashStays(t: string, v: nat, h: nat)
    requires v <= h < |t| && t[h] == '#'
    ensures '#' in t[v..]
  {
    assert t[v..][h - v] == '#';
  }

  /** The comment behind an empty value is taken for the value. */
  lemma CommentBecomesValue()
    ensures ParseText("k = #", 0) == Pair("k", "#")
  {
    var t := "k = #";
    assert t[..0] == "" && t[..2] == "k " && t[4..4] == "" && t[0..1] == "k" && t[4..] == "#";
    NoValueAfterSpace(t, 0, 1, 2, 4, 4);
  }

  /** Trailing blanks make no difference. */
  lemma ParseTrims(t: string, tail: string)
    requires t != "" && !Blank(t[|t| - 1]) && Blanks(tail)
    ensures Parse(t + tail) == ParseText(t, SkipBlanks(t, 0))
  {
    var line, p := t + tail, SkipBlanks(t, 0);
    SkipBlanksIs(line, p);
    BackBlanksIs(line, p, |line|, |t|);
    assert line[..|t|] == t;
  }

  lemma SkipBlanksIs(s: string, r: nat)
    requires r < |s| && !Blank(s[r]) && forall j :: 0 <= j < r ==> Blank(s[j])
    ensures SkipBlanks(s, 0) == r
  {}

  /** A text without an equals sign, and no comment, is an error. */
  lemma NoSignIsMalformed(t: string, tail: string)
    requires t != "" && !Blank(t[|t| - 1]) && Blanks(tail) && !Idle(t + tail) && '=' !in t
    ensures Parse(t + tail) == Malformed
  {
    ParseTrims(t, tail);
    NothingIsIdle(t + tail);
    FindIs(t, '=', 0, |t|);
  }

  /** A text that begins with the equals sign has no key. It is an error exactly if no space stands before the
      sign; otherwise the sign and what follows are taken for the key. */
  lemma NoKeyIsMalformed(t: string, p: nat)
    requires FirstAt(t, p) && t[p] == '=' && NUL !in t
    ensures ParseText(t, p) == Malformed <==> p == 0 || t[p - 1] != ' '
  {
    FindIs(t, '=', 0, p);
    var b := BackSpaces(t, p);
    var t1 := Cut(t, b);
    KeyAt(t1, p, SkipSpaces(t1, p + 1));
    if p == 0 || t[p - 1] != ' ' {
      BackSpacesIs(t, p, p);
    }
  }

  lemma KeyAt(t: string, p: nat, v: nat)
    requires p < v <= |t| && (t[p] == NUL || t[p] == '=')
    ensures PairAt(t, p, v) == Malformed <==> t[p] == NUL
  {
    var h := Find(t, '#', v);
    var t2 := Cut(t, BackLow(t, h));
    assert t[p] == '=' ==> BackLow(t, h) > p;
    assert t2[p] == t[p];
  }

  lemma KeylessLine()
    ensures ParseText(" = v", 1) != Malformed
  {
    NoKeyIsMalformed(" = v", 1);
  }

  /** A malformed line, and a value outside any section, stop the reader. */
  lemma FeedStops(st: Loader, line: string)
    requires NUL !in line && SectionName(line) == (None, line)
    requires Parse(line) == Malformed || (Parse(line).Pair? && st.section == None)
    ensures Feed(st, line) == st.(failed := true)
  {
    NoNul(line);
  }

  /** A line with a value adds it to the section, without the comment behind it. */
  lemma FeedParts(st: Loader, t: string, p: nat, b: nat, e: nat, v: nat, h: nat, w: nat, name: string)
    requires Parts(t, p, b, e, v, h) && v < w <= h && t[w - 1] > ' ' && forall j :: w <= j < h ==> t[j] <= ' '
    requires t[0] != '[' && st.section == Some(name)
    ensures Feed(st, t + "\n") == st.(config := AddValue(st.config, name, t[p..b], t[v..w]))
  {
    ParseParts(t, p, b, e, v, h, w);
    FeedPair(st, t + "\n", name, t[p..b], t[v..w]);
  }

  lemma ParseParts(t: string, p: nat, b: nat, e: nat, v: nat, h: nat, w: nat)
    requires Parts(t, p, b, e, v, h) && v < w <= h && t[w - 1] > ' ' && forall j :: w <= j < h ==> t[j] <= ' '
    ensures Parse(t + "\n") == Pair(t[p..b], t[v..w])
  {
    ScanParts(t, p, b, e, v, h);
    ValueIs(t, p, b, e, v, h, w);
    ParseTrims(t, "\n");
  }

  /** A line in brackets names a section exactly if there are only name characters between them. */
  lemma BracketLine(name: string, tail: string)
    requires Blanks(tail) && |name| + |tail| > 0
    ensures SectionName("[" + name + "]" + tail)
            == if forall i :: 0 <= i < |name| ==> NameChar(name[i]) then (Some(name), "[" + name) else (None, "[" + name)
  {
    var line, n := "[" + name + "]" + tail, |name|;
    BackBlanksIs(line, 1, |line|, n + 2);
    assert line[1..n + 1] == name && line[..n + 1] == "[" + name;
    assert forall j :: 1 <= j < n + 1 ==> line[j] == name[j - 1];
    assert forall i :: 0 <= i < n ==> name[i] == line[i + 1];
  }

  /** No other line names a section. */
  lemma SectionNeedsBrackets(line: string) returns (tail: string)
    requires SectionName(line).0.Some?
    ensures Blanks(tail) && line == "[" + SectionName(line).0.value + "]" + tail
  {
    var hi := BackBlanks(line, 1, |line|);
    tail := line[hi..];
    assert line == line[..1] + line[1..hi - 1] + line[hi - 1..hi] + line[hi..];
    assert line[..1] == "[" && line[hi - 1..hi] == "]";
  }

  // ----- lists of values -----

  /** The values a stored string stands for. */
  function Split(v: string): (vs: seq<string>)
    ensures vs != []
    decreases |v|
  {
    var n := Find(v, NUL, 0);
    if n == |v| then [v] else [v[..n]] + Split(v[n + 1..])
  }

  function Join(vs: seq<string>): string
    requires vs != []
  {
    if |vs| == 1 then vs[0] else vs[0] + [NUL] + Join(vs[1..])
  }

  lemma {:induction false} JoinSplit(v: string)
    ensures Join(Split(v)) == v
    decreases |v|
  {
    var n := Find(v, NUL, 0);
    if n < |v| {
      JoinSplit(v[n + 1..]);
      assert Split(v)[1..] == Split(v[n + 1..]);
      assert v == v[..n] + [NUL] + v[n + 1..];
    }
  }

  lemma {:induction false} SplitJoin(vs: seq<string>)
    requires vs != [] && forall i :: 0 <= i < |vs| ==> NUL !in vs[i]
    ensures Split(Join(vs)) == vs
    decreases |vs|
  {
    var v := Join(vs);
    if |vs| == 1 {
      FindIs(v, NUL, 0, |v|);
    } else {
      var n := |vs[0]|;
      SplitJoin(vs[1..]);
      assert v[..n] == vs[0] && v[n] == NUL && v[n + 1..] == Join(vs[1..]);
      FindIs(v, NUL, 0, n);
      assert [vs[0]] + vs[1..] == vs;
    }
  }

  /** One line per value. */
  function KeyLines(key: string, vs: seq<string>): string {
    if vs == [] then "" else KeyLine(key, vs[0]) + KeyLines(key, vs[1..])
  }

  predicate GoodEntry(key: string, vs: seq<string>) {
    GoodKey(key) && forall i :: 0 <= i < |vs| ==> GoodValue(vs[i]) && |KeyLine(key, vs[i])| < LINE_BUFFER
  }

  lemma FeedFirst(st: Loader, name: string, key: string, vs: seq<string>)
    requires GoodEntry(key, vs) && vs != [] && st.section == Some(name) && !st.failed
    ensures FeedAll(st, KeyLines(key, vs))
            == FeedAll(st.(config := AddValue(st.config, name, key, vs[0])), KeyLines(key, vs[1..]))
  {
    KeyLineIsLine(key, vs[0]);
    FeedKeyLine(st, name, key, vs[0]);
    FeedAppend(st, KeyLine(key, vs[0]), KeyLines(key, vs[1..]));
  }

  lemma JoinFirst(w: string, vs: seq<string>)
    requires |vs| > 1
    ensures w + [NUL] + vs[0] + [NUL] + Join(vs[1..]) == w + [NUL] + Join(vs)
  {
  }

  lemma OverwriteValue(c: Sections, name: string, key: string, v: string, w: string)
    requires name in c
    ensures var d := c[name := c[name][key := v]]; d[name := d[name][key := w]] == c[name := c[name][key := w]]
  {
    var d := c[name := c[name][key := v]];
    assert d[name][key := w] == c[name][key := w];
  }

  /** The values printed for a key gather again, in order, behind those it has. */
  lemma {:induction false} FeedMore(st: Loader, name: string, key: string, vs: seq<string>)
    requires GoodEntry(key, vs) && vs != [] && st.section == Some(name) && !st.failed
    requires name in st.config && key in st.config[name]
    ensures FeedAll(st, KeyLines(key, vs))
            == st.(config := st.config[name := st.config[name][key := st.config[name][key] + [NUL] + Join(vs)]])
    decreases |vs|
  {
    var c, w := st.config, st.config[name][key];
    FeedFirst(st, name, key, vs);
    if |vs| > 1 {
      var next := st.(config := AddValue(c, name, key, vs[0]));
      FeedMore(next, name, key, vs[1..]);
      JoinFirst(w, vs);
      OverwriteValue(c, name, key, w + [NUL] + vs[0], w + [NUL] + Join(vs));
    }
  }

  lemma FeedEntry(st: Loader, name: string, key: string, v: string)
    requires GoodEntry(key, Split(v)) && st.section == Some(name) && !st.failed
    requires name in st.config && key !in st.config[name]
    ensures FeedAll(st, KeyLines(key, Split(v))) == st.(config := st.config[name := st.config[name][key := v]])
  {
    var vs := Split(v);
    JoinSplit(v);
    FeedFirst(st, name, key, vs);
    if |vs| > 1 {
      FeedMore(st.(config := AddValue(st.config, name, key, vs[0])), name, key, vs[1..]);
      OverwriteValue(st.config, name, key, vs[0], v);
    }
  }

  predicate GoodSection(m: map<string, string>) {
    forall key :: key in m ==> GoodEntry(key, Split(m[key]))
  }

  predicate WellFormed(c: Sections) {
    forall name :: name in c ==> GoodName(name) && GoodSection(c[name])
  }

  const START := Loader(map[], None, false)

  /** A value added behind others is one more at the end of the list. */
  lemma {:induction false} SplitAdd(v: string, w: string)
    requires NUL !in w
    ensures Split(v + [NUL] + w) == Split(v) + [w]
    decreases |v|
  {
    var n, all := Find(v, NUL, 0), v + [NUL] + w;
    FindIs(all, NUL, 0, n);
    assert all[..n] == v[..n];
    if n == |v| {
      assert all[n + 1..] == w && v[..n] == v;
      FindIs(w, NUL, 0, |w|);
    } else {
      assert all[n + 1..] == v[n + 1..] + [NUL] + w;
      SplitAdd(v[n + 1..], w);
    }
  }

  lemma {:induction false} SplitAt(v: string, done: seq<string>, from: nat, i: nat)
    requires from <= i < |v| && v[i] == NUL && NUL !in v[from..i] && done + Split(v[from..]) == Split(v)
    ensures done + [v[from..i]] + Split(v[i + 1..]) == Split(v)
  {
    var t := v[from..];
    assert forall j :: 0 <= j < i - from ==> t[j] == v[from..i][j];
    FindIs(t, NUL, 0, i - from);
    assert t[..i - from] == v[from..i] && t[i - from + 1..] == v[i + 1..];
  }

  lemma {:induction false} KeyLinesAdd(key: string, vs: seq<string>, v: string)
    ensures KeyLines(key, vs + [v]) == KeyLines(key, vs) + KeyLine(key, v)
    decreases |vs|
  {
    var all := vs + [v];
    if vs == [] {
      assert all[1..] == [];
    } else {
      assert all[1..] == vs[1..] + [v];
      KeyLinesAdd(key, vs[1..], v);
    }
  }

  // ----- the loops -----

  /** The pieces of a stored string, found by one pass over its characters. */
  method SplitValues(v: string) returns (list: seq<string>)
    ensures list == Split(v)
  {
    list := [];
    var p: nat := 0;
    assert v[0..] == v;
    for i := 0 to |v|
      invariant p <= i && Printed(v, list, p, i)
    {
      if v[i] == NUL {
        PrintedNext(v, list, p, i);
        list := list + [v[p..i]];
        p := i + 1;
      } else {
        PrintedSkips(v, list, p, i);
      }
    }
    PrintedAll(v, list, p);
    list := list + [v[p..]];
  }

  method FindChar(s: string, c: char, from: nat) returns (i: nat)
    requires from <= |s|
    ensures i == Find(s, c, from)
  {
    i := from;
    while i < |s| && s[i] != c
      invariant from <= i <= |s| && Find(s, c, i) == Find(s, c, from)
    {
      i := i + 1;
    }
  }

  method BlanksFrom(s: string) returns (p: nat)
    ensures p == SkipBlanks(s, 0)
  {
    p := 0;
    while p < |s| && Blank(s[p])
      invariant p <= |s| && SkipBlanks(s, p) == SkipBlanks(s, 0)
    {
      p := p + 1;
    }
  }

  method BlanksBack(s: string, low: nat) returns (hi: nat)
    requires low <= |s|
    ensures hi == BackBlanks(s, low, |s|)
  {
    hi := |s|;
    while low < hi && Blank(s[hi - 1])
      invariant low <= hi <= |s| && BackBlanks(s, low, hi) == BackBlanks(s, low, |s|)
    {
      hi := hi - 1;
    }
  }

  method SpacesFrom(s: string, from: nat) returns (i: nat)
    requires from <= |s|
    ensures i == SkipSpaces(s, from)
  {
    i := from;
    while i < |s| && s[i] == ' '
      invariant from <= i <= |s| && SkipSpaces(s, i) == SkipSpaces(s, from)
    {
      i := i + 1;
    }
  }

  method SpacesBack(s: string, from: nat) returns (i: nat)
    requires from <= |s|
    ensures i == BackSpaces(s, from)
  {
    i := from;
    while 0 < i && s[i - 1] == ' '
      invariant i <= from && BackSpaces(s, i) == BackSpaces(s, from)
    {
      i := i - 1;
    }
  }

  method LowBack(s: string, from: nat) returns (i: nat)
    requires from <= |s|
    ensures i == BackLow(s, from)
  {
    i := from;
    while 0 < i && s[i - 1] <= ' '
      invariant i <= from && BackLow(s, i) == BackLow(s, from)
    {
      i := i - 1;
    }
  }

  method ParseValue(line: string) returns (r: Parsed)
    ensures r == Parse(line)
  {
    var p := BlanksFrom(line);
    var hi := BlanksBack(line, p);
    r := ParseTrimmed(line[..hi], p);
  }

  method ParseTrimmed(text: string, p: nat) returns (r: Parsed)
    requires p <= |text|
    ensures r == ParseText(text, p)
  {
    var t := text;
    if p == |t| || t[p] == '#' {
      return Nothing;
    }
    var e := FindChar(t, '=', 0);
    if e == |t| {
      return Malformed;
    }
    var b := SpacesBack(t, e);
    t := Cut(t, b);
    var v := SpacesFrom(t, e + 1);
    r := ParsePair(t, p, v);
  }

  method ParsePair(text: string, p: nat, v: nat) returns (r: Parsed)
    requires p <= |text| && v <= |text|
    ensures r == PairAt(text, p, v)
  {
    var t := text;
    var h := FindChar(t, '#', v);
    var q := LowBack(t, h);
    t := Cut(t, q);
    var keyEnd := FindChar(t, NUL, p);
    var valEnd := FindChar(t, NUL, v);
    if t[p..keyEnd] == "" {
      return Malformed;
    }
    r := Pair(t[p..keyEnd], t[v..valEnd]);
  }

  method IsSectionName(line: string) returns (name: Option<string>, buffer: string)
    ensures (name, buffer) == SectionName(line)
  {
    if |line| <= 2 || line[0] != '[' {
      return None, line;
    }
    var hi := BlanksBack(line, 1);
    if line[hi - 1] != ']' {
      return None, line;
    }
    buffer := line[..hi - 1];
    for i := 1 to |buffer|
      invariant forall j :: 1 <= j < i ==> NameChar(line[j])
    {
      if !NameChar(buffer[i]) {
        return None, buffer;
      }
    }
    name := Some(line[1..hi - 1]);
  }

  class Configer {
    var configMap: Sections

    constructor ()
      ensures configMap == map[]
    {
      configMap := map[];
    }

    /** Reads a file, line by line, until a line cannot be understood. */
    method Load(file: string) returns (ok: bool)
      modifies this
      ensures var r := FeedAll(Loader(old(configMap), None, false), file); configMap == r.config && ok == !r.failed
    {
      var section: Option<string>, text := None, file;
      ghost var start := Loader(configMap, None, false);
      while text != ""
        invariant FeedAll(Loader(configMap, section, false), text) == FeedAll(start, file)
        decreases |text|
      {
        var n := LineLength(text);
        var end := FindChar(text[..n], NUL, 0);
        var name, buffer := IsSectionName(text[..n][..end]);
        if name.Some? {
          section := name;
          if name.value !in configMap {
            configMap := configMap[name.value := map[]];
          }
        } else {
          var parsed := ParseValue(buffer);
          if parsed.Malformed? || (parsed.Pair? && section == None) {
            return false;
          }
          if parsed.Pair? {
            SetString(section.value, parsed.key, parsed.val);
          }
        }
        text := text[n..];
      }
      ok := true;
    }

    method SetString(section: string, key: string, val: string)
      modifies this
      ensures configMap == AddValue(old(configMap), section, key, val)
    {
      if section !in configMap {
        configMap := configMap[section := map[]];
      }
      var m := configMap[section];
      configMap := configMap[section := m[key := if key in m then m[key] + [NUL] + val else val]];
    }

    method GetStringList(section: string, key: string) returns (list: seq<string>)
      ensures list == if section in configMap && key in configMap[section] then Split(configMap[section][key]) else []
    {
      list := [];
      if section in configMap && key in configMap[section] {
        list := SplitValues(configMap[section][key]);
      }
    }

    /** The lines of one section, its keys in any order; `st` is a reader that is about to read them. */
    method SectionToString(name: string, ghost st: Loader) returns (text: string)
      requires name in configMap
      ensures EndsLine(text)
      ensures WellFormed(configMap) && !st.failed && name !in st.config ==> ReadsAs(st, text, name, configMap[name])
    {
      var m := configMap[name];
      ghost var good, part: map<string, string> := WellFormed(configMap) && !st.failed && name !in st.config, map[];
      text := SectionLine(name);
      if good {
        FeedSectionLine(st, name);
      }
      var todo := m.Keys;
      while todo != {}
        invariant todo <= m.Keys && part.Keys == m.Keys - todo && forall k :: k in part ==> part[k] == m[k]
        invariant EndsLine(text) && (good ==> GoodSection(m) && ReadsAs(st, text, name, part))
      {
        var key :| key in todo;
        text := AddEntry(text, key, m[key], st, name, part, good);
        part := part[key := m[key]];
        todo := todo - {key};
      }
      assert part == m;
    }

    /** The whole configuration, sections in any order. Reading it back gives the same configuration. */
    method ToString() returns (text: string)
      ensures WellFormed(configMap) ==>
                FeedAll(START, text).config == configMap && !FeedAll(START, text).failed
    {
      text := "";
      ghost var st := START;
      var todo := configMap.Keys;
      while todo != {}
        invariant todo <= configMap.Keys && (text == "" || text[|text| - 1] == '\n')
        invariant !st.failed && (WellFormed(configMap) ==> FeedAll(START, text) == st)
        invariant st.config.Keys == configMap.Keys - todo
        invariant forall k :: k in st.config ==> st.config[k] == configMap[k]
      {
        var name :| name in todo;
        var lines := SectionToString(name, st);
        if WellFormed(configMap) {
          FeedAppend(START, text, lines);
        }
        text := text + lines;
        st := Loader(st.config[name := configMap[name]], Some(name), false);
        todo := todo - {name};
      }
      assert st.config == configMap;
      FeedAppend(START, text, "\n");
      FeedEmptyLine(st);
      text := text + "\n";
    }
  }

  predicate EndsLine(text: string) {
    text != "" && text[|text| - 1] == '\n'
  }

  /** To a reader, `text` is section `name` with the contents `m`. */
  ghost predicate ReadsAs(st: Loader, text: string, name: string, m: map<string, string>) {
    FeedAll(st, text) == Loader(st.config[name := m], Some(name), false)
  }

  lemma FeedNext(st: Loader, text: string, name: string, part: map<string, string>, key: string, v: string)
    requires EndsLine(text) && GoodEntry(key, Split(v)) && key !in part && ReadsAs(st, text, name, part)
    ensures ReadsAs(st, text + KeyLines(key, Split(v)), name, part[key := v])
  {
    FeedAppend(st, text, KeyLines(key, Split(v)));
    FeedEntry(Loader(st.config[name := part], Some(name), false), name, key, v);
    Redefine(st.config, name, part, part[key := v]);
  }

  method AddEntry(text: string, key: string, v: string, ghost st: Loader, ghost name: string,
                  ghost part: map<string, string>, ghost good: bool) returns (more: string)
    requires EndsLine(text)
    requires good ==> GoodEntry(key, Split(v)) && key !in part && ReadsAs(st, text, name, part)
    ensures EndsLine(more) && (good ==> ReadsAs(st, more, name, part[key := v]))
  {
    var lines := EntryToString(key, v);
    KeyLinesEnd(key, Split(v));
    if good {
      FeedNext(st, text, name, part, key, v);
    }
    more := text + lines;
  }

  lemma Redefine(c: Sections, name: string, m: map<string, string>, n: map<string, string>)
    ensures c[name := m][name := n] == c[name := n]
  {
  }

  lemma FeedEmptyLine(st: Loader)
    requires !st.failed
    ensures FeedAll(st, "\n") == st
  {
    FeedOne(st, "\n");
    NoNul("\n");
    assert SkipBlanks("\n", 0) == 1;
  }

  lemma {:induction false} KeyLinesEnd(key: string, vs: seq<string>)
    requires vs != []
    ensures var s := KeyLines(key, vs); s != "" && s[|s| - 1] == '\n'
    decreases |vs|
  {
    if |vs| > 1 {
      KeyLinesEnd(key, vs[1..]);
    }
  }

  /** The values printed before place `i`: the first one only, while `p` is nowhere; otherwise those
      before `p`, where the next one begins. */
  ghost predicate Printed(v: string, printed: seq<string>, p: int, i: nat)
    requires p <= i <= |v|
  {
    if p < 0 then printed == [v[..Find(v, NUL, 0)]] && i <= Find(v, NUL, 0)
    else NUL !in v[p..i] && printed + Split(v[p..]) == Split(v)
  }

  lemma PrintedSkips(v: string, printed: seq<string>, p: int, i: nat)
    requires p <= i < |v| && v[i] != NUL && Printed(v, printed, p, i)
    ensures Printed(v, printed, p, i + 1)
  {
    if p >= 0 {
      assert v[p..i + 1] == v[p..i] + [v[i]];
    }
  }

  lemma PrintedNext(v: string, printed: seq<string>, p: int, i: nat)
    requires p <= i < |v| && v[i] == NUL && Printed(v, printed, p, i)
    ensures Printed(v, if p < 0 then printed else printed + [v[p..i]], i + 1, i + 1)
  {
    if p >= 0 {
      SplitAt(v, printed, p, i);
    }
  }

  lemma PrintedAll(v: string, printed: seq<string>, p: int)
    requires 0 <= p <= |v| && Printed(v, printed, p, |v|)
    ensures printed + [v[p..]] == Split(v)
  {
    assert v[p..|v|] == v[p..];
    FindIs(v[p..], NUL, 0, |v[p..]|);
  }

  method AddLine(lines: string, key: string, val: string, ghost printed: seq<string>) returns (more: string)
    requires lines == KeyLines(key, printed)
    ensures more == KeyLines(key, printed + [val])
  {
    KeyLinesAdd(key, printed, val);
    more := lines + KeyLine(key, val);
  }

  /** At a NUL, the value that ends there is printed, unless it is the first one. */
  method PrintAt(lines: string, key: string, v: string, p: int, i: nat, ghost printed: seq<string>)
      returns (more: string, next: int, ghost now: seq<string>)
    requires -1 <= p <= i < |v| && lines == KeyLines(key, printed) && Printed(v, printed, p, i)
    ensures -1 <= next <= i + 1 && more == KeyLines(key, now) && Printed(v, now, next, i + 1)
    ensures v[i] == NUL || p >= 0 ==> next >= 0
  {
    more, next, now := lines, p, printed;
    if v[i] == NUL {
      PrintedNext(v, printed, p, i);
      if p >= 0 {
        more := AddLine(lines, key, v[p..i], printed);
        now := printed + [v[p..i]];
      }
      next := i + 1;
    } else {
      PrintedSkips(v, printed, p, i);
    }
  }

  /** One line for each value of a key. */
  method EntryToString(key: string, v: string) returns (lines: string)
    ensures lines == KeyLines(key, Split(v))
  {
    var first := FindChar(v, NUL, 0);
    lines := AddLine("", key, v[..first], []);
    ghost var printed := [] + [v[..first]];
    assert v[..|v|] == v;
    if first != |v| {
      var p := -1;
      for i := 0 to |v|
        invariant lines == KeyLines(key, printed) && -1 <= p <= i && Printed(v, printed, p, i)
        invariant i > first ==> p >= 0
      {
        lines, p, printed := PrintAt(lines, key, v, p, i, printed);
      }
      PrintedAll(v, printed, p);
      lines := AddLine(lines, key, v[p..], printed);
    }
  }
}
