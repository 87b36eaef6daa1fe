/** The line reader of ini/iniparser.c. */
module IniLine {
  import opened Bytes

  const ASCIILINESZ: nat := 4096

  const EQUALS: byte := 0x3D
  const HASH: byte := 0x23
  const SEMICOLON: byte := 0x3B
  const LBRACKET: byte := 0x5B
  const RBRACKET: byte := 0x5D
  const DQUOTE: byte := 0x22
  const SQUOTE: byte := 0x27
  const COLON: byte := 0x3A
  const BACKSLASH: byte := 0x5C
  const CR: byte := 0x0D
  const LF: byte := 0x0A
  const BLANK: byte := 0x20

  // ---- Blanks and case ----

  predicate IsSpace(c: byte) { c == 32 || 9 <= c <= 13 }

  function LStrip(s: Text): (r: Text)
    ensures |r| <= |s|
  {
    if s != [] && IsSpace(s[0]) then LStrip(s[1..]) else s
  }

  function RStrip(s: Text): (r: Text)
    ensures |r| <= |s|
  {
    if s != [] && IsSpace(s[|s| - 1]) then RStrip(s[..|s| - 1]) else s
  }

  /** strstrip. */
  function StrStrip(s: Text): Text {
    RStrip(LStrip(s))
  }

  function ToLower(c: byte): byte {
    if 0x41 <= c <= 0x5A then c + 0x20 else c
  }

  /** strlwc, which cuts its argument at ASCIILINESZ characters. */
  function StrLwc(s: Text): Text {
    var n := if |s| < ASCIILINESZ then |s| else ASCIILINESZ;
    seq(n, i requires 0 <= i < n => ToLower(s[i]))
  }

  // ---- sscanf ----

  /** %[^...]: the longest front of s without the given characters, and the rest. */
  function TakeNot(s: Text, stop: set<byte>): (r: (Text, Text))
    ensures r.0 + r.1 == s
  {
    if s == [] || s[0] in stop then ([], s)
    else
      var r := TakeNot(s[1..], stop);
      ([s[0]] + r.0, r.1)
  }

  /** "%[^=] = ": a key up to the equals sign, and what is left behind the blanks. */
  function ScanKey(s: Text): Option<(Text, Text)> {
    var k := TakeNot(s, {EQUALS});
    if k.0 == [] || k.1 == [] then None else Some((k.0, LStrip(k.1[1..])))
  }

  /** What follows is the quote and at least one other character. */
  function ScanQuoted(s: Text, quote: byte): Option<Text> {
    if s != [] && s[0] == quote && TakeNot(s[1..], {quote}).0 != [] then Some(TakeNot(s[1..], {quote}).0) else None
  }

  function ScanPlain(s: Text): Option<Text> {
    var v := TakeNot(s, {SEMICOLON, HASH}).0;
    if v != [] then Some(v) else None
  }

  datatype Line = Empty | Comment | Section(name: Text) | KeyValue(key: Text, value: Text) | SyntaxError

  function CleanKey(key: Text): Text {
    StrLwc(StrStrip(key))
  }

  function CleanValue(value: Text): Text {
    var v := StrStrip(value);
    if v == [DQUOTE, DQUOTE] || v == [SQUOTE, SQUOTE] then [] else v
  }

  /** The key=value branches of iniparser_line, in the order they are tried. */
  function ReadPair(line: Text): Line {
    var k := ScanKey(line);
    if k.Some? && ScanQuoted(k.value.1, DQUOTE).Some? then
      KeyValue(CleanKey(k.value.0), CleanValue(ScanQuoted(k.value.1, DQUOTE).value))
    else if k.Some? && ScanQuoted(k.value.1, SQUOTE).Some? then
      KeyValue(CleanKey(k.value.0), CleanValue(ScanQuoted(k.value.1, SQUOTE).value))
    else if k.Some? && ScanPlain(k.value.1).Some? then
      KeyValue(CleanKey(k.value.0), CleanValue(ScanPlain(k.value.1).value))
    else if k.Some? then KeyValue(CleanKey(k.value.0), [])
    else SyntaxError
  }

  /** iniparser_line; the section named last stays when the brackets are empty. */
  function ReadLine(input: Text, section: Text): Line {
    var line := StrStrip(input);
    if line == [] then Empty
    else if line[0] == HASH then Comment
    else if line[0] == LBRACKET && line[|line| - 1] == RBRACKET then
      var name := TakeNot(line[1..], {RBRACKET}).0;
      Section(CleanKey(if name == [] then section else name))
    else ReadPair(line)
  }

  // ---- Texts that survive ----

  /** No blank at either end. */
  predicate Trim(s: Text) {
    s == [] || !(s[0] == 32 || 9 <= s[0] <= 13 || s[|s| - 1] == 32 || 9 <= s[|s| - 1] <= 13)
  }

  /** No letter from A to Z. */
  ghost predicate Lower(s: Text) {
    forall i | 0 <= i < |s| :: !(0x41 <= s[i] <= 0x5A)
  }

  /** The letters from A to Z turned into those from a to z. */
  function Lowered(s: Text): (t: Text)
    ensures |t| == |s|
    ensures forall i | 0 <= i < |s| :: t[i] == if 0x41 <= s[i] <= 0x5A then s[i] + 32 else s[i]
  {
    seq(|s|, i requires 0 <= i < |s| => if 0x41 <= s[i] <= 0x5A then s[i] + 32 else s[i])
  }

  /** The name of a section, as it may stand in brackets. */
  ghost predicate AnySection(s: Text) {
    s != [] && Trim(s) && |s| + 4 < 4096 && RBRACKET !in s && COLON !in s && LF !in s
  }

  ghost predicate GoodSection(s: Text) {
    AnySection(s) && Lower(s)
  }

  ghost predicate AnyKey(k: Text) {
    k != [] && Trim(k) && |k| < 4096 && EQUALS !in k && LF !in k && k[0] != HASH && k[0] != LBRACKET
  }

  ghost predicate GoodKey(k: Text) {
    AnyKey(k) && Lower(k)
  }

  ghost predicate GoodValue(v: Text) {
    Trim(v) && SEMICOLON !in v && HASH !in v && LF !in v
    && (v != [] ==> v[0] != DQUOTE && v[0] != SQUOTE && v[|v| - 1] != BACKSLASH)
  }

  function Blanks(n: nat): (s: Text)
    ensures |s| == n && forall i | 0 <= i < n :: s[i] == BLANK
  {
    seq(n, _ => BLANK)
  }

  /** %-30s. */
  function Pad(k: Text): (r: Text)
    ensures |r| == if |k| < 30 then 30 else |k|
  {
    k + Blanks(if |k| < 30 then 30 - |k| else 0)
  }

  lemma {:induction false} RStripBlanks(s: Text, blanks: Text)
    requires s != [] && !IsSpace(s[|s| - 1]) && forall i | 0 <= i < |blanks| :: IsSpace(blanks[i])
    ensures RStrip(s + blanks) == s
  {
    if blanks == [] {
      assert s + blanks == s;
    } else {
      var t := s + blanks;
      assert t[..|t| - 1] == s + blanks[..|blanks| - 1];
      RStripBlanks(s, blanks[..|blanks| - 1]);
    }
  }

  lemma StripTrimmed(s: Text)
    requires Trim(s)
    ensures StrStrip(s) == s && LStrip(s) == s && RStrip(s) == s
  {
  }

  /** A key with blanks behind it is stored without them, and its letters in lower case. */
  lemma CleanPadded(k: Text, blanks: Text)
    requires AnyKey(k) && forall i | 0 <= i < |blanks| :: IsSpace(blanks[i])
    ensures CleanKey(k + blanks) == Lowered(k)
  {
    assert LStrip(k + blanks) == k + blanks;
    RStripBlanks(k, blanks);
    StrLwcLowers(k);
  }

  lemma StrLwcLowers(k: Text)
    requires |k| <= 4096
    ensures StrLwc(k) == Lowered(k)
  {
  }

  lemma LoweredStays(s: Text)
    ensures Lower(Lowered(s)) && (Lower(s) ==> Lowered(s) == s)
  {
  }

  /** What a key and the name of a section must not hold does not come in with the lower case. */
  lemma LoweredHas(s: Text, c: byte)
    requires !(0x61 <= c <= 0x7A) && !(0x41 <= c <= 0x5A)
    ensures c in Lowered(s) <==> c in s
  {
    var t := Lowered(s);
    if c in s {
      var i :| 0 <= i < |s| && s[i] == c;
      assert t[i] == c;
    }
  }

  lemma LoweredGood(s: Text)
    ensures AnyKey(s) ==> GoodKey(Lowered(s))
    ensures AnySection(s) ==> GoodSection(Lowered(s))
  {
    LoweredStays(s);
    LoweredHas(s, EQUALS);
    LoweredHas(s, LF);
    LoweredHas(s, RBRACKET);
    LoweredHas(s, COLON);
  }

  lemma LowerStays(k: Text)
    requires Lower(k) && |k| <= 4096
    ensures StrLwc(k) == k
  {
    StrLwcLowers(k);
    LoweredStays(k);
  }

  lemma {:induction false} TakeAll(s: Text, stop: set<byte>, rest: Text)
    requires forall c | c in s :: c !in stop
    requires rest == [] || rest[0] in stop
    ensures TakeNot(s + rest, stop) == (s, rest)
  {
    if s == [] {
      assert s + rest == rest;
    } else {
      assert (s + rest)[1..] == s[1..] + rest;
      TakeAll(s[1..], stop, rest);
      assert [s[0]] + s[1..] == s;
    }
  }

  /** A padded key in any case, an equals sign and a value are read as that key in lower case and that value. */
  lemma PairIsRead(k: Text, v: Text, section: Text)
    requires AnyKey(k) && GoodValue(v)
    ensures ReadLine(Pad(k) + [EQUALS] + v, section) == KeyValue(Lowered(k), v)
  {
    var line := Pad(k) + [EQUALS] + v;
    PairTrimmed(k, v);
    StripTrimmed(line);
    PairScanned(k, v);
    assert line[0] == k[0];
    hide StrStrip, ScanKey, ReadPair, Trim, GoodValue, Lowered;
  }

  lemma PairTrimmed(k: Text, v: Text)
    requires AnyKey(k) && GoodValue(v)
    ensures Trim(Pad(k) + [EQUALS] + v)
  {
    var line := Pad(k) + [EQUALS] + v;
    assert line[0] == k[0];
    assert line[|line| - 1] == if v == [] then EQUALS else v[|v| - 1];
  }

  lemma PairScanned(k: Text, v: Text)
    requires AnyKey(k) && GoodValue(v)
    ensures Pad(k) != [] && ReadPair(Pad(k) + [EQUALS] + v) == KeyValue(Lowered(k), v)
  {
    KeyScanned(k, v);
    CleanPadded(k, Blanks(if |k| < 30 then 30 - |k| else 0));
    ValueScanned(v);
    hide CleanKey, CleanValue, ScanKey, ScanQuoted, ScanPlain, AnyKey, GoodValue, Lowered;
  }

  lemma ValueScanned(v: Text)
    requires GoodValue(v)
    ensures ScanQuoted(v, DQUOTE) == None && ScanQuoted(v, SQUOTE) == None
    ensures ScanPlain(v) == (if v == [] then None else Some(v)) && CleanValue(v) == v
  {
    StripTrimmed(v);
    TakeAll(v, {SEMICOLON, HASH}, []);
    assert v + [] == v;
    hide TakeNot, StrStrip, Trim;
  }

  lemma KeyScanned(k: Text, v: Text)
    requires AnyKey(k) && GoodValue(v)
    ensures ScanKey(Pad(k) + [EQUALS] + v) == Some((Pad(k), v))
  {
    var rest := [EQUALS] + v;
    assert forall c | c in Pad(k) :: c in k || c == BLANK;
    TakeAll(Pad(k), {EQUALS}, rest);
    assert Pad(k) + rest == Pad(k) + [EQUALS] + v;
    assert rest[1..] == v;
    StripTrimmed(v);
  }

  lemma SectionIsRead(s: Text, section: Text)
    requires AnySection(s)
    ensures ReadLine([LBRACKET] + s + [RBRACKET], section) == Section(Lowered(s))
  {
    var line := [LBRACKET] + s + [RBRACKET];
    StripTrimmed(line);
    StripTrimmed(s);
    StrLwcLowers(s);
    assert line[1..] == s + [RBRACKET];
    TakeAll(s, {RBRACKET}, [RBRACKET]);
    hide StrStrip, TakeNot, StrLwc, Trim, Lowered;
  }
}
