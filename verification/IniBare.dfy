/**
 * A dictionary without sections never comes back from its file. Two measures on the keys show it: if the
 * file gave the same keys again, reading would bring the deepest run of opening brackets down by one, so
 * no key can begin with a bracket; and then it would give every key one more leading colon.
 */
module IniBare {
  import opened Bytes
  import opened Dictionary
  import opened IniLine
  import opened IniFile

  // ---- Opening brackets ----

  /** How many brackets a text opens before any other character, blanks aside. */
  function Opens(x: Text): nat {
    if x == [] then 0
    else if IsSpace(x[0]) then Opens(x[1..])
    else if x[0] == LBRACKET then 1 + Opens(x[1..])
    else 0
  }

  lemma {:induction false} OpensPrefix(x: Text, y: Text)
    requires x <= y
    ensures Opens(x) <= Opens(y)
  {
    if x != [] {
      assert x[1..] <= y[1..] by { assert y[..|x|][1..] == y[1..][..|x| - 1]; }
      OpensPrefix(x[1..], y[1..]);
    }
  }

  /** An equals sign or a colon ends the run. */
  lemma {:induction false} OpensStop(x: Text, c: byte, y: Text)
    requires c == EQUALS || c == COLON
    ensures Opens(x + [c] + y) == Opens(x)
  {
    var t := x + [c] + y;
    if x != [] {
      assert t[1..] == x[1..] + [c] + y;
      OpensStop(x[1..], c, y);
    }
  }

  lemma {:induction false} OpensLStrip(x: Text)
    ensures Opens(LStrip(x)) == Opens(x)
  {
    if x != [] && IsSpace(x[0]) {
      OpensLStrip(x[1..]);
    }
  }

  lemma {:induction false} RStripIsPrefix(x: Text)
    ensures RStrip(x) <= x
  {
    if x != [] && IsSpace(x[|x| - 1]) {
      RStripIsPrefix(x[..|x| - 1]);
    }
  }

  lemma OpensStrip(x: Text)
    ensures Opens(StrStrip(x)) <= Opens(x)
  {
    OpensLStrip(x);
    RStripIsPrefix(LStrip(x));
    OpensPrefix(StrStrip(x), LStrip(x));
  }

  lemma {:induction false} OpensLower(x: Text, y: Text)
    requires |y| <= |x| && forall i | 0 <= i < |y| :: y[i] == ToLower(x[i])
    ensures Opens(y) <= Opens(x)
    decreases |x|
  {
    if y != [] {
      assert IsSpace(y[0]) == IsSpace(x[0]) && (y[0] == LBRACKET <==> x[0] == LBRACKET);
      OpensLower(x[1..], y[1..]);
    }
  }

  lemma OpensClean(x: Text)
    ensures Opens(CleanKey(x)) <= Opens(x)
  {
    OpensStrip(x);
    OpensLower(StrStrip(x), StrLwc(StrStrip(x)));
  }

  // ---- Leading colons ----

  predicate Led(x: Text, n: nat) {
    |x| >= n && forall i | 0 <= i < n :: x[i] == COLON
  }

  lemma {:induction false} RStripKeeps(x: Text, i: nat)
    requires i < |x| && !IsSpace(x[i])
    ensures i < |RStrip(x)|
  {
    if IsSpace(x[|x| - 1]) {
      RStripKeeps(x[..|x| - 1], i);
    }
  }

  lemma LedStrip(x: Text, n: nat)
    requires Led(x, n)
    ensures Led(StrStrip(x), n)
  {
    if n > 0 {
      assert LStrip(x) == x;
      RStripKeeps(x, n - 1);
      RStripIsPrefix(x);
    }
  }

  lemma {:induction false} LedTaken(x: Text, n: nat)
    requires Led(x, n)
    ensures Led(TakeNot(x, {EQUALS}).0, n)
    decreases |x|
  {
    if n > 0 {
      LedTaken(x[1..], n - 1);
      var t := TakeNot(x[1..], {EQUALS}).0;
      assert TakeNot(x, {EQUALS}).0 == [x[0]] + t;
    }
  }

  lemma LedClean(x: Text, n: nat)
    requires Led(x, n) && n <= ASCIILINESZ
    ensures Led(CleanKey(x), n)
  {
    LedStrip(x, n);
    hide StrStrip;
  }

  // ---- One line ----

  /** What is assumed of a written key: few brackets, or no brackets and many colons. */
  predicate KeyIn(colons: bool, n: nat, x: Text) {
    if colons then Opens(x) == 0 && Led(x, n) else Opens(x) <= n
  }

  /** What follows for a key that has been read: fewer brackets, or more colons. */
  predicate KeyOut(colons: bool, n: nat, x: Text) {
    if colons then Led(x, n + 1) else Opens(x) < n
  }

  ghost predicate Reading(colons: bool, n: nat, l: Loading) {
    && (if colons then l.section == [] else Opens(l.section) < n)
    && (forall x | x in l.dict :: KeyOut(colons, n, x))
  }

  /** The line begins with a written key and its equals sign. */
  ghost predicate Headed(colons: bool, n: nat, s: Text) {
    exists i :: 0 <= i < |s| && s[i] == EQUALS && KeyIn(colons, n, s[..i])
  }

  lemma HeadedIn(colons: bool, n: nat, s: Text)
    requires Headed(colons, n, s)
    ensures KeyIn(colons, n, s)
  {
    var i :| 0 <= i < |s| && s[i] == EQUALS && KeyIn(colons, n, s[..i]);
    assert s == s[..i] + [EQUALS] + s[i + 1..];
    OpensStop(s[..i], EQUALS, s[i + 1..]);
  }

  lemma HeadedStays(colons: bool, n: nat, s: Text, more: Text)
    requires Headed(colons, n, s)
    ensures Headed(colons, n, s + more) && Headed(colons, n, RStrip(s + more))
  {
    var i :| 0 <= i < |s| && s[i] == EQUALS && KeyIn(colons, n, s[..i]);
    var t := s + more;
    var r := RStrip(t);
    RStripKeeps(t, i);
    RStripIsPrefix(t);
    assert t[..i] == s[..i] && r[..i] == s[..i] && r[i] == EQUALS;
  }

  lemma HeadedCut(colons: bool, n: nat, s: Text)
    requires Headed(colons, n, s) && s[|s| - 1] == BACKSLASH
    ensures Headed(colons, n, s[..|s| - 1])
  {
    var i :| 0 <= i < |s| && s[i] == EQUALS && KeyIn(colons, n, s[..i]);
    var t := s[..|s| - 1];
    assert t[..i] == s[..i];
  }

  /** A bracketed line names a section with one bracket less. */
  lemma SectionRead(l: Loading, s: Text)
    requires ReadLine(s, l.section).Section?
    ensures Opens(s) > 0
    ensures var name := ReadLine(s, l.section).name;
      Opens(name) < Opens(s) || Opens(name) <= Opens(l.section)
  {
    var line := StrStrip(s);
    OpensStrip(s);
    assert Opens(line) == 1 + Opens(line[1..]);
    var name := TakeNot(line[1..], {RBRACKET}).0;
    OpensPrefix(name, line[1..]);
    OpensClean(name);
    OpensClean(l.section);
    hide StrStrip, CleanKey, TakeNot, Opens;
  }

  /** A pair line with n colons in front gives a key with n colons in front. */
  lemma PairRead(section: Text, s: Text, n: nat)
    requires ReadLine(s, section).KeyValue? && Led(s, n) && n <= ASCIILINESZ
    ensures Led(ReadLine(s, section).key, n)
  {
    var line := StrStrip(s);
    LedStrip(s, n);
    LedTaken(line, n);
    LedClean(TakeNot(line, {EQUALS}).0, n);
    hide StrStrip, CleanKey, TakeNot, CleanValue, ScanQuoted, ScanPlain;
  }

  lemma LineKeeps(colons: bool, n: nat, l: Loading, s: Text)
    requires Reading(colons, n, l) && Headed(colons, n, s)
    requires if colons then n <= ASCIILINESZ else n > 0
    ensures Reading(colons, n, Apply(l, ReadLine(s, l.section)))
  {
    HeadedIn(colons, n, s);
    var read := ReadLine(s, l.section);
    hide ReadLine, Headed;
    match read
    case Section(name) => SectionRead(l, s);
    case KeyValue(key, value) =>
      if colons {
        PairRead(l.section, s, n);
        assert l.section + [COLON] + key == [COLON] + key;
      } else {
        OpensStop(l.section, COLON, key);
      }
    case _ =>
  }

  // ---- The whole file ----

  lemma FrontOfBack<T>(s: seq<T>)
    requires |s| > 1
    ensures s[..|s| - 1][1..] == s[1..][..|s| - 2] && s[1..][|s| - 2] == s[|s| - 1]
  {
  }

  lemma {:induction false} BareFront(keys: seq<Option<Text>>, vals: seq<Option<Text>>)
    requires |keys| == |vals| && keys != []
    ensures BareLines(keys, vals)
         == (if keys[0].Some? then BareLine(keys[0].value, vals[0]) + [LF] else []) + BareLines(keys[1..], vals[1..])
    decreases |keys|
  {
    hide BareLine;
    var n := |keys| - 1;
    var k0, v0, k1, v1 := keys[..n], vals[..n], keys[1..], vals[1..];
    if n == 0 {
      assert k0 == [] && k1 == [];
      assert BareLines(k0, v0) == [] && BareLines(k1, v1) == [];
    } else {
      BareFront(k0, v0);
      FrontOfBack(keys);
      FrontOfBack(vals);
      var first := if keys[0].Some? then BareLine(keys[0].value, vals[0]) + [LF] else [];
      var last := if keys[n].Some? then BareLine(keys[n].value, vals[n]) + [LF] else [];
      Regroup(first, BareLines(k1[..n - 1], v1[..n - 1]), last);
    }
  }

  /** What the file needs to be cut at the right places: no line feed of its own in a key or a value. */
  ghost predicate NoFeed(keys: seq<Option<Text>>, vals: seq<Option<Text>>) {
    |keys| == |vals|
    && forall i | 0 <= i < |keys| && keys[i].Some? :: LF !in keys[i].value && (vals[i].Some? ==> LF !in vals[i].value)
  }

  ghost predicate AllIn(colons: bool, n: nat, keys: seq<Option<Text>>) {
    forall i | 0 <= i < |keys| && keys[i].Some? :: KeyIn(colons, n, keys[i].value)
  }

  ghost predicate AllOut(colons: bool, n: nat, m: Table) {
    forall x | x in m :: KeyOut(colons, n, x)
  }

  /** Between two lines: nothing is waiting, or a line that goes on. */
  ghost predicate Ready(colons: bool, n: nat, l: Loading) {
    Reading(colons, n, l) && (l.line == [] || Headed(colons, n, l.line))
  }

  /** One written line is read, whether it is complete or goes on. */
  lemma LineRead(colons: bool, n: nat, l: Loading, key: Text, v: Option<Text>)
    requires Ready(colons, n, l) && KeyIn(colons, n, key)
    requires if colons then n <= ASCIILINESZ else n > 0
    ensures var r := LoadLine(l, BareLine(key, v) + [LF]); r.Done? ==> Ready(colons, n, r.value)
  {
    hide RStrip, ReadLine, BareLine, Headed, KeyIn, KeyOut, Apply;
    LineHeaded(colons, n, l, key, v);
    var s := RStrip(l.line + (BareLine(key, v) + [LF]));
    if s != [] && s[|s| - 1] == BACKSLASH {
      HeadedCut(colons, n, s);
    } else {
      LineKeeps(colons, n, l, s);
    }
  }

  lemma LineHeaded(colons: bool, n: nat, l: Loading, key: Text, v: Option<Text>)
    requires Ready(colons, n, l) && KeyIn(colons, n, key)
    ensures Headed(colons, n, RStrip(l.line + (BareLine(key, v) + [LF])))
  {
    hide RStrip, BareLine, Headed, KeyIn, Reading;
    var part := BareLine(key, v) + [LF];
    KeyHeads(colons, n, key, v);
    if l.line == [] {
      assert [] + part == part && part + [] == part;
      HeadedStays(colons, n, part, []);
    } else {
      HeadedStays(colons, n, l.line, part);
    }
  }

  lemma KeyHeads(colons: bool, n: nat, key: Text, v: Option<Text>)
    requires KeyIn(colons, n, key)
    ensures Headed(colons, n, BareLine(key, v) + [LF])
  {
    var part := BareLine(key, v) + [LF];
    assert part[|key|] == EQUALS && part[..|key|] == key;
  }

  lemma LineWhole(l: Loading, key: Text, v: Option<Text>, rest: Text)
    requires LF !in key && (v.Some? ==> LF !in v.value)
    ensures var body := BareLine(key, v); var r := LoadLine(l, body + [LF]);
      !LoadFrom(l, body + [LF] + rest).Done?
      || (r.Done? && LoadFrom(l, body + [LF] + rest) == LoadFrom(r.value, rest))
  {
    var body := BareLine(key, v);
    assert body != [] && LF !in body;
    hide NextLine, BareLine, LoadLine, LoadFrom;
    var room := ASCIILINESZ - 1 - |l.line|;
    if |body| + 1 <= room {
      LineEnds(body, rest, room);
      NextLoaded(l, body + [LF], rest);
    } else {
      LineCut(body, rest, room);
      NoLine(l, body + [LF] + rest);
    }
  }

  lemma {:induction false} BareRun(colons: bool, n: nat, l: Loading, keys: seq<Option<Text>>, vals: seq<Option<Text>>)
    requires NoFeed(keys, vals) && AllIn(colons, n, keys) && Ready(colons, n, l)
    requires if colons then n <= ASCIILINESZ else n > 0
    ensures var r := LoadFrom(l, BareLines(keys, vals)); r.Done? ==> AllOut(colons, n, r.value)
    decreases |keys|
  {
    hide LoadLine, BareLine, KeyIn, KeyOut, Headed, LoadFrom;
    if keys == [] {
      NothingMore(l);
    } else {
      var rest := BareLines(keys[1..], vals[1..]);
      BareFront(keys, vals);
      hide BareLines;
      if keys[0].Some? {
        var key := keys[0].value;
        LineWhole(l, key, vals[0], rest);
        LineRead(colons, n, l, key, vals[0]);
        var r := LoadLine(l, BareLine(key, vals[0]) + [LF]);
        if r.Done? {
          BareRun(colons, n, r.value, keys[1..], vals[1..]);
        }
      } else {
        assert [] + rest == rest;
        BareRun(colons, n, l, keys[1..], vals[1..]);
      }
    }
  }

  lemma NothingMore(l: Loading)
    ensures LoadFrom(l, []).Done? ==> LoadFrom(l, []) == Done(l.dict)
  {
  }

  // ---- What is read has no line feeds ----

  ghost predicate CleanTable(m: Table) {
    forall x | x in m :: LF !in x && (m[x].Some? ==> LF !in m[x].value)
  }

  lemma {:induction false} LStripIsSuffix(x: Text)
    ensures LF !in x ==> LF !in LStrip(x)
  {
    if x != [] && IsSpace(x[0]) {
      LStripIsSuffix(x[1..]);
    }
  }

  lemma CleanStrip(x: Text)
    requires LF !in x
    ensures LF !in StrStrip(x) && LF !in RStrip(x) && LF !in LStrip(x)
  {
    LStripIsSuffix(x);
    RStripIsPrefix(x);
    RStripIsPrefix(LStrip(x));
  }

  lemma CleanKeyFeed(x: Text)
    requires LF !in x
    ensures LF !in CleanKey(x)
  {
    CleanStrip(x);
    var t := StrStrip(x);
    assert forall i | 0 <= i < |t| :: t[i] in t && ToLower(t[i]) != LF;
    hide StrStrip;
  }

  lemma CleanTaken(x: Text, stop: set<byte>)
    requires LF !in x
    ensures LF !in TakeNot(x, stop).0 && LF !in TakeNot(x, stop).1
  {
    var r := TakeNot(x, stop);
    assert forall c | c in r.0 || c in r.1 :: c in r.0 + r.1;
  }

  /** A line without line feeds gives names and values without them. */
  lemma CleanRead(s: Text, section: Text)
    requires LF !in s && LF !in section
    ensures match ReadLine(s, section)
      case Section(name) => LF !in name
      case KeyValue(key, value) => LF !in key && LF !in value
      case _ => true
  {
    CleanStrip(s);
    var line := StrStrip(s);
    CleanKeyFeed(section);
    if line != [] {
      CleanTaken(line[1..], {RBRACKET});
      CleanKeyFeed(TakeNot(line[1..], {RBRACKET}).0);
      CleanPair(line);
    }
    hide StrStrip, CleanKey, TakeNot, ReadPair;
  }

  lemma CleanPair(line: Text)
    requires LF !in line
    ensures var r := ReadPair(line); r.KeyValue? ==> LF !in r.key && LF !in r.value
  {
    hide CleanKey, CleanValue, TakeNot, LStrip, ScanQuoted, ScanPlain;
    var k := TakeNot(line, {EQUALS});
    CleanTaken(line, {EQUALS});
    CleanKeyFeed(k.0);
    if k.1 != [] {
      var v := LStrip(k.1[1..]);
      CleanStrip(k.1[1..]);
      CleanQuoted(v, DQUOTE);
      CleanQuoted(v, SQUOTE);
      CleanPlain(v);
    }
  }

  lemma CleanQuoted(v: Text, quote: byte)
    requires LF !in v
    ensures ScanQuoted(v, quote).Some? ==> LF !in CleanValue(ScanQuoted(v, quote).value)
  {
    hide CleanValue, TakeNot;
    if v != [] {
      CleanTaken(v[1..], {quote});
      CleanValueFeed(TakeNot(v[1..], {quote}).0);
    }
  }

  lemma CleanPlain(v: Text)
    requires LF !in v
    ensures ScanPlain(v).Some? ==> LF !in CleanValue(ScanPlain(v).value)
  {
    hide CleanValue, TakeNot;
    CleanTaken(v, {SEMICOLON, HASH});
    CleanValueFeed(TakeNot(v, {SEMICOLON, HASH}).0);
  }

  lemma CleanValueFeed(x: Text)
    requires LF !in x
    ensures LF !in CleanValue(x)
  {
    CleanStrip(x);
    hide StrStrip;
  }

  lemma {:induction false} PartFeed(text: Text, room: int)
    requires text != []
    ensures var part := NextLine(text, room).0; LF !in part[..|part| - 1]
    decreases |text|
  {
    if !(text[0] == LF || room <= 1 || |text| == 1) {
      PartFeed(text[1..], room - 1);
      var part := NextLine(text[1..], room - 1).0;
      assert (text[..1] + part)[..|part|] == text[..1] + part[..|part| - 1];
    }
  }

  ghost predicate CleanLoading(l: Loading) {
    LF !in l.section && LF !in l.line && CleanTable(l.dict)
  }

  lemma CleanLine(l: Loading, part: Text)
    requires CleanLoading(l) && part != [] && LF !in part[..|part| - 1]
    ensures LoadLine(l, part).Done? ==> CleanLoading(LoadLine(l, part).value)
  {
    var line := l.line + part;
    var front := l.line + part[..|part| - 1];
    if line[|line| - 1] == LF {
      assert line == front + [LF];
      FeedStripped(front);
      CleanStrip(front);
      hide ReadLine, RStrip;
      CleanTurn(l, part);
    }
  }

  lemma CleanTurn(l: Loading, part: Text)
    requires CleanLoading(l) && part != [] && LF !in RStrip(l.line + part)
    ensures LoadLine(l, part).Done? ==> CleanLoading(LoadLine(l, part).value)
  {
    var s := RStrip(l.line + part);
    CleanRead(s, l.section);
    hide ReadLine, RStrip;
  }

  lemma FeedStripped(x: Text)
    ensures RStrip(x + [LF]) == RStrip(x)
  {
    assert (x + [LF])[..|x|] == x;
  }

  lemma {:induction false} LoadedClean(l: Loading, text: Text)
    requires CleanLoading(l)
    ensures LoadFrom(l, text).Done? ==> CleanTable(LoadFrom(l, text).value)
    decreases |text|
  {
    if text != [] {
      var r := NextLine(text, ASCIILINESZ - 1 - |l.line|);
      PartFeed(text, ASCIILINESZ - 1 - |l.line|);
      CleanLine(l, r.0);
      hide NextLine, LoadLine, CleanLoading, CleanTable;
      if LoadLine(l, r.0).Done? {
        LoadedClean(LoadLine(l, r.0).value, r.1);
      }
    }
  }

  // ---- The dictionary does not come back ----

  /** m is what its own file gives, although it has no section. */
  ghost predicate Returns(keys: seq<Option<Text>>, vals: seq<Option<Text>>, m: Table) {
    Represents(keys, vals, m) && Load(BareLines(keys, vals)) == Done(m)
  }

  lemma ReturnsClean(keys: seq<Option<Text>>, vals: seq<Option<Text>>, m: Table)
    requires Returns(keys, vals, m)
    ensures NoFeed(keys, vals)
  {
    LoadedClean(START, BareLines(keys, vals));
  }

  /** What holds of all keys read holds of all keys written. */
  lemma OneRound(colons: bool, n: nat, keys: seq<Option<Text>>, vals: seq<Option<Text>>, m: Table)
    requires Returns(keys, vals, m) && AllIn(colons, n, keys)
    requires if colons then n <= ASCIILINESZ else n > 0
    ensures forall i | 0 <= i < |keys| && keys[i].Some? :: KeyOut(colons, n, keys[i].value)
  {
    ReturnsClean(keys, vals, m);
    hide KeyIn, KeyOut, Headed, LoadFrom, BareLines;
    BareRun(colons, n, START, keys, vals);
  }

  lemma {:induction false} NoBrackets(n: nat, keys: seq<Option<Text>>, vals: seq<Option<Text>>, m: Table)
    requires Returns(keys, vals, m) && AllIn(false, n, keys)
    ensures AllIn(false, 0, keys)
  {
    if n > 0 {
      OneRound(false, n, keys, vals, m);
      NoBrackets(n - 1, keys, vals, m);
    }
  }

  lemma {:induction false} MoreColons(n: nat, keys: seq<Option<Text>>, vals: seq<Option<Text>>, m: Table)
    requires Returns(keys, vals, m) && AllIn(true, n, keys) && n <= ASCIILINESZ
    ensures AllIn(true, ASCIILINESZ, keys)
    decreases ASCIILINESZ - n
  {
    if n < ASCIILINESZ {
      OneRound(true, n, keys, vals, m);
      forall i | 0 <= i < |keys| && keys[i].Some?
        ensures KeyIn(true, n + 1, keys[i].value)
      {
        assert keys[i].value[0] == COLON;
      }
      MoreColons(n + 1, keys, vals, m);
    }
  }

  lemma {:induction false} KeyInText(keys: seq<Option<Text>>, vals: seq<Option<Text>>, i: nat)
    requires |keys| == |vals| && i < |keys| && keys[i].Some?
    ensures |keys[i].value| <= |BareLines(keys, vals)|
    decreases |keys|
  {
    if i < |keys| - 1 {
      KeyInText(keys[..|keys| - 1], vals[..|keys| - 1], i);
    }
  }

  lemma {:induction false} OpensBound(x: Text)
    ensures Opens(x) <= |x|
  {
    if x != [] {
      OpensBound(x[1..]);
    }
  }

  lemma LongLine(key: Text, v: Option<Text>, rest: Text)
    requires |key| >= ASCIILINESZ && LF !in key && (v.Some? ==> LF !in v.value)
    ensures LoadFrom(START, BareLine(key, v) + [LF] + rest) == Refused
  {
    var body := BareLine(key, v);
    assert body != [] && |body| > ASCIILINESZ && LF !in body;
    hide NextLine, BareLine, LoadLine, LoadFrom;
    LineCut(body, rest, ASCIILINESZ - 1);
    NoLine(START, body + [LF] + rest);
  }

  /** A first line longer than the buffer ends the reading. */
  lemma {:induction false} TooLong(keys: seq<Option<Text>>, vals: seq<Option<Text>>)
    requires NoFeed(keys, vals) && AllIn(true, ASCIILINESZ, keys)
    requires exists i :: 0 <= i < |keys| && keys[i].Some?
    ensures Load(BareLines(keys, vals)) == Refused
    decreases |keys|
  {
    BareFront(keys, vals);
    hide BareLines, LoadFrom, BareLine;
    var rest := BareLines(keys[1..], vals[1..]);
    if keys[0].Some? {
      LongLine(keys[0].value, vals[0], rest);
    } else {
      assert [] + rest == rest;
      hide KeyIn;
      assert exists i :: 0 <= i < |keys[1..]| && keys[1..][i].Some? by {
        var i :| 0 <= i < |keys| && keys[i].Some?;
        assert keys[1..][i - 1] == keys[i];
      }
      TooLong(keys[1..], vals[1..]);
    }
  }

  /** A dictionary without sections comes back from its file if and only if it is empty. */
  lemma BareComesBackIff(keys: seq<Option<Text>>, vals: seq<Option<Text>>, m: Table)
    requires Represents(keys, vals, m) && Sections(keys) == []
    ensures Load(Dump(keys, vals)) == Done(m) <==> m == map[]
  {
    if m == map[] {
      NoKeys(keys, vals);
      BareNothing(keys, vals);
      NothingMore(START);
      assert LoadFrom(START, []) == Done(map[]);
    } else {
      NeverReturns(keys, vals, m);
    }
  }

  lemma NoKeys(keys: seq<Option<Text>>, vals: seq<Option<Text>>)
    requires Represents(keys, vals, map[])
    ensures forall i | 0 <= i < |keys| :: keys[i].None?
  {
  }

  lemma NeverReturns(keys: seq<Option<Text>>, vals: seq<Option<Text>>, m: Table)
    requires Represents(keys, vals, m) && m != map[]
    ensures Load(BareLines(keys, vals)) != Done(m)
  {
    if Returns(keys, vals, m) {
      OnlyColons(keys, vals, m);
      ReturnsClean(keys, vals, m);
      var x :| x in m;
      assert Some(x) in keys;
      TooLong(keys, vals);
    }
  }

  lemma OnlyColons(keys: seq<Option<Text>>, vals: seq<Option<Text>>, m: Table)
    requires Returns(keys, vals, m)
    ensures AllIn(true, ASCIILINESZ, keys)
  {
    var n := |BareLines(keys, vals)|;
    forall i | 0 <= i < |keys| && keys[i].Some?
      ensures KeyIn(false, n, keys[i].value)
    {
      KeyInText(keys, vals, i);
      OpensBound(keys[i].value);
    }
    NoBrackets(n, keys, vals, m);
    assert AllIn(true, 0, keys);
    MoreColons(0, keys, vals, m);
  }

  /** The one key ":a" comes back as "::a". */
  lemma ColonAdded(v: byte)
    requires !IsSpace(v) && v !in {SEMICOLON, HASH, DQUOTE, SQUOTE, BACKSLASH, EQUALS}
    ensures Load(Dump([Some([COLON, 0x61])], [Some([v])])) == Done(map[[COLON, COLON, 0x61] := Some([v])])
  {
    var body: Text := [COLON, 0x61, EQUALS, v];
    ColonText(v);
    ColonLine(v);
    hide Dump, NextLine, ReadLine, RStrip;
    var part := body + [CR] + [LF];
    LineEnds(body + [CR], [], ASCIILINESZ - 1);
    assert part + [] == part;
    ColonLoaded(part, body, [v]);
    NothingMore(START.(dict := map[[COLON, COLON, 0x61] := Some([v])]));
  }

  lemma ColonText(v: byte)
    ensures Dump([Some([COLON, 0x61])], [Some([v])]) == [COLON, 0x61, EQUALS, v] + [CR] + [LF]
  {
    var keys: seq<Option<Text>>, vals: seq<Option<Text>> := [Some([COLON, 0x61])], [Some([v])];
    assert keys[..0] == [] && vals[..0] == [];
    assert keys[0].value[0] == COLON;
    assert Sections(keys) == [];
    assert BareLine(keys[0].value, vals[0]) == [COLON, 0x61, EQUALS, v] + [CR];
    assert BareLines(keys[..0], vals[..0]) == [];
    hide BareLine, Sections;
  }

  lemma ColonStep(part: Text, body: Text, val: Text)
    requires part != [] && part[|part| - 1] == LF && RStrip(part) == body && body != [] && val != []
    requires body[|body| - 1] == val[|val| - 1] != BACKSLASH && ReadLine(body, []) == KeyValue([COLON, 0x61], val)
    ensures LoadLine(START, part) == Done(START.(dict := map[[COLON, COLON, 0x61] := Some(val)]))
  {
    hide ReadLine, RStrip;
    assert [] + part == part;
    assert [] + [COLON] + [COLON, 0x61] == [COLON, COLON, 0x61];
  }

  lemma ColonLoaded(part: Text, body: Text, val: Text)
    requires part != [] && part[|part| - 1] == LF && RStrip(part) == body && body != [] && val != []
    requires body[|body| - 1] == val[|val| - 1] != BACKSLASH
    requires ReadLine(body, []) == KeyValue([COLON, 0x61], val) && NextLine(part, ASCIILINESZ - 1) == (part, [])
    ensures LoadFrom(START, part) == LoadFrom(START.(dict := map[[COLON, COLON, 0x61] := Some(val)]), [])
  {
    hide NextLine, ReadLine, RStrip;
    ColonStep(part, body, val);
    hide LoadLine;
  }

  lemma ColonLine(v: byte)
    requires !IsSpace(v) && v !in {SEMICOLON, HASH, DQUOTE, SQUOTE, BACKSLASH, EQUALS}
    ensures var body := [COLON, 0x61, EQUALS, v];
      RStrip(body + [CR] + [LF]) == body && ReadLine(body, []) == KeyValue([COLON, 0x61], [v])
  {
    var body: Text := [COLON, 0x61, EQUALS, v];
    FeedStripped(body + [CR]);
    assert (body + [CR])[..4] == body;
    StripTrimmed(body);
    ColonPair(v);
    hide StrStrip, RStrip, ReadPair;
  }

  lemma ColonPair(v: byte)
    requires !IsSpace(v) && v !in {SEMICOLON, HASH, DQUOTE, SQUOTE, BACKSLASH, EQUALS}
    ensures ReadPair([COLON, 0x61, EQUALS, v]) == KeyValue([COLON, 0x61], [v])
  {
    var key: Text, val: Text, body: Text := [COLON, 0x61], [v], [COLON, 0x61, EQUALS, v];
    var rest: Text := [EQUALS, v];
    StripTrimmed(key);
    StripTrimmed(val);
    TakeAll(key, {EQUALS}, rest);
    assert key + rest == body && rest[1..] == val;
    TakeAll(val, {SEMICOLON, HASH}, []);
    assert val + [] == val;
    LowerStays(key);
    hide TakeNot, StrStrip, StrLwc, LStrip, RStrip;
  }
}
