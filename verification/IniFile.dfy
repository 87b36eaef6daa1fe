/** Writing a dictionary to an ini file and reading it back, of ini/iniparser.c. */
module IniFile {
  import opened Bytes
  import opened Dictionary
  import opened IniLine

  type Table = map<Text, Option<Text>>

  // ---- iniparser_dump_ini ----

  /** One line of the written file. */
  datatype Written = Gap | Header(name: Text) | Pair(key: Text, value: Text)

  const CRLF: Text := [CR, LF]

  function Body(w: Written): Text {
    match w
    case Gap => []
    case Header(name) => [LBRACKET] + name + [RBRACKET]
    case Pair(key, value) => Pad(key) + [EQUALS] + value
  }

  function Render(w: Written): Text {
    Body(w) + CRLF
  }

  function RenderAll(ws: seq<Written>): Text {
    if ws == [] then [] else RenderAll(ws[..|ws| - 1]) + Render(ws[|ws| - 1])
  }

  lemma RenderOne(ws: seq<Written>, w: Written)
    ensures RenderAll(ws + [w]) == RenderAll(ws) + Render(w)
  {
    assert (ws + [w])[..|ws|] == ws;
  }

  predicate IsSection(key: Option<Text>) {
    key.Some? && COLON !in key.value
  }

  /** The keys without a colon, in slot order. */
  function Sections(keys: seq<Option<Text>>): (r: seq<Text>)
    ensures |r| <= |keys|
  {
    if keys == [] then []
    else
      var k := keys[|keys| - 1];
      Sections(keys[..|keys| - 1]) + (if IsSection(k) then [k.value] else [])
  }

  /** strncmp of the key with "section:". */
  predicate InSection(key: Option<Text>, section: Text) {
    key.Some? && section + [COLON] <= key.value
  }

  function ValueText(v: Option<Text>): Text {
    if v.Some? then v.value else []
  }

  /** The lines of one section. */
  function Pairs(section: Text, keys: seq<Option<Text>>, vals: seq<Option<Text>>): seq<Written>
    requires |keys| == |vals|
  {
    if keys == [] then []
    else
      var n := |keys| - 1;
      Pairs(section, keys[..n], vals[..n])
      + (if InSection(keys[n], section) then [Pair(keys[n].value[|section| + 1..], ValueText(vals[n]))] else [])
  }

  function Block(section: Text, keys: seq<Option<Text>>, vals: seq<Option<Text>>): seq<Written>
    requires |keys| == |vals|
  {
    [Gap, Header(section)] + Pairs(section, keys, vals)
  }

  function Blocks(sections: seq<Text>, keys: seq<Option<Text>>, vals: seq<Option<Text>>): seq<Written>
    requires |keys| == |vals|
  {
    if sections == [] then []
    else Blocks(sections[..|sections| - 1], keys, vals) + Block(sections[|sections| - 1], keys, vals)
  }

  /** "(null)", as printf writes a null pointer. */
  const NULL_TEXT: Text := [0x28, 0x6E, 0x75, 0x6C, 0x6C, 0x29]

  /** A line of the file of a dictionary without sections: the key as it is. */
  function BareLine(key: Text, v: Option<Text>): Text {
    key + [EQUALS] + (if v.Some? then v.value else NULL_TEXT) + [CR]
  }

  function BareLines(keys: seq<Option<Text>>, vals: seq<Option<Text>>): Text
    requires |keys| == |vals|
  {
    if keys == [] then []
    else
      var n := |keys| - 1;
      BareLines(keys[..n], vals[..n]) + (if keys[n].Some? then BareLine(keys[n].value, vals[n]) + [LF] else [])
  }

  function Dump(keys: seq<Option<Text>>, vals: seq<Option<Text>>): Text
    requires |keys| == |vals|
  {
    if Sections(keys) == [] then BareLines(keys, vals)
    else RenderAll(Blocks(Sections(keys), keys, vals) + [Gap])
  }

  // ---- iniparser_load ----

  /** The variables of the loop: section, the line so far, the dictionary and errs. */
  datatype Loading = Loading(section: Text, line: Text, dict: Table, errs: nat)

  /** fgets: up to and with the line feed, or as much as fits. */
  function NextLine(text: Text, room: int): (r: (Text, Text))
    requires text != []
    ensures r.0 + r.1 == text && r.0 != []
    decreases |text|
  {
    if text[0] == LF || room <= 1 || |text| == 1 then (text[..1], text[1..])
    else
      var r := NextLine(text[1..], room - 1);
      (text[..1] + r.0, r.1)
  }

  /** What one classified line does to the dictionary. */
  function Apply(l: Loading, line: Line): Loading {
    match line
    case Empty => l
    case Comment => l
    case Section(name) => l.(section := name, dict := l.dict[name := None], errs := 0)
    case KeyValue(key, value) => l.(dict := l.dict[l.section + [COLON] + key := Some(value)], errs := 0)
    case SyntaxError => l.(errs := l.errs + 1)
  }

  /** Refused: iniparser_load gives up. Overrun: it writes past its buffer tmp. */
  datatype Outcome<T> = Done(value: T) | Refused | Overrun

  /** The sprintf of section and key stays within tmp. */
  predicate FitsTmp(section: Text, line: Line) {
    line.KeyValue? ==> |section| + 1 + |line.key| <= 4096
  }

  /** One turn of the loop; refused when the line is too long or ends without a line feed. */
  function LoadLine(l: Loading, part: Text): Outcome<Loading>
    requires part != []
  {
    var line := l.line + part;
    if line[|line| - 1] != LF then Refused
    else
      var s := RStrip(line);
      if s != [] && s[|s| - 1] == BACKSLASH then Done(l.(line := s[..|s| - 1]))
      else if FitsTmp(l.section, ReadLine(s, l.section)) then Done(Apply(l, ReadLine(s, l.section)).(line := []))
      else Overrun
  }

  function LoadFrom(l: Loading, text: Text): Outcome<Table>
    decreases |text|
  {
    if text == [] then (if l.errs != 0 then Refused else Done(l.dict))
    else
      var (part, rest) := NextLine(text, ASCIILINESZ - 1 - |l.line|);
      match LoadLine(l, part)
      case Refused => Refused
      case Overrun => Overrun
      case Done(l') => LoadFrom(l', rest)
  }

  const START: Loading := Loading([], [], map[], 0)

  function Load(text: Text): Outcome<Table> {
    LoadFrom(START, text)
  }

  // ---- A written line is read back ----

  /** A line that is read back, up to the case of its letters. */
  ghost predicate AnyLine(w: Written) {
    match w
    case Gap => true
    case Header(name) => AnySection(name)
    case Pair(key, value) => AnyKey(key) && GoodValue(value) && |Pad(key)| + |value| + 3 < 4096
  }

  ghost predicate GoodLine(w: Written) {
    AnyLine(w) && (w.Header? ==> Lower(w.name)) && (w.Pair? ==> Lower(w.key))
  }

  /** The line with its key or section in lower case. */
  function LowerLine(w: Written): Written {
    match w
    case Gap => Gap
    case Header(name) => Header(Lowered(name))
    case Pair(key, value) => Pair(Lowered(key), value)
  }

  function LowerLines(ws: seq<Written>): (r: seq<Written>)
    ensures |r| == |ws| && forall i | 0 <= i < |r| :: r[i] == LowerLine(ws[i])
  {
    seq(|ws|, i requires 0 <= i < |ws| => LowerLine(ws[i]))
  }

  lemma LowerLineGood(w: Written)
    ensures AnyLine(w) ==> GoodLine(LowerLine(w))
    ensures GoodLine(w) ==> AnyLine(w) && LowerLine(w) == w
  {
    match w
    case Gap =>
    case Header(name) =>
      LoweredGood(name);
      LoweredStays(name);
    case Pair(key, value) =>
      LoweredGood(key);
      LoweredStays(key);
  }

  ghost predicate AllGood(ws: seq<Written>) {
    forall i | 0 <= i < |ws| :: GoodLine(ws[i])
  }

  function Put(l: Loading, w: Written): Loading {
    match w
    case Gap => l
    case Header(name) => Apply(l, Section(name))
    case Pair(key, value) => Apply(l, KeyValue(key, value))
  }

  /** No line of a key makes the loop overrun its buffer. */
  predicate FitsLine(l: Loading, w: Written) {
    w.Pair? ==> FitsTmp(l.section, KeyValue(w.key, w.value))
  }

  predicate AllFit(l: Loading, ws: seq<Written>) {
    ws == [] || (AllFit(l, ws[..|ws| - 1]) && FitsLine(PutAll(l, ws[..|ws| - 1]), ws[|ws| - 1]))
  }

  function PutAll(l: Loading, ws: seq<Written>): Loading {
    if ws == [] then l else Put(PutAll(l, ws[..|ws| - 1]), ws[|ws| - 1])
  }

  lemma {:induction false} LineEnds(body: Text, rest: Text, room: int)
    requires LF !in body && |body| + 1 <= room
    ensures NextLine(body + [LF] + rest, room) == (body + [LF], rest)
    decreases |body|
  {
    var t := body + [LF] + rest;
    if body == [] {
      assert t[..1] == [LF] && t[1..] == rest;
    } else {
      assert t[1..] == body[1..] + [LF] + rest;
      LineEnds(body[1..], rest, room - 1);
      assert t[..1] + (body[1..] + [LF]) == body + [LF];
    }
  }

  /** A line that does not fit comes without its line feed. */
  lemma {:induction false} LineCut(body: Text, rest: Text, room: int)
    requires LF !in body && |body| + 1 > room && body != []
    ensures var part := NextLine(body + [LF] + rest, room).0; part[|part| - 1] != LF
    decreases |body|
  {
    var t := body + [LF] + rest;
    assert t[0] == body[0];
    if room > 1 {
      assert t[1..] == body[1..] + [LF] + rest;
      LineCut(body[1..], rest, room - 1);
    }
  }

  lemma NoFeedNoLine(l: Loading, part: Text)
    requires part != [] && part[|part| - 1] != LF
    ensures LoadLine(l, part) == Refused
  {
  }

  lemma NoLine(l: Loading, text: Text)
    requires text != []
    requires var part := NextLine(text, ASCIILINESZ - 1 - |l.line|).0; part[|part| - 1] != LF
    ensures LoadFrom(l, text) == Refused
  {
    hide NextLine, LoadLine;
    NoFeedNoLine(l, NextLine(text, ASCIILINESZ - 1 - |l.line|).0);
  }

  lemma BodyFits(w: Written)
    requires AnyLine(w)
    ensures LF !in Body(w) && |Body(w)| + 2 < 4096
  {
    if w.Pair? {
      assert forall c | c in Pad(w.key) :: c in w.key || c == BLANK;
    }
  }

  /** A body keeps its last character when the line end is cut off, and it is no backslash. */
  lemma BodyStripped(w: Written)
    requires AnyLine(w)
    ensures RStrip(Render(w)) == Body(w)
    ensures Body(w) != [] ==> Body(w)[|Body(w)| - 1] != BACKSLASH
  {
    var b := Body(w);
    match w
    case Gap =>
      assert CRLF[..1] == [CR] && [CR][..0] == [];
      assert RStrip([CR]) == [];
      assert [] + CRLF == CRLF;
    case Header(name) =>
      assert b[|b| - 1] == RBRACKET;
      RStripBlanks(b, CRLF);
    case Pair(key, value) =>
      assert b[|b| - 1] == if value == [] then EQUALS else value[|value| - 1];
      RStripBlanks(b, CRLF);
  }

  lemma BodyRead(w: Written, section: Text)
    requires AnyLine(w)
    ensures ReadLine(Body(w), section) == match w
      case Gap => Line.Empty
      case Header(name) => Line.Section(Lowered(name))
      case Pair(key, value) => KeyValue(Lowered(key), value)
  {
    match w
    case Gap =>
    case Header(name) => SectionIsRead(name, section);
    case Pair(key, value) => PairIsRead(key, value, section);
  }

  lemma LineLoaded(l: Loading, w: Written)
    requires AnyLine(w) && l.line == []
    ensures var v := LowerLine(w);
      LoadLine(l, Render(w)) == (if FitsLine(l, v) then Done(Put(l, v)) else Overrun) && Put(l, v).line == []
  {
    BodyStripped(w);
    BodyRead(w, l.section);
    assert l.line + Render(w) == Render(w);
    hide RStrip, ReadLine, Body, AnyLine, Lowered;
  }

  lemma FirstLoaded(l: Loading, w: Written, rest: Text)
    requires AnyLine(w) && l.line == []
    ensures var v := LowerLine(w);
      && LoadFrom(l, Render(w) + rest) == (if FitsLine(l, v) then LoadFrom(Put(l, v), rest) else Overrun)
      && Put(l, v).line == []
  {
    hide LoadFrom, LoadLine, Put, AnyLine, FitsLine, LowerLine;
    FirstLine(w, rest);
    LineLoaded(l, w);
    NextLoaded(l, Render(w), rest);
  }

  lemma FirstLine(w: Written, rest: Text)
    requires AnyLine(w)
    ensures NextLine(Render(w) + rest, ASCIILINESZ - 1) == (Render(w), rest)
  {
    BodyFits(w);
    hide NextLine, Body, AnyLine;
    var body := Body(w) + [CR];
    LineEnds(body, rest, ASCIILINESZ - 1);
    assert Render(w) == body + [LF];
  }

  lemma NextLoaded(l: Loading, part: Text, rest: Text)
    requires part != [] && NextLine(part + rest, ASCIILINESZ - 1 - |l.line|) == (part, rest)
    ensures LoadFrom(l, part + rest) == match LoadLine(l, part)
      case Refused => Refused
      case Overrun => Overrun
      case Done(l') => LoadFrom(l', rest)
  {
    hide NextLine, LoadLine;
    var text := part + rest;
    assert text != [];
    LoadedNext(l, text, part, rest);
  }

  lemma LoadedNext(l: Loading, text: Text, part: Text, rest: Text)
    requires text != [] && part != [] && NextLine(text, ASCIILINESZ - 1 - |l.line|) == (part, rest)
    ensures LoadFrom(l, text) == match LoadLine(l, part)
      case Refused => Refused
      case Overrun => Overrun
      case Done(l') => LoadFrom(l', rest)
  {
    hide NextLine, LoadLine;
  }

  lemma {:induction false} AllLoaded(l: Loading, ws: seq<Written>, rest: Text)
    requires (forall i | 0 <= i < |ws| :: AnyLine(ws[i])) && l.line == []
    ensures var vs := LowerLines(ws);
      && LoadFrom(l, RenderAll(ws) + rest) == (if AllFit(l, vs) then LoadFrom(PutAll(l, vs), rest) else Overrun)
      && PutAll(l, vs).line == []
    decreases |ws|
  {
    hide AnyLine, LoadFrom, Put, Render, FitsLine, LowerLine;
    if ws == [] {
      assert RenderAll(ws) + rest == rest;
    } else {
      var n := |ws| - 1;
      AllLoaded(l, ws[..n], Render(ws[n]) + rest);
      assert LowerLines(ws)[..n] == LowerLines(ws[..n]);
      FirstLoaded(PutAll(l, LowerLines(ws[..n])), ws[n], rest);
      Regroup(RenderAll(ws[..n]), Render(ws[n]), rest);
    }
  }

  lemma GoodLoaded(l: Loading, ws: seq<Written>, rest: Text)
    requires AllGood(ws) && l.line == []
    ensures LoadFrom(l, RenderAll(ws) + rest) == if AllFit(l, ws) then LoadFrom(PutAll(l, ws), rest) else Overrun
    ensures PutAll(l, ws).line == []
  {
    forall i | 0 <= i < |ws|
      ensures AnyLine(ws[i]) && LowerLine(ws[i]) == ws[i]
    {
      LowerLineGood(ws[i]);
    }
    hide AnyLine, LoadFrom, PutAll, RenderAll, AllFit, LowerLine;
    assert LowerLines(ws) == ws;
    AllLoaded(l, ws, rest);
  }

  /** The letters of keys and sections may be in either case: the file is read as if they were in lower case. */
  lemma CaseIgnored(ws: seq<Written>, rest: Text)
    requires forall i | 0 <= i < |ws| :: AnyLine(ws[i])
    ensures Load(RenderAll(ws) + rest) == Load(RenderAll(LowerLines(ws)) + rest)
  {
    var vs := LowerLines(ws);
    forall i | 0 <= i < |vs|
      ensures GoodLine(vs[i])
    {
      LowerLineGood(ws[i]);
    }
    assert START.line == [];
    hide AnyLine, GoodLine, LoadFrom, PutAll, RenderAll, AllFit, LowerLine, LowerLines, START;
    AllLoaded(START, ws, rest);
    GoodLoaded(START, vs, rest);
  }

  lemma Regroup(a: Text, b: Text, c: Text)
    ensures a + b + c == a + (b + c)
  {
  }

  ghost predicate Short(dict: Table) {
    forall x | x in dict :: |x| <= 4096
  }

  /** The buffer is overrun exactly if a key put into the dictionary is longer than a line. */
  lemma {:induction false} FitIff(l: Loading, ws: seq<Written>)
    requires AllGood(ws) && Short(l.dict)
    ensures AllFit(l, ws) <==> Short(PutAll(l, ws).dict)
    decreases |ws|
  {
    if ws != [] {
      var front := ws[..|ws| - 1];
      FitIff(l, front);
      hide PutAll, AllFit;
      ShortStep(PutAll(l, front), ws[|ws| - 1]);
    }
  }

  lemma ShortStep(l: Loading, w: Written)
    requires GoodLine(w)
    ensures Short(Put(l, w).dict) <==> Short(l.dict) && FitsLine(l, w)
  {
    var d := Put(l, w).dict;
    assert forall x | x in l.dict :: x in d;
    if w.Pair? {
      assert l.section + [COLON] + w.key in d;
    }
  }

  // ---- The dictionary comes back ----

  /** Every key is a section without a value, or stands in a section and has one. */
  ghost predicate GoodTable(m: Table) {
    forall x | x in m :: GoodEntry(m, x)
  }

  ghost predicate GoodEntry(m: Table, x: Text)
    requires x in m
  {
    if COLON !in x then m[x].None? && GoodSection(x)
    else exists s: Text, k: Text :: x == s + [COLON] + k && COLON !in s && s in m && GoodPair(k, m[x])
  }

  ghost predicate GoodPair(k: Text, v: Option<Text>) {
    v.Some? && GoodLine(Pair(k, v.value))
  }

  ghost predicate Sub(a: Table, b: Table) {
    forall x | x in a :: x in b && a[x] == b[x]
  }

  /** What a part of the file has put into the dictionary so far. */
  ghost predicate Built(l: Loading, m: Table) {
    l.line == [] && l.errs == 0 && Sub(l.dict, m)
  }

  lemma FirstColon(s: Text, k: Text, s': Text, k': Text)
    requires s + [COLON] + k == s' + [COLON] + k' && COLON !in s && COLON !in s'
    ensures s == s' && k == k'
  {
    var x, x' := s + [COLON] + k, s' + [COLON] + k';
    assert x[|s|] == COLON && x'[|s'|] == COLON;
    assert forall i | 0 <= i < |s| :: x[i] == s[i] && s[i] in s;
    assert forall i | 0 <= i < |s'| :: x'[i] == s'[i] && s'[i] in s';
    assert |s| == |s'|;
    assert s == x[..|s|] && s' == x'[..|s'|];
    assert k == x[|s| + 1..] && k' == x'[|s'| + 1..];
  }

  /** The line written for a key of a section is good and reads as that key. */
  lemma PairOfKey(m: Table, x: Text, section: Text)
    requires x in m && GoodEntry(m, x) && COLON !in section && InSection(Some(x), section)
    ensures x == section + [COLON] + x[|section| + 1..]
    ensures GoodPair(x[|section| + 1..], m[x])
  {
    var k' := x[|section| + 1..];
    assert x[..|section| + 1] == section + [COLON];
    assert x == section + [COLON] + k';
    assert x[|section|] == COLON;
    var s, k :| x == s + [COLON] + k && COLON !in s && s in m && GoodPair(k, m[x]);
    FirstColon(s, k, section, k');
  }

  /** Reading the line of one key puts that key into the dictionary. */
  lemma PutPair(l: Loading, x: Text, v: Option<Text>, m: Table)
    requires Built(l, m) && COLON !in l.section
    requires x in m && m[x] == v && GoodEntry(m, x) && InSection(Some(x), l.section)
    ensures var w := Pair(x[|l.section| + 1..], ValueText(v));
      GoodLine(w) && Put(l, w) == l.(dict := l.dict[x := v]) && Built(Put(l, w), m)
  {
    PairOfKey(m, x, l.section);
    PairIsGood(x[|l.section| + 1..], v);
    hide GoodLine, GoodEntry, GoodPair;
  }

  /** The keys belong to m, with their values. */
  ghost predicate Entries(keys: seq<Option<Text>>, vals: seq<Option<Text>>, m: Table) {
    |keys| == |vals|
    && forall i | 0 <= i < |keys| && keys[i].Some? ::
       keys[i].value in m && m[keys[i].value] == vals[i] && GoodEntry(m, keys[i].value)
  }

  /** The keys of a section are in the dictionary. */
  ghost predicate Listed(section: Text, keys: seq<Option<Text>>, dict: Table) {
    forall i | 0 <= i < |keys| && InSection(keys[i], section) :: keys[i].value in dict
  }

  lemma ListedMore(section: Text, keys: seq<Option<Text>>, dict: Table, more: Table)
    requires keys != [] && Listed(section, keys[..|keys| - 1], dict) && dict.Keys <= more.Keys
    requires InSection(keys[|keys| - 1], section) ==> keys[|keys| - 1].value in more
    ensures Listed(section, keys, more)
  {
    var front := keys[..|keys| - 1];
    assert forall i | 0 <= i < |front| :: front[i] == keys[i];
    assert forall x | x in dict :: x in more;
  }

  lemma {:induction false} PutPairs(l: Loading, keys: seq<Option<Text>>, vals: seq<Option<Text>>, m: Table)
    requires |keys| == |vals| && COLON !in l.section && Built(l, m) && Entries(keys, vals, m)
    ensures var ws := Pairs(l.section, keys, vals); var r := PutAll(l, ws);
      && AllGood(ws)
      && Built(r, m) && r.section == l.section && l.dict.Keys <= r.dict.Keys
      && Listed(l.section, keys, r.dict)
    decreases |keys|
  {
    hide GoodLine, GoodEntry, InSection, Built, Put, Entries;
    if keys != [] {
      var n := |keys| - 1;
      InSectionThen(keys[n], l.section);
      PairsUnfold(l.section, keys, vals);
      hide AllGood, PutAll, Pairs, Listed, ValueText;
      EntriesPrefix(keys, vals, m);
      PutPairs(l, keys[..n], vals[..n], m);
      var ws := Pairs(l.section, keys[..n], vals[..n]);
      var r := PutAll(l, ws);
      if InSection(keys[n], l.section) {
        InSectionIsKey(keys[n], l.section);
        var x := keys[n].value;
        PutPair(r, x, vals[n], m);
        OneMore(l, ws, Pair(x[|l.section| + 1..], ValueText(vals[n])));
        ListedMore(l.section, keys, r.dict, r.dict[x := vals[n]]);
      } else {
        ListedMore(l.section, keys, r.dict, r.dict);
      }
    }
  }

  lemma PairsUnfold(section: Text, keys: seq<Option<Text>>, vals: seq<Option<Text>>)
    requires |keys| == |vals| && keys != []
    requires InSection(keys[|keys| - 1], section) ==> keys[|keys| - 1].Some? && |section| < |keys[|keys| - 1].value|
    ensures var n := |keys| - 1; var ws := Pairs(section, keys[..n], vals[..n]);
      Pairs(section, keys, vals)
      == if InSection(keys[n], section) then ws + [Pair(keys[n].value[|section| + 1..], ValueText(vals[n]))] else ws
  {
    hide InSection, ValueText;
    var n := |keys| - 1;
    if InSection(keys[n], section) {
      InSectionIsKey(keys[n], section);
    } else {
      assert Pairs(section, keys[..n], vals[..n]) + [] == Pairs(section, keys[..n], vals[..n]);
    }
  }

  lemma EntriesPrefix(keys: seq<Option<Text>>, vals: seq<Option<Text>>, m: Table)
    requires Entries(keys, vals, m) && keys != []
    ensures |keys| == |vals|
    ensures var n := |keys| - 1;
      && Entries(keys[..n], vals[..n], m)
      && (keys[n].Some? ==> keys[n].value in m && m[keys[n].value] == vals[n] && GoodEntry(m, keys[n].value))
  {
    hide GoodEntry;
  }

  lemma InSectionThen(key: Option<Text>, section: Text)
    ensures InSection(key, section) ==> key.Some? && |section| < |key.value|
  {
  }

  lemma OneMore(l: Loading, ws: seq<Written>, w: Written)
    requires AllGood(ws) && GoodLine(w)
    ensures AllGood(ws + [w]) && PutAll(l, ws + [w]) == Put(PutAll(l, ws), w)
  {
    hide GoodLine, Put;
    assert (ws + [w])[..|ws|] == ws;
  }

  lemma InSectionIsKey(key: Option<Text>, section: Text)
    requires InSection(key, section)
    ensures key.Some? && |section| < |key.value|
  {
  }

  lemma PairIsGood(k: Text, v: Option<Text>)
    requires GoodPair(k, v)
    ensures v.Some? && GoodLine(Pair(k, v.value))
  {
  }

  lemma {:induction false} PutAppend(l: Loading, a: seq<Written>, b: seq<Written>)
    ensures PutAll(l, a + b) == PutAll(PutAll(l, a), b)
    decreases |b|
  {
    hide Put;
    if b == [] {
      assert a + b == a;
    } else {
      assert (a + b)[..|a + b| - 1] == a + b[..|b| - 1];
      PutAppend(l, a, b[..|b| - 1]);
    }
  }

  lemma PutBlock(l: Loading, section: Text, keys: seq<Option<Text>>, vals: seq<Option<Text>>, m: Table)
    requires Entries(keys, vals, m) && Built(l, m)
    requires section in m && COLON !in section && GoodEntry(m, section)
    ensures var ws := Block(section, keys, vals); var r := PutAll(l, ws);
      && AllGood(ws)
      && Built(r, m) && l.dict.Keys <= r.dict.Keys && section in r.dict && Listed(section, keys, r.dict)
  {
    hide GoodEntry, InSection, Pairs;
    var head := [Gap, Header(section)];
    var l1 := l.(section := section, dict := l.dict[section := None]);
    SectionEntry(m, section);
    assert PutAll(l, head) == l1 by {
      assert head[..1] == [Gap] && [Gap][..0] == [];
      assert PutAll(l, [Gap]) == l;
    }
    assert GoodLine(Gap) && GoodLine(Header(section));
    hide GoodLine, PutAll, Put;
    PutPairs(l1, keys, vals, m);
    PutAppend(l, head, Pairs(section, keys, vals));
  }

  lemma SectionEntry(m: Table, x: Text)
    requires x in m && COLON !in x && GoodEntry(m, x)
    ensures m[x].None? && GoodSection(x)
  {
  }

  lemma {:induction false} PutBlocks(l: Loading, sections: seq<Text>, keys: seq<Option<Text>>,
                                    vals: seq<Option<Text>>, m: Table)
    requires |keys| == |vals| && Entries(keys, vals, m) && Built(l, m)
    requires forall i | 0 <= i < |sections| :: sections[i] in m && COLON !in sections[i] && GoodEntry(m, sections[i])
    ensures var ws := Blocks(sections, keys, vals); var r := PutAll(l, ws);
      && AllGood(ws)
      && Built(r, m)
      && (forall j | 0 <= j < |sections| :: Covered(sections[j], keys, r.dict))
    decreases |sections|
  {
    hide GoodEntry, InSection, Block, Entries, GoodLine, Built, Put;
    if sections != [] {
      var n := |sections| - 1;
      PutBlocks(l, sections[..n], keys, vals, m);
      var ws := Blocks(sections[..n], keys, vals);
      var l1 := PutAll(l, ws);
      PutBlock(l1, sections[n], keys, vals, m);
      PutAppend(l, ws, Block(sections[n], keys, vals));
      assert forall j | 0 <= j < n :: sections[..n][j] == sections[j];
    }
  }

  /** A section and all its keys are in the dictionary. */
  ghost predicate Covered(section: Text, keys: seq<Option<Text>>, dict: Table) {
    section in dict && Listed(section, keys, dict)
  }

  lemma {:induction false} SectionsAre(keys: seq<Option<Text>>)
    ensures forall i | 0 <= i < |Sections(keys)| :: Some(Sections(keys)[i]) in keys && COLON !in Sections(keys)[i]
    ensures forall i | 0 <= i < |keys| && IsSection(keys[i]) :: keys[i].value in Sections(keys)
    decreases |keys|
  {
    if keys != [] {
      var n := |keys| - 1;
      SectionsAre(keys[..n]);
      assert forall k | k in keys[..n] :: k in keys;
      assert keys[n] in keys;
    }
  }

  /** All keys of m are covered once all sections are. */
  lemma KeyCovered(keys: seq<Option<Text>>, vals: seq<Option<Text>>, m: Table, dict: Table, x: Text)
    requires Represents(keys, vals, m) && x in m && GoodEntry(m, x)
    requires forall j | 0 <= j < |Sections(keys)| :: Covered(Sections(keys)[j], keys, dict)
    ensures x in dict
  {
    SectionsAre(keys);
    assert Some(x) in keys;
    var i :| 0 <= i < |keys| && keys[i] == Some(x);
    if COLON !in x {
      assert IsSection(keys[i]);
    } else {
      var s, k :| x == s + [COLON] + k && COLON !in s && s in m && GoodPair(k, m[x]);
      assert Some(s) in keys;
      var j :| 0 <= j < |keys| && keys[j] == Some(s);
      assert IsSection(keys[j]);
      assert s in Sections(keys);
      assert s + [COLON] <= x;
      assert InSection(keys[i], s);
    }
  }

  lemma EntriesOf(keys: seq<Option<Text>>, vals: seq<Option<Text>>, m: Table)
    requires Represents(keys, vals, m) && GoodTable(m)
    ensures Entries(keys, vals, m)
  {
    hide GoodEntry;
  }

  /**
   * A dictionary with sections, whatever its slots, comes back from its file, if none of its keys,
   * "section:key", is longer than the buffer it is put together in; otherwise that buffer is overrun.
   */
  lemma LoadAfterDump(keys: seq<Option<Text>>, vals: seq<Option<Text>>, m: Table)
    requires Represents(keys, vals, m) && GoodTable(m)
    ensures Load(Dump(keys, vals)) == if Short(m) then Done(m) else Overrun
  {
    var secs := Sections(keys);
    SectionsAre(keys);
    EntriesOf(keys, vals, m);
    if secs == [] {
      NothingWithoutSections(keys, vals, m);
    } else {
      forall i | 0 <= i < |secs|
        ensures secs[i] in m && GoodEntry(m, secs[i])
      {
        assert Some(secs[i]) in keys;
      }
      hide *;
      AllPut(secs, keys, vals, m);
      var ws := Blocks(secs, keys, vals) + [Gap];
      PutLoaded(ws, m);
      DumpOfBlocks(keys, vals);
    }
  }

  lemma DumpOfBlocks(keys: seq<Option<Text>>, vals: seq<Option<Text>>)
    requires |keys| == |vals| && Sections(keys) != []
    ensures Dump(keys, vals) == RenderAll(Blocks(Sections(keys), keys, vals) + [Gap])
  {
  }

  /** The lines of all blocks put together the whole dictionary. */
  lemma AllPut(secs: seq<Text>, keys: seq<Option<Text>>, vals: seq<Option<Text>>, m: Table)
    requires Represents(keys, vals, m) && GoodTable(m) && Entries(keys, vals, m) && secs == Sections(keys)
    requires forall i | 0 <= i < |secs| :: secs[i] in m && COLON !in secs[i] && GoodEntry(m, secs[i])
    ensures |keys| == |vals|
    ensures var ws := Blocks(secs, keys, vals) + [Gap]; var r := PutAll(START, ws);
      AllGood(ws) && r.dict == m && r.errs == 0
  {
    hide GoodEntry, Represents, Entries, Covered, Blocks, GoodLine, PutAll, AllGood;
    assert |keys| == |vals| by {
      EntriesLength(keys, vals, m);
    }
    PutBlocks(START, secs, keys, vals, m);
    var ws := Blocks(secs, keys, vals);
    var r := PutAll(START, ws);
    GapAtEnd(START, ws);
    forall x | x in m
      ensures x in r.dict
    {
      KeyCovered(keys, vals, m, r.dict, x);
    }
    assert r.dict == m;
  }

  lemma EntriesLength(keys: seq<Option<Text>>, vals: seq<Option<Text>>, m: Table)
    requires Entries(keys, vals, m)
    ensures |keys| == |vals|
  {
  }

  lemma PutLoaded(ws: seq<Written>, m: Table)
    requires AllGood(ws) && PutAll(START, ws).dict == m && PutAll(START, ws).errs == 0
    ensures Load(RenderAll(ws)) == if Short(m) then Done(m) else Overrun
  {
    assert START.line == [] && Short(START.dict);
    hide AllGood, PutAll, AllFit, Short, LoadFrom, RenderAll, START;
    FitIff(START, ws);
    GoodLoaded(START, ws, []);
    assert RenderAll(ws) + [] == RenderAll(ws);
    FinallyLoaded(PutAll(START, ws));
  }

  lemma GapAtEnd(l: Loading, ws: seq<Written>)
    requires AllGood(ws)
    ensures PutAll(l, ws + [Gap]) == PutAll(l, ws)
    ensures AllGood(ws + [Gap])
  {
    assert (ws + [Gap])[..|ws|] == ws;
  }

  lemma FinallyLoaded(l: Loading)
    requires l.errs == 0
    ensures LoadFrom(l, []) == Done(l.dict)
  {
  }

  /** Without a section there can be no key either. */
  lemma NothingWithoutSections(keys: seq<Option<Text>>, vals: seq<Option<Text>>, m: Table)
    requires Represents(keys, vals, m) && GoodTable(m) && Sections(keys) == []
    ensures m == map[] && Load(Dump(keys, vals)) == Done(m)
  {
    SectionsAre(keys);
    forall x | x in m
      ensures false
    {
      assert GoodEntry(m, x);
      KeyCovered(keys, vals, m, map[], x);
    }
    BareNothing(keys, vals);
  }

  lemma {:induction false} BareNothing(keys: seq<Option<Text>>, vals: seq<Option<Text>>)
    requires |keys| == |vals| && forall i | 0 <= i < |keys| :: keys[i].None?
    ensures BareLines(keys, vals) == []
    decreases |keys|
  {
    if keys != [] {
      BareNothing(keys[..|keys| - 1], vals[..|keys| - 1]);
    }
  }

  // ---- The functions as they run ----

  lemma SectionsStep(keys: seq<Option<Text>>, i: nat)
    requires i < |keys|
    ensures Sections(keys[..i + 1]) == Sections(keys[..i]) + (if IsSection(keys[i]) then [keys[i].value] else [])
  {
    assert keys[..i + 1][..i] == keys[..i];
  }

  lemma SectionsEnds(keys: seq<Option<Text>>)
    ensures Sections(keys[..0]) == [] && keys[..|keys|] == keys
  {
  }

  lemma {:induction false} SectionsGrow(keys: seq<Option<Text>>, i: nat)
    requires i <= |keys|
    ensures Sections(keys[..i]) <= Sections(keys)
    decreases |keys|
  {
    if i < |keys| {
      var n := |keys| - 1;
      assert keys[..n][..i] == keys[..i];
      SectionsGrow(keys[..n], i);
    } else {
      assert keys[..i] == keys;
    }
  }

  lemma SectionAt(keys: seq<Option<Text>>, i: nat)
    requires i < |keys| && IsSection(keys[i])
    ensures var n := |Sections(keys[..i])|;
      n < |Sections(keys)| && keys[i] == Some(Sections(keys)[n])
  {
    hide Sections;
    SectionsStep(keys, i);
    SectionsGrow(keys, i + 1);
    assert Sections(keys)[..|Sections(keys[..i + 1])|] == Sections(keys[..i + 1]);
  }

  /** iniparser_getnsec. */
  method GetNSec(d: Dict) returns (nsec: nat)
    requires d.Valid()
    ensures nsec == |Sections(d.key[..])|
  {
    hide Represents, Hashed, Count, Sections;
    nsec := 0;
    var i := 0;
    SectionsEnds(d.key[..]);
    while i < d.size
      invariant i <= d.size && nsec == |Sections(d.key[..][..i])|
    {
      SectionsStep(d.key[..], i);
      if IsSection(d.key[i]) {
        nsec := nsec + 1;
      }
      i := i + 1;
    }
  }

  /** iniparser_getsecname; None where there is no section of that number. */
  method GetSecName(d: Dict, n: int) returns (name: Option<Text>)
    requires d.Valid()
    ensures name == if 0 <= n < |Sections(d.key[..])| then Some(Sections(d.key[..])[n]) else None
  {
    if n < 0 {
      return None;
    }
    name := FindSection(d, n);
  }

  /** Its loop. */
  method FindSection(d: Dict, n: nat) returns (name: Option<Text>)
    requires d.Valid()
    ensures name == if n < |Sections(d.key[..])| then Some(Sections(d.key[..])[n]) else None
  {
    assert d.size == d.key.Length;
    hide Dict.Valid, Sections, IsSection;
    ghost var keys := d.key[..];
    var i, foundsec := 0, 0;
    SectionsEnds(keys);
    while i < d.size
      invariant i <= d.size && foundsec == |Sections(keys[..i])| && foundsec <= n
    {
      SectionsStep(keys, i);
      if IsSection(d.key[i]) {
        if foundsec == n {
          SectionAt(keys, i);
          return d.key[i];
        }
        foundsec := foundsec + 1;
      }
      i := i + 1;
    }
    return None;
  }

  /** The characters of the file, line by line; a pair is written as key, blanks up to 30 places, "=", value. */
  lemma WrittenText(name: Text, key: Text, value: Text)
    ensures Render(Gap) == [13, 10] && Render(Header(name)) == [0x5B] + name + [0x5D] + [13, 10]
    ensures exists blanks: Text ::
      && (forall i | 0 <= i < |blanks| :: blanks[i] == 32)
      && |blanks| == (if |key| < 30 then 30 - |key| else 0)
      && Render(Pair(key, value)) == key + blanks + [0x3D] + value + [13, 10]
  {
    var blanks := Blanks(if |key| < 30 then 30 - |key| else 0);
    assert Render(Pair(key, value)) == key + blanks + [0x3D] + value + [13, 10];
  }

  /** A section is written behind an empty line and before its pairs. */
  lemma BlockText(name: Text, keys: seq<Option<Text>>, vals: seq<Option<Text>>)
    requires |keys| == |vals|
    ensures RenderAll(Block(name, keys, vals))
         == [13, 10] + ([0x5B] + name + [0x5D] + [13, 10]) + RenderAll(Pairs(name, keys, vals))
  {
    hide Pairs, RenderAll;
    HeadText(name);
    RenderAppend([Gap, Header(name)], Pairs(name, keys, vals));
  }

  lemma HeadText(name: Text)
    ensures RenderAll([Gap, Header(name)]) == [13, 10] + ([0x5B] + name + [0x5D] + [13, 10])
  {
    WrittenText(name, [], []);
    RenderOne([], Gap);
    RenderOne([Gap], Header(name));
    assert RenderAll([]) == [];
    hide RenderAll, Render;
    assert [Gap, Header(name)] == [Gap] + [Header(name)] && [] + [Gap] == [Gap];
  }

  /** Slot i holds the key k of this section, with this value; a missing value is written as nothing. */
  ghost predicate InSlot(section: Text, keys: seq<Option<Text>>, vals: seq<Option<Text>>, i: nat, w: Written) {
    && i < |keys| == |vals| && w.Pair? && keys[i] == Some(section + [0x3A] + w.key)
    && w.value == if vals[i].Some? then vals[i].value else []
  }

  /** The lines of a section are the pairs of its keys. */
  lemma {:induction false} PairsWritten(section: Text, keys: seq<Option<Text>>, vals: seq<Option<Text>>, w: Written)
    requires |keys| == |vals|
    ensures w in Pairs(section, keys, vals) <==> exists i: nat :: InSlot(section, keys, vals, i, w)
    decreases |keys|
  {
    if keys != [] {
      var n := |keys| - 1;
      PairsWritten(section, keys[..n], vals[..n], w);
      LastSlot(section, keys, vals, w);
      InSectionThen(keys[n], section);
      PairsUnfold(section, keys, vals);
      hide Pairs, InSection;
      if i: nat :| InSlot(section, keys, vals, i, w) && i < n {
        assert InSlot(section, keys[..n], vals[..n], i, w);
      }
      if i: nat :| InSlot(section, keys[..n], vals[..n], i, w) {
        assert InSlot(section, keys, vals, i, w);
      }
    }
  }

  lemma LastSlot(section: Text, keys: seq<Option<Text>>, vals: seq<Option<Text>>, w: Written)
    requires 0 < |keys| == |vals|
    ensures var n := |keys| - 1;
      InSlot(section, keys, vals, n, w)
      <==> InSection(keys[n], section) && |section| < |keys[n].value|
           && w == Pair(keys[n].value[|section| + 1..], ValueText(vals[n]))
  {
    var n := |keys| - 1;
    if InSection(keys[n], section) {
      var x := keys[n].value;
      assert x == x[..|section| + 1] + x[|section| + 1..];
      assert x[..|section| + 1] == section + [COLON];
    }
    if InSlot(section, keys, vals, n, w) {
      var x := keys[n].value;
      assert x[..|section| + 1] == section + [COLON] && x[|section| + 1..] == w.key;
    }
  }

  /** An empty line ends a file with sections. */
  lemma DumpText(keys: seq<Option<Text>>, vals: seq<Option<Text>>)
    requires |keys| == |vals| && Sections(keys) != []
    ensures Dump(keys, vals) == RenderAll(Blocks(Sections(keys), keys, vals)) + [13, 10]
  {
    RenderOne(Blocks(Sections(keys), keys, vals), Gap);
    hide RenderAll, Blocks, Sections;
  }

  /** Without sections a key is written as it is, and a missing value as printf shows it. */
  lemma BareText(key: Text, v: Text)
    ensures BareLine(key, Some(v)) + [LF] == key + [0x3D] + v + [13, 10]
    ensures BareLine(key, None) + [LF] == key + [0x3D, 0x28, 0x6E, 0x75, 0x6C, 0x6C, 0x29] + [13, 10]
  {
  }

  /** The block of one section, as iniparser_dump_ini prints it. */
  method DumpSection(d: Dict, secname: Text) returns (t: Text)
    requires d.Valid()
    ensures t == RenderAll(Block(secname, d.key[..], d.val[..]))
  {
    hide Represents, Hashed, Count, Pairs, RenderAll, Render, InSection;
    ghost var keys, vals := d.key[..], d.val[..];
    t := Render(Gap) + Render(Header(secname));
    BlockStarts(secname, keys, vals);
    var j := 0;
    while j < d.size
      invariant j <= d.size && t == RenderAll([Gap, Header(secname)] + Pairs(secname, keys[..j], vals[..j]))
    {
      PairsStep(secname, keys, vals, j);
      if InSection(d.key[j], secname) {
        InSectionIsKey(d.key[j], secname);
        t := t + Render(Pair(d.key[j].value[|secname| + 1..], ValueText(d.val[j])));
      }
      j := j + 1;
    }
    assert keys[..j] == keys && vals[..j] == vals;
  }

  lemma BlockStarts(section: Text, keys: seq<Option<Text>>, vals: seq<Option<Text>>)
    requires |keys| == |vals|
    ensures RenderAll([Gap, Header(section)] + Pairs(section, keys[..0], vals[..0]))
      == Render(Gap) + Render(Header(section))
  {
    assert [Gap, Header(section)] + [] == [] + [Gap] + [Header(section)];
    RenderOne([], Gap);
    RenderOne([] + [Gap], Header(section));
    assert [] + Render(Gap) == Render(Gap);
  }

  lemma PairsStep(section: Text, keys: seq<Option<Text>>, vals: seq<Option<Text>>, j: nat)
    requires |keys| == |vals| && j < |keys|
    ensures var head := [Gap, Header(section)];
      RenderAll(head + Pairs(section, keys[..j + 1], vals[..j + 1]))
      == RenderAll(head + Pairs(section, keys[..j], vals[..j]))
         + (if InSection(keys[j], section)
              then Render(Pair(keys[j].value[|section| + 1..], ValueText(vals[j]))) else [])
  {
    hide RenderAll, Render;
    assert keys[..j + 1][..j] == keys[..j] && vals[..j + 1][..j] == vals[..j];
    var ws := Pairs(section, keys[..j], vals[..j]);
    if InSection(keys[j], section) {
      var w := Pair(keys[j].value[|section| + 1..], ValueText(vals[j]));
      assert [Gap, Header(section)] + (ws + [w]) == [Gap, Header(section)] + ws + [w];
      RenderOne([Gap, Header(section)] + ws, w);
    } else {
      assert ws + [] == ws;
    }
  }

  lemma {:induction false} RenderAppend(a: seq<Written>, b: seq<Written>)
    ensures RenderAll(a + b) == RenderAll(a) + RenderAll(b)
    decreases |b|
  {
    hide Render;
    if b == [] {
      assert a + b == a;
    } else {
      var n := |b| - 1;
      assert (a + b)[..|a| + n] == a + b[..n];
      RenderAppend(a, b[..n]);
      Regroup(RenderAll(a), RenderAll(b[..n]), Render(b[n]));
    }
  }

  lemma BlocksStep(secs: seq<Text>, i: nat, keys: seq<Option<Text>>, vals: seq<Option<Text>>)
    requires |keys| == |vals| && i < |secs|
    ensures RenderAll(Blocks(secs[..i + 1], keys, vals))
         == RenderAll(Blocks(secs[..i], keys, vals)) + RenderAll(Block(secs[i], keys, vals))
  {
    hide RenderAll, Block;
    assert secs[..i + 1][..i] == secs[..i];
    RenderAppend(Blocks(secs[..i], keys, vals), Block(secs[i], keys, vals));
  }

  /** iniparser_dump_ini, with the file as a text; without sections it returns before the fclose. */
  method DumpIni(d: Dict) returns (t: Text, closed: bool)
    requires d.Valid()
    ensures t == Dump(d.key[..], d.val[..])
    ensures closed <==> Sections(d.key[..]) != []
  {
    hide Represents, Hashed, Count, Sections, Blocks, Block, RenderAll, Render;
    ghost var keys, vals := d.key[..], d.val[..];
    var nsec := GetNSec(d);
    if nsec < 1 {
      t := DumpBare(d);
      closed := false;
      return;
    }
    t := [];
    var i := 0;
    NoBlocks(Sections(keys), keys, vals);
    while i < nsec
      invariant i <= nsec && t == RenderAll(Blocks(Sections(keys)[..i], keys, vals))
    {
      BlocksStep(Sections(keys), i, keys, vals);
      var secname := GetSecName(d, i);
      var block := DumpSection(d, secname.value);
      t := t + block;
      i := i + 1;
    }
    assert Sections(keys)[..i] == Sections(keys);
    RenderOne(Blocks(Sections(keys), keys, vals), Gap);
    t, closed := t + Render(Gap), true;
  }

  lemma NoBlocks(secs: seq<Text>, keys: seq<Option<Text>>, vals: seq<Option<Text>>)
    requires |keys| == |vals|
    ensures RenderAll(Blocks(secs[..0], keys, vals)) == []
  {
  }

  method DumpBare(d: Dict) returns (t: Text)
    requires d.Valid()
    ensures t == BareLines(d.key[..], d.val[..])
  {
    hide Represents, Hashed, Count;
    ghost var keys, vals := d.key[..], d.val[..];
    t := [];
    var i := 0;
    while i < d.size
      invariant i <= d.size && t == BareLines(keys[..i], vals[..i])
    {
      assert keys[..i + 1][..i] == keys[..i] && vals[..i + 1][..i] == vals[..i];
      if d.key[i].Some? {
        t := t + (BareLine(d.key[i].value, d.val[i]) + [LF]);
      } else {
        assert t + [] == t;
      }
      i := i + 1;
    }
    assert keys[..i] == keys && vals[..i] == vals;
  }

  /** iniparser_load, with the file as a text; crashed stands for a write past the buffer tmp. */
  method LoadIni(text: Text) returns (d: Dict?, crashed: bool)
    ensures crashed <==> Load(text) == Overrun
    ensures d == null <==> !Load(text).Done?
    ensures d != null ==> fresh(d) && d.Valid() && Load(text) == Done(d.contents)
  {
    hide Represents, Hashed, Count, RStrip, ReadLine, NextLine;
    d, crashed := null, false;
    var dict := new Dict(0);
    var section: Text, line: Text, errs: nat, rest := [], [], 0, text;
    while rest != []
      invariant dict.Valid() && fresh(dict) && fresh(dict.Arrays())
      invariant LoadFrom(Loading(section, line, dict.contents, errs), rest) == Load(text)
      decreases |rest|
    {
      var (part, next) := NextLine(rest, ASCIILINESZ - 1 - |line|);
      line, rest := line + part, next;
      if line[|line| - 1] != LF {
        return;
      }
      line := RStrip(line);
      if line != [] && line[|line| - 1] == BACKSLASH {
        line := line[..|line| - 1];
      } else {
        var read := ReadLine(line, section);
        match read {
          case Empty =>
          case Comment =>
          case Section(name) =>
            section := name;
            var r := dict.Set(Some(section), None);
            errs := r;
          case KeyValue(key, value) =>
            if |section| + 1 + |key| > ASCIILINESZ {
              crashed := true;
              return;
            }
            var r := dict.Set(Some(section + [COLON] + key), Some(value));
            errs := r;
          case SyntaxError =>
            errs := errs + 1;
        }
        line := [];
      }
    }
    if errs == 0 {
      d := dict;
    }
  }
}
