/** When iniparser_load gives up on a file, for lines that fit its buffer and do not run on. */
module IniErrors {
  import opened Bytes
  import opened IniLine
  import opened IniFile

  /** No line feed inside, short enough for fgets, and no backslash at the end. */
  predicate PlainLine(s: Text) {
    var r := RStrip(s);
    LF !in s && |s| + 1 < 4096 && (r == [] || r[|r| - 1] != BACKSLASH)
  }

  function TextOf(lines: seq<Text>): Text {
    if lines == [] then [] else TextOf(lines[..|lines| - 1]) + (lines[|lines| - 1] + [LF])
  }

  function LineRead(l: Loading, s: Text): Line {
    ReadLine(RStrip(s), l.section)
  }

  function ReadAll(l: Loading, lines: seq<Text>): Loading {
    if lines == [] then l
    else
      var r := ReadAll(l, lines[..|lines| - 1]);
      Apply(r, LineRead(r, lines[|lines| - 1]))
  }

  /** Some key is too long for the buffer, with the section in force at its line. */
  predicate LongKey(l: Loading, lines: seq<Text>) {
    lines != []
    && (LongKey(l, lines[..|lines| - 1])
        || !FitsTmp(ReadAll(l, lines[..|lines| - 1]).section,
                    LineRead(ReadAll(l, lines[..|lines| - 1]), lines[|lines| - 1])))
  }

  predicate IsError(s: Text) {
    ReadLine(RStrip(s), []).SyntaxError?
  }

  /** Blank, or a comment. */
  predicate Ignored(s: Text) {
    ReadLine(RStrip(s), []).Empty? || ReadLine(RStrip(s), []).Comment?
  }

  lemma KindOfLine(s: Text, section: Text)
    ensures ReadLine(s, section).SyntaxError? == ReadLine(s, []).SyntaxError?
    ensures ReadLine(s, section).Empty? == ReadLine(s, []).Empty?
    ensures ReadLine(s, section).Comment? == ReadLine(s, []).Comment?
  {
    hide ReadPair, StrStrip, CleanKey, TakeNot;
  }

  lemma LineStripped(s: Text)
    ensures RStrip(s + [LF]) == RStrip(s)
  {
    assert (s + [LF])[..|s|] == s;
  }

  lemma OneLine(l: Loading, s: Text)
    requires PlainLine(s) && l.line == []
    ensures LoadLine(l, s + [LF])
         == if FitsTmp(l.section, LineRead(l, s)) then Done(Apply(l, LineRead(l, s))) else Overrun
    ensures Apply(l, LineRead(l, s)).line == []
  {
    LineStripped(s);
    hide ReadLine, RStrip;
    assert [] + (s + [LF]) == s + [LF];
  }

  lemma PlainLoaded(l: Loading, s: Text, rest: Text)
    requires PlainLine(s) && l.line == []
    ensures var r := Apply(l, LineRead(l, s));
      LoadFrom(l, s + [LF] + rest) == (if FitsTmp(l.section, LineRead(l, s)) then LoadFrom(r, rest) else Overrun)
      && r.line == []
  {
    hide *;
    PlainCut(s, rest);
    OneLine(l, s);
    NextLoaded(l, s + [LF], rest);
  }

  lemma PlainCut(s: Text, rest: Text)
    requires PlainLine(s)
    ensures NextLine(s + [LF] + rest, ASCIILINESZ - 1) == (s + [LF], rest)
  {
    hide RStrip, NextLine;
    LineEnds(s, rest, ASCIILINESZ - 1);
  }

  lemma {:induction false} LinesLoaded(l: Loading, lines: seq<Text>, rest: Text)
    requires (forall i | 0 <= i < |lines| :: PlainLine(lines[i])) && l.line == []
    ensures LoadFrom(l, TextOf(lines) + rest)
         == if LongKey(l, lines) then Overrun else LoadFrom(ReadAll(l, lines), rest)
    ensures ReadAll(l, lines).line == []
    decreases |lines|
  {
    hide PlainLine, LoadFrom, Apply, LineRead, RStrip, FitsTmp;
    if lines == [] {
      assert TextOf(lines) + rest == rest;
    } else {
      var n := |lines| - 1;
      LinesLoaded(l, lines[..n], lines[n] + [LF] + rest);
      PlainLoaded(ReadAll(l, lines[..n]), lines[n], rest);
      Regroup(TextOf(lines[..n]), lines[n] + [LF], rest);
    }
  }

  /** The last line that counts is an error. */
  ghost predicate EndsInError(lines: seq<Text>) {
    exists i :: 0 <= i < |lines| && IsError(lines[i]) && forall j | i < j < |lines| :: Ignored(lines[j])
  }

  lemma {:induction false} ErrorsLeft(l: Loading, lines: seq<Text>)
    requires l.errs == 0
    ensures ReadAll(l, lines).errs != 0 <==> EndsInError(lines)
    decreases |lines|
  {
    hide IsError, Ignored;
    if lines != [] {
      var n := |lines| - 1;
      ErrorsLeft(l, lines[..n]);
      LastLine(ReadAll(l, lines[..n]), lines[n]);
      EndsOfMore(lines[..n], lines[n]);
      assert lines[..n] + [lines[n]] == lines;
    }
  }

  lemma LastLine(l: Loading, s: Text)
    ensures var r := Apply(l, LineRead(l, s));
      r.errs != 0 <==> IsError(s) || (Ignored(s) && l.errs != 0)
  {
    KindOfLine(RStrip(s), l.section);
    hide ReadLine, RStrip;
  }

  lemma EndsOfMore(lines: seq<Text>, s: Text)
    ensures EndsInError(lines + [s]) <==> IsError(s) || (Ignored(s) && EndsInError(lines))
  {
    hide IsError, Ignored;
    var more := lines + [s];
    if EndsInError(lines) && Ignored(s) {
      var i :| 0 <= i < |lines| && IsError(lines[i]) && forall j | i < j < |lines| :: Ignored(lines[j]);
      assert IsError(more[i]) && forall j | i < j < |more| :: Ignored(more[j]);
    }
    if IsError(s) {
      assert IsError(more[|lines|]);
    }
    if EndsInError(more) && !IsError(s) {
      var i :| 0 <= i < |more| && IsError(more[i]) && forall j | i < j < |more| :: Ignored(more[j]);
      assert i != |lines| && more[|lines|] == s;
      assert forall j | i < j < |lines| :: lines[j] == more[j];
      assert lines[i] == more[i];
    }
  }

  /**
   * A file overruns the buffer if and only if one of its keys does with its section. Any other is refused if
   * and only if the last of its lines that is neither blank nor a comment is an error.
   */
  lemma LoadFailsIff(lines: seq<Text>)
    requires forall i | 0 <= i < |lines| :: PlainLine(lines[i])
    ensures Load(TextOf(lines)) == Overrun <==> LongKey(START, lines)
    ensures Load(TextOf(lines)) == Refused <==> !LongKey(START, lines) && EndsInError(lines)
  {
    hide PlainLine, EndsInError, LoadFrom, LongKey;
    LinesLoaded(START, lines, []);
    ErrorsLeft(START, lines);
    assert TextOf(lines) + [] == TextOf(lines);
    AtEnd(ReadAll(START, lines));
  }

  lemma AtEnd(l: Loading)
    ensures LoadFrom(l, []) == if l.errs != 0 then Refused else Done(l.dict)
  {
  }

  /** A section and a pair in it: the key is stored behind the section and a colon. */
  lemma TwoLines(head: Text, pair: Text, name: Text, key: Text, value: Text)
    requires PlainLine(head) && PlainLine(pair) && |name| + 1 + |key| <= 4096
    requires ReadLine(RStrip(head), []) == Section(name) && ReadLine(RStrip(pair), name) == KeyValue(key, value)
    ensures Load(head + [10] + (pair + [10])) == Done(map[name := None][name + [0x3A] + key := Some(value)])
  {
    hide PlainLine, RStrip, ReadLine, LoadFrom;
    var l := Loading(name, [], map[name := None], 0);
    PlainLoaded(START, head, pair + [LF]);
    PlainLoaded(l, pair, []);
    assert pair + [LF] + [] == pair + [LF];
    AtEnd(Apply(l, KeyValue(key, value)));
  }

  // ---- Lines that do not fit, and lines that go on ----

  /** A line of 4095 characters or more, without its line feed, ends the reading. */
  lemma TooLongRefused(l: Loading, s: Text, rest: Text)
    requires LF !in s && |s| >= 4095 && l.line == []
    ensures LoadFrom(l, s + [LF] + rest) == Refused
  {
    LineCut(s, rest, ASCIILINESZ - 1);
    hide NextLine, LoadFrom;
    NoLine(l, s + [LF] + rest);
  }

  /** A backslash at the end of a line joins it to the next one. */
  lemma LinesJoined(l: Loading, x: Text, y: Text, rest: Text)
    requires l.line == [] && PlainLine(x + y) && |x + y| + 2 < 4096
    ensures LoadFrom(l, x + [0x5C, LF] + (y + [LF] + rest)) == LoadFrom(l, x + y + [LF] + rest)
  {
    assert forall c | c in x || c in y :: c in x + y;
    var l' := l.(line := x);
    LineEnds(x + [0x5C], y + [LF] + rest, ASCIILINESZ - 1);
    assert x + [0x5C] + [LF] == x + [0x5C, LF];
    LineEnds(y, rest, ASCIILINESZ - 1 - |x|);
    LineEnds(x + y, rest, ASCIILINESZ - 1);
    BackslashKept(l, x);
    hide NextLine, LoadLine, LoadFrom;
    NextLoaded(l, x + [0x5C, LF], y + [LF] + rest);
    NextLoaded(l', y + [LF], rest);
    NextLoaded(l, x + y + [LF], rest);
    SameLine(l, x, y);
  }

  lemma BackslashKept(l: Loading, x: Text)
    requires l.line == []
    ensures LoadLine(l, x + [0x5C, LF]) == Done(l.(line := x))
  {
    var t := x + [0x5C, LF];
    assert [] + t == t;
    assert t[..|x| + 1] == x + [0x5C] && (x + [0x5C])[..|x|] == x;
    assert RStrip(t) == RStrip(t[..|x| + 1]);
    hide ReadLine;
  }

  lemma SameLine(l: Loading, x: Text, y: Text)
    requires l.line == [] && PlainLine(x + y)
    ensures LoadLine(l.(line := x), y + [LF]) == LoadLine(l, x + y + [LF])
  {
    hide RStrip, ReadLine, PlainLine;
    Joins(x, y);
  }

  lemma Joins(x: Text, y: Text)
    ensures x + (y + [LF]) == x + y + [LF] == [] + (x + y + [LF])
  {
  }

  /** "x", which is no ini line at all, and "[a]" behind it. */
  const BAD_LINE: Text := [0x78]
  const GOOD_LINE: Text := [0x5B, 0x61, 0x5D]

  lemma ErrorForgotten()
    ensures Load(TextOf([BAD_LINE])) == Refused
    ensures Load(TextOf([BAD_LINE, GOOD_LINE])) == Done(map[[0x61] := None])
  {
    BadLine();
    GoodLine();
    hide ReadLine, RStrip, PlainLine, LoadFrom, TextOf, BAD_LINE, GOOD_LINE;
    var one, two := [BAD_LINE], [BAD_LINE, GOOD_LINE];
    assert one[..0] == [] && two[..1] == one;
    LinesLoaded(START, one, []);
    LinesLoaded(START, two, []);
    assert TextOf(one) + [] == TextOf(one) && TextOf(two) + [] == TextOf(two);
    AtEnd(ReadAll(START, one));
    AtEnd(ReadAll(START, two));
  }

  lemma BadLine()
    ensures PlainLine(BAD_LINE) && RStrip(BAD_LINE) == BAD_LINE && ReadLine(BAD_LINE, []) == SyntaxError
  {
    StripTrimmed(BAD_LINE);
    assert BAD_LINE[1..] == [];
    assert TakeNot(BAD_LINE, {EQUALS}).1 == [];
  }

  lemma GoodLine()
    ensures PlainLine(GOOD_LINE) && RStrip(GOOD_LINE) == GOOD_LINE && ReadLine(GOOD_LINE, []) == Section([0x61])
  {
    StripTrimmed(GOOD_LINE);
    SectionIsRead([0x61], []);
    assert [LBRACKET] + [0x61] + [RBRACKET] == GOOD_LINE;
  }
}
