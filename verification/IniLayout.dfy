/** The lines that iniparser_line takes for pairs: blanks, quotes and comments where a file may have them. */
module IniLayout {
  import opened Bytes
  import opened IniLine

  /** Blanks, tabs and the like, but no line feed. */
  predicate Spaces(s: Text) {
    forall i | 0 <= i < |s| :: s[i] in {32, 9, 11, 12, 13}
  }

  /** The value as it is, in double or single quotes, two quotes with nothing in between, or nothing at all. */
  datatype Form = Plain(v: Text) | Quoted(q: byte, v: Text, behind: Text) | Quotes(q: byte) | Missing

  /** A plain value has no comment sign, does not start with a quote, and has no blank at either end. */
  predicate GoodForm(f: Form) {
    match f
    case Plain(v) =>
      v != [] && Trim(v) && 0x3B !in v && 0x23 !in v && v[0] != 0x22 && v[0] != 0x27
    case Quoted(q, v, _) =>
      q in {0x22, 0x27} && v != [] && q !in v && Trim(v) && v != [0x22, 0x22] && v != [0x27, 0x27]
    case Quotes(q) => q in {0x22, 0x27}
    case Missing => true
  }

  /** What stands behind a quoted value, whatever it is, is not read. */
  function FormText(f: Form): Text {
    match f
    case Plain(v) => v
    case Quoted(q, v, behind) => [q] + v + [q] + behind
    case Quotes(q) => [q, q]
    case Missing => []
  }

  function FormValue(f: Form): Text {
    if f.Missing? || f.Quotes? then [] else f.v
  }

  /** Nothing, or a semicolon or a number sign and any text. */
  predicate IsComment(c: Text) {
    c == [] || c[0] in {0x3B, 0x23}
  }

  // ---- Blanks around a line ----

  lemma {:induction false} LStripBlanks(blanks: Text, s: Text)
    requires (forall i | 0 <= i < |blanks| :: IsSpace(blanks[i])) && (s == [] || !IsSpace(s[0]))
    ensures LStrip(blanks + s) == s
    decreases |blanks|
  {
    if blanks == [] {
      assert blanks + s == s;
    } else {
      assert (blanks + s)[1..] == blanks[1..] + s;
      LStripBlanks(blanks[1..], s);
    }
  }

  lemma SpacesAround(a: Text, t: Text, b: Text, section: Text)
    requires Spaces(a) && Spaces(b) && t != [] && Trim(t)
    ensures ReadLine(a + t + b, section) == ReadLine(t, section)
  {
    StripTrimmed(t);
    LStripBlanks(a, t + b);
    assert a + t + b == a + (t + b);
    assert (t + b)[0] == t[0];
    RStripBlanks(t, b);
    hide ReadPair, TakeNot, LStrip, RStrip;
  }

  // ---- The pair ----

  /** Key, equals sign, value and comment, with blanks between them. */
  function PairText(k: Text, a: Text, b: Text, f: Form, c: Text, comment: Text): Text {
    k + a + [0x3D] + (b + FormText(f) + c + comment)
  }

  lemma KeyFound(k: Text, a: Text, rest: Text)
    requires AnyKey(k) && Spaces(a)
    ensures ScanKey(k + a + [0x3D] + rest) == Some((k + a, LStrip(rest)))
    ensures CleanKey(k + a) == Lowered(k)
  {
    var tail := [0x3D] + rest;
    assert forall x | x in k + a :: x != EQUALS;
    TakeAll(k + a, {EQUALS}, tail);
    assert k + a + tail == k + a + [0x3D] + rest;
    assert tail[1..] == rest;
    CleanPadded(k, a);
  }

  /** The value and what follows it, as they are found behind the equals sign. */
  lemma ValueFound(b: Text, f: Form, c: Text, comment: Text)
    requires Spaces(b) && Spaces(c) && GoodForm(f) && IsComment(comment)
    ensures LStrip(b + FormText(f) + c + comment) == if f.Missing? then comment else FormText(f) + c + comment
  {
    hide LStrip;
    if f.Missing? {
      LStripBlanks(b + c, comment);
      assert b + [] + c + comment == (b + c) + comment;
    } else {
      FormOpens(f);
      hide FormText, GoodForm;
      ValueBehind(b, FormText(f), c + comment);
      RegroupValue(b, FormText(f), c, comment);
    }
  }

  lemma FormOpens(f: Form)
    requires GoodForm(f) && !f.Missing?
    ensures FormText(f) != [] && !IsSpace(FormText(f)[0])
  {
  }

  lemma ValueBehind(b: Text, v: Text, rest: Text)
    requires Spaces(b) && v != [] && !IsSpace(v[0])
    ensures LStrip(b + (v + rest)) == v + rest
  {
    assert (v + rest)[0] == v[0];
    LStripBlanks(b, v + rest);
  }

  lemma RegroupValue(b: Text, v: Text, c: Text, comment: Text)
    ensures b + v + c + comment == b + (v + (c + comment)) && v + c + comment == v + (c + comment)
  {
  }

  lemma QuotedScanned(q: byte, v: Text, rest: Text)
    requires q in {0x22, 0x27} && v != [] && q !in v
    ensures ScanQuoted([q] + v + [q] + rest, q) == Some(v)
    ensures q == 0x27 ==> ScanQuoted([q] + v + [q] + rest, 0x22) == None
  {
    var s := [q] + v + [q] + rest;
    assert s[1..] == v + ([q] + rest);
    TakeAll(v, {q}, [q] + rest);
  }

  lemma PlainScanned(v: Text, c: Text, comment: Text)
    requires GoodForm(Plain(v)) && Spaces(c) && IsComment(comment)
    ensures ScanPlain(v + c + comment) == Some(v + c) && CleanValue(v + c) == v
    ensures ScanQuoted(v + c + comment, 0x22) == None && ScanQuoted(v + c + comment, 0x27) == None
  {
    assert forall x | x in v + c :: x !in {SEMICOLON, HASH};
    TakeAll(v + c, {SEMICOLON, HASH}, comment);
    assert (v + c + comment)[0] == v[0];
    assert LStrip(v + c) == v + c;
    RStripBlanks(v, c);
    hide TakeNot, LStrip, RStrip;
  }

  lemma QuotesScanned(q: byte, c: Text, comment: Text)
    requires q in {0x22, 0x27} && Spaces(c) && IsComment(comment)
    ensures var s := [q, q] + c + comment;
      && ScanPlain(s) == Some([q, q] + c) && CleanValue([q, q] + c) == []
      && ScanQuoted(s, 0x22) == None && ScanQuoted(s, 0x27) == None
  {
    var v: Text := [q, q];
    var s := v + c + comment;
    assert forall x | x in v + c :: x !in {SEMICOLON, HASH};
    TakeAll(v + c, {SEMICOLON, HASH}, comment);
    TakeAll([], {q}, [q] + c + comment);
    assert [] + ([q] + c + comment) == s[1..] && s[0] == q;
    assert LStrip(v + c) == v + c;
    RStripBlanks(v, c);
    hide TakeNot, LStrip, RStrip;
  }

  lemma QuotedClean(q: byte, v: Text, behind: Text)
    requires GoodForm(Quoted(q, v, behind))
    ensures CleanValue(v) == v
  {
    StripTrimmed(v);
  }

  lemma CommentScanned(comment: Text)
    requires IsComment(comment)
    ensures ScanPlain(comment) == None && ScanQuoted(comment, 0x22) == None && ScanQuoted(comment, 0x27) == None
  {
    TakeAll([], {SEMICOLON, HASH}, comment);
    assert [] + comment == comment;
  }

  lemma PairTextRead(k: Text, a: Text, b: Text, f: Form, c: Text, comment: Text)
    requires AnyKey(k) && Spaces(a) && Spaces(b) && Spaces(c) && GoodForm(f) && IsComment(comment)
    ensures ReadPair(PairText(k, a, b, f, c, comment)) == KeyValue(Lowered(k), FormValue(f))
  {
    var line, rest := PairText(k, a, b, f, c, comment), b + FormText(f) + c + comment;
    KeyFound(k, a, rest);
    ValueFound(b, f, c, comment);
    FormScanned(f, c, comment);
    hide CleanKey, ScanKey, LStrip, Spaces, IsComment, AnyKey, Lowered, GoodForm, FormText, FormValue;
    PairFrom(line, k + a, if f.Missing? then comment else FormText(f) + c + comment, FormValue(f));
  }

  /** The value, in whichever of the tries of iniparser_line finds it. */
  ghost predicate Finds(s: Text, value: Text) {
    var d, q, p := ScanQuoted(s, DQUOTE), ScanQuoted(s, SQUOTE), ScanPlain(s);
    value == if d.Some? then CleanValue(d.value) else if q.Some? then CleanValue(q.value)
             else if p.Some? then CleanValue(p.value) else []
  }

  lemma PairFrom(line: Text, key: Text, s: Text, value: Text)
    requires ScanKey(line) == Some((key, s)) && Finds(s, value)
    ensures ReadPair(line) == KeyValue(CleanKey(key), value)
  {
    hide ScanKey, ScanQuoted, ScanPlain, CleanKey, CleanValue;
  }

  lemma FormScanned(f: Form, c: Text, comment: Text)
    requires GoodForm(f) && Spaces(c) && IsComment(comment)
    ensures Finds(if f.Missing? then comment else FormText(f) + c + comment, FormValue(f))
  {
    match f
    case Plain(v) =>
      PlainScanned(v, c, comment);
      hide ScanPlain, ScanQuoted, CleanValue;
    case Quoted(q, v, behind) =>
      QuotedScanned(q, v, behind + c + comment);
      QuotedClean(q, v, behind);
      hide ScanPlain, ScanQuoted, CleanValue;
      assert FormText(f) + c + comment == [q] + v + [q] + (behind + c + comment);
    case Quotes(q) =>
      QuotesScanned(q, c, comment);
      hide ScanPlain, ScanQuoted, CleanValue;
    case Missing =>
      CommentScanned(comment);
      hide ScanPlain, ScanQuoted, CleanValue;
  }

  /**
   * A line with a key in any case, a value in any form, a comment, and blanks between and around them, is
   * read as the key in lower case and the value.
   */
  lemma LayoutIsRead(indent: Text, k: Text, a: Text, b: Text, f: Form, c: Text, comment: Text, end: Text, section: Text)
    requires AnyKey(k) && Spaces(indent) && Spaces(a) && Spaces(b) && Spaces(c) && Spaces(end)
    requires GoodForm(f) && IsComment(comment) && Trim(PairText(k, a, b, f, c, comment))
    ensures ReadLine(indent + PairText(k, a, b, f, c, comment) + end, section) == KeyValue(Lowered(k), FormValue(f))
  {
    var t := PairText(k, a, b, f, c, comment);
    assert t[0] == k[0];
    SpacesAround(indent, t, end, section);
    StripTrimmed(t);
    PairTextRead(k, a, b, f, c, comment);
    hide ReadPair, StrStrip, Lowered, FormText;
  }

  /** A section in any case, with blanks inside and around the brackets. */
  lemma SectionLayoutIsRead(indent: Text, a: Text, s: Text, b: Text, end: Text, section: Text)
    requires AnySection(s) && Spaces(indent) && Spaces(a) && Spaces(b) && Spaces(end)
    ensures ReadLine(indent + ([0x5B] + (a + s + b) + [0x5D]) + end, section) == Section(Lowered(s))
  {
    SectionFound(a, s, b);
    hide ReadLine, TakeNot, CleanKey, Lowered, AnySection;
    BracketRead(a + s + b, section);
    SpacesAround(indent, [0x5B] + (a + s + b) + [0x5D], end, section);
  }

  lemma BracketRead(name: Text, section: Text)
    requires name != [] && TakeNot(name + [0x5D], {RBRACKET}).0 == name
    ensures Trim([0x5B] + name + [0x5D])
    ensures ReadLine([0x5B] + name + [0x5D], section) == Section(CleanKey(name))
  {
    var t := [0x5B] + name + [0x5D];
    StripTrimmed(t);
    hide StrStrip, TakeNot, CleanKey;
    assert t[1..] == name + [0x5D];
  }

  lemma SectionFound(a: Text, s: Text, b: Text)
    requires AnySection(s) && Spaces(a) && Spaces(b)
    ensures TakeNot(a + s + b + [0x5D], {RBRACKET}).0 == a + s + b && a + s + b != []
    ensures CleanKey(a + s + b) == Lowered(s)
  {
    assert forall x | x in a + s + b :: x != RBRACKET;
    TakeAll(a + s + b, {RBRACKET}, [0x5D]);
    assert a + s + b == a + (s + b) && (s + b)[0] == s[0];
    LStripBlanks(a, s + b);
    RStripBlanks(s, b);
    StrLwcLowers(s);
    hide TakeNot, LStrip, RStrip;
  }

  /** A quote that is not closed: everything behind it is the value. */
  lemma OpenQuoteIsRead(k: Text, a: Text, b: Text, q: byte, v: Text, section: Text)
    requires AnyKey(k) && Spaces(a) && Spaces(b) && GoodForm(Quoted(q, v, []))
    ensures ReadLine(k + a + [0x3D] + (b + ([q] + v)), section) == KeyValue(Lowered(k), v)
  {
    var rest := b + ([q] + v);
    var line := k + a + [0x3D] + rest;
    KeyFound(k, a, rest);
    LStripBlanks(b, [q] + v);
    OpenScanned(q, v);
    QuotedClean(q, v, []);
    assert line[0] == k[0] && line[|line| - 1] == v[|v| - 1];
    StripTrimmed(line);
    hide CleanKey, ScanKey, ScanQuoted, ScanPlain, CleanValue, LStrip, StrStrip, Lowered, AnyKey, Spaces;
    PairFrom(line, k + a, [q] + v, v);
    AnyKeyOpens(k);
    hide ReadPair;
  }

  lemma AnyKeyOpens(k: Text)
    requires AnyKey(k)
    ensures k != [] && k[0] != HASH && k[0] != LBRACKET
  {
  }

  lemma OpenScanned(q: byte, v: Text)
    requires q in {0x22, 0x27} && v != [] && q !in v
    ensures ScanQuoted([q] + v, q) == Some(v) && (q == 0x27 ==> ScanQuoted([q] + v, 0x22) == None)
  {
    var s := [q] + v;
    assert s[1..] == v && v + [] == v;
    TakeAll(v, {q}, []);
  }

  /** Empty brackets stand for the section that was read last. */
  lemma EmptyBracketsAreRead(section: Text)
    requires AnySection(section)
    ensures ReadLine([0x5B, 0x5D], section) == Section(Lowered(section))
  {
    var t: Text := [0x5B, 0x5D];
    StripTrimmed(t);
    StripTrimmed(section);
    StrLwcLowers(section);
    TakeAll([], {RBRACKET}, [0x5D]);
    assert t[1..] == [0x5D] && [] + [0x5D] == [0x5D];
    hide TakeNot, StrStrip, StrLwc, Lowered;
  }

  /** Blank lines and comments put nothing into the dictionary. */
  lemma NothingIsRead(indent: Text, comment: Text, section: Text)
    requires Spaces(indent) && (comment == [] || comment[0] == 0x23)
    ensures ReadLine(indent + comment, section) == if comment == [] then Empty else Comment
  {
    hide ReadPair;
    LStripBlanks(indent, comment);
    if comment != [] {
      StaysInFront(comment);
    }
  }

  /** A line that is neither blank nor a comment nor a section, and has no equals sign behind a key, is an error. */
  lemma NoPairIsError(indent: Text, t: Text, end: Text, section: Text)
    requires Spaces(indent) && Spaces(end) && t != [] && Trim(t) && t[0] != 0x23
    requires !(t[0] == 0x5B && t[|t| - 1] == 0x5D) && (0x3D !in t || t[0] == 0x3D)
    ensures ReadLine(indent + t + end, section) == SyntaxError
  {
    SpacesAround(indent, t, end, section);
    StripTrimmed(t);
    if t[0] == 0x3D {
      TakeAll([], {EQUALS}, t);
      assert [] + t == t;
    } else {
      TakeAll(t, {EQUALS}, []);
      assert t + [] == t;
    }
    hide TakeNot, StrStrip;
  }

  lemma {:induction false} StaysInFront(s: Text)
    requires s != [] && !IsSpace(s[0])
    ensures RStrip(s) != [] && RStrip(s)[0] == s[0]
    decreases |s|
  {
    if IsSpace(s[|s| - 1]) {
      StaysInFront(s[..|s| - 1]);
    }
  }
}
