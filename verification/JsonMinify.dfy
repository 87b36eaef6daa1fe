/** cJSON_Minify: squeezing blanks and comments out of a text, in place. */
module JsonMinify {
  import opened Bytes
  import opened JsonString
  import opened Json

  const SLASH: byte := 0x2F
  const STAR: byte := 0x2A
  const RETURN: byte := 0x0D

  predicate IsGap(c: byte) {
    c == SPACE || c == TAB || c == RETURN || c == NEWLINE
  }

  /** The text from the next line end on. */
  function AfterLine(s: Text): (r: Text)
    ensures |r| <= |s|
  {
    if s == [] || s[0] == NEWLINE then s else AfterLine(s[1..])
  }

  /** The text behind the next end-of-comment mark, if there is one. */
  function AfterBlock(s: Text): (r: Option<Text>)
    ensures r.Some? ==> |r.value| < |s|
  {
    if |s| < 2 then None
    else if s[0] == STAR && s[1] == SLASH then Some(s[2..])
    else AfterBlock(s[1..])
  }

  /** The rest of a string literal up to and including its closing quote, if there is one. */
  function StringEnd(s: Text): (r: Option<nat>)
    ensures r.Some? ==> 0 < r.value <= |s|
    decreases |s|
  {
    if s == [] then None
    else if s[0] == QUOTE then Some(1)
    else
      var k := if s[0] == BACKSLASH then 2 else 1;
      if |s| < k then None
      else
        var r := StringEnd(s[k..]);
        if r.Some? then Some(k + r.value) else None
  }

  function Prepend(t: Text, r: Option<Text>): Option<Text> {
    if r.Some? then Some(t + r.value) else None
  }

  /** What is left of s; None if a string or a comment in it has no end. */
  function Minify(s: Text): Option<Text>
    decreases |s|
  {
    if s == [] then Some([])
    else if IsGap(s[0]) then Minify(s[1..])
    else if s[0] == SLASH && Ch(s, 1) == SLASH then Minify(AfterLine(s[1..]))
    else if s[0] == SLASH && Ch(s, 1) == STAR then
      var r := AfterBlock(s);
      if r.Some? then Minify(r.value) else None
    else if s[0] == QUOTE then
      var r := StringEnd(s[1..]);
      if r.Some? then Prepend(s[..1 + r.value], Minify(s[1 + r.value..])) else None
    else Prepend(s[..1], Minify(s[1..]))
  }

  // ---- Minifying formatted output ----

  lemma PrependNothing(r: Option<Text>)
    ensures Prepend([], r) == r
  {
    if r.Some? {
      assert [] + r.value == r.value;
    }
  }

  lemma PrependTwice(a: Text, b: Text, r: Option<Text>)
    ensures Prepend(a, Prepend(b, r)) == Prepend(a + b, r)
  {
    if r.Some? {
      assert a + (b + r.value) == (a + b) + r.value;
    }
  }

  lemma {:induction false} GapsVanish(w: Text, s: Text)
    requires forall i | 0 <= i < |w| :: IsGap(w[i])
    ensures Minify(w + s) == Minify(s)
    decreases |w|
  {
    if w == [] {
      assert w + s == s;
    } else {
      assert (w + s)[1..] == w[1..] + s;
      GapsVanish(w[1..], s);
    }
  }

  predicate Plain(t: Text) {
    forall i | 0 <= i < |t| :: !IsGap(t[i]) && t[i] != SLASH && t[i] != QUOTE
  }

  lemma {:induction false} PlainStays(t: Text, s: Text)
    requires Plain(t)
    ensures Minify(t + s) == Prepend(t, Minify(s))
    decreases |t|
  {
    if t == [] {
      assert t + s == s;
      PrependNothing(Minify(s));
    } else {
      assert (t + s)[1..] == t[1..] + s;
      PlainStays(t[1..], s);
      PrependTwice(t[..1], t[1..], Minify(s));
      assert t == t[..1] + t[1..];
      assert (t + s)[..1] == t[..1];
    }
  }

  function Plus(k: nat, r: Option<nat>): Option<nat> {
    if r.Some? then Some(k + r.value) else None
  }

  lemma EndPastPlain(c: byte, s: Text)
    requires c != QUOTE && c != BACKSLASH
    ensures StringEnd([c] + s) == Plus(1, StringEnd(s))
  {
    assert ([c] + s)[1..] == s;
  }

  lemma EndPastEscape(c: byte, s: Text)
    ensures StringEnd([BACKSLASH, c] + s) == Plus(2, StringEnd(s))
  {
    assert ([BACKSLASH, c] + s)[2..] == s;
  }

  lemma EndPastHex(h1: byte, h2: byte, s: Text)
    requires h1 != QUOTE && h1 != BACKSLASH && h2 != QUOTE && h2 != BACKSLASH
    ensures StringEnd([BACKSLASH, LOWER_U, 0x30, 0x30, h1, h2] + s) == Plus(6, StringEnd(s))
  {
    hide StringEnd;
    EndPastPlain(h2, s);
    EndPastPlain(h1, [h2] + s);
    EndPastPlain(0x30, [h1] + ([h2] + s));
    EndPastPlain(0x30, [0x30] + ([h1] + ([h2] + s)));
    EndPastEscape(LOWER_U, [0x30] + ([0x30] + ([h1] + ([h2] + s))));
    assert [BACKSLASH, LOWER_U, 0x30, 0x30, h1, h2] + s
        == [BACKSLASH, LOWER_U] + ([0x30] + ([0x30] + ([h1] + ([h2] + s))));
  }

  lemma EscapedCharEnd(c: byte, s: Text)
    requires c != 0
    ensures StringEnd(EscapeChar(c) + s) == Plus(|EscapeChar(c)|, StringEnd(s))
  {
    hide StringEnd;
    if c > 31 && c != QUOTE && c != BACKSLASH {
      EndPastPlain(c, s);
    } else if |EscapeCode(c)| == 1 {
      EndPastEscape(EscapeCode(c)[0], s);
      assert EscapeChar(c) == [BACKSLASH, EscapeCode(c)[0]];
    } else {
      var h1, h2 := LowerHex((c / 16) % 16), LowerHex(c % 16);
      assert EscapeChar(c) == [BACKSLASH, LOWER_U, 0x30, 0x30, h1, h2];
      EndPastHex(h1, h2, s);
    }
  }

  lemma {:induction false} EscapedEnd(s: CStr, rest: Text)
    ensures StringEnd(Escape(s) + ([QUOTE] + rest)) == Some(|Escape(s)| + 1)
    decreases |s|
  {
    hide EscapeChar;
    var q := [QUOTE] + rest;
    if s == [] {
      assert Escape(s) + q == q;
    } else {
      hide StringEnd;
      EscapedCharEnd(s[0], Escape(s[1..]) + q);
      assert Escape(s) + q == EscapeChar(s[0]) + (Escape(s[1..]) + q);
      EscapedEnd(s[1..], rest);
    }
  }

  lemma StringStays(s: CStr, rest: Text)
    ensures Minify(PrintString(s) + rest) == Prepend(PrintString(s), Minify(rest))
  {
    EscapedEnd(s, rest);
    hide Escape, StringEnd;
    var t := PrintString(s) + rest;
    assert t[1..] == Escape(s) + ([QUOTE] + rest);
    assert t[..|Escape(s)| + 2] == PrintString(s) && t[|Escape(s)| + 2..] == rest;
  }

  lemma {:induction false} DigitsPlain(n: nat)
    ensures Plain(Digits(n))
  {
  }

  /** A formatted value minifies to the unformatted one, whatever follows it. */
  lemma {:induction false} ValueMinified(v: Value, depth: nat, rest: Text)
    ensures Minify(Print(v, depth, true) + rest) == Prepend(Print(v, depth, false), Minify(rest))
    decreases v, 1
  {
    hide Minify, PrintItems, PrintMembers, PrintString, Digits, Prepend;
    match v
    case Null => PlainStays(NULL_TEXT, rest);
    case False => PlainStays(FALSE_TEXT, rest);
    case True => PlainStays(TRUE_TEXT, rest);
    case Number(n) =>
      DigitsPlain(Magnitude(n));
      PlainStays(PrintNumber(n), rest);
    case Str(s) => StringStays(s, rest);
    case Arr(items) =>
      if items.ItemsEnd? {
        PlainStays([LBRACKET, RBRACKET], rest);
      } else {
        var a, b := PrintItems(items, depth + 1, true), PrintItems(items, depth + 1, false);
        assert Print(v, depth, true) + rest == [LBRACKET] + (a + ([RBRACKET] + rest));
        PlainStays([LBRACKET], a + ([RBRACKET] + rest));
        ItemsMinified(items, depth + 1, [RBRACKET] + rest);
        PlainStays([RBRACKET], rest);
        PrependTwice(b, [RBRACKET], Minify(rest));
        PrependTwice([LBRACKET], b + [RBRACKET], Minify(rest));
        assert Print(v, depth, false) == [LBRACKET] + (b + [RBRACKET]);
      }
    case Obj(members) =>
      ObjMinified(members, depth, rest);
  }

  lemma {:induction false} ItemsMinified(items: Items, depth: nat, rest: Text)
    requires items.Item?
    ensures Minify(PrintItems(items, depth, true) + rest) == Prepend(PrintItems(items, depth, false), Minify(rest))
    decreases items, 0
  {
    hide Minify, Print, Prepend;
    var a, b := Print(items.head, depth, true), Print(items.head, depth, false);
    if items.next.ItemsEnd? {
      ValueMinified(items.head, depth, rest);
      assert a + [] == a && b + [] == b;
    } else {
      var c, d := PrintItems(items.next, depth, true), PrintItems(items.next, depth, false);
      ItemsTexts(items, depth, rest);
      hide PrintItems;
      ValueMinified(items.head, depth, [COMMA] + ([SPACE] + (c + rest)));
      PlainStays([COMMA], [SPACE] + (c + rest));
      GapsVanish([SPACE], c + rest);
      ItemsMinified(items.next, depth, rest);
      PrependTwice([COMMA], d, Minify(rest));
      PrependTwice(b, [COMMA] + d, Minify(rest));
    }
  }

  lemma ItemsTexts(items: Items, depth: nat, rest: Text)
    requires items.Item? && items.next.Item?
    ensures PrintItems(items, depth, true) + rest
         == Print(items.head, depth, true) + ([COMMA] + ([SPACE] + (PrintItems(items.next, depth, true) + rest)))
    ensures PrintItems(items, depth, false)
         == Print(items.head, depth, false) + ([COMMA] + PrintItems(items.next, depth, false))
  {
    hide Print, PrintItems;
    ItemsUnfold(items, depth, true);
    ItemsUnfold(items, depth, false);
    Spaced(Print(items.head, depth, true), PrintItems(items.next, depth, true), rest);
    assert [COMMA] + [] == [COMMA];
  }

  lemma Spaced(p: Text, pi: Text, rest: Text)
    ensures p + ([COMMA] + [SPACE] + pi) + rest == p + ([COMMA] + ([SPACE] + (pi + rest)))
  {
  }

  lemma {:induction false} ObjMinified(members: Members, depth: nat, rest: Text)
    ensures Minify(Print(Obj(members), depth, true) + rest) == Prepend(Print(Obj(members), depth, false), Minify(rest))
    decreases members, 1
  {
    hide Minify, PrintMembers, Prepend;
    if members.MembersEnd? {
      var w := [NEWLINE] + Tabs(if depth == 0 then 0 else depth - 1);
      assert Print(Obj(members), depth, true) + rest == [LBRACE] + (w + ([RBRACE] + rest));
      PlainStays([LBRACE], w + ([RBRACE] + rest));
      GapsVanish(w, [RBRACE] + rest);
      PlainStays([RBRACE], rest);
      PrependTwice([LBRACE], [RBRACE], Minify(rest));
      assert Print(Obj(members), depth, false) == [LBRACE] + [RBRACE];
    } else {
      var a, b := PrintMembers(members, depth + 1, true), PrintMembers(members, depth + 1, false);
      assert Print(Obj(members), depth, true) + rest
          == [LBRACE] + ([NEWLINE] + (a + (Tabs(depth) + ([RBRACE] + rest))));
      PlainStays([LBRACE], [NEWLINE] + (a + (Tabs(depth) + ([RBRACE] + rest))));
      GapsVanish([NEWLINE], a + (Tabs(depth) + ([RBRACE] + rest)));
      MembersMinified(members, depth + 1, Tabs(depth) + ([RBRACE] + rest));
      GapsVanish(Tabs(depth), [RBRACE] + rest);
      PlainStays([RBRACE], rest);
      PrependTwice(b, [RBRACE], Minify(rest));
      PrependTwice([LBRACE], b + [RBRACE], Minify(rest));
      assert Print(Obj(members), depth, false) == [LBRACE] + (b + [RBRACE]);
    }
  }

  lemma {:induction false} MembersMinified(members: Members, depth: nat, rest: Text)
    requires members.Member?
    ensures Minify(PrintMembers(members, depth, true) + rest)
      == Prepend(PrintMembers(members, depth, false), Minify(rest))
    decreases members, 0
  {
    hide Minify, Print, PrintString, Prepend, PrintMembers;
    var n := PrintString(members.name);
    var a, b := Print(members.value, depth, true), Print(members.value, depth, false);
    var m := When(!members.rest.MembersEnd?, [COMMA]);
    var c, d := PrintMembers(members.rest, depth, true), PrintMembers(members.rest, depth, false);
    var t4 := m + ([NEWLINE] + (c + rest));
    MembersTexts(members, depth, rest);
    GapsVanish(Tabs(depth), n + ([COLON] + ([TAB] + (a + t4))));
    StringStays(members.name, [COLON] + ([TAB] + (a + t4)));
    PlainStays([COLON], [TAB] + (a + t4));
    GapsVanish([TAB], a + t4);
    ValueMinified(members.value, depth, t4);
    PlainStays(m, [NEWLINE] + (c + rest));
    GapsVanish([NEWLINE], c + rest);
    if members.rest.MembersEnd? {
      NoMembersText(depth);
      assert c + rest == rest;
      PrependNothing(Minify(rest));
    } else {
      MembersMinified(members.rest, depth, rest);
    }
    PrependTwice(m, d, Minify(rest));
    PrependTwice(b, m + d, Minify(rest));
    PrependTwice([COLON], b + (m + d), Minify(rest));
    PrependTwice(n, [COLON] + (b + (m + d)), Minify(rest));
  }

  lemma NoMembersText(depth: nat)
    ensures PrintMembers(MembersEnd, depth, true) == [] && PrintMembers(MembersEnd, depth, false) == []
  {
  }

  lemma MembersTexts(members: Members, depth: nat, rest: Text)
    requires members.Member?
    ensures var n, m := PrintString(members.name), When(!members.rest.MembersEnd?, [COMMA]);
      && PrintMembers(members, depth, true) + rest
         == Tabs(depth) + (n + ([COLON] + ([TAB] + (Print(members.value, depth, true)
            + (m + ([NEWLINE] + (PrintMembers(members.rest, depth, true) + rest)))))))
      && PrintMembers(members, depth, false)
         == n + ([COLON] + (Print(members.value, depth, false) + (m + PrintMembers(members.rest, depth, false))))
  {
    hide Print, PrintString, Tabs;
    Formatted(Tabs(depth), PrintString(members.name), Print(members.value, depth, true),
              When(!members.rest.MembersEnd?, [COMMA]), PrintMembers(members.rest, depth, true), rest);
    Unformatted(PrintString(members.name), Print(members.value, depth, false),
                When(!members.rest.MembersEnd?, [COMMA]), PrintMembers(members.rest, depth, false));
  }

  lemma Formatted(t: Text, n: Text, p: Text, m: Text, pm: Text, rest: Text)
    ensures (t + n + [COLON] + [TAB] + p + m + [NEWLINE] + pm) + rest
         == t + (n + ([COLON] + ([TAB] + (p + (m + ([NEWLINE] + (pm + rest)))))))
  {
  }

  lemma Unformatted(n: Text, p: Text, m: Text, pm: Text)
    ensures [] + n + [COLON] + [] + p + m + [] + pm == n + ([COLON] + (p + (m + pm)))
  {
  }

  /** cJSON_Minify of the formatted text is the unformatted text. */
  lemma MinifyFormatted(v: Value)
    ensures Minify(Print(v, 0, true)) == Some(Print(v, 0, false))
  {
    hide Print;
    ValueMinified(v, 0, []);
    assert Print(v, 0, true) + [] == Print(v, 0, true);
    assert Print(v, 0, false) + [] == Print(v, 0, false);
  }

  // ---- The in-place loop ----

  /** Behind position j the buffer still holds the text t, with its terminator. */
  ghost predicate Ahead(a: array<byte>, t: CStr, j: nat)
    reads a
  {
    |t| < a.Length && j <= |t| && a[j..|t|] == t[j..] && a[|t|] == 0
  }

  lemma AheadAt(a: array<byte>, t: CStr, j: nat)
    requires Ahead(a, t, j)
    ensures a[j] == Ch(t, j) && (j < |t| ==> a[j] == t[j] && a[j] != 0 && a[j + 1] == Ch(t, j + 1))
  {
    if j < |t| {
      assert a[j] == a[j..|t|][0] == t[j..][0];
      if j + 1 < |t| {
        assert a[j + 1] == a[j..|t|][1] == t[j..][1];
      }
    }
  }

  /** `*into++ = *json++` */
  method CopyChar(a: array<byte>, w: nat, j: nat, ghost t: CStr)
    requires Ahead(a, t, j) && j < |t| && w <= j
    modifies a
    ensures Ahead(a, t, j + 1)
    ensures a[..w + 1] == old(a[..w]) + [t[j]]
  {
    AheadAt(a, t, j);
    a[w] := a[j];
    assert a[j + 1..|t|] == old(a[j..|t|])[1..];
  }

  lemma StringEndStep(s: Text)
    requires StringEnd(s).Some? && s[0] != QUOTE
    ensures var k := if s[0] == BACKSLASH then 2 else 1;
      k <= |s| && StringEnd(s[k..]).Some? && StringEnd(s).value == k + StringEnd(s[k..]).value
  {
  }

  /** One turn of the loop over a string literal: a character, or a backslash and what it escapes. */
  method CopyUnit(a: array<byte>, w0: nat, j0: nat, ghost t: CStr) returns (w: nat, j: nat)
    requires Ahead(a, t, j0) && w0 <= j0 < |t| && StringEnd(t[j0..]).Some? && t[j0] != QUOTE
    modifies a
    ensures j == j0 + (if t[j0] == BACKSLASH then 2 else 1) && w - w0 == j - j0 && j <= |t|
    ensures Ahead(a, t, j)
    ensures a[..w] == old(a[..w0]) + t[j0..j]
  {
    hide StringEnd, Ahead;
    w, j := w0, j0;
    AheadBounds(a, t, j);
    AheadAt(a, t, j);
    StringEndStep(t[j..]);
    if a[j] == BACKSLASH {
      CopyChar(a, w, j, t);
      w, j := w + 1, j + 1;
    }
    CopyChar(a, w, j, t);
    w, j := w + 1, j + 1;
  }

  /** The loop over a string literal, behind its opening quote and up to its closing one. */
  method CopyBody(a: array<byte>, w0: nat, j0: nat, ghost t: CStr) returns (w: nat, j: nat)
    requires Ahead(a, t, j0) && w0 <= j0 <= |t| && StringEnd(t[j0..]).Some?
    modifies a
    ensures j == j0 + StringEnd(t[j0..]).value - 1 && w - w0 == j - j0 && j < |t| && t[j] == QUOTE
    ensures Ahead(a, t, j)
    ensures a[..w] == old(a[..w0]) + t[j0..j]
  {
    hide StringEnd, Ahead;
    w, j := w0, j0;
    AheadBounds(a, t, j);
    ghost var pre, end := a[..w0], j + StringEnd(t[j..]).value;
    assert pre + t[j0..j] == pre;
    AheadAt(a, t, j);
    QuoteOrMore(t[j..]);
    while a[j] != 0 && a[j] != QUOTE
      invariant j0 <= j < end <= |t| && w - w0 == j - j0
      invariant Ahead(a, t, j) && a[j] == t[j] && t[j] != 0 && StringEnd(t[j..]) == Some(end - j)
      invariant a[..w] == pre + t[j0..j]
      decreases |t| - j
    {
      StringEndStep(t[j..]);
      ghost var j1 := j;
      w, j := CopyUnit(a, w, j, t);
      assert t[j1..][j - j1..] == t[j..];
      QuoteOrMore(t[j..]);
      AheadAt(a, t, j);
      Joined(pre, t, j0, j1, j);
    }
    ClosingQuote(t[j..]);
  }

  lemma Joined(pre: Text, t: Text, j0: nat, j1: nat, j: nat)
    requires j0 <= j1 <= j <= |t|
    ensures (pre + t[j0..j1]) + t[j1..j] == pre + t[j0..j]
  {
  }

  /** The string branch of cJSON_Minify. */
  method CopyString(a: array<byte>, w0: nat, j0: nat, ghost t: CStr) returns (w: nat, j: nat)
    requires Ahead(a, t, j0) && w0 <= j0 < |t| && t[j0] == QUOTE && StringEnd(t[j0 + 1..]).Some?
    modifies a
    ensures j == j0 + 1 + StringEnd(t[j0 + 1..]).value && w - w0 == j - j0 && j <= |t|
    ensures Ahead(a, t, j)
    ensures a[..w] == old(a[..w0]) + t[j0..j]
  {
    hide StringEnd, Ahead;
    CopyChar(a, w0, j0, t);
    w, j := CopyBody(a, w0 + 1, j0 + 1, t);
    ghost var j1 := j;
    CopyChar(a, w, j, t);
    w, j := w + 1, j + 1;
    Quoted(old(a[..w0]), t, j0, j1);
  }

  lemma Quoted(pre: Text, t: Text, j0: nat, j1: nat)
    requires j0 < j1 < |t|
    ensures ((pre + [t[j0]]) + t[j0 + 1..j1]) + [t[j1]] == pre + t[j0..j1 + 1]
  {
  }

  lemma QuoteOrMore(s: Text)
    requires StringEnd(s).Some?
    ensures s != [] && StringEnd(s).value > 0
  {
  }

  lemma ClosingQuote(s: Text)
    requires s != [] && s[0] == QUOTE
    ensures StringEnd(s) == Some(1)
  {
  }

  method SkipLine(a: array<byte>, j0: nat, ghost t: CStr) returns (j: nat)
    requires Ahead(a, t, j0)
    ensures j0 <= j <= |t| && t[j..] == AfterLine(t[j0..])
  {
    j := j0;
    AheadAt(a, t, j);
    while a[j] != 0 && a[j] != NEWLINE
      invariant j0 <= j <= |t| && Ahead(a, t, j) && a[j] == Ch(t, j)
      invariant AfterLine(t[j0..]) == AfterLine(t[j..])
      decreases |t| - j
    {
      assert t[j..][1..] == t[j + 1..];
      assert a[j + 1..|t|] == a[j..|t|][1..];
      j := j + 1;
      AheadAt(a, t, j);
    }
  }

  method SkipBlock(a: array<byte>, j0: nat, ghost t: CStr) returns (j: nat)
    requires Ahead(a, t, j0) && AfterBlock(t[j0..]).Some?
    ensures j0 <= j <= |t| && Some(t[j..]) == AfterBlock(t[j0..])
  {
    j := j0;
    AheadAt(a, t, j);
    while a[j] != 0 && !(a[j] == STAR && a[j + 1] == SLASH)
      invariant j0 <= j < |t| && Ahead(a, t, j) && a[j] == t[j] && a[j + 1] == Ch(t, j + 1)
      invariant AfterBlock(t[j0..]) == AfterBlock(t[j..])
      decreases |t| - j
    {
      assert t[j..][1..] == t[j + 1..];
      assert a[j + 1..|t|] == a[j..|t|][1..];
      j := j + 1;
      AheadAt(a, t, j);
    }
    assert t[j..][2..] == t[j + 2..];
    j := j + 2;
  }

  /** cJSON_Minify: the text t at the front of the buffer is squeezed where it stands. */
  method MinifyInPlace(a: array<byte>, ghost t: CStr)
    requires Ahead(a, t, 0) && Minify(t).Some?
    modifies a
    ensures var r := Minify(t).value;
      |r| <= |t| && a[..|r|] == r && a[|r|] == 0
  {
    hide Ahead, StringEnd, AfterBlock, AfterLine, Prepend;
    var j, w := 0, 0;
    PrependNothing(Minify(t));
    assert t[0..] == t;
    AheadAt(a, t, 0);
    AheadBounds(a, t, 0);
    while a[j] != 0
      invariant 0 <= w <= j <= |t| < a.Length && Ahead(a, t, j) && a[j] == Ch(t, j)
      invariant Prepend(a[..w], Minify(t[j..])) == Minify(t)
      decreases |t| - j
    {
      AheadAt(a, t, j);
      PrependSome(a[..w], Minify(t[j..]));
      MinifyStep(t, j);
      if a[j] == SPACE || a[j] == TAB || a[j] == RETURN || a[j] == NEWLINE {
        AheadNext(a, t, j, j + 1);
        j := j + 1;
      } else if a[j] == SLASH && a[j + 1] == SLASH {
        AheadNext(a, t, j, j + 1);
        var j' := SkipLine(a, j + 1, t);
        AheadNext(a, t, j, j');
        j := j';
      } else if a[j] == SLASH && a[j + 1] == STAR {
        var j' := SkipBlock(a, j, t);
        BlockAdvances(t, j);
        AheadNext(a, t, j, j');
        j := j';
      } else if a[j] == QUOTE {
        ghost var pre, j0 := a[..w], j;
        w, j := CopyString(a, w, j, t);
        PrependTwice(pre, t[j0..j], Minify(t[j..]));
      } else {
        ghost var pre, j0 := a[..w], j;
        CopyChar(a, w, j, t);
        w, j := w + 1, j + 1;
        PrependTwice(pre, [t[j0]], Minify(t[j..]));
      }
      AheadAt(a, t, j);
    }
    assert t[j..] == [];
    MinifyEmpty();
    PrependLast(a[..w]);
    a[w] := 0;
  }

  lemma AheadBounds(a: array<byte>, t: CStr, j: nat)
    requires Ahead(a, t, j)
    ensures j <= |t| < a.Length
  {
  }

  lemma AheadNext(a: array<byte>, t: CStr, j: nat, j': nat)
    requires Ahead(a, t, j) && j <= j' <= |t|
    ensures Ahead(a, t, j')
  {
    assert a[j'..|t|] == a[j..|t|][j' - j..];
    assert t[j'..] == t[j..][j' - j..];
  }

  lemma BlockAdvances(t: CStr, j: nat)
    requires j <= |t| && AfterBlock(t[j..]).Some?
    ensures |AfterBlock(t[j..]).value| < |t| - j
  {
  }

  lemma PrependSome(p: Text, r: Option<Text>)
    ensures Prepend(p, r).Some? <==> r.Some?
  {
  }

  lemma PrependLast(p: Text)
    ensures Prepend(p, Some([])) == Some(p)
  {
    assert p + [] == p;
  }

  lemma MinifyEmpty()
    ensures Minify([]) == Some([])
  {
  }

  /** One turn of the loop, by the first character at position j. */
  lemma MinifyStep(t: CStr, j: nat)
    requires j < |t| && Minify(t[j..]).Some?
    ensures IsGap(t[j]) ==> Minify(t[j..]) == Minify(t[j + 1..])
    ensures t[j] == SLASH && Ch(t, j + 1) == SLASH ==> Minify(t[j..]) == Minify(AfterLine(t[j + 1..]))
    ensures t[j] == SLASH && Ch(t, j + 1) == STAR ==>
      AfterBlock(t[j..]).Some? && Minify(t[j..]) == Minify(AfterBlock(t[j..]).value)
    ensures t[j] == QUOTE ==>
      && StringEnd(t[j + 1..]).Some?
      && var e := j + 1 + StringEnd(t[j + 1..]).value;
         e <= |t| && Minify(t[j..]) == Prepend(t[j..e], Minify(t[e..]))
    ensures !IsGap(t[j]) && t[j] != QUOTE && !(t[j] == SLASH && (Ch(t, j + 1) == SLASH || Ch(t, j + 1) == STAR)) ==>
      Minify(t[j..]) == Prepend([t[j]], Minify(t[j + 1..]))
  {
    var s := t[j..];
    assert s[1..] == t[j + 1..] && s[0] == t[j];
    assert Ch(s, 1) == Ch(t, j + 1);
    if t[j] == QUOTE {
      var e := 1 + StringEnd(s[1..]).value;
      assert s[..e] == t[j..j + e] && s[e..] == t[j + e..];
    } else {
      assert s[..1] == [t[j]];
    }
  }
}
