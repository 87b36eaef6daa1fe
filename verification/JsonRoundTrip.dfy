/** Printing and parsing are inverse, formatted or not, at any depth. */
module JsonRoundTrip {
  import opened Bytes
  import opened JsonString
  import opened Json

  predicate Blank(w: Text) {
    forall i | 0 <= i < |w| :: 0 < w[i] <= 32
  }

  /** s starts with a character that is neither blank nor the end. */
  predicate Solid(s: Text) {
    s != [] && s[0] > 32
  }

  lemma {:induction false} SkipBlank(w: CStr, s: CStr)
    requires Blank(w)
    ensures Skip(w + s) == Skip(s)
    decreases |w|
  {
    if w == [] {
      assert w + s == s;
    } else {
      assert (w + s)[1..] == w[1..] + s;
      SkipBlank(w[1..], s);
    }
  }

  lemma SkipSolid(s: CStr)
    requires Solid(s)
    ensures Skip(s) == s
  {
  }

  /** The first character of a printed value tells its kind. */
  predicate Opens(v: Value, c: byte) {
    match v
    case Null => c == 0x6E
    case False => c == 0x66
    case True => c == 0x74
    case Number(_) => c == MINUS || IsDigit(c)
    case Str(_) => c == QUOTE
    case Arr(_) => c == LBRACKET
    case Obj(_) => c == LBRACE
  }

  lemma PrintOpens(v: Value, depth: nat, fmt: bool)
    ensures Print(v, depth, fmt) != [] && Opens(v, Print(v, depth, fmt)[0])
  {
    hide Digits, Escape, PrintItems, PrintMembers;
    if v.Arr? {
      var t := Print(v, depth, fmt);
      assert t[0] == LBRACKET;
    } else if v.Obj? {
      var t := Print(v, depth, fmt);
      assert t[0] == LBRACE;
    }
  }

  lemma ItemsSolid(items: Items, depth: nat, fmt: bool, rest: CStr)
    requires items.Item?
    ensures var s := PrintItems(items, depth, fmt) + rest; Solid(s) && s[0] != RBRACKET
  {
    PrintOpens(items.head, depth, fmt);
    var p := Print(items.head, depth, fmt);
    assert (PrintItems(items, depth, fmt) + rest)[0] == p[0];
  }

  // ---- One unfolding of the parser at a time ----

  lemma ParseLiteral(v: Value, rest: CStr)
    requires v.Null? || v.False? || v.True?
    ensures ParseValue(Print(v, 0, false) + rest) == Ok(v, rest)
  {
    var t := Print(v, 0, false);
    assert (t + rest)[|t|..] == rest;
    assert t <= t + rest;
    assert (t + rest)[0] == t[0];
  }

  lemma ParseStr(s: CStr, rest: CStr)
    ensures ParseValue(PrintString(s) + rest) == Ok(Str(s), rest)
  {
    hide Escape, ParseString;
    var t := PrintString(s) + rest;
    assert t[0] == QUOTE;
    StringRoundTrip(s, rest);
  }

  lemma ParseNum(n: i32, rest: CStr)
    requires Follows(rest)
    ensures ParseValue(PrintNumber(n) + rest) == Ok(Number(n), rest)
  {
    var t := PrintNumber(n) + rest;
    hide Digits, ParseNumber;
    PrintOpens(Number(n), 0, false);
    assert t[0] == PrintNumber(n)[0];
    NumberRoundTrip(n, rest);
  }

  lemma ParseArr(body: CStr)
    requires Solid(body) && body[0] != RBRACKET
    ensures ParseValue([LBRACKET] + body)
         == (var r := ParseItems(body); if r.Ok? then Ok(Arr(r.value), r.rest) else Fail)
  {
    var s := [LBRACKET] + body;
    assert s[0] == LBRACKET && s[1..] == body;
    SkipSolid(body);
  }

  lemma ParseEmptyArr(rest: CStr)
    ensures ParseValue([LBRACKET, RBRACKET] + rest) == Ok(Arr(ItemsEnd), rest)
  {
    var s := [LBRACKET, RBRACKET] + rest;
    assert s[0] == LBRACKET && s[1..] == [RBRACKET] + rest;
    SkipSolid([RBRACKET] + rest);
    assert ([RBRACKET] + rest)[1..] == rest;
  }

  lemma ParseObj(w: CStr, body: CStr)
    requires Blank(w) && Solid(body) && body[0] != RBRACE
    ensures ParseValue([LBRACE] + w + body)
         == (var r := ParseMembers(body); if r.Ok? then Ok(Obj(r.value), r.rest) else Fail)
  {
    var s := [LBRACE] + w + body;
    assert s[0] == LBRACE && s[1..] == w + body;
    SkipBlank(w, body);
    SkipSolid(body);
  }

  lemma ParseEmptyObj(w: CStr, rest: CStr)
    requires Blank(w)
    ensures ParseValue([LBRACE] + w + [RBRACE] + rest) == Ok(Obj(MembersEnd), rest)
  {
    var s := [LBRACE] + w + [RBRACE] + rest;
    assert s[0] == LBRACE && s[1..] == w + ([RBRACE] + rest);
    SkipBlank(w, [RBRACE] + rest);
    SkipSolid([RBRACE] + rest);
    assert ([RBRACE] + rest)[1..] == rest;
  }

  lemma ItemsThenMore(w: CStr, head: CStr, v: Value, more: CStr)
    requires Blank(w) && Solid(head) && ParseValue(head) == Ok(v, [COMMA] + more)
    ensures ParseItems(w + head) == (var r := ParseItems(more); if r.Ok? then Ok(Item(v, r.value), r.rest) else Fail)
  {
    hide ParseValue;
    SkipBlank(w, head);
    SkipSolid(head);
    SkipSolid([COMMA] + more);
    assert ([COMMA] + more)[1..] == more;
  }

  lemma ItemsThenEnd(w: CStr, head: CStr, v: Value, rest: CStr)
    requires Blank(w) && Solid(head) && ParseValue(head) == Ok(v, [RBRACKET] + rest)
    ensures ParseItems(w + head) == Ok(Item(v, ItemsEnd), rest)
  {
    hide ParseValue;
    SkipBlank(w, head);
    SkipSolid(head);
    SkipSolid([RBRACKET] + rest);
    assert ([RBRACKET] + rest)[1..] == rest;
  }

  lemma MembersThenMore(w: CStr, s: CStr, name: CStr, x: CStr, value: CStr, v: Value, tail: CStr, y: CStr, more: CStr)
    requires Blank(w) && Blank(x) && Blank(y) && Solid(s) && Solid(value)
    requires ParseString(s) == GotString(name, [COLON] + x + value)
    requires ParseValue(value) == Ok(v, tail) && tail == y + [COMMA] + more
    ensures ParseMembers(w + s) == (var r := ParseMembers(more);
                                    if r.Ok? then Ok(Member(name, v, r.value), r.rest) else Fail)
  {
    hide ParseValue, ParseString;
    SkipBlank(w, s);
    SkipSolid(s);
    SkipSolid([COLON] + x + value);
    assert ([COLON] + x + value)[1..] == x + value;
    SkipBlank(x, value);
    SkipSolid(value);
    assert tail == y + ([COMMA] + more);
    SkipBlank(y, [COMMA] + more);
    SkipSolid([COMMA] + more);
    assert ([COMMA] + more)[1..] == more;
  }

  lemma MembersThenEnd(w: CStr, s: CStr, name: CStr, x: CStr, value: CStr, v: Value, tail: CStr, y: CStr, rest: CStr)
    requires Blank(w) && Blank(x) && Blank(y) && Solid(s) && Solid(value)
    requires ParseString(s) == GotString(name, [COLON] + x + value)
    requires ParseValue(value) == Ok(v, tail) && tail == y + [RBRACE] + rest
    ensures ParseMembers(w + s) == Ok(Member(name, v, MembersEnd), rest)
  {
    hide ParseValue, ParseString;
    SkipBlank(w, s);
    SkipSolid(s);
    SkipSolid([COLON] + x + value);
    assert ([COLON] + x + value)[1..] == x + value;
    SkipBlank(x, value);
    SkipSolid(value);
    assert tail == y + ([RBRACE] + rest);
    SkipBlank(y, [RBRACE] + rest);
    SkipSolid([RBRACE] + rest);
    assert ([RBRACE] + rest)[1..] == rest;
  }

  // ---- The induction ----

  lemma {:induction false} ValueRoundTrip(v: Value, depth: nat, fmt: bool, rest: CStr)
    requires Follows(rest)
    ensures ParseValue(Print(v, depth, fmt) + rest) == Ok(v, rest)
    decreases v, 1
  {
    hide ParseValue, ParseItems, ParseMembers, ParseString, PrintItems, PrintMembers, PrintNumber, PrintString;
    match v
    case Null => ParseLiteral(v, rest);
    case False => ParseLiteral(v, rest);
    case True => ParseLiteral(v, rest);
    case Number(n) => ParseNum(n, rest);
    case Str(s) => ParseStr(s, rest);
    case Arr(items) =>
      if items.ItemsEnd? {
        ParseEmptyArr(rest);
      } else {
        ItemsRoundTrip(items, depth + 1, fmt, [], rest);
        ArrOfItems(items, depth, fmt, rest);
      }
    case Obj(members) =>
      if members.MembersEnd? {
        EmptyObjRoundTrip(depth, fmt, rest);
      } else {
        ObjRoundTrip(members, depth, fmt, rest);
      }
  }

  lemma ArrOfItems(items: Items, depth: nat, fmt: bool, rest: CStr)
    requires items.Item?
    requires ParseItems([] + (PrintItems(items, depth + 1, fmt) + ([RBRACKET] + rest))) == Ok(items, rest)
    ensures ParseValue(Print(Arr(items), depth, fmt) + rest) == Ok(Arr(items), rest)
  {
    hide ParseValue, ParseItems, PrintItems;
    ItemsSolid(items, depth + 1, fmt, [RBRACKET] + rest);
    var body := PrintItems(items, depth + 1, fmt) + ([RBRACKET] + rest);
    assert [] + body == body;
    ParseArr(body);
    assert Print(Arr(items), depth, fmt) + rest == [LBRACKET] + body;
  }

  lemma EmptyObjRoundTrip(depth: nat, fmt: bool, rest: CStr)
    ensures ParseValue(Print(Obj(MembersEnd), depth, fmt) + rest) == Ok(Obj(MembersEnd), rest)
  {
    hide ParseValue;
    var w := When(fmt, [NEWLINE] + Tabs(if depth == 0 then 0 else depth - 1));
    ParseEmptyObj(w, rest);
    assert Print(Obj(MembersEnd), depth, fmt) + rest == [LBRACE] + w + [RBRACE] + rest;
  }

  lemma ItemsSplit(items: Items, depth: nat, fmt: bool, rest: CStr)
    requires items.Item? && items.next.Item?
    ensures PrintItems(items, depth, fmt) + ([RBRACKET] + rest)
         == Print(items.head, depth, fmt)
            + ([COMMA] + (When(fmt, [SPACE]) + (PrintItems(items.next, depth, fmt) + ([RBRACKET] + rest))))
  {
    hide Print, PrintItems, When;
    ItemsUnfold(items, depth, fmt);
  }

  lemma LastItem(items: Items, depth: nat, fmt: bool, w: CStr, rest: CStr)
    requires items.Item? && items.next.ItemsEnd? && Blank(w)
    requires ParseValue(Print(items.head, depth, fmt) + ([RBRACKET] + rest)) == Ok(items.head, [RBRACKET] + rest)
    ensures ParseItems(w + (PrintItems(items, depth, fmt) + ([RBRACKET] + rest))) == Ok(items, rest)
  {
    hide ParseValue, ParseItems, Print, Blank;
    var p, tail := Print(items.head, depth, fmt), [RBRACKET] + rest;
    PrintOpens(items.head, depth, fmt);
    assert PrintItems(items, depth, fmt) == p + [];
    assert PrintItems(items, depth, fmt) + tail == p + tail;
    assert (p + tail)[0] == p[0];
    ItemsThenEnd(w, p + tail, items.head, rest);
  }

  lemma MoreItems(items: Items, depth: nat, fmt: bool, w: CStr, more: CStr, rest: CStr)
    requires items.Item? && items.next.Item? && Blank(w)
    requires more == When(fmt, [SPACE]) + (PrintItems(items.next, depth, fmt) + ([RBRACKET] + rest))
    requires ParseValue(Print(items.head, depth, fmt) + ([COMMA] + more)) == Ok(items.head, [COMMA] + more)
    requires ParseItems(more) == Ok(items.next, rest)
    ensures ParseItems(w + (PrintItems(items, depth, fmt) + ([RBRACKET] + rest))) == Ok(items, rest)
  {
    ItemsSplit(items, depth, fmt, rest);
    hide ParseValue, ParseItems, Print, PrintItems, When, Blank;
    var p, tail := Print(items.head, depth, fmt), [COMMA] + more;
    PrintOpens(items.head, depth, fmt);
    assert (p + tail)[0] == p[0];
    ItemsThenMore(w, p + tail, items.head, more);
  }

  lemma {:induction false} ItemsRoundTrip(items: Items, depth: nat, fmt: bool, w: CStr, rest: CStr)
    requires items.Item? && Blank(w)
    ensures ParseItems(w + (PrintItems(items, depth, fmt) + ([RBRACKET] + rest))) == Ok(items, rest)
    decreases items, 0
  {
    hide ParseValue, ParseItems, Print, PrintItems;
    if items.next.ItemsEnd? {
      ValueRoundTrip(items.head, depth, fmt, [RBRACKET] + rest);
      LastItem(items, depth, fmt, w, rest);
    } else {
      var more := When(fmt, [SPACE]) + (PrintItems(items.next, depth, fmt) + ([RBRACKET] + rest));
      ValueRoundTrip(items.head, depth, fmt, [COMMA] + more);
      ItemsRoundTrip(items.next, depth, fmt, When(fmt, [SPACE]), rest);
      MoreItems(items, depth, fmt, w, more, rest);
    }
  }

  /** What stands behind the last member of an object. */
  function Closing(depth: nat, fmt: bool, rest: CStr): CStr {
    When(fmt, Tabs(depth)) + [RBRACE] + rest
  }

  lemma {:induction false} ObjRoundTrip(members: Members, depth: nat, fmt: bool, rest: CStr)
    requires members.Member?
    ensures ParseValue(Print(Obj(members), depth, fmt) + rest) == Ok(Obj(members), rest)
    decreases members, 1
  {
    hide ParseValue, ParseMembers, PrintMembers, Print, Closing, MemberBody;
    MembersRoundTrip(members, depth, fmt, rest);
    ObjOfMembers(members, depth, fmt, rest);
  }

  lemma ObjOfMembers(members: Members, depth: nat, fmt: bool, rest: CStr)
    requires members.Member?
    requires ParseMembers(PrintMembers(members, depth + 1, fmt) + Closing(depth, fmt, rest)) == Ok(members, rest)
    ensures ParseValue(Print(Obj(members), depth, fmt) + rest) == Ok(Obj(members), rest)
  {
    hide ParseValue, ParseMembers, PrintMembers, Print, Closing, MemberBody;
    var w, t := When(fmt, [NEWLINE]), When(fmt, Tabs(depth + 1));
    var body := MemberBody(members, depth, fmt, rest);
    MembersOpen(members, depth, fmt, rest);
    ParseObj(w + t, body);
    ObjText(members, depth, fmt, rest);
    assert [LBRACE] + w + (t + body) == [LBRACE] + (w + t) + body;
    MembersSkip(t, body);
  }

  lemma ObjText(members: Members, depth: nat, fmt: bool, rest: CStr)
    requires members.Member?
    ensures Print(Obj(members), depth, fmt) + rest
         == [LBRACE] + When(fmt, [NEWLINE]) + (PrintMembers(members, depth + 1, fmt) + Closing(depth, fmt, rest))
  {
    hide PrintMembers, When, Tabs;
  }

  /** What stands behind the value of the first member. */
  function MemberTail(members: Members, depth: nat, fmt: bool, rest: CStr): CStr
    requires members.Member?
  {
    When(!members.rest.MembersEnd?, [COMMA])
    + (When(fmt, [NEWLINE]) + (PrintMembers(members.rest, depth + 1, fmt) + Closing(depth, fmt, rest)))
  }

  /** A printed member list with what closes it, behind its leading tabs. */
  function MemberBody(members: Members, depth: nat, fmt: bool, rest: CStr): CStr
    requires members.Member?
  {
    PrintString(members.name)
    + ([COLON] + When(fmt, [TAB]) + (Print(members.value, depth + 1, fmt) + MemberTail(members, depth, fmt, rest)))
  }

  lemma Regroup(t: Text, n: Text, c: Text, x: Text, p: Text, m: Text, nl: Text, pm: Text, cl: Text)
    ensures (t + n + c + x + p + m + nl + pm) + cl == t + (n + (c + x + (p + (m + (nl + (pm + cl))))))
  {
  }

  lemma MembersOpen(members: Members, depth: nat, fmt: bool, rest: CStr)
    requires members.Member?
    ensures PrintMembers(members, depth + 1, fmt) + Closing(depth, fmt, rest)
         == When(fmt, Tabs(depth + 1)) + MemberBody(members, depth, fmt, rest)
    ensures Solid(MemberBody(members, depth, fmt, rest)) && MemberBody(members, depth, fmt, rest)[0] == QUOTE
  {
    hide Escape, Print, Closing, When, Tabs;
    Regroup(When(fmt, Tabs(depth + 1)), PrintString(members.name), [COLON], When(fmt, [TAB]),
            Print(members.value, depth + 1, fmt), When(!members.rest.MembersEnd?, [COMMA]), When(fmt, [NEWLINE]),
            PrintMembers(members.rest, depth + 1, fmt), Closing(depth, fmt, rest));
    assert MemberBody(members, depth, fmt, rest)[0] == PrintString(members.name)[0];
  }

  lemma MembersSkip(w: CStr, s: CStr)
    requires Blank(w)
    ensures ParseMembers(w + s) == ParseMembers(s)
  {
    SkipBlank(w, s);
  }

  lemma {:induction false} MembersRoundTrip(members: Members, depth: nat, fmt: bool, rest: CStr)
    requires members.Member?
    ensures ParseMembers(PrintMembers(members, depth + 1, fmt) + Closing(depth, fmt, rest)) == Ok(members, rest)
    decreases members, 0
  {
    hide ParseValue, ParseMembers, ParseString, PrintMembers, Print, PrintString, MemberBody, MemberTail, Closing;
    MembersOpen(members, depth, fmt, rest);
    var tail := MemberTail(members, depth, fmt, rest);
    TailFollows(members, depth, fmt, rest);
    ValueRoundTrip(members.value, depth + 1, fmt, tail);
    if members.rest.MembersEnd? {
      LastMember(members, depth, fmt, rest);
    } else {
      MembersRoundTrip(members.rest, depth, fmt, rest);
      MoreMembers(members, depth, fmt, rest);
    }
  }

  lemma LastMember(members: Members, depth: nat, fmt: bool, rest: CStr)
    requires members.Member? && members.rest.MembersEnd?
    requires ParseValue(Print(members.value, depth + 1, fmt) + MemberTail(members, depth, fmt, rest))
          == Ok(members.value, MemberTail(members, depth, fmt, rest))
    ensures ParseMembers(When(fmt, Tabs(depth + 1)) + MemberBody(members, depth, fmt, rest)) == Ok(members, rest)
  {
    hide ParseValue, ParseMembers, ParseString, Print, PrintString;
    var x, y := When(fmt, [TAB]), When(fmt, [NEWLINE]) + When(fmt, Tabs(depth));
    var value, tail := Print(members.value, depth + 1, fmt) + MemberTail(members, depth, fmt, rest),
                       MemberTail(members, depth, fmt, rest);
    assert tail == y + [RBRACE] + rest;
    StringRoundTrip(members.name, [COLON] + x + value);
    PrintOpens(members.value, depth + 1, fmt);
    MembersOpen(members, depth, fmt, rest);
    assert value[0] == Print(members.value, depth + 1, fmt)[0];
    MembersThenEnd(When(fmt, Tabs(depth + 1)), MemberBody(members, depth, fmt, rest), members.name, x, value,
                   members.value, tail, y, rest);
  }

  lemma MoreMembers(members: Members, depth: nat, fmt: bool, rest: CStr)
    requires members.Member? && members.rest.Member?
    requires ParseValue(Print(members.value, depth + 1, fmt) + MemberTail(members, depth, fmt, rest))
          == Ok(members.value, MemberTail(members, depth, fmt, rest))
    requires ParseMembers(PrintMembers(members.rest, depth + 1, fmt) + Closing(depth, fmt, rest))
          == Ok(members.rest, rest)
    ensures ParseMembers(When(fmt, Tabs(depth + 1)) + MemberBody(members, depth, fmt, rest)) == Ok(members, rest)
  {
    hide ParseValue, ParseMembers, ParseString, Print, PrintString, PrintMembers, Closing;
    var x, nl := When(fmt, [TAB]), When(fmt, [NEWLINE]);
    var more := nl + (PrintMembers(members.rest, depth + 1, fmt) + Closing(depth, fmt, rest));
    var value, tail := Print(members.value, depth + 1, fmt) + MemberTail(members, depth, fmt, rest),
                       MemberTail(members, depth, fmt, rest);
    assert tail == [] + [COMMA] + more;
    StringRoundTrip(members.name, [COLON] + x + value);
    PrintOpens(members.value, depth + 1, fmt);
    MembersOpen(members, depth, fmt, rest);
    assert value[0] == Print(members.value, depth + 1, fmt)[0];
    MembersThenMore(When(fmt, Tabs(depth + 1)), MemberBody(members, depth, fmt, rest), members.name, x, value,
                    members.value, tail, [], more);
    MembersSkip(nl, PrintMembers(members.rest, depth + 1, fmt) + Closing(depth, fmt, rest));
  }

  lemma TailFollows(members: Members, depth: nat, fmt: bool, rest: CStr)
    requires members.Member?
    ensures Follows(MemberTail(members, depth, fmt, rest))
  {
    var t := MemberTail(members, depth, fmt, rest);
    if members.rest.MembersEnd? {
      assert t[0] == if fmt then NEWLINE else RBRACE;
    } else {
      assert t[0] == COMMA;
    }
  }

  /** Printing and parsing again gives back the same tree and leaves nothing of the text. */
  lemma RoundTrip(v: Value, fmt: bool, requireEnd: bool)
    ensures Parse(Print(v, 0, fmt), requireEnd) == Ok(v, [])
  {
    hide ParseValue, Print;
    PrintOpens(v, 0, fmt);
    SkipSolid(Print(v, 0, fmt));
    ValueRoundTrip(v, 0, fmt, []);
    assert Print(v, 0, fmt) + [] == Print(v, 0, fmt);
  }
}
