/** The parser of json/cJSON.c as it runs: pointers into the text, loops over the elements. */
module JsonParser {
  import opened Bytes
  import opened JsonString
  import opened Json

  /** A failed parse, or a value and the position behind it. */
  datatype Cursor<T> = Bad | Good(value: T, at: nat)

  /** The cursor says what the specification says about the text from position i on. */
  ghost predicate Agrees<T>(t: CStr, c: Cursor<T>, p: Parsed<T>) {
    match c
    case Bad => p == Fail
    case Good(v, at) => at <= |t| && p == Ok(v, t[at..])
  }

  // ---- skip, parse_number ----

  method SkipAt(t: CStr, i: nat) returns (j: nat)
    requires i <= |t|
    ensures i <= j <= |t| && t[j..] == Skip(t[i..])
  {
    j := i;
    while j < |t| && t[j] <= 32
      invariant i <= j <= |t| && Skip(t[j..]) == Skip(t[i..])
    {
      assert t[j..][1..] == t[j + 1..];
      j := j + 1;
    }
  }

  method TakeDigitsAt(t: CStr, i: nat) returns (n: nat, j: nat)
    requires i <= |t|
    ensures i <= j <= |t| && (n, t[j..]) == TakeDigits(t[i..], 0)
  {
    n, j := 0, i;
    while j < |t| && IsDigit(t[j])
      invariant i <= j <= |t| && TakeDigits(t[j..], n) == TakeDigits(t[i..], 0)
    {
      assert t[j..][1..] == t[j + 1..];
      n := n * 10 + (t[j] - 0x30);
      j := j + 1;
    }
  }

  method ParseNumberAt(t: CStr, i: nat) returns (c: Cursor<Value>)
    requires i < |t| && (t[i] == MINUS || IsDigit(t[i]))
    ensures Agrees(t, c, ParseNumber(t[i..]))
  {
    hide TakeDigits;
    var j, minus, n := i, false, 0;
    if t[j] == MINUS {
      minus, j := true, j + 1;
    }
    assert t[i..][1..] == t[i + 1..];
    if j < |t| && t[j] == 0x30 {
      assert t[j..][1..] == t[j + 1..];
      j := j + 1;
    }
    if j < |t| && 0x31 <= t[j] <= 0x39 {
      n, j := TakeDigitsAt(t, j);
    }
    assert Ch(t[j..], 0) == Ch(t, j) && Ch(t[j..], 1) == Ch(t, j + 1);
    if Ch(t, j) == 0x2E && IsDigit(Ch(t, j + 1)) {
      return Bad;
    }
    if Ch(t, j) == 0x65 || Ch(t, j) == 0x45 {
      return Bad;
    }
    var m: int := if minus then Negated(n) else n;
    if -0x8000_0000 <= m < 0x8000_0000 {
      return Good(Number(m), j);
    }
    return Bad;
  }

  // ---- parse_array ----

  /** The rest of ParseItems once a value has been read and blanks skipped. */
  function AfterItem(v: Value, s: CStr): Parsed<Items> {
    if Ch(s, 0) == COMMA then
      var r := ParseItems(s[1..]);
      if r.Ok? then Ok(Item(v, r.value), r.rest) else Fail
    else if Ch(s, 0) == RBRACKET then Ok(Item(v, ItemsEnd), s[1..])
    else Fail
  }

  /** Items already read, in front of what the rest of the text gives. */
  function ChainItems(vs: seq<Value>, r: Parsed<Items>): Parsed<Items> {
    if vs == [] then r
    else
      var n := |vs| - 1;
      ChainItems(vs[..n], if r.Ok? then Ok(Item(vs[n], r.value), r.rest) else Fail)
  }

  lemma {:induction false} ChainFails(vs: seq<Value>)
    ensures ChainItems(vs, Fail) == Fail
  {
    if vs != [] {
      ChainFails(vs[..|vs| - 1]);
    }
  }

  function LinkItems(vs: seq<Value>, last: Items): Items {
    if vs == [] then last else LinkItems(vs[..|vs| - 1], Item(vs[|vs| - 1], last))
  }

  lemma {:induction false} ChainLinks(vs: seq<Value>, last: Items, rest: CStr)
    ensures ChainItems(vs, Ok(last, rest)) == Ok(LinkItems(vs, last), rest)
  {
    if vs != [] {
      ChainLinks(vs[..|vs| - 1], Item(vs[|vs| - 1], last), rest);
    }
  }

  lemma ItemsByFirst(s: CStr)
    ensures var v := ParseValue(Skip(s));
      ParseItems(s) == if v.Ok? then AfterItem(v.value, Skip(v.rest)) else Fail
  {
    hide ParseValue;
  }

  lemma ItemsTurn(vs: seq<Value>, v: Value, s: CStr)
    requires Ch(s, 0) == COMMA
    ensures ChainItems(vs, AfterItem(v, s)) == ChainItems(vs + [v], ParseItems(s[1..]))
  {
    hide ParseItems;
    assert (vs + [v])[..|vs|] == vs;
  }

  // ---- parse_object ----

  datatype Field = Field(name: CStr, value: Value)

  function AfterMember(f: Field, s: CStr): Parsed<Members> {
    if Ch(s, 0) == COMMA then
      var r := ParseMembers(s[1..]);
      if r.Ok? then Ok(Member(f.name, f.value, r.value), r.rest) else Fail
    else if Ch(s, 0) == RBRACE then Ok(Member(f.name, f.value, MembersEnd), s[1..])
    else Fail
  }

  function ChainMembers(fs: seq<Field>, r: Parsed<Members>): Parsed<Members> {
    if fs == [] then r
    else
      var n := |fs| - 1;
      ChainMembers(fs[..n], if r.Ok? then Ok(Member(fs[n].name, fs[n].value, r.value), r.rest) else Fail)
  }

  lemma {:induction false} ChainMembersFails(fs: seq<Field>)
    ensures ChainMembers(fs, Fail) == Fail
  {
    if fs != [] {
      ChainMembersFails(fs[..|fs| - 1]);
    }
  }

  function LinkMembers(fs: seq<Field>, last: Members): Members {
    if fs == [] then last
    else LinkMembers(fs[..|fs| - 1], Member(fs[|fs| - 1].name, fs[|fs| - 1].value, last))
  }

  lemma {:induction false} ChainMembersLinks(fs: seq<Field>, last: Members, rest: CStr)
    ensures ChainMembers(fs, Ok(last, rest)) == Ok(LinkMembers(fs, last), rest)
  {
    if fs != [] {
      var n := |fs| - 1;
      ChainMembersLinks(fs[..n], Member(fs[n].name, fs[n].value, last), rest);
    }
  }

  /** A name, a colon and a value, up to the blanks behind it. */
  function ParseField(s: CStr): Parsed<Field> {
    var name := ParseString(Skip(s));
    if name.NoString? then Fail
    else
      var s1 := Skip(name.rest);
      if Ch(s1, 0) != COLON then Fail
      else
        var v := ParseValue(Skip(s1[1..]));
        if v.Fail? then Fail else Ok(Field(name.value, v.value), Skip(v.rest))
  }

  lemma MembersByFirst(s: CStr)
    ensures var f := ParseField(s);
      ParseMembers(s) == if f.Ok? then AfterMember(f.value, f.rest) else Fail
  {
    hide ParseValue, ParseString;
  }

  lemma MembersTurn(fs: seq<Field>, f: Field, s: CStr)
    requires Ch(s, 0) == COMMA
    ensures ChainMembers(fs, AfterMember(f, s)) == ChainMembers(fs + [f], ParseMembers(s[1..]))
  {
    hide ParseMembers;
    assert (fs + [f])[..|fs|] == fs;
  }

  // ---- The recursive methods ----

  lemma ValueOfArray(s: CStr)
    requires s != [] && s[0] == LBRACKET
    ensures var s1 := Skip(s[1..]);
      ParseValue(s) == if Ch(s1, 0) == RBRACKET then Ok(Arr(ItemsEnd), s1[1..])
                       else var r := ParseItems(s1); if r.Ok? then Ok(Arr(r.value), r.rest) else Fail
  {
    hide ParseItems, ParseMembers, ParseString, ParseNumber, Skip, Ch;
  }

  lemma ValueOfObject(s: CStr)
    requires s != [] && s[0] == LBRACE
    ensures var s1 := Skip(s[1..]);
      ParseValue(s) == if Ch(s1, 0) == RBRACE then Ok(Obj(MembersEnd), s1[1..])
                       else var r := ParseMembers(s1); if r.Ok? then Ok(Obj(r.value), r.rest) else Fail
  {
    hide ParseItems, ParseMembers, ParseString, ParseNumber, Skip, Ch;
  }

  lemma PrefixAt(t: CStr, i: nat, lit: Text)
    requires i <= |t|
    ensures lit <= t[i..] <==> i + |lit| <= |t| && t[i..i + |lit|] == lit
    ensures lit <= t[i..] ==> t[i..][|lit|..] == t[i + |lit|..]
  {
    if i + |lit| <= |t| {
      assert t[i..][..|lit|] == t[i..i + |lit|];
    }
  }

  method ParseValueAt(t: CStr, i: nat) returns (c: Cursor<Value>)
    requires i <= |t|
    ensures Agrees(t, c, ParseValue(t[i..]))
    ensures c.Good? ==> i < c.at
    decreases |t| - i, 0, 0
  {
    PrefixAt(t, i, NULL_TEXT);
    PrefixAt(t, i, FALSE_TEXT);
    PrefixAt(t, i, TRUE_TEXT);
    if i + 4 <= |t| && t[i..i + 4] == NULL_TEXT {
      return Good(Null, i + 4);
    }
    if i + 5 <= |t| && t[i..i + 5] == FALSE_TEXT {
      return Good(False, i + 5);
    }
    if i + 4 <= |t| && t[i..i + 4] == TRUE_TEXT {
      return Good(True, i + 4);
    }
    if i == |t| {
      return Bad;
    }
    if t[i] == QUOTE {
      var name := ParseStrAt(t, i);
      c := Good(Str(name.value), name.at);
    } else if t[i] == MINUS || IsDigit(t[i]) {
      c := ParseNumberAt(t, i);
    } else if t[i] == LBRACKET {
      ValueOfArray(t[i..]);
      hide ParseValue;
      c := ParseArrayAt(t, i);
    } else if t[i] == LBRACE {
      ValueOfObject(t[i..]);
      hide ParseValue;
      c := ParseObjectAt(t, i);
    } else {
      c := Bad;
    }
  }

  /** One turn of the second loop of parse_string: what it writes, and where it goes on. */
  function Turn(t: Text, j: nat): (r: (Text, nat))
    requires j < |t|
    ensures j < r.1 <= |t|
  {
    if t[j] != BACKSLASH then ([t[j]], j + 1)
    else if j + 1 == |t| then ([], j + 1)
    else if t[j + 1] != LOWER_U then ([Letter(t[j + 1])], j + 2)
    else
      var d := DecodeCode(t[j + 1..]);
      (d.0, if j + 1 + d.1 <= |t| then j + 1 + d.1 else |t|)
  }

  lemma DropAt(t: Text, j: nat, k: nat)
    requires j <= |t|
    ensures Drop(t[j..], k) == t[if j + k <= |t| then j + k else |t|..]
  {
  }

  lemma UnescapeAtCode(s: Text)
    requires |s| >= 2 && s[0] == BACKSLASH && s[1] == LOWER_U
    ensures Unescape(s) == Emit(DecodeCode(s[1..]).0, Unescape(Drop(s[1..], DecodeCode(s[1..]).1)))
  {
    hide DecodeCode, Drop;
  }

  lemma UnescapeTurn(t: Text, j: nat)
    requires j < |t| && t[j] != QUOTE
    ensures Unescape(t[j..]) == Emit(Turn(t, j).0, Unescape(t[Turn(t, j).1..]))
  {
    hide Letter, DecodeCode, Drop;
    assert t[j..][1..] == t[j + 1..];
    assert t[|t|..] == [];
    if t[j] == BACKSLASH && j + 1 < |t| {
      if t[j + 1] == LOWER_U {
        UnescapeAtCode(t[j..]);
        hide Unescape;
        DropAt(t, j + 1, DecodeCode(t[j + 1..]).1);
      } else {
        assert t[j + 1..][1..] == t[j + 2..];
      }
    }
  }

  /** parse_string; the position and the bytes written so far go forward together. */
  method ParseStrAt(t: CStr, i: nat) returns (c: Cursor<CStr>)
    requires i < |t| && t[i] == QUOTE
    ensures Agrees(t, c, var r := ParseString(t[i..]); if r.GotString? then Ok(r.value, r.rest) else Fail)
    ensures c.Good? && i < c.at
  {
    hide Unescape, Turn;
    var out: Text, j := [], i + 1;
    assert t[i..][1..] == t[i + 1..];
    while j < |t| && t[j] != QUOTE
      invariant i < j <= |t|
      invariant Unescape(t[i + 1..]) == Emit(out, Unescape(t[j..]))
    {
      UnescapeTurn(t, j);
      var turn := Turn(t, j);
      out, j := out + turn.0, turn.1;
    }
    UnescapeEnds(t[j..]);
    assert Unescape(t[i + 1..]).out == out;
    if j < |t| {
      assert t[j..][1..] == t[j + 1..];
      return Good(out, j + 1);
    }
    return Good(out, j);
  }

  lemma UnescapeEnds(s: Text)
    requires s == [] || s[0] == QUOTE
    ensures Unescape(s) == Unescaped([], s)
  {
  }

  method ParseArrayAt(t: CStr, i: nat) returns (c: Cursor<Value>)
    requires i < |t| && t[i] == LBRACKET
    ensures var s1 := Skip(t[i..][1..]);
      Agrees(t, c, if Ch(s1, 0) == RBRACKET then Ok(Arr(ItemsEnd), s1[1..])
                   else var r := ParseItems(s1); if r.Ok? then Ok(Arr(r.value), r.rest) else Fail)
    ensures c.Good? ==> i < c.at
    decreases |t| - i - 1, 2
  {
    hide ParseValue, ParseItems, Skip, ChainItems, AfterItem;
    assert t[i..][1..] == t[i + 1..];
    var at := SkipAt(t, i + 1);
    assert Ch(t[at..], 0) == Ch(t, at);
    if Ch(t, at) == RBRACKET {
      assert t[at..][1..] == t[at + 1..];
      return Good(Arr(ItemsEnd), at + 1);
    }
    var r := ParseItemsAt(t, at);
    c := if r.Good? then Good(Arr(r.value), r.at) else Bad;
  }

  /** The loop of parse_array, from the first value on. */
  method ParseItemsAt(t: CStr, start: nat) returns (c: Cursor<Items>)
    requires start <= |t|
    ensures Agrees(t, c, ParseItems(t[start..]))
    ensures c.Good? ==> start < c.at
    decreases |t| - start, 1
  {
    hide ParseValue, ParseItems, Skip, ChainItems, AfterItem;
    ItemsByFirst(t[start..]);
    var v, at := ItemAt(t, start);
    if v.Bad? {
      return Bad;
    }
    var before, last := [], v.value;
    ChainNone(AfterItem(last, t[at..]));
    while Ch(t, at) == COMMA
      invariant start < at <= |t|
      invariant ParseItems(t[start..]) == ChainItems(before, AfterItem(last, t[at..]))
      decreases |t| - at
    {
      assert Ch(t[at..], 0) == Ch(t, at) && t[at..][1..] == t[at + 1..];
      ItemsTurn(before, last, t[at..]);
      before := before + [last];
      ItemsByFirst(t[at + 1..]);
      v, at := ItemAt(t, at + 1);
      if v.Bad? {
        ChainFails(before);
        return Bad;
      }
      last := v.value;
    }
    assert Ch(t[at..], 0) == Ch(t, at);
    EndOfItems(last, t[at..]);
    if Ch(t, at) == RBRACKET {
      assert t[at..][1..] == t[at + 1..];
      ChainLinks(before, Item(last, ItemsEnd), t[at + 1..]);
      return Good(LinkItems(before, Item(last, ItemsEnd)), at + 1);
    }
    ChainFails(before);
    return Bad;
  }

  /** skip, parse_value, skip. */
  method ItemAt(t: CStr, i: nat) returns (v: Cursor<Value>, at: nat)
    requires i <= |t|
    ensures var p := ParseValue(Skip(t[i..]));
      && (v.Bad? <==> p.Fail?)
      && (v.Good? ==> i < at <= |t| && p.value == v.value && t[at..] == Skip(p.rest))
    decreases |t| - i, 0, 1
  {
    hide ParseValue, Skip;
    var j := SkipAt(t, i);
    v := ParseValueAt(t, j);
    at := i;
    if v.Good? {
      at := SkipAt(t, v.at);
    }
  }

  lemma ChainNone(r: Parsed<Items>)
    ensures ChainItems([], r) == r
  {
  }

  lemma EndOfItems(v: Value, s: CStr)
    requires Ch(s, 0) != COMMA
    ensures AfterItem(v, s) == if Ch(s, 0) == RBRACKET then Ok(Item(v, ItemsEnd), s[1..]) else Fail
  {
  }

  method ParseObjectAt(t: CStr, i: nat) returns (c: Cursor<Value>)
    requires i < |t| && t[i] == LBRACE
    ensures var s1 := Skip(t[i..][1..]);
      Agrees(t, c, if Ch(s1, 0) == RBRACE then Ok(Obj(MembersEnd), s1[1..])
                   else var r := ParseMembers(s1); if r.Ok? then Ok(Obj(r.value), r.rest) else Fail)
    ensures c.Good? ==> i < c.at
    decreases |t| - i - 1, 2
  {
    hide ParseValue, ParseMembers, Skip, ChainMembers, AfterMember;
    assert t[i..][1..] == t[i + 1..];
    var at := SkipAt(t, i + 1);
    assert Ch(t[at..], 0) == Ch(t, at);
    if Ch(t, at) == RBRACE {
      assert t[at..][1..] == t[at + 1..];
      return Good(Obj(MembersEnd), at + 1);
    }
    var r := ParseMembersAt(t, at);
    c := if r.Good? then Good(Obj(r.value), r.at) else Bad;
  }

  /** The loop of parse_object, from the first name on. */
  method ParseMembersAt(t: CStr, start: nat) returns (c: Cursor<Members>)
    requires start <= |t|
    ensures Agrees(t, c, ParseMembers(t[start..]))
    ensures c.Good? ==> start < c.at
    decreases |t| - start, 1
  {
    hide ParseMembers, ParseField, Skip, ChainMembers, AfterMember;
    MembersByFirst(t[start..]);
    var f := FieldAt(t, start);
    if f.Bad? {
      return Bad;
    }
    var before, last, at := [], f.value, f.at;
    ChainNoMembers(AfterMember(last, t[at..]));
    while Ch(t, at) == COMMA
      invariant start < at <= |t|
      invariant ParseMembers(t[start..]) == ChainMembers(before, AfterMember(last, t[at..]))
      decreases |t| - at
    {
      assert Ch(t[at..], 0) == Ch(t, at) && t[at..][1..] == t[at + 1..];
      MembersTurn(before, last, t[at..]);
      before := before + [last];
      MembersByFirst(t[at + 1..]);
      f := FieldAt(t, at + 1);
      if f.Bad? {
        ChainMembersFails(before);
        return Bad;
      }
      last, at := f.value, f.at;
    }
    assert Ch(t[at..], 0) == Ch(t, at);
    EndOfMembers(last, t[at..]);
    if Ch(t, at) == RBRACE {
      assert t[at..][1..] == t[at + 1..];
      var tail := Member(last.name, last.value, MembersEnd);
      ChainMembersLinks(before, tail, t[at + 1..]);
      return Good(LinkMembers(before, tail), at + 1);
    }
    ChainMembersFails(before);
    return Bad;
  }

  lemma ChainNoMembers(r: Parsed<Members>)
    ensures ChainMembers([], r) == r
  {
  }

  lemma EndOfMembers(f: Field, s: CStr)
    requires Ch(s, 0) != COMMA
    ensures AfterMember(f, s)
         == if Ch(s, 0) == RBRACE then Ok(Member(f.name, f.value, MembersEnd), s[1..]) else Fail
  {
  }

  /** parse_string, the colon, parse_value, with the blanks between and behind. */
  method FieldAt(t: CStr, i: nat) returns (f: Cursor<Field>)
    requires i <= |t|
    ensures Agrees(t, f, ParseField(t[i..]))
    ensures f.Good? ==> i < f.at
    decreases |t| - i, 0, 2
  {
    hide ParseValue, ParseString, Skip;
    var j := SkipAt(t, i);
    NoStringAt(t[j..]);
    assert Ch(t[j..], 0) == Ch(t, j);
    if Ch(t, j) != QUOTE {
      return Bad;
    }
    var name := ParseStrAt(t, j);
    NameOf(t[j..]);
    var k := SkipAt(t, name.at);
    assert Ch(t[k..], 0) == Ch(t, k);
    if Ch(t, k) != COLON {
      return Bad;
    }
    assert t[k..][1..] == t[k + 1..];
    var v, at := ItemAt(t, k + 1);
    if v.Bad? {
      return Bad;
    }
    return Good(Field(name.value, v.value), at);
  }

  lemma NoStringAt(s: CStr)
    ensures ParseString(s).NoString? <==> Ch(s, 0) != QUOTE
  {
  }

  lemma NameOf(s: CStr)
    requires Ch(s, 0) == QUOTE
    ensures ParseString(s).GotString?
  {
  }

  /** cJSON_ParseWithOpts. */
  method ParseText(t: CStr, requireEnd: bool) returns (c: Cursor<Value>)
    ensures requireEnd ==> (c.Bad? <==> Parse(t, true).Fail?) && (c.Good? ==> Parse(t, true) == Ok(c.value, []))
    ensures !requireEnd ==> Agrees(t, c, Parse(t, false))
  {
    hide ParseValue, Skip;
    var i := SkipAt(t, 0);
    assert t[0..] == t;
    c := ParseValueAt(t, i);
    if c.Good? && requireEnd {
      var j := SkipAt(t, c.at);
      if j < |t| {
        return Bad;
      }
    }
  }
}
