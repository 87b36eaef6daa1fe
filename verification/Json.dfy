/** The values, the printer and the parser of json/cJSON.c. */
module Json {
  import opened Bytes
  import opened JsonString

  /** A cJSON node with its `child` chain; the chains are linked by `next`, as in the source. */
  datatype Value = Null | False | True | Number(n: i32) | Str(s: CStr) | Arr(items: Items) | Obj(members: Members)
  datatype Items = ItemsEnd | Item(head: Value, next: Items)
  datatype Members = MembersEnd | Member(name: CStr, value: Value, rest: Members)

  const COMMA: byte := 0x2C
  const COLON: byte := 0x3A
  const MINUS: byte := 0x2D
  const LBRACKET: byte := 0x5B
  const RBRACKET: byte := 0x5D
  const LBRACE: byte := 0x7B
  const RBRACE: byte := 0x7D
  const TAB: byte := 0x09
  const NEWLINE: byte := 0x0A
  const SPACE: byte := 0x20

  /** "null", "false" and "true". */
  const NULL_TEXT: CStr := [0x6E, 0x75, 0x6C, 0x6C]
  const FALSE_TEXT: CStr := [0x66, 0x61, 0x6C, 0x73, 0x65]
  const TRUE_TEXT: CStr := [0x74, 0x72, 0x75, 0x65]

  // ---- print_number ----

  /** `%d` for a number that is not negative. */
  function Digits(n: nat): (t: CStr)
    ensures t != [] && forall i | 0 <= i < |t| :: 0x30 <= t[i] <= 0x39
    ensures n > 0 ==> t[0] != 0x30
  {
    if n < 10 then [0x30 + n] else Digits(n / 10) + [0x30 + n % 10]
  }

  function Magnitude(n: int): nat {
    if n < 0 then -n else n
  }

  function PrintNumber(n: i32): CStr {
    if n < 0 then [MINUS] + Digits(Magnitude(n)) else Digits(n)
  }

  // ---- print_string_ptr ----

  function LowerHex(n: nat): byte
    requires n < 16
  {
    if n < 10 then 0x30 + n else 0x57 + n
  }

  /** One character, as the escaping loop of print_string_ptr writes it. */
  function EscapeChar(c: byte): (t: Text)
    ensures c != 0 ==> 0 !in t
  {
    if c > 31 && c != QUOTE && c != BACKSLASH then [c] else [BACKSLASH] + EscapeCode(c)
  }

  function EscapeCode(c: byte): (t: Text)
    ensures 0 !in t
  {
    match c
    case 0x5C => [0x5C]
    case 0x22 => [0x22]
    case 0x08 => [0x62]
    case 0x0C => [0x66]
    case 0x0A => [0x6E]
    case 0x0D => [0x72]
    case 0x09 => [0x74]
    case _ => [LOWER_U, 0x30, 0x30, LowerHex((c / 16) % 16), LowerHex(c % 16)]
  }

  function Escape(s: CStr): CStr {
    if s == [] then [] else EscapeChar(s[0]) + Escape(s[1..])
  }

  function PrintString(s: CStr): CStr {
    [QUOTE] + Escape(s) + [QUOTE]
  }

  // ---- print_value, print_array, print_object ----

  function Tabs(n: nat): (t: CStr)
    ensures |t| == n && forall i | 0 <= i < n :: t[i] == TAB
  {
    seq(n, _ => TAB)
  }

  function When(b: bool, t: CStr): CStr {
    if b then t else []
  }

  function Print(v: Value, depth: nat, fmt: bool): CStr {
    match v
    case Null => NULL_TEXT
    case False => FALSE_TEXT
    case True => TRUE_TEXT
    case Number(n) => PrintNumber(n)
    case Str(s) => PrintString(s)
    case Arr(items) =>
      if items.ItemsEnd? then [LBRACKET, RBRACKET]
      else [LBRACKET] + PrintItems(items, depth + 1, fmt) + [RBRACKET]
    case Obj(members) =>
      if members.MembersEnd? then
        [LBRACE] + When(fmt, [NEWLINE] + Tabs(if depth == 0 then 0 else depth - 1)) + [RBRACE]
      else
        [LBRACE] + When(fmt, [NEWLINE]) + PrintMembers(members, depth + 1, fmt) + When(fmt, Tabs(depth)) + [RBRACE]
  }

  function PrintItems(items: Items, depth: nat, fmt: bool): CStr {
    match items
    case ItemsEnd => []
    case Item(head, next) =>
      Print(head, depth, fmt)
      + (if next.ItemsEnd? then [] else [COMMA] + When(fmt, [SPACE]) + PrintItems(next, depth, fmt))
  }

  function PrintMembers(members: Members, depth: nat, fmt: bool): CStr {
    match members
    case MembersEnd => []
    case Member(name, value, rest) =>
      When(fmt, Tabs(depth)) + PrintString(name) + [COLON] + When(fmt, [TAB]) + Print(value, depth, fmt)
      + When(!rest.MembersEnd?, [COMMA]) + When(fmt, [NEWLINE]) + PrintMembers(rest, depth, fmt)
  }

  /** The text of a list of at least two items. */
  lemma ItemsUnfold(items: Items, depth: nat, fmt: bool)
    requires items.Item? && items.next.Item?
    ensures PrintItems(items, depth, fmt)
         == Print(items.head, depth, fmt) + ([COMMA] + When(fmt, [SPACE]) + PrintItems(items.next, depth, fmt))
  {
    hide Print, When;
  }

  // ---- parse_number ----

  function Negated(n: int): int { -n }

  predicate IsDigit(c: byte) { 0x30 <= c <= 0x39 }

  /** The digits at the front of s: their value behind acc, and the rest. */
  function TakeDigits(s: Text, acc: nat): (r: (nat, Text))
    ensures |r.1| <= |s| && (0 !in s ==> 0 !in r.1)
    decreases |s|
  {
    if s != [] && IsDigit(s[0]) then TakeDigits(s[1..], acc * 10 + (s[0] - 0x30)) else (acc, s)
  }

  datatype Parsed<T> = Fail | Ok(value: T, rest: CStr)

  /**
   * parse_number for integers: a sign, one leading zero, then digits unless they start with zero. A
   * fraction, an exponent, or a value outside 32 bits is beyond this model.
   */
  function ParseNumber(s: CStr): (r: Parsed<Value>)
    requires s != [] && (s[0] == MINUS || IsDigit(s[0]))
    ensures r.Ok? ==> |r.rest| < |s|
  {
    var minus := s[0] == MINUS;
    var s1 := if minus then s[1..] else s;
    var s2 := if s1 != [] && s1[0] == 0x30 then s1[1..] else s1;
    var (n, rest) := if s2 != [] && 0x31 <= s2[0] <= 0x39 then TakeDigits(s2, 0) else (0, s2);
    var m: int := if minus then Negated(n) else n;
    if Ch(rest, 0) == 0x2E && IsDigit(Ch(rest, 1)) then Fail
    else if Ch(rest, 0) == 0x65 || Ch(rest, 0) == 0x45 then Fail
    else if -0x8000_0000 <= m < 0x8000_0000 then Ok(Number(m), rest)
    else Fail
  }

  // ---- parse_value, parse_array, parse_object ----

  function Skip(s: CStr): (r: CStr)
    ensures |r| <= |s|
    ensures r != [] ==> r[0] > 32
    decreases |s|
  {
    if s != [] && s[0] <= 32 then Skip(s[1..]) else s
  }

  function ParseValue(s: CStr): (r: Parsed<Value>)
    ensures r.Ok? ==> |r.rest| < |s|
    decreases |s|, 0
  {
    if NULL_TEXT <= s then Ok(Null, s[4..])
    else if FALSE_TEXT <= s then Ok(False, s[5..])
    else if TRUE_TEXT <= s then Ok(True, s[4..])
    else if s == [] then Fail
    else if s[0] == QUOTE then
      var r := ParseString(s);
      if r.GotString? then Ok(Str(r.value), r.rest) else Fail
    else if s[0] == MINUS || IsDigit(s[0]) then ParseNumber(s)
    else if s[0] == LBRACKET then
      var s1 := Skip(s[1..]);
      if Ch(s1, 0) == RBRACKET then Ok(Arr(ItemsEnd), s1[1..])
      else
        var r := ParseItems(s1);
        if r.Ok? then Ok(Arr(r.value), r.rest) else Fail
    else if s[0] == LBRACE then
      var s1 := Skip(s[1..]);
      if Ch(s1, 0) == RBRACE then Ok(Obj(MembersEnd), s1[1..])
      else
        var r := ParseMembers(s1);
        if r.Ok? then Ok(Obj(r.value), r.rest) else Fail
    else Fail
  }

  function ParseItems(s: CStr): (r: Parsed<Items>)
    ensures r.Ok? ==> |r.rest| < |s|
    decreases |s|, 1
  {
    var v := ParseValue(Skip(s));
    if v.Fail? then Fail
    else
      var s1 := Skip(v.rest);
      if Ch(s1, 0) == COMMA then
        var r := ParseItems(s1[1..]);
        if r.Ok? then Ok(Item(v.value, r.value), r.rest) else Fail
      else if Ch(s1, 0) == RBRACKET then Ok(Item(v.value, ItemsEnd), s1[1..])
      else Fail
  }

  function ParseMembers(s: CStr): (r: Parsed<Members>)
    ensures r.Ok? ==> |r.rest| < |s|
    decreases |s|, 1
  {
    var name := ParseString(Skip(s));
    if name.NoString? then Fail
    else
      var s1 := Skip(name.rest);
      if Ch(s1, 0) != COLON then Fail
      else
        var v := ParseValue(Skip(s1[1..]));
        if v.Fail? then Fail
        else
          var s2 := Skip(v.rest);
          if Ch(s2, 0) == COMMA then
            var r := ParseMembers(s2[1..]);
            if r.Ok? then Ok(Member(name.value, v.value, r.value), r.rest) else Fail
          else if Ch(s2, 0) == RBRACE then Ok(Member(name.value, v.value, MembersEnd), s2[1..])
          else Fail
  }

  /** cJSON_ParseWithOpts: leading blanks, a value, and on request nothing but blanks behind it. */
  function Parse(s: CStr, requireEnd: bool): Parsed<Value> {
    var r := ParseValue(Skip(s));
    if r.Fail? then Fail
    else if requireEnd then (if Skip(r.rest) == [] then Ok(r.value, []) else Fail)
    else r
  }

  // ---- Strings come back ----

  function UnitOf(c: byte): (u: Unit)
    requires c != 0
    ensures WellFormed(u) && Write(u) == EscapeChar(c) && Meaning(u) == [c]
  {
    if c > 31 && c != QUOTE && c != BACKSLASH then Raw(c)
    else match c
      case 0x5C => Esc(0x5C)
      case 0x22 => Esc(0x22)
      case 0x08 => Esc(0x62)
      case 0x0C => Esc(0x66)
      case 0x0A => Esc(0x6E)
      case 0x0D => Esc(0x72)
      case 0x09 => Esc(0x74)
      case _ => Code(Hex(c, false, false, false, false))
  }

  function UnitsOf(s: CStr): (us: seq<Unit>)
    ensures AllWellFormed(us)
  {
    if s == [] then [] else [UnitOf(s[0])] + UnitsOf(s[1..])
  }

  lemma {:induction false} UnitsSpell(s: CStr)
    ensures WriteAll(UnitsOf(s)) == Escape(s) && MeaningAll(UnitsOf(s)) == s
    decreases |s|
  {
    hide EscapeChar, UnitOf, Write, Meaning, WellFormed;
    if s != [] {
      UnitsSpell(s[1..]);
      var us := UnitsOf(s);
      assert us[0] == UnitOf(s[0]) && us[1..] == UnitsOf(s[1..]);
      assert s == [s[0]] + s[1..];
    }
  }

  lemma StringRoundTrip(s: CStr, rest: CStr)
    ensures ParseString(PrintString(s) + rest) == GotString(s, rest)
  {
    hide ParseString;
    UnitsSpell(s);
    StringMeaning(UnitsOf(s), rest);
    assert PrintString(s) + rest == [QUOTE] + WriteAll(UnitsOf(s)) + [QUOTE] + rest;
  }

  // ---- Numbers come back ----

  /** What may follow a value in printed text. */
  predicate Follows(rest: Text) {
    rest == [] || rest[0] in {COMMA, RBRACKET, RBRACE, NEWLINE}
  }

  lemma {:induction false} TakeDigitsAppend(t: Text, rest: Text, acc: nat)
    requires forall i | 0 <= i < |t| :: IsDigit(t[i])
    ensures TakeDigits(t + rest, acc) == TakeDigits(rest, TakeDigits(t, acc).0)
    decreases |t|
  {
    if t == [] {
      assert t + rest == rest;
    } else {
      assert (t + rest)[1..] == t[1..] + rest;
      TakeDigitsAppend(t[1..], rest, acc * 10 + (t[0] - 0x30));
    }
  }

  lemma {:induction false} DigitsValue(n: nat)
    ensures TakeDigits(Digits(n), 0) == (n, [])
  {
    if n < 10 {
      assert [0x30 + n][1..] == [];
    } else {
      DigitsValue(n / 10);
      TakeDigitsAppend(Digits(n / 10), [0x30 + n % 10], 0);
      var d := [0x30 + n % 10];
      assert d[1..] == [];
      assert TakeDigits(d, n / 10) == (n / 10 * 10 + n % 10, []);
    }
  }

  lemma NumberRoundTrip(n: i32, rest: CStr)
    requires Follows(rest)
    ensures ParseNumber(PrintNumber(n) + rest) == Ok(Number(n), rest)
  {
    hide Digits;
    var m := Magnitude(n);
    var s := PrintNumber(n) + rest;
    var s1 := Digits(m) + rest;
    assert n < 0 ==> s[1..] == s1;
    assert s1[0] == Digits(m)[0];
    DigitsValue(m);
    TakeDigitsAppend(Digits(m), rest, 0);
    assert TakeDigits(rest, m) == (m, rest);
    if m == 0 {
      ZeroDigits();
      assert s1[1..] == rest;
    }
  }

  lemma ZeroDigits()
    ensures Digits(0) == [0x30]
  {
  }
}
