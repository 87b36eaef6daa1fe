/**
 * JSON texts by the grammar of RFC 8259, with blanks wherever it allows them: json/cJSON.c reads every such
 * text, with numbers of 32 bits, as what it means, and prints every tree as one of them.
 */
module JsonGrammar {
  import opened Bytes
  import opened JsonString
  import opened Json
  import opened JsonRoundTrip

  /** A text with its layout. */
  datatype Doc =
    | NullDoc
    | FalseDoc
    | TrueDoc
    | NumberDoc(minus: bool, digits: seq<nat>)
    | StringDoc(units: seq<Unit>)
    | NoItems(blanks: CStr)
    | SomeItems(items: ItemDocs)
    | NoMembers(blanks: CStr)
    | SomeMembers(members: MemberDocs)

  datatype ItemDocs =
    | LastItem(before: CStr, head: Doc, after: CStr)
    | MoreItems(before: CStr, head: Doc, after: CStr, next: ItemDocs)

  datatype MemberDocs =
    | LastMember(before: CStr, name: seq<Unit>, left: CStr, right: CStr, value: Doc, after: CStr)
    | MoreMembers(before: CStr, name: seq<Unit>, left: CStr, right: CStr, value: Doc, after: CStr, next: MemberDocs)

  /** Space, tab, line feed and carriage return. */
  predicate White(w: Text) {
    forall i | 0 <= i < |w| :: w[i] in {32, 9, 10, 13}
  }

  /** The number that decimal digits spell. */
  function Decimal(ds: seq<nat>): nat {
    if ds == [] then 0 else Decimal(ds[..|ds| - 1]) * 10 + ds[|ds| - 1]
  }

  predicate IsNumber(minus: bool, ds: seq<nat>) {
    && ds != [] && (forall i | 0 <= i < |ds| :: ds[i] < 10)
    && (ds[0] == 0 ==> |ds| == 1)
    && (if minus then Decimal(ds) <= 2147483648 else Decimal(ds) <= 2147483647)
  }

  predicate IsDoc(d: Doc) {
    match d
    case NumberDoc(minus, ds) => IsNumber(minus, ds)
    case StringDoc(us) => AllWellFormed(us)
    case NoItems(w) => White(w)
    case SomeItems(items) => AreItems(items)
    case NoMembers(w) => White(w)
    case SomeMembers(members) => AreMembers(members)
    case _ => true
  }

  predicate AreItems(items: ItemDocs) {
    White(items.before) && IsDoc(items.head) && White(items.after) && (items.MoreItems? ==> AreItems(items.next))
  }

  predicate AreMembers(ms: MemberDocs) {
    && White(ms.before) && AllWellFormed(ms.name) && White(ms.left) && White(ms.right)
    && IsDoc(ms.value) && White(ms.after) && (ms.MoreMembers? ==> AreMembers(ms.next))
  }

  // ---- The characters ----

  function DigitText(ds: seq<nat>): (t: CStr)
    requires forall i | 0 <= i < |ds| :: ds[i] < 10
    ensures |t| == |ds| && forall i | 0 <= i < |t| :: t[i] == 48 + ds[i]
  {
    seq(|ds|, i requires 0 <= i < |ds| => 48 + ds[i])
  }

  function StringText(us: seq<Unit>): CStr
    requires AllWellFormed(us)
  {
    LiteralHasNoZero(us);
    [0x22] + WriteAll(us) + [0x22]
  }

  function DocText(d: Doc): CStr
    requires IsDoc(d)
  {
    match d
    case NullDoc => [0x6E, 0x75, 0x6C, 0x6C]
    case FalseDoc => [0x66, 0x61, 0x6C, 0x73, 0x65]
    case TrueDoc => [0x74, 0x72, 0x75, 0x65]
    case NumberDoc(minus, ds) => (if minus then [0x2D] else []) + DigitText(ds)
    case StringDoc(us) => StringText(us)
    case NoItems(w) => [0x5B] + w + [0x5D]
    case SomeItems(items) => [0x5B] + ItemsText(items) + [0x5D]
    case NoMembers(w) => [0x7B] + w + [0x7D]
    case SomeMembers(members) => [0x7B] + MembersText(members) + [0x7D]
  }

  function ItemsText(items: ItemDocs): CStr
    requires AreItems(items)
  {
    items.before + DocText(items.head) + items.after
    + (if items.LastItem? then [] else Separated(ItemsText(items.next)))
  }

  /** A comma in front of what is left. */
  function Separated(next: CStr): CStr {
    [0x2C] + next
  }

  /** A name in quotes, a colon and a value. */
  function Named(name: CStr, left: CStr, right: CStr, value: CStr): CStr {
    name + Labelled(left, right, value)
  }

  function MembersText(ms: MemberDocs): CStr
    requires AreMembers(ms)
  {
    ms.before + Named(StringText(ms.name), ms.left, ms.right, DocText(ms.value)) + ms.after
    + (if ms.LastMember? then [] else Separated(MembersText(ms.next)))
  }

  /** A colon and a value. */
  function Labelled(left: CStr, right: CStr, value: CStr): CStr {
    left + ([0x3A] + (right + value))
  }

  // ---- The meaning ----

  function StringMeans(us: seq<Unit>): CStr
    requires AllWellFormed(us)
  {
    LiteralHasNoZero(us);
    MeaningAll(us)
  }

  function DocMeans(d: Doc): Value
    requires IsDoc(d)
  {
    match d
    case NullDoc => Null
    case FalseDoc => False
    case TrueDoc => True
    case NumberDoc(minus, ds) => Number(if minus then Minus(Decimal(ds)) else Decimal(ds))
    case StringDoc(us) => Str(StringMeans(us))
    case NoItems(_) => Arr(ItemsEnd)
    case SomeItems(items) => Arr(ItemsMean(items))
    case NoMembers(_) => Obj(MembersEnd)
    case SomeMembers(members) => Obj(MembersMean(members))
  }

  function Minus(n: nat): int { 0 - n }

  function ItemsMean(items: ItemDocs): Items
    requires AreItems(items)
  {
    Item(DocMeans(items.head), if items.LastItem? then ItemsEnd else ItemsMean(items.next))
  }

  function MembersMean(ms: MemberDocs): Members
    requires AreMembers(ms)
  {
    Member(StringMeans(ms.name), DocMeans(ms.value), if ms.LastMember? then MembersEnd else MembersMean(ms.next))
  }

  // ---- Reading it ----

  /** What may stand behind a number: no digit, point or exponent. */
  predicate Ends(rest: Text) {
    rest == [] || (!(48 <= rest[0] <= 57) && rest[0] != 0x2E && rest[0] != 0x65 && rest[0] != 0x45)
  }

  lemma WhiteBlank(w: Text)
    requires White(w)
    ensures Blank(w) && 0 !in w
  {
  }

  lemma WhiteEnds(w: Text, c: byte, rest: Text)
    requires White(w) && c in {0x2C, 0x5D, 0x7D}
    ensures Ends(w + [c] + rest)
  {
    if w != [] {
      assert (w + [c] + rest)[0] == w[0];
    }
  }

  lemma DocOpens(d: Doc)
    requires IsDoc(d)
    ensures DocText(d) != [] && DocText(d)[0] > 32 && DocText(d)[0] != 0x5D && DocText(d)[0] != 0x7D
  {
    hide WriteAll, ItemsText, MembersText;
    if d.NumberDoc? {
      assert DigitText(d.digits)[0] >= 48;
    }
  }

  lemma {:induction false} DigitsTaken(ds: seq<nat>, rest: Text)
    requires (forall i | 0 <= i < |ds| :: ds[i] < 10) && (rest == [] || !(48 <= rest[0] <= 57))
    ensures TakeDigits(DigitText(ds) + rest, 0) == (Decimal(ds), rest)
  {
    DigitsValueOf(ds);
    TakeDigitsAppend(DigitText(ds), rest, 0);
  }

  lemma {:induction false} DigitsValueOf(ds: seq<nat>)
    requires forall i | 0 <= i < |ds| :: ds[i] < 10
    ensures TakeDigits(DigitText(ds), 0) == (Decimal(ds), [])
    decreases |ds|
  {
    if ds != [] {
      var n := |ds| - 1;
      DigitsValueOf(ds[..n]);
      var last := DigitText([ds[n]]);
      assert DigitText(ds) == DigitText(ds[..n]) + last;
      TakeDigitsAppend(DigitText(ds[..n]), last, 0);
      assert last[1..] == [];
      assert TakeDigits(last, Decimal(ds[..n])) == (Decimal(ds), []);
    }
  }

  lemma NumberReads(minus: bool, ds: seq<nat>, rest: CStr)
    requires IsNumber(minus, ds) && Ends(rest)
    ensures ParseValue(DocText(NumberDoc(minus, ds)) + rest) == Ok(DocMeans(NumberDoc(minus, ds)), rest)
  {
    var t := DigitText(ds) + rest;
    var s := DocText(NumberDoc(minus, ds)) + rest;
    assert minus ==> s[1..] == t;
    assert !minus ==> s == t;
    assert t[0] == 48 + ds[0];
    NumberFields(minus, ds, s, t, rest);
    hide ParseNumber, DigitText, Decimal;
    assert s[0] == 0x2D || 48 <= s[0] <= 57;
  }

  lemma NumberFields(minus: bool, ds: seq<nat>, s: CStr, t: CStr, rest: CStr)
    requires IsNumber(minus, ds) && Ends(rest) && t == DigitText(ds) + rest
    requires if minus then s != [] && s[0] == 0x2D && s[1..] == t else s == t
    ensures s != [] && (s[0] == 0x2D || 48 <= s[0] <= 57)
    ensures ParseNumber(s) == Ok(DocMeans(NumberDoc(minus, ds)), rest)
  {
    DigitsTaken(ds, rest);
    assert t[0] == 48 + ds[0];
    if ds[0] == 0 {
      assert t[1..] == rest;
      assert Decimal(ds) == 0;
    }
    hide Decimal, TakeDigits, DigitText;
  }

  lemma StringReads(us: seq<Unit>, rest: CStr)
    requires AllWellFormed(us)
    ensures ParseString(StringText(us) + rest) == GotString(StringMeans(us), rest)
    ensures ParseValue(StringText(us) + rest) == Ok(Str(StringMeans(us)), rest)
  {
    var s := StringText(us) + rest;
    LiteralHasNoZero(us);
    assert s == [QUOTE] + WriteAll(us) + [QUOTE] + rest;
    StringMeaning(us, rest);
    assert s[0] == QUOTE;
    hide WriteAll, MeaningAll, ParseString;
  }

  lemma WordReads(d: Doc, rest: CStr)
    requires d.NullDoc? || d.FalseDoc? || d.TrueDoc?
    ensures ParseValue(DocText(d) + rest) == Ok(DocMeans(d), rest)
  {
    var t := DocText(d);
    assert (t + rest)[|t|..] == rest;
    assert t <= t + rest;
    assert (t + rest)[0] == t[0];
  }

  lemma BracketReads(w: CStr, rest: CStr)
    requires White(w)
    ensures ParseValue([0x5B] + w + [0x5D] + rest) == Ok(Arr(ItemsEnd), rest)
    ensures ParseValue([0x7B] + w + [0x7D] + rest) == Ok(Obj(MembersEnd), rest)
  {
    WhiteBlank(w);
    hide White;
    ParseEmptyObj(w, rest);
    ParseNoItems(w, rest);
    hide ParseValue;
  }

  lemma ParseNoItems(w: CStr, rest: CStr)
    requires Blank(w)
    ensures ParseValue([0x5B] + w + [0x5D] + rest) == Ok(Arr(ItemsEnd), rest)
  {
    var s := [0x5B] + w + [0x5D] + rest;
    assert s[0] == LBRACKET && s[1..] == w + ([RBRACKET] + rest);
    SkipBlank(w, [RBRACKET] + rest);
    SkipSolid([RBRACKET] + rest);
    assert ([RBRACKET] + rest)[1..] == rest;
  }

  /** An opening bracket, blanks, and something that does not close it. */
  lemma OpenReads(w: CStr, body: CStr)
    requires White(w) && Solid(body) && body[0] != 0x5D && body[0] != 0x7D
    ensures ParseValue([0x5B] + (w + body))
         == (var r := ParseItems(body); if r.Ok? then Ok(Arr(r.value), r.rest) else Fail)
    ensures ParseValue([0x7B] + (w + body))
         == (var r := ParseMembers(body); if r.Ok? then Ok(Obj(r.value), r.rest) else Fail)
  {
    WhiteBlank(w);
    ParseObj(w, body);
    assert [0x7B] + (w + body) == [LBRACE] + w + body;
    var s := [0x5B] + (w + body);
    assert s[0] == LBRACKET && s[1..] == w + body;
    SkipBlank(w, body);
    SkipSolid(body);
  }

  lemma ItemsSkip(w: CStr, s: CStr)
    requires White(w)
    ensures ParseItems(w + s) == ParseItems(s) && ParseMembers(w + s) == ParseMembers(s)
  {
    WhiteBlank(w);
    SkipBlank(w, s);
    hide ParseValue, ParseString;
  }

  lemma ItemReads(head: CStr, v: Value, after: CStr, c: byte, more: CStr)
    requires White(after) && Solid(head) && c in {0x2C, 0x5D} && ParseValue(head) == Ok(v, after + ([c] + more))
    ensures c == 0x5D ==> ParseItems(head) == Ok(Item(v, ItemsEnd), more)
    ensures c == 0x2C ==>
      ParseItems(head) == (var r := ParseItems(more); if r.Ok? then Ok(Item(v, r.value), r.rest) else Fail)
  {
    hide ParseValue;
    WhiteBlank(after);
    SkipSolid(head);
    SkipBlank(after, [c] + more);
    SkipSolid([c] + more);
    assert ([c] + more)[1..] == more;
  }

  lemma MemberReads(s: CStr, name: CStr, left: CStr, right: CStr, value: CStr, v: Value, after: CStr,
                    c: byte, more: CStr)
    requires White(left) && White(right) && White(after) && Solid(s) && Solid(value) && c in {0x2C, 0x7D}
    requires ParseString(s) == GotString(name, Labelled(left, right, value))
    requires ParseValue(value) == Ok(v, after + ([c] + more))
    ensures c == 0x7D ==> ParseMembers(s) == Ok(Member(name, v, MembersEnd), more)
    ensures c == 0x2C ==>
      ParseMembers(s) == (var r := ParseMembers(more); if r.Ok? then Ok(Member(name, v, r.value), r.rest) else Fail)
  {
    hide ParseValue, ParseString;
    WhiteBlank(left);
    WhiteBlank(right);
    WhiteBlank(after);
    SkipSolid(s);
    SkipBlank(left, [0x3A] + (right + value));
    SkipSolid([0x3A] + (right + value));
    assert ([0x3A] + (right + value))[1..] == right + value;
    SkipBlank(right, value);
    SkipSolid(value);
    SkipBlank(after, [c] + more);
    SkipSolid([c] + more);
    assert ([c] + more)[1..] == more;
  }

  /** Every JSON text is read as what it means, up to what follows it. */
  lemma {:induction false} DocReads(d: Doc, rest: CStr)
    requires IsDoc(d) && Ends(rest)
    ensures ParseValue(DocText(d) + rest) == Ok(DocMeans(d), rest)
    decreases d, 1
  {
    hide ParseValue, ParseItems, ParseMembers, ItemsText, MembersText, StringText;
    match d
    case NumberDoc(minus, ds) => NumberReads(minus, ds, rest);
    case StringDoc(us) => StringReads(us, rest);
    case NoItems(w) => BracketReads(w, rest);
    case NoMembers(w) => BracketReads(w, rest);
    case SomeItems(items) =>
      ItemsRead(items, rest);
      assert DocText(d) + rest == [0x5B] + Closed(ItemsText(items), 0x5D, rest);
    case SomeMembers(members) =>
      MembersRead(members, rest);
      assert DocText(d) + rest == [0x7B] + Closed(MembersText(members), 0x7D, rest);
    case _ => WordReads(d, rest);
  }

  function Then(t: CStr, rest: CStr): CStr {
    t + rest
  }

  /** A list, its closing bracket, and what follows. */
  function Closed(list: CStr, close: byte, rest: CStr): CStr
    requires close != 0
  {
    list + ([close] + rest)
  }

  /** What stands behind the first item or member: a comma and the others, or the closing bracket. */
  function Behind(next: CStr, last: bool, close: byte, rest: CStr): CStr
    requires close != 0
  {
    if last then [close] + rest else [0x2C] + Closed(next, close, rest)
  }

  /** What follows the value of the first item. */
  function ItemTail(items: ItemDocs, rest: CStr): CStr
    requires AreItems(items)
  {
    Then(items.after, Behind(if items.LastItem? then [] else ItemsText(items.next), items.LastItem?, 0x5D, rest))
  }

  lemma ItemTailEnds(items: ItemDocs, rest: CStr)
    requires AreItems(items)
    ensures Ends(ItemTail(items, rest))
  {
    hide ItemsText;
    var tail := Behind(if items.LastItem? then [] else ItemsText(items.next), items.LastItem?, 0x5D, rest);
    WhiteEnds(items.after, tail[0], tail[1..]);
    TailSplit(items.after, tail);
  }

  lemma {:induction false} ItemsRead(items: ItemDocs, rest: CStr)
    requires AreItems(items)
    ensures ParseItems(Closed(ItemsText(items), 0x5D, rest)) == Ok(ItemsMean(items), rest)
    ensures ParseValue([0x5B] + Closed(ItemsText(items), 0x5D, rest)) == Ok(Arr(ItemsMean(items)), rest)
    decreases items, 0
  {
    hide ParseValue, ParseItems, DocText, DocMeans, ItemTail, ItemsText, ItemsMean, Ends;
    ItemTailEnds(items, rest);
    DocReads(items.head, ItemTail(items, rest));
    if items.MoreItems? {
      ItemsRead(items.next, rest);
    }
    ItemsStep(items, rest);
  }

  lemma ItemsStep(items: ItemDocs, rest: CStr)
    requires AreItems(items)
    requires ParseValue(DocText(items.head) + ItemTail(items, rest)) == Ok(DocMeans(items.head), ItemTail(items, rest))
    requires items.MoreItems? ==>
      ParseItems(Closed(ItemsText(items.next), 0x5D, rest)) == Ok(ItemsMean(items.next), rest)
    ensures ParseItems(Closed(ItemsText(items), 0x5D, rest)) == Ok(ItemsMean(items), rest)
    ensures ParseValue([0x5B] + Closed(ItemsText(items), 0x5D, rest)) == Ok(Arr(ItemsMean(items)), rest)
  {
    hide ParseValue, ParseItems, DocText, DocMeans;
    var tail := Behind(if items.LastItem? then [] else ItemsText(items.next), items.LastItem?, 0x5D, rest);
    var head := DocText(items.head) + (items.after + tail);
    DocOpens(items.head);
    assert head[0] == DocText(items.head)[0];
    TailSplit(items.after, tail);
    ItemReads(head, DocMeans(items.head), items.after, tail[0], tail[1..]);
    ItemsGrouped(items, rest, tail, head);
    hide ItemsText, White;
    assert !items.LastItem? ==> tail[1..] == Closed(ItemsText(items.next), 0x5D, rest);
    assert items.LastItem? ==> tail[1..] == rest;
    ItemsSkip(items.before, head);
    OpenReads(items.before, head);
  }

  lemma ItemsGrouped(items: ItemDocs, rest: CStr, tail: CStr, head: CStr)
    requires AreItems(items) && head == DocText(items.head) + (items.after + tail)
    requires tail == Behind(if items.LastItem? then [] else ItemsText(items.next), items.LastItem?, 0x5D, rest)
    ensures Closed(ItemsText(items), 0x5D, rest) == items.before + head
  {
    hide DocText, Closed, Behind;
    if items.LastItem? {
      NothingBehind(items.before, DocText(items.head), items.after, 0x5D, rest);
    } else {
      MoreBehind(items.before, DocText(items.head), items.after, ItemsText(items.next), 0x5D, rest);
    }
  }

  lemma NothingBehind(before: CStr, head: CStr, after: CStr, close: byte, rest: CStr)
    requires close != 0
    ensures Closed(before + head + after + [], close, rest) == before + (head + (after + Behind([], true, close, rest)))
  {
  }

  lemma MoreBehind(before: CStr, head: CStr, after: CStr, next: CStr, close: byte, rest: CStr)
    requires close != 0
    ensures Closed(before + head + after + Separated(next), close, rest)
         == before + (head + (after + Behind(next, false, close, rest)))
  {
    assert Separated(next) + ([close] + rest) == [0x2C] + (next + ([close] + rest));
  }

  /** What follows the value of the first member. */
  function MemberTail(ms: MemberDocs, rest: CStr): CStr
    requires AreMembers(ms)
  {
    Then(ms.after, Behind(if ms.LastMember? then [] else MembersText(ms.next), ms.LastMember?, 0x7D, rest))
  }

  lemma MemberTailEnds(ms: MemberDocs, rest: CStr)
    requires AreMembers(ms)
    ensures Ends(MemberTail(ms, rest))
  {
    hide MembersText;
    var tail := Behind(if ms.LastMember? then [] else MembersText(ms.next), ms.LastMember?, 0x7D, rest);
    WhiteEnds(ms.after, tail[0], tail[1..]);
    TailSplit(ms.after, tail);
  }

  lemma {:induction false} MembersRead(ms: MemberDocs, rest: CStr)
    requires AreMembers(ms)
    ensures ParseMembers(Closed(MembersText(ms), 0x7D, rest)) == Ok(MembersMean(ms), rest)
    ensures ParseValue([0x7B] + Closed(MembersText(ms), 0x7D, rest)) == Ok(Obj(MembersMean(ms)), rest)
    decreases ms, 0
  {
    hide ParseValue, ParseMembers, DocText, DocMeans, MemberTail, MembersText, MembersMean, Ends;
    MemberTailEnds(ms, rest);
    DocReads(ms.value, MemberTail(ms, rest));
    if ms.MoreMembers? {
      MembersRead(ms.next, rest);
    }
    MembersStep(ms, rest);
  }

  lemma MembersStep(ms: MemberDocs, rest: CStr)
    requires AreMembers(ms)
    requires ParseValue(Then(DocText(ms.value), MemberTail(ms, rest))) == Ok(DocMeans(ms.value), MemberTail(ms, rest))
    requires ms.MoreMembers? ==>
      ParseMembers(Closed(MembersText(ms.next), 0x7D, rest)) == Ok(MembersMean(ms.next), rest)
    ensures ParseMembers(Closed(MembersText(ms), 0x7D, rest)) == Ok(MembersMean(ms), rest)
    ensures ParseValue(Then([0x7B], Closed(MembersText(ms), 0x7D, rest))) == Ok(Obj(MembersMean(ms)), rest)
  {
    hide ParseValue, ParseMembers, DocText, DocMeans, StringMeans, MemberText;
    var tail := Behind(if ms.LastMember? then [] else MembersText(ms.next), ms.LastMember?, 0x7D, rest);
    TailSplit(ms.after, tail);
    MemberFirst(ms, tail[0], tail[1..]);
    MembersGrouped(ms, rest, tail);
    hide MembersText, White;
    assert !ms.LastMember? ==> tail[1..] == Closed(MembersText(ms.next), 0x7D, rest);
    assert ms.LastMember? ==> tail[1..] == rest;
    ItemsSkip(ms.before, MemberText(ms, tail));
    OpenReads(ms.before, MemberText(ms, tail));
  }

  lemma TailSplit(after: CStr, tail: CStr)
    requires tail != []
    ensures after + [tail[0]] + tail[1..] == after + tail && tail == [tail[0]] + tail[1..]
  {
  }

  /** The first member without the blanks in front of it, and what follows it. */
  function MemberText(ms: MemberDocs, tail: CStr): CStr
    requires AreMembers(ms)
  {
    Named(StringText(ms.name), ms.left, ms.right, DocText(ms.value) + (ms.after + tail))
  }

  lemma MemberFirst(ms: MemberDocs, c: byte, more: CStr)
    requires AreMembers(ms) && c in {0x2C, 0x7D}
    requires ParseValue(DocText(ms.value) + (ms.after + ([c] + more)))
          == Ok(DocMeans(ms.value), ms.after + ([c] + more))
    ensures var s := MemberText(ms, [c] + more);
      && Solid(s) && s[0] == 0x22
      && (c == 0x7D ==> ParseMembers(s) == Ok(Member(StringMeans(ms.name), DocMeans(ms.value), MembersEnd), more))
      && (c == 0x2C ==> ParseMembers(s)
                          == (var r := ParseMembers(more);
                              if r.Ok? then Ok(Member(StringMeans(ms.name), DocMeans(ms.value), r.value), r.rest)
                              else Fail))
  {
    hide ParseValue, ParseMembers, ParseString, DocText, DocMeans, StringMeans, White;
    var value := DocText(ms.value) + (ms.after + ([c] + more));
    var s := MemberText(ms, [c] + more);
    DocOpens(ms.value);
    assert value[0] == DocText(ms.value)[0];
    assert s[0] == StringText(ms.name)[0] == 0x22;
    StringReads(ms.name, Labelled(ms.left, ms.right, value));
    hide StringText;
    MemberReads(s, StringMeans(ms.name), ms.left, ms.right, value, DocMeans(ms.value), ms.after, c, more);
  }

  lemma MembersGrouped(ms: MemberDocs, rest: CStr, tail: CStr)
    requires AreMembers(ms)
    requires tail == Behind(if ms.LastMember? then [] else MembersText(ms.next), ms.LastMember?, 0x7D, rest)
    ensures Closed(MembersText(ms), 0x7D, rest) == ms.before + MemberText(ms, tail)
  {
    hide DocText, StringText, Closed, Behind;
    var front := Named(StringText(ms.name), ms.left, ms.right, DocText(ms.value));
    if ms.LastMember? {
      NothingBehind(ms.before, front, ms.after, 0x7D, rest);
    } else {
      MoreBehind(ms.before, front, ms.after, MembersText(ms.next), 0x7D, rest);
    }
    RegroupMember(StringText(ms.name), ms.left, ms.right, DocText(ms.value), ms.after + tail);
  }

  lemma RegroupMember(name: CStr, left: CStr, right: CStr, v: CStr, tail: CStr)
    ensures Named(name, left, right, v) + tail == Named(name, left, right, v + tail)
  {
  }

  /** cJSON_ParseWithOpts takes every JSON text, with blanks in front and behind, to its meaning. */
  lemma TextReads(before: Text, d: Doc, after: Text, requireEnd: bool)
    requires White(before) && IsDoc(d) && White(after)
    ensures 0 !in before + DocText(d) + after
    ensures Parse(before + DocText(d) + after, requireEnd) == Ok(DocMeans(d), if requireEnd then [] else after)
  {
    hide ParseValue, DocText, DocMeans;
    WhiteBlank(before);
    WhiteBlank(after);
    DocOpens(d);
    var s: CStr := DocText(d) + after;
    assert before + DocText(d) + after == before + s;
    assert s[0] == DocText(d)[0];
    SkipBlank(before, s);
    SkipSolid(s);
    assert Ends(after);
    DocReads(d, after);
    SkipBlank(after, []);
    assert after + [] == after;
  }

  // ---- Numbers that the grammar does not have ----

  /** One leading zero is passed over; a second one ends the number, and so does anything behind a lone sign. */
  lemma LooseNumbers(minus: bool, ds: seq<nat>, rest: CStr)
    requires IsNumber(minus, ds) && ds[0] != 0 && Ends(rest)
    ensures ParseValue((if minus then [0x2D] else []) + ([48] + (DigitText(ds) + rest)))
         == Ok(DocMeans(NumberDoc(minus, ds)), rest)
    ensures ParseValue([48] + ([48] + rest)) == Ok(Number(0), [48] + rest)
    ensures ParseValue([0x2D] + rest) == Ok(Number(0), rest)
  {
    ZeroPassed(minus, ds, rest);
    assert ([48] + ([48] + rest))[1..] == [48] + rest;
    assert ([0x2D] + rest)[1..] == rest;
    hide DigitText, Decimal;
  }

  lemma ZeroPassed(minus: bool, ds: seq<nat>, rest: CStr)
    requires IsNumber(minus, ds) && ds[0] != 0 && Ends(rest)
    ensures ParseValue((if minus then [0x2D] else []) + ([48] + (DigitText(ds) + rest)))
         == Ok(DocMeans(NumberDoc(minus, ds)), rest)
  {
    var t := DigitText(ds) + rest;
    var z: CStr := [48] + t;
    var s: CStr := (if minus then [0x2D] else []) + z;
    assert z[1..] == t && t[0] == 48 + ds[0];
    assert minus ==> s[1..] == z;
    assert !minus ==> s == z;
    DigitsTaken(ds, rest);
    hide Decimal, TakeDigits, DigitText;
    assert s[0] == 0x2D || s[0] == 48;
    assert ParseNumber(s) == Ok(DocMeans(NumberDoc(minus, ds)), rest);
    hide ParseNumber;
  }

  // ---- What is refused ----

  /** A value starts with a word, a quote, a sign or digit, or a bracket. */
  lemma NoValueRefused(s: CStr)
    requires !([0x6E, 0x75, 0x6C, 0x6C] <= s) && !([0x66, 0x61, 0x6C, 0x73, 0x65] <= s)
    requires !([0x74, 0x72, 0x75, 0x65] <= s)
    requires s == [] || (s[0] !in {0x22, 0x2D, 0x5B, 0x7B} && !(48 <= s[0] <= 57))
    ensures ParseValue(s) == Fail
  {
  }

  /** An item is a value: nothing else may follow the bracket or a comma, not even the closing bracket. */
  lemma NoItemRefused(w: CStr, s: CStr)
    requires White(w) && (s == [] || s[0] > 32) && ParseValue(s) == Fail
    ensures ParseItems(w + s) == Fail
  {
    hide ParseValue;
    WhiteBlank(w);
    SkipBlank(w, s);
  }

  /** An item needs a comma or a closing bracket behind it. */
  lemma ItemRefused(head: CStr, v: Value, after: CStr, rest: CStr)
    requires White(after) && Solid(head) && ParseValue(head) == Ok(v, after + rest)
    requires rest == [] || (rest[0] > 32 && rest[0] != 0x2C && rest[0] != 0x5D)
    ensures ParseItems(head) == Fail
  {
    hide ParseValue;
    WhiteBlank(after);
    SkipSolid(head);
    SkipBlank(after, rest);
  }

  /** A member needs a name, a colon, and a comma or a closing bracket behind its value. */
  lemma MemberRefused(s: CStr)
    requires Solid(s)
    ensures s[0] != 0x22 ==> ParseMembers(s) == Fail
    ensures forall name: CStr, left: CStr, rest: CStr ::
      ParseString(s) == GotString(name, left + rest) && White(left)
      && (rest == [] || (rest[0] > 32 && rest[0] != 0x3A))
      ==> ParseMembers(s) == Fail
  {
    SkipSolid(s);
    forall name: CStr, left: CStr, rest: CStr |
      ParseString(s) == GotString(name, left + rest) && White(left)
      && (rest == [] || (rest[0] > 32 && rest[0] != 0x3A))
      ensures ParseMembers(s) == Fail
    {
      WhiteBlank(left);
      SkipBlank(left, rest);
    }
  }

  lemma ValueOfMemberRefused(s: CStr, name: CStr, left: CStr, right: CStr, value: CStr)
    requires Solid(s) && White(left) && White(right) && Solid(value)
    requires ParseString(s) == GotString(name, Labelled(left, right, value))
    ensures ParseValue(value) == Fail ==> ParseMembers(s) == Fail
    ensures forall v: Value, after: CStr, rest: CStr ::
      ParseValue(value) == Ok(v, after + rest) && White(after)
      && (rest == [] || (rest[0] > 32 && rest[0] != 0x2C && rest[0] != 0x7D))
      ==> ParseMembers(s) == Fail
  {
    hide ParseValue, ParseString;
    WhiteBlank(left);
    WhiteBlank(right);
    SkipSolid(s);
    SkipBlank(left, [0x3A] + (right + value));
    SkipSolid([0x3A] + (right + value));
    assert ([0x3A] + (right + value))[1..] == right + value;
    SkipBlank(right, value);
    SkipSolid(value);
    forall v: Value, after: CStr, rest: CStr |
      ParseValue(value) == Ok(v, after + rest) && White(after)
      && (rest == [] || (rest[0] > 32 && rest[0] != 0x2C && rest[0] != 0x7D))
      ensures ParseMembers(s) == Fail
    {
      WhiteBlank(after);
      SkipBlank(after, rest);
    }
  }

  /** With the demand for a finished text, anything but blanks behind the value is refused; else it is left over. */
  lemma MoreBehindRefused(before: CStr, d: Doc, after: CStr, rest: CStr)
    requires White(before) && IsDoc(d) && White(after) && rest != [] && rest[0] > 32 && Ends(after + rest)
    ensures Parse(before + (DocText(d) + (after + rest)), true) == Fail
    ensures Parse(before + (DocText(d) + (after + rest)), false) == Ok(DocMeans(d), after + rest)
  {
    hide ParseValue, DocText, DocMeans;
    WhiteBlank(before);
    WhiteBlank(after);
    DocOpens(d);
    var s: CStr := DocText(d) + (after + rest);
    assert s[0] == DocText(d)[0];
    SkipBlank(before, s);
    SkipSolid(s);
    DocReads(d, after + rest);
    SkipBlank(after, rest);
  }

  // ---- What is printed ----

  function DigitsOf(n: nat): (ds: seq<nat>)
    ensures ds != [] && (forall i | 0 <= i < |ds| :: ds[i] < 10) && Decimal(ds) == n
    ensures ds[0] == 0 ==> n == 0 && |ds| == 1
  {
    if n < 10 then [n]
    else
      var front := DigitsOf(n / 10);
      assert (front + [n % 10])[..|front|] == front;
      front + [n % 10]
  }

  lemma {:induction false} DigitsSpelled(n: nat)
    ensures Digits(n) == DigitText(DigitsOf(n))
  {
    if n >= 10 {
      DigitsSpelled(n / 10);
    }
  }

  /** Blanks of the formatted text: a line feed and tabs. */
  function NewLine(fmt: bool, tabs: nat): (w: CStr)
    ensures White(w)
  {
    if fmt then [10] + seq(tabs, _ => 9) else []
  }

  function Space(fmt: bool, c: byte): (w: CStr)
    requires c in {32, 9}
    ensures White(w)
  {
    if fmt then [c] else []
  }

  /** The printed text: without blanks, or with every member on a line of its own, as deep as it stands. */
  function DocOf(v: Value, depth: nat, fmt: bool): (d: Doc)
    ensures IsDoc(d) && DocMeans(d) == v
  {
    match v
    case Null => NullDoc
    case False => FalseDoc
    case True => TrueDoc
    case Number(n) => NumberDoc(n < 0, DigitsOf(if n < 0 then 0 - n else n))
    case Str(s) =>
      UnitsSpell(s);
      StringDoc(UnitsOf(s))
    case Arr(items) => if items.ItemsEnd? then NoItems([]) else SomeItems(ItemsOf(items, [], depth + 1, fmt))
    case Obj(members) =>
      if members.MembersEnd? then NoMembers(NewLine(fmt, if depth == 0 then 0 else depth - 1))
      else SomeMembers(MembersOf(members, depth, fmt))
  }

  function ItemsOf(items: Items, before: CStr, depth: nat, fmt: bool): (d: ItemDocs)
    requires items.Item? && White(before)
    ensures AreItems(d) && ItemsMean(d) == items
  {
    if items.next.ItemsEnd? then LastItem(before, DocOf(items.head, depth, fmt), [])
    else MoreItems(before, DocOf(items.head, depth, fmt), [], ItemsOf(items.next, Space(fmt, 32), depth, fmt))
  }

  function MembersOf(ms: Members, depth: nat, fmt: bool): (d: MemberDocs)
    requires ms.Member?
    ensures AreMembers(d) && MembersMean(d) == ms
  {
    UnitsSpell(ms.name);
    var before := NewLine(fmt, depth + 1);
    var value := DocOf(ms.value, depth + 1, fmt);
    if ms.rest.MembersEnd? then
      LastMember(before, UnitsOf(ms.name), [], Space(fmt, 9), value, NewLine(fmt, depth))
    else
      MoreMembers(before, UnitsOf(ms.name), [], Space(fmt, 9), value, [], MembersOf(ms.rest, depth, fmt))
  }

  lemma StringPrinted(s: CStr)
    ensures PrintString(s) == StringText(UnitsOf(s))
  {
    UnitsSpell(s);
  }

  /** What the printer writes is that JSON text, which means the tree. */
  lemma {:induction false} PrintIsDoc(v: Value, depth: nat, fmt: bool)
    ensures IsDoc(DocOf(v, depth, fmt)) && DocMeans(DocOf(v, depth, fmt)) == v
    ensures Print(v, depth, fmt) == DocText(DocOf(v, depth, fmt))
    decreases v, 1
  {
    assert White([]);
    hide *;
    if v.Arr? && v.items.Item? {
      ItemsPrinted(v.items, [], depth + 1, fmt);
      ArrPrinted(v.items, depth, fmt);
    } else if v.Obj? && v.members.Member? {
      MembersPrinted(v.members, depth, fmt);
      ObjPrinted(v.members, depth, fmt);
    } else {
      LeafPrinted(v, depth, fmt);
    }
  }

  lemma LeafPrinted(v: Value, depth: nat, fmt: bool)
    requires (v.Arr? ==> v.items.ItemsEnd?) && (v.Obj? ==> v.members.MembersEnd?)
    ensures Print(v, depth, fmt) == DocText(DocOf(v, depth, fmt))
  {
    hide PrintItems, PrintMembers, PrintString, StringText, ItemsText, MembersText, ItemsOf, MembersOf, NewLine, Tabs;
    hide PrintNumber, DigitText, DigitsOf, Decimal;
    match v
    case Number(n) => NumberPrinted(n, depth, fmt);
    case Str(s) => StringPrinted(s);
    case Obj(_) => NewLinePrinted(fmt, if depth == 0 then 0 else depth - 1);
    case _ =>
  }

  lemma NumberPrinted(n: i32, depth: nat, fmt: bool)
    ensures Print(Number(n), depth, fmt) == DocText(DocOf(Number(n), depth, fmt))
  {
    var m: nat := if n < 0 then 0 - n else n;
    DigitsSpelled(m);
    NumberDocIs(n, depth, fmt, m);
    PrintNumberIs(n, depth, fmt, m);
    hide Digits, DigitText, DigitsOf, Decimal, DocOf, Print;
  }

  lemma NumberDocIs(n: i32, depth: nat, fmt: bool, m: nat)
    requires m == if n < 0 then 0 - n else n
    ensures DocOf(Number(n), depth, fmt) == NumberDoc(n < 0, DigitsOf(m))
  {
    hide DigitsOf;
  }

  lemma PrintNumberIs(n: i32, depth: nat, fmt: bool, m: nat)
    requires m == if n < 0 then 0 - n else n
    ensures Print(Number(n), depth, fmt) == (if n < 0 then [0x2D] else []) + Digits(m)
  {
    hide Digits;
  }

  lemma ArrPrinted(items: Items, depth: nat, fmt: bool)
    requires items.Item?
    requires [] + PrintItems(items, depth + 1, fmt) == ItemsText(ItemsOf(items, [], depth + 1, fmt))
    ensures Print(Arr(items), depth, fmt) == DocText(DocOf(Arr(items), depth, fmt))
  {
    hide PrintItems, ItemsText, ItemsOf;
    assert [] + PrintItems(items, depth + 1, fmt) == PrintItems(items, depth + 1, fmt);
  }

  lemma ObjPrinted(members: Members, depth: nat, fmt: bool)
    requires members.Member?
    requires When(fmt, [NEWLINE]) + PrintMembers(members, depth + 1, fmt) + When(fmt, Tabs(depth))
          == MembersText(MembersOf(members, depth, fmt))
    ensures Print(Obj(members), depth, fmt) == DocText(DocOf(Obj(members), depth, fmt))
  {
    hide PrintMembers, MembersText, MembersOf, When, Tabs;
  }

  lemma NewLinePrinted(fmt: bool, tabs: nat)
    ensures NewLine(fmt, tabs) == When(fmt, [NEWLINE] + Tabs(tabs)) == When(fmt, [NEWLINE]) + When(fmt, Tabs(tabs))
  {
    assert Tabs(tabs) == seq(tabs, _ => 9);
  }

  lemma {:induction false} ItemsPrinted(items: Items, before: CStr, depth: nat, fmt: bool)
    requires items.Item? && White(before)
    ensures before + PrintItems(items, depth, fmt) == ItemsText(ItemsOf(items, before, depth, fmt))
    decreases items, 0
  {
    hide *;
    PrintIsDoc(items.head, depth, fmt);
    if items.next.Item? {
      ItemsPrinted(items.next, Space(fmt, 32), depth, fmt);
      MoreItemsPrinted(items, before, depth, fmt);
    } else {
      LastItemPrinted(items, before, depth, fmt);
    }
  }

  lemma LastItemPrinted(items: Items, before: CStr, depth: nat, fmt: bool)
    requires items.Item? && items.next.ItemsEnd? && White(before)
    requires Print(items.head, depth, fmt) == DocText(DocOf(items.head, depth, fmt))
    ensures before + PrintItems(items, depth, fmt) == ItemsText(ItemsOf(items, before, depth, fmt))
  {
    hide Print, DocText, DocOf;
  }

  lemma MoreItemsPrinted(items: Items, before: CStr, depth: nat, fmt: bool)
    requires items.Item? && items.next.Item? && White(before)
    requires Print(items.head, depth, fmt) == DocText(DocOf(items.head, depth, fmt))
    requires var w := Space(fmt, 32);
      w + PrintItems(items.next, depth, fmt) == ItemsText(ItemsOf(items.next, w, depth, fmt))
    ensures before + PrintItems(items, depth, fmt) == ItemsText(ItemsOf(items, before, depth, fmt))
  {
    var next, p := ItemsOf(items.next, Space(fmt, 32), depth, fmt), Print(items.head, depth, fmt);
    ItemsUnfold(items, depth, fmt);
    ItemsTextUnfold(before, DocOf(items.head, depth, fmt), next);
    hide Print, PrintItems, DocText, DocOf, ItemsText;
    assert When(fmt, [SPACE]) == Space(fmt, 32);
    RegroupItems(before, p, Space(fmt, 32), PrintItems(items.next, depth, fmt));
  }

  lemma ItemsTextUnfold(before: CStr, head: Doc, next: ItemDocs)
    requires AreItems(MoreItems(before, head, [], next))
    ensures ItemsText(MoreItems(before, head, [], next)) == before + (DocText(head) + ([0x2C] + ItemsText(next)))
  {
    ItemsTextIs(MoreItems(before, head, [], next));
    hide DocText, ItemsText, IsDoc, White, Separated;
    RegroupHead(before, DocText(head), ItemsText(next));
  }

  lemma RegroupHead(before: CStr, head: CStr, next: CStr)
    ensures before + head + [] + Separated(next) == before + (head + ([0x2C] + next)) == before + head + ([0x2C] + next)
  {
  }

  lemma ItemsTextIs(items: ItemDocs)
    requires AreItems(items)
    ensures ItemsText(items) == items.before + DocText(items.head) + items.after
                              + (if items.LastItem? then [] else Separated(ItemsText(items.next)))
  {
    hide DocText, Separated, IsDoc, White;
  }

  lemma MembersTextIs(ms: MemberDocs)
    requires AreMembers(ms)
    ensures MembersText(ms)
         == ms.before + Named(StringText(ms.name), ms.left, ms.right, DocText(ms.value)) + ms.after
            + (if ms.LastMember? then [] else Separated(MembersText(ms.next)))
  {
    hide DocText, StringText, Named, Separated, IsDoc, White;
  }

  lemma RegroupItems(before: CStr, p: CStr, w: CStr, q: CStr)
    ensures before + (p + ([0x2C] + w + q)) == before + (p + ([0x2C] + (w + q)))
  {
  }

  lemma {:induction false} MembersPrinted(ms: Members, depth: nat, fmt: bool)
    requires ms.Member?
    ensures When(fmt, [NEWLINE]) + PrintMembers(ms, depth + 1, fmt) + When(fmt, Tabs(depth))
         == MembersText(MembersOf(ms, depth, fmt))
    decreases ms, 0
  {
    hide *;
    PrintIsDoc(ms.value, depth + 1, fmt);
    if ms.rest.Member? {
      MembersPrinted(ms.rest, depth, fmt);
      MoreMembersPrinted(ms, depth, fmt);
    } else {
      LastMemberPrinted(ms, depth, fmt);
    }
  }

  /** A member up to its value, without the line feed in front of it. */
  function MemberFront(ms: Members, depth: nat, fmt: bool): CStr
    requires ms.Member?
  {
    When(fmt, Tabs(depth + 1)) + PrintString(ms.name) + [COLON] + When(fmt, [TAB]) + Print(ms.value, depth + 1, fmt)
  }

  lemma MembersUnfold(ms: Members, depth: nat, fmt: bool)
    requires ms.Member?
    ensures PrintMembers(ms, depth + 1, fmt)
         == MemberFront(ms, depth, fmt) + When(!ms.rest.MembersEnd?, [COMMA]) + When(fmt, [NEWLINE])
            + PrintMembers(ms.rest, depth + 1, fmt)
  {
    hide Print, PrintString, When, Tabs;
  }

  lemma FrontPrinted(ms: Members, depth: nat, fmt: bool)
    requires ms.Member? && Print(ms.value, depth + 1, fmt) == DocText(DocOf(ms.value, depth + 1, fmt))
    ensures AllWellFormed(UnitsOf(ms.name))
    ensures When(fmt, [NEWLINE]) + MemberFront(ms, depth, fmt)
         == NewLine(fmt, depth + 1)
            + Named(StringText(UnitsOf(ms.name)), [], Space(fmt, 9), DocText(DocOf(ms.value, depth + 1, fmt)))
  {
    StringPrinted(ms.name);
    NewLinePrinted(fmt, depth + 1);
    assert When(fmt, [TAB]) == Space(fmt, 9);
    hide Print, PrintString, DocText, DocOf, StringText, Tabs, NewLine, When, Space;
    RegroupFront(When(fmt, [NEWLINE]), When(fmt, Tabs(depth + 1)), PrintString(ms.name), Space(fmt, 9),
                 Print(ms.value, depth + 1, fmt));
  }

  lemma RegroupFront(nl: CStr, tabs: CStr, name: CStr, w: CStr, value: CStr)
    ensures nl + (tabs + name + [0x3A] + w + value) == (nl + tabs) + Named(name, [], w, value)
  {
  }

  lemma LastMemberPrinted(ms: Members, depth: nat, fmt: bool)
    requires ms.Member? && ms.rest.MembersEnd?
    requires Print(ms.value, depth + 1, fmt) == DocText(DocOf(ms.value, depth + 1, fmt))
    ensures When(fmt, [NEWLINE]) + PrintMembers(ms, depth + 1, fmt) + When(fmt, Tabs(depth))
         == MembersText(MembersOf(ms, depth, fmt))
  {
    MembersUnfold(ms, depth, fmt);
    FrontPrinted(ms, depth, fmt);
    NewLinePrinted(fmt, depth);
    NoComma();
    LastTextUnfold(ms, depth, fmt);
    hide *;
    RegroupLast(When(fmt, [NEWLINE]), MemberFront(ms, depth, fmt), When(fmt, Tabs(depth)));
  }

  lemma LastTextUnfold(ms: Members, depth: nat, fmt: bool)
    requires ms.Member? && ms.rest.MembersEnd?
    ensures AllWellFormed(UnitsOf(ms.name)) && PrintMembers(ms.rest, depth + 1, fmt) == []
    ensures MembersText(MembersOf(ms, depth, fmt))
         == NewLine(fmt, depth + 1)
            + Named(StringText(UnitsOf(ms.name)), [], Space(fmt, 9), DocText(DocOf(ms.value, depth + 1, fmt)))
            + NewLine(fmt, depth)
  {
    hide DocText, DocOf, StringText, NewLine, Named;
  }

  lemma RegroupLast(nl: CStr, front: CStr, tabs: CStr)
    ensures nl + (front + [] + nl + []) + tabs == (nl + front) + (nl + tabs)
  {
  }

  lemma NoComma()
    ensures When(false, [COMMA]) == [] && When(true, [COMMA]) == [0x2C]
  {
  }

  lemma MoreMembersPrinted(ms: Members, depth: nat, fmt: bool)
    requires ms.Member? && ms.rest.Member?
    requires Print(ms.value, depth + 1, fmt) == DocText(DocOf(ms.value, depth + 1, fmt))
    requires When(fmt, [NEWLINE]) + PrintMembers(ms.rest, depth + 1, fmt) + When(fmt, Tabs(depth))
          == MembersText(MembersOf(ms.rest, depth, fmt))
    ensures When(fmt, [NEWLINE]) + PrintMembers(ms, depth + 1, fmt) + When(fmt, Tabs(depth))
         == MembersText(MembersOf(ms, depth, fmt))
  {
    MembersUnfold(ms, depth, fmt);
    FrontPrinted(ms, depth, fmt);
    NoComma();
    MembersTextUnfold(ms, depth, fmt);
    hide *;
    RegroupMembers(When(fmt, [NEWLINE]), MemberFront(ms, depth, fmt), PrintMembers(ms.rest, depth + 1, fmt),
                   When(fmt, Tabs(depth)));
  }

  lemma MembersTextUnfold(ms: Members, depth: nat, fmt: bool)
    requires ms.Member? && ms.rest.Member?
    ensures AllWellFormed(UnitsOf(ms.name))
    ensures MembersText(MembersOf(ms, depth, fmt))
         == NewLine(fmt, depth + 1)
            + Named(StringText(UnitsOf(ms.name)), [], Space(fmt, 9), DocText(DocOf(ms.value, depth + 1, fmt)))
            + ([0x2C] + MembersText(MembersOf(ms.rest, depth, fmt)))
  {
    MembersTextIs(MembersOf(ms, depth, fmt));
    MembersOfMore(ms, depth, fmt);
    hide *;
    RegroupHead(NewLine(fmt, depth + 1),
                Named(StringText(UnitsOf(ms.name)), [], Space(fmt, 9), DocText(DocOf(ms.value, depth + 1, fmt))),
                MembersText(MembersOf(ms.rest, depth, fmt)));
  }

  lemma MembersOfMore(ms: Members, depth: nat, fmt: bool)
    requires ms.Member? && ms.rest.Member?
    ensures var d := MembersOf(ms, depth, fmt);
      && d.MoreMembers? && AreMembers(d) && d.before == NewLine(fmt, depth + 1) && d.name == UnitsOf(ms.name)
      && d.left == [] && d.right == Space(fmt, 9) && d.value == DocOf(ms.value, depth + 1, fmt) && d.after == []
      && d.next == MembersOf(ms.rest, depth, fmt) && AreMembers(d.next) && AllWellFormed(UnitsOf(ms.name))
  {
    hide DocOf, NewLine, White, IsDoc, Space;
  }

  lemma RegroupMembers(nl: CStr, front: CStr, rest: CStr, tabs: CStr)
    ensures nl + (front + [0x2C] + nl + rest) + tabs == (nl + front) + ([0x2C] + (nl + rest + tabs))
  {
  }
}
