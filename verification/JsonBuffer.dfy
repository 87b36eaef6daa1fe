/** cJSON_PrintBuffered: printing into one growing buffer gives the text of the allocating printer. */
module JsonBuffer {
  import opened Bytes
  import opened JsonString
  import opened Json
  import opened Bits

  /** Sizes are C ints; up to here pow2gt does not overflow. */
  const MAX_SIZE: nat := 0x4000_0000

  // ---- Lengths the printers compute beforehand ----

  lemma {:induction false} DigitsShort(n: nat, k: nat, bound: nat)
    requires bound == TenTo(k) && n < bound && 0 < k
    ensures |Digits(n)| <= k
    decreases k
  {
    if n >= 10 {
      DigitsShort(n / 10, k - 1, TenTo(k - 1));
    }
  }

  function TenTo(k: nat): nat {
    if k == 0 then 1 else 10 * TenTo(k - 1)
  }

  lemma NumberShort(n: i32)
    ensures |PrintNumber(n)| <= 11 && (n == 0 ==> |PrintNumber(n)| == 1)
  {
    assert TenTo(3) == 1000;
    assert TenTo(6) == 1000000;
    assert TenTo(9) == 1000000000;
    DigitsShort(Magnitude(n), 10, TenTo(10));
  }

  /** What the length loop of print_string_ptr adds for one character. */
  function EscapeRoom(c: byte): nat {
    if c in {QUOTE, BACKSLASH, 0x08, 0x0C, 0x0A, 0x0D, 0x09} then 2 else if c < 32 then 6 else 1
  }

  lemma EscapeRoomExact(c: byte)
    ensures |EscapeChar(c)| == EscapeRoom(c)
  {
  }

  lemma {:induction false} EscapeAppend(s: CStr, c: byte)
    requires c != 0
    ensures Escape(s + [c]) == Escape(s) + EscapeChar(c)
    decreases |s|
  {
    hide EscapeChar;
    if s == [] {
      assert [c][1..] == [];
      assert [] + [c] == [c];
      assert EscapeChar(c) + [] == EscapeChar(c);
    } else {
      assert (s + [c])[1..] == s[1..] + [c];
      EscapeAppend(s[1..], c);
      assert EscapeChar(s[0]) + (Escape(s[1..]) + EscapeChar(c)) == (EscapeChar(s[0]) + Escape(s[1..])) + EscapeChar(c);
    }
  }

  predicate NeedsEscape(c: byte) {
    c <= 31 || c == QUOTE || c == BACKSLASH
  }

  lemma {:induction false} NothingToEscape(s: CStr)
    requires forall i | 0 <= i < |s| :: !NeedsEscape(s[i])
    ensures Escape(s) == s
    decreases |s|
  {
    if s != [] {
      NothingToEscape(s[1..]);
    }
  }

  /** The length print_array allocates for a non-empty array. */
  function ItemsRoom(items: Items, depth: nat, fmt: bool): nat {
    match items
    case ItemsEnd => 5
    case Item(head, next) => |Print(head, depth, fmt)| + 2 + (if fmt then 1 else 0) + ItemsRoom(next, depth, fmt)
  }

  /** The length print_object allocates for its members, at the members' depth. */
  function MembersRoom(members: Members, depth: nat, fmt: bool): nat {
    match members
    case MembersEnd => 7 + (if fmt then depth else 0)
    case Member(name, value, rest) =>
      |Print(value, depth, fmt)| + |PrintString(name)| + 2 + (if fmt then 2 + depth else 0)
      + MembersRoom(rest, depth, fmt)
  }

  lemma {:induction false} ItemsRoomSuffices(items: Items, depth: nat, fmt: bool)
    ensures |PrintItems(items, depth, fmt)| + 5 <= ItemsRoom(items, depth, fmt)
  {
    hide Print;
    if items.Item? {
      ItemsRoomSuffices(items.next, depth, fmt);
    }
  }

  lemma {:induction false} MembersRoomSuffices(members: Members, depth: nat, fmt: bool)
    ensures |PrintMembers(members, depth, fmt)| + 7 + (if fmt then depth else 0) <= MembersRoom(members, depth, fmt)
  {
    hide Print, PrintString;
    if members.Member? {
      MembersRoomSuffices(members.rest, depth, fmt);
    }
  }

  lemma RoomForTabs(members: Members, depth: nat, fmt: bool)
    requires members.Member?
    ensures |Print(Obj(members), depth, fmt)|
         <= 3 + |PrintMembers(members, depth + 1, fmt)| + (if fmt then depth else 0)
  {
    hide PrintMembers;
  }

  /** The allocating printers never write more than they allocated, terminator included. */
  lemma PlainRoomSuffices(v: Value, depth: nat, fmt: bool)
    ensures v.Arr? && v.items.Item? ==> |Print(v, depth, fmt)| + 1 <= ItemsRoom(v.items, depth + 1, fmt)
    ensures v.Obj? && v.members.Member? ==> |Print(v, depth, fmt)| + 1 <= MembersRoom(v.members, depth + 1, fmt)
    ensures v == Obj(MembersEnd) ==> |Print(v, depth, fmt)| + 1 <= if fmt then depth + 4 else 3
  {
    hide PrintItems, PrintMembers, ItemsRoom, MembersRoom, Digits, Escape;
    if v.Arr? {
      ItemsRoomSuffices(v.items, depth + 1, fmt);
    }
    if v.Obj? && v.members.Member? {
      MembersRoomSuffices(v.members, depth + 1, fmt);
      RoomForTabs(v.members, depth, fmt);
    }
  }

  // ---- The buffer ----

  class PrintBuffer {
    var buffer: array<byte>
    var offset: nat

    constructor (prebuffer: nat)
      ensures buffer.Length == prebuffer && fresh(buffer) && At([])
    {
      buffer := new byte[prebuffer];
      offset := 0;
    }

    /** The buffer starts with this text, and the offset is right behind it. */
    ghost predicate At(full: Text)
      reads this, buffer
    {
      offset == |full| <= buffer.Length && buffer[..offset] == full
    }

    /** The buffer starts with this text, terminated; the offset is somewhere in the last part of it. */
    ghost predicate Holds(pre: Text, t: Text)
      reads this, buffer
    {
      && |pre| <= offset <= |pre| + |t| < buffer.Length
      && buffer[..|pre| + |t|] == pre + t && buffer[|pre| + |t|] == 0
    }

    /** ensure: room for `needed` bytes behind the offset, keeping what is there. */
    method Ensure(needed: nat, ghost pre: Text)
      requires At(pre) && |pre| + needed <= MAX_SIZE
      modifies this`buffer
      ensures buffer == old(buffer) || fresh(buffer)
      ensures At(pre) && |pre| + needed <= buffer.Length
    {
      var total := needed + offset;
      if total <= buffer.Length {
        return;
      }
      Pow2GtIsPower(total);
      var newbuffer := new byte[Pow2Gt(total)];
      CopyInto(newbuffer, 0, buffer[..]);
      buffer := newbuffer;
    }

    /** update: strlen from the offset finds the end of the text. */
    method Update(ghost pre: Text, ghost t: CStr)
      requires Holds(pre, t)
      modifies this`offset
      ensures At(pre + t)
    {
      var end := offset;
      assert forall i | |pre| <= i < |pre| + |t| :: buffer[i] == (pre + t)[i] == t[i - |pre|];
      while buffer[end] != 0
        invariant offset <= end <= |pre| + |t|
        decreases |pre| + |t| - end
      {
        end := end + 1;
      }
      offset := end;
    }

    /** Text behind the offset, which moves behind it. */
    method Append(text: CStr, needed: nat, ghost pre: Text)
      requires |text| <= needed && At(pre) && |pre| + needed <= MAX_SIZE
      modifies this, buffer
      ensures buffer == old(buffer) || fresh(buffer)
      ensures At(pre + text)
    {
      Ensure(needed, pre);
      CopyInto(buffer, offset, text);
      offset := offset + |text|;
      assert buffer[..offset] == pre + text;
    }

    /** Text and a terminator behind the offset, which stays. */
    method Finish(text: CStr, needed: nat, ghost pre: Text)
      requires |text| + 1 <= needed && At(pre) && |pre| + needed <= MAX_SIZE
      modifies this`buffer, buffer
      ensures buffer == old(buffer) || fresh(buffer)
      ensures Holds(pre, text)
    {
      Ensure(needed, pre);
      CopyInto(buffer, offset, text);
      assert buffer[..offset + |text|] == pre + text;
      buffer[offset + |text|] := 0;
    }

    /** Text and a terminator behind the offset, which moves onto the terminator. */
    method AppendTerminated(text: CStr, needed: nat, ghost pre: Text)
      requires |text| + 1 <= needed && At(pre) && |pre| + needed <= MAX_SIZE
      modifies this, buffer
      ensures buffer == old(buffer) || fresh(buffer)
      ensures At(pre + text)
    {
      Finish(text, needed, pre);
      offset := offset + |text|;
    }

    /** The escaping loop of print_string_ptr, from the opening quote on. */
    method WriteEscaped(s: CStr, ghost pre: Text)
      requires At(pre) && |pre| + |PrintString(s)| < buffer.Length
      modifies buffer
      ensures Holds(pre, PrintString(s))
    {
      hide EscapeChar, Escape;
      buffer[offset] := QUOTE;
      var w, k := offset + 1, 0;
      NothingEscaped(s);
      assert buffer[..w] == pre + [QUOTE] + Escape(s[..k]);
      while k < |s|
        invariant 0 <= k <= |s| && w == offset + 1 + |Escape(s[..k])| <= offset + 1 + |Escape(s)|
        invariant buffer[..w] == pre + [QUOTE] + Escape(s[..k])
      {
        EscapeAppend(s[..k], s[k]);
        assert s[..k + 1] == s[..k] + [s[k]];
        EscapePrefix(s, k + 1);
        CopyInto(buffer, w, EscapeChar(s[k]));
        w, k := w + |EscapeChar(s[k])|, k + 1;
      }
      assert s[..k] == s;
      buffer[w] := QUOTE;
      buffer[w + 1] := 0;
      assert buffer[..w + 1] == pre + PrintString(s);
    }

    /** print_string_ptr. */
    method PrintStringPtr(s: CStr, ghost pre: Text)
      requires At(pre) && |pre| + |PrintString(s)| + 1 <= MAX_SIZE
      modifies this`buffer, buffer
      ensures buffer == old(buffer) || fresh(buffer)
      ensures Holds(pre, PrintString(s))
    {
      hide At, Holds;
      var plain := AllPlain(s);
      if plain {
        NothingToEscape(s);
        var len := |s|;
        Finish([QUOTE] + s + [QUOTE], len + 3, pre);
        return;
      }
      var len := EscapedLength(s);
      Ensure(len + 3, pre);
      WriteEscaped(s, pre);
    }

    /** print_value: the text goes behind the offset, which ends up somewhere in it. */
    method PrintValue(v: Value, depth: nat, fmt: bool, ghost pre: Text)
      requires At(pre) && |pre| + |Print(v, depth, fmt)| + 21 <= MAX_SIZE
      modifies this, buffer
      ensures buffer == old(buffer) || fresh(buffer)
      ensures Holds(pre, Print(v, depth, fmt))
      decreases v, 1
    {
      hide PrintItems, PrintMembers, Escape, Digits, At, Holds;
      match v
      case Null => Finish(NULL_TEXT, 5, pre);
      case False => Finish(FALSE_TEXT, 6, pre);
      case True => Finish(TRUE_TEXT, 5, pre);
      case Number(n) =>
        NumberShort(n);
        Finish(PrintNumber(n), if n == 0 then 2 else 21, pre);
      case Str(s) => PrintStringPtr(s, pre);
      case Arr(items) =>
        if items.ItemsEnd? {
          Finish([LBRACKET, RBRACKET], 3, pre);
        } else {
          PrintArray(items, depth, fmt, pre);
        }
      case Obj(members) =>
        if members.MembersEnd? {
          var t := When(fmt, [NEWLINE] + Tabs(if depth == 0 then 0 else depth - 1));
          Finish([LBRACE] + t + [RBRACE], if fmt then depth + 4 else 3, pre);
        } else {
          PrintObject(members, depth, fmt, pre);
        }
    }

    /** print_array for a non-empty array. */
    method PrintArray(items: Items, depth: nat, fmt: bool, ghost pre: Text)
      requires items.Item?
      requires At(pre) && |pre| + |PrintItems(items, depth + 1, fmt)| + 23 <= MAX_SIZE
      modifies this, buffer
      ensures buffer == old(buffer) || fresh(buffer)
      ensures Holds(pre, [LBRACKET] + PrintItems(items, depth + 1, fmt) + [RBRACKET])
      decreases items, 2
    {
      hide PrintItems, Print, At, Holds;
      ghost var t := PrintItems(items, depth + 1, fmt);
      Append([LBRACKET], 1, pre);
      PrintItemList(items, depth + 1, fmt, pre + [LBRACKET]);
      Finish([RBRACKET], 2, (pre + [LBRACKET]) + t);
      Bracketed(pre, t, [RBRACKET]);
    }

    /** The loop of print_array. */
    method PrintItemList(items: Items, depth: nat, fmt: bool, ghost pre: Text)
      requires items.Item?
      requires At(pre) && |pre| + |PrintItems(items, depth, fmt)| + 21 <= MAX_SIZE
      modifies this, buffer
      ensures buffer == old(buffer) || fresh(buffer)
      ensures At(pre + PrintItems(items, depth, fmt))
      decreases items, 1
    {
      hide PrintItems, Print, At, Holds;
      ghost var all := PrintItems(items, depth, fmt);
      var child := items;
      ghost var done: Text := [];
      assert pre + done == pre;
      while child.Item?
        invariant child == items || child < items
        invariant buffer == old(buffer) || fresh(buffer)
        invariant At(pre + done)
        invariant done + PrintItems(child, depth, fmt) == all
        decreases child
      {
        ChildText(child, depth, fmt, done);
        PrintChild(child, depth, fmt, pre + done);
        assert (pre + done) + OneItem(child, depth, fmt) == pre + (done + OneItem(child, depth, fmt));
        done := done + OneItem(child, depth, fmt);
        child := child.next;
      }
      NoItems(depth, fmt);
      assert done == all;
    }

    /** One turn of that loop. */
    method PrintChild(child: Items, depth: nat, fmt: bool, ghost pre: Text)
      requires child.Item?
      requires At(pre) && |pre| + |OneItem(child, depth, fmt)| + 21 <= MAX_SIZE
      modifies this, buffer
      ensures buffer == old(buffer) || fresh(buffer)
      ensures At(pre + OneItem(child, depth, fmt))
      decreases child, 0
    {
      hide Print, At, Holds;
      PrintValue(child.head, depth, fmt, pre);
      Update(pre, Print(child.head, depth, fmt));
      if child.next.Item? {
        AppendTerminated([COMMA] + When(fmt, [SPACE]), (if fmt then 2 else 1) + 1, pre + Print(child.head, depth, fmt));
        assert (pre + Print(child.head, depth, fmt)) + ([COMMA] + When(fmt, [SPACE]))
            == pre + OneItem(child, depth, fmt);
      } else {
        assert OneItem(child, depth, fmt) == Print(child.head, depth, fmt);
      }
    }

    /** print_object for a non-empty object. */
    method PrintObject(members: Members, depth: nat, fmt: bool, ghost pre: Text)
      requires members.Member?
      requires At(pre) && |pre| + |Print(Obj(members), depth, fmt)| + 21 <= MAX_SIZE
      modifies this, buffer
      ensures buffer == old(buffer) || fresh(buffer)
      ensures Holds(pre, Print(Obj(members), depth, fmt))
      decreases members, 4
    {
      hide PrintMembers, At, Holds, Tabs;
      ghost var all := PrintMembers(members, depth + 1, fmt);
      var open := [LBRACE] + When(fmt, [NEWLINE]);
      AppendTerminated(open, (if fmt then 2 else 1) + 1, pre);
      PrintMemberList(members, depth + 1, fmt, pre + open);
      Finish(When(fmt, Tabs(depth)) + [RBRACE], if fmt then depth + 2 else 2, (pre + open) + all);
      ObjectText(members, depth, fmt);
      Bracketed3(pre, open, all, When(fmt, Tabs(depth)) + [RBRACE]);
    }

    /** A text is held as the sum of its parts, wherever the last part began. */
    lemma Bracketed(pre: Text, t: Text, close: Text)
      requires Holds((pre + [LBRACKET]) + t, close)
      ensures Holds(pre, [LBRACKET] + t + close)
    {
      assert ((pre + [LBRACKET]) + t) + close == pre + ([LBRACKET] + t + close);
    }

    lemma Bracketed3(pre: Text, open: Text, t: Text, close: Text)
      requires Holds((pre + open) + t, close)
      ensures Holds(pre, open + t + close)
    {
      assert ((pre + open) + t) + close == pre + (open + t + close);
    }

    /** The loop of print_object. */
    method PrintMemberList(members: Members, depth: nat, fmt: bool, ghost pre: Text)
      requires members.Member?
      requires At(pre) && |pre| + |PrintMembers(members, depth, fmt)| + 21 <= MAX_SIZE
      modifies this, buffer
      ensures buffer == old(buffer) || fresh(buffer)
      ensures At(pre + PrintMembers(members, depth, fmt))
      decreases members, 3
    {
      hide PrintMembers, Print, At, Holds;
      ghost var all := PrintMembers(members, depth, fmt);
      var child := members;
      ghost var done: Text := [];
      assert pre + done == pre;
      while child.Member?
        invariant child == members || child < members
        invariant buffer == old(buffer) || fresh(buffer)
        invariant At(pre + done)
        invariant done + PrintMembers(child, depth, fmt) == all
        decreases child
      {
        MemberText(child, depth, fmt, done);
        PrintMember(child, depth, fmt, pre + done);
        assert (pre + done) + OneMember(child, depth, fmt) == pre + (done + OneMember(child, depth, fmt));
        done := done + OneMember(child, depth, fmt);
        child := child.rest;
      }
      NoMembers(depth, fmt);
      assert done == all;
    }

    /** One turn of that loop. */
    method PrintMember(child: Members, depth: nat, fmt: bool, ghost pre: Text)
      requires child.Member?
      requires At(pre) && |pre| + |OneMember(child, depth, fmt)| + 21 <= MAX_SIZE
      modifies this, buffer
      ensures buffer == old(buffer) || fresh(buffer)
      ensures At(pre + OneMember(child, depth, fmt))
      decreases child, 2
    {
      hide Print, KeyText, At, Holds;
      ghost var k, p := KeyText(child, depth, fmt), Print(child.value, depth, fmt);
      PrintKey(child, depth, fmt, pre);
      PrintValue(child.value, depth, fmt, pre + k);
      Update(pre + k, p);
      var tail := When(!child.rest.MembersEnd?, [COMMA]) + When(fmt, [NEWLINE]);
      var len := (if fmt then 1 else 0) + (if child.rest.Member? then 1 else 0);
      AppendTerminated(tail, len + 1, (pre + k) + p);
      assert ((pre + k) + p) + tail == pre + OneMember(child, depth, fmt);
    }

    /** The tabs, the name and the colon of one member. */
    method PrintKey(child: Members, depth: nat, fmt: bool, ghost pre: Text)
      requires child.Member?
      requires At(pre) && |pre| + |KeyText(child, depth, fmt)| + 21 <= MAX_SIZE
      modifies this, buffer
      ensures buffer == old(buffer) || fresh(buffer)
      ensures At(pre + KeyText(child, depth, fmt))
    {
      hide PrintString, At, Holds, Tabs;
      ghost var t, n := When(fmt, Tabs(depth)), PrintString(child.name);
      if fmt {
        Append(Tabs(depth), depth, pre);
      } else {
        assert pre + t == pre;
      }
      PrintStringPtr(child.name, pre + t);
      Update(pre + t, n);
      Append([COLON] + When(fmt, [TAB]), if fmt then 2 else 1, (pre + t) + n);
      assert ((pre + t) + n) + ([COLON] + When(fmt, [TAB])) == pre + KeyText(child, depth, fmt);
    }
  }

  /** The first loop of print_string_ptr. */
  method AllPlain(s: CStr) returns (plain: bool)
    ensures plain <==> forall k | 0 <= k < |s| :: !NeedsEscape(s[k])
  {
    var flag := false;
    for i := 0 to |s|
      invariant flag <==> exists k | 0 <= k < i :: NeedsEscape(s[k])
    {
      flag := flag || NeedsEscape(s[i]);
    }
    plain := !flag;
  }

  /** The length loop of print_string_ptr: exactly what the escaped text needs between its quotes. */
  method EscapedLength(s: CStr) returns (len: nat)
    ensures len == |Escape(s)|
  {
    len := 0;
    assert s[..0] == [];
    for i := 0 to |s|
      invariant len == |Escape(s[..i])|
    {
      EscapeRoomExact(s[i]);
      EscapeAppend(s[..i], s[i]);
      assert s[..i + 1] == s[..i] + [s[i]];
      len := len + EscapeRoom(s[i]);
    }
    assert s[..|s|] == s;
  }

  /** What one item puts into the text of its array. */
  function OneItem(child: Items, depth: nat, fmt: bool): CStr
    requires child.Item?
  {
    Print(child.head, depth, fmt) + (if child.next.ItemsEnd? then [] else [COMMA] + When(fmt, [SPACE]))
  }

  function KeyText(child: Members, depth: nat, fmt: bool): CStr
    requires child.Member?
  {
    When(fmt, Tabs(depth)) + PrintString(child.name) + ([COLON] + When(fmt, [TAB]))
  }

  function OneMember(child: Members, depth: nat, fmt: bool): CStr
    requires child.Member?
  {
    KeyText(child, depth, fmt) + Print(child.value, depth, fmt)
    + (When(!child.rest.MembersEnd?, [COMMA]) + When(fmt, [NEWLINE]))
  }

  lemma MemberText(child: Members, depth: nat, fmt: bool, done: Text)
    requires child.Member?
    ensures done + PrintMembers(child, depth, fmt)
         == (done + OneMember(child, depth, fmt)) + PrintMembers(child.rest, depth, fmt)
    ensures |PrintMembers(child, depth, fmt)| == |OneMember(child, depth, fmt)| + |PrintMembers(child.rest, depth, fmt)|
  {
    hide Print, PrintString, When, Tabs;
    Eight(When(fmt, Tabs(depth)), PrintString(child.name), [COLON], When(fmt, [TAB]), Print(child.value, depth, fmt),
          When(!child.rest.MembersEnd?, [COMMA]), When(fmt, [NEWLINE]), PrintMembers(child.rest, depth, fmt));
  }

  lemma Eight(a: Text, b: Text, c: Text, d: Text, e: Text, f: Text, g: Text, h: Text)
    ensures a + b + c + d + e + f + g + h == ((a + b + (c + d)) + e + (f + g)) + h
  {
  }

  lemma NoMembers(depth: nat, fmt: bool)
    ensures PrintMembers(MembersEnd, depth, fmt) == []
  {
  }

  lemma ObjectText(members: Members, depth: nat, fmt: bool)
    requires members.Member?
    ensures ([LBRACE] + When(fmt, [NEWLINE])) + PrintMembers(members, depth + 1, fmt)
      + (When(fmt, Tabs(depth)) + [RBRACE])
         == Print(Obj(members), depth, fmt)
  {
    hide PrintMembers, Tabs;
  }

  lemma ChildText(child: Items, depth: nat, fmt: bool, done: Text)
    requires child.Item?
    ensures done + PrintItems(child, depth, fmt)
         == (done + OneItem(child, depth, fmt)) + PrintItems(child.next, depth, fmt)
    ensures |PrintItems(child, depth, fmt)| == |OneItem(child, depth, fmt)| + |PrintItems(child.next, depth, fmt)|
  {
    hide Print;
    if child.next.Item? {
      hide PrintItems, When;
      ItemsUnfold(child, depth, fmt);
    }
  }

  lemma NoItems(depth: nat, fmt: bool)
    ensures PrintItems(ItemsEnd, depth, fmt) == []
  {
  }

  lemma NothingEscaped(s: CStr)
    ensures Escape(s[..0]) == []
  {
  }

  lemma {:induction false} EscapePrefix(s: CStr, k: nat)
    requires k <= |s|
    ensures |Escape(s[..k])| <= |Escape(s)|
    decreases |s| - k
  {
    hide EscapeChar;
    if k < |s| {
      EscapeAppend(s[..k], s[k]);
      assert s[..k + 1] == s[..k] + [s[k]];
      EscapePrefix(s, k + 1);
    } else {
      assert s[..k] == s;
    }
  }

  /** cJSON_PrintBuffered: for any first guess at the size, the text of cJSON_Print or cJSON_PrintUnformatted. */
  method PrintBuffered(v: Value, prebuffer: nat, fmt: bool) returns (out: array<byte>)
    requires |Print(v, 0, fmt)| + 21 <= MAX_SIZE
    ensures |Print(v, 0, fmt)| < out.Length
    ensures out[..|Print(v, 0, fmt)|] == Print(v, 0, fmt) && out[|Print(v, 0, fmt)|] == 0
  {
    hide Print;
    var p := new PrintBuffer(prebuffer);
    p.PrintValue(v, 0, fmt, []);
    assert [] + Print(v, 0, fmt) == Print(v, 0, fmt);
    out := p.buffer;
  }
}
