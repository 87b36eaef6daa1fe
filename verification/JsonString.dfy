/** String literals of json/cJSON.c: escaping, unescaping, and UTF-16 escapes turned into UTF-8. */
module JsonString {
  import opened Bytes

  const QUOTE: byte := 0x22
  const BACKSLASH: byte := 0x5C
  const LOWER_U: byte := 0x75

  /** The character a C pointer into s sees; behind the text lies the terminator. */
  function Ch(s: Text, i: nat): byte {
    if i < |s| then s[i] else 0
  }

  /** A C string: no terminator inside. */
  type CStr = s: Text | 0 !in s

  function Drop(s: Text, k: nat): (r: Text)
    ensures |r| <= |s| && (k > 0 && s != [] ==> |r| < |s|)
    ensures 0 !in s ==> 0 !in r
  {
    if k <= |s| then s[k..] else []
  }

  // ---- Hexadecimal and UTF-8 ----

  predicate IsHex(c: byte) {
    0x30 <= c <= 0x39 || 0x41 <= c <= 0x46 || 0x61 <= c <= 0x66
  }

  function HexDigit(c: byte): (n: nat)
    requires IsHex(c)
    ensures n < 16
  {
    if c <= 0x39 then c - 0x30 else if c <= 0x46 then c - 0x37 else c - 0x57
  }

  /** parse_hex4: zero as soon as one of the four characters is no digit. */
  function ParseHex4(s: Text): (n: nat)
    ensures n < 0x1_0000
  {
    if |s| >= 4 && IsHex(s[0]) && IsHex(s[1]) && IsHex(s[2]) && IsHex(s[3])
    then ((HexDigit(s[0]) * 16 + HexDigit(s[1])) * 16 + HexDigit(s[2])) * 16 + HexDigit(s[3])
    else 0
  }

  /** (uc | 0x80) & 0xBF, as an unsigned char. */
  function Continuation(uc: nat): byte {
    0x80 + uc % 0x40
  }

  /** The fall-through switch of parse_string, which writes the bytes from the last to the first. */
  function PutUtf8(uc: nat): (b: Text)
    requires uc < 0x11_0000
    ensures 1 <= |b| <= 4 && (uc != 0 ==> 0 !in b)
  {
    if uc < 0x80 then [uc]
    else if uc < 0x800 then [0xC0 + uc / 0x40, Continuation(uc)]
    else if uc < 0x1_0000 then [0xE0 + uc / 0x1000, Continuation(uc / 0x40), Continuation(uc)]
    else [0xF0 + uc / 0x4_0000, Continuation(uc / 0x1000), Continuation(uc / 0x40), Continuation(uc)]
  }

  function Low(c: byte): nat { c % 0x40 }

  predicate IsContinuation(c: byte) { c / 0x40 == 2 }

  /** One code point off the front of a UTF-8 text, by the bit layout of section 3 of RFC 3629. */
  function DecodeUtf8(b: Text): Option<(nat, Text)> {
    if |b| == 0 then None
    else
      var first: nat := b[0];
      if first < 0x80 then Some((first, b[1..]))
      else if |b| >= 2 && 0xC2 <= first < 0xE0 && IsContinuation(b[1]) then
        Some(((first - 0xC0) * 0x40 + Low(b[1]), b[2..]))
      else if |b| >= 3 && 0xE0 <= first < 0xF0 && IsContinuation(b[1]) && IsContinuation(b[2]) then
        Some((((first - 0xE0) * 0x40 + Low(b[1])) * 0x40 + Low(b[2]), b[3..]))
      else if |b| >= 4 && 0xF0 <= first < 0xF5
         && IsContinuation(b[1]) && IsContinuation(b[2]) && IsContinuation(b[3]) then
        Some(((((first - 0xF0) * 0x40 + Low(b[1])) * 0x40 + Low(b[2])) * 0x40 + Low(b[3]), b[4..]))
      else None
  }

  /** What parse_string writes for a code point is its UTF-8 form. */
  lemma Utf8RoundTrip(uc: nat, rest: Text)
    requires uc < 0x11_0000
    ensures DecodeUtf8(PutUtf8(uc) + rest) == Some((uc, rest))
  {
    var b := PutUtf8(uc);
    assert (b + rest)[|b|..] == rest;
    hide Continuation, Low, IsContinuation;
    if uc < 0x80 {
    } else if uc < 0x800 {
      TwoBytes(uc);
    } else if uc < 0x1_0000 {
      ThreeBytes(uc);
    } else {
      FourBytes(uc);
    }
  }

  lemma TwoBytes(uc: nat)
    ensures uc / 0x40 * 0x40 + Low(Continuation(uc)) == uc && IsContinuation(Continuation(uc))
  {
  }

  lemma ThreeBytes(uc: nat)
    ensures (uc / 0x1000 * 0x40 + Low(Continuation(uc / 0x40))) * 0x40 + Low(Continuation(uc)) == uc
    ensures IsContinuation(Continuation(uc)) && IsContinuation(Continuation(uc / 0x40))
  {
    TwoBytes(uc);
    TwoBytes(uc / 0x40);
    assert uc / 0x1000 == uc / 0x40 / 0x40;
  }

  lemma FourBytes(uc: nat)
    ensures ((uc / 0x4_0000 * 0x40 + Low(Continuation(uc / 0x1000))) * 0x40 + Low(Continuation(uc / 0x40))) * 0x40
            + Low(Continuation(uc)) == uc
    ensures IsContinuation(Continuation(uc)) && IsContinuation(Continuation(uc / 0x40))
    ensures IsContinuation(Continuation(uc / 0x1000))
  {
    ThreeBytes(uc);
    TwoBytes(uc / 0x1000);
    assert uc / 0x4_0000 == uc / 0x1000 / 0x40;
  }

  // ---- parse_string ----

  datatype Unescaped = Unescaped(out: Text, rest: Text)

  function Emit(front: Text, u: Unescaped): Unescaped {
    u.(out := front + u.out)
  }

  /** The character behind a backslash, for the one-letter escapes; any other stands for itself. */
  function Letter(c: byte): byte {
    match c
    case 0x62 => 0x08
    case 0x66 => 0x0C
    case 0x6E => 0x0A
    case 0x72 => 0x0D
    case 0x74 => 0x09
    case _ => c
  }

  function Surrogates(uc: nat, uc2: nat): nat {
    0x1_0000 + (uc % 0x400) * 0x400 + uc2 % 0x400
  }

  /** The u-branch of parse_string with p at the u: what it writes, and how far it goes. */
  function DecodeCode(p: Text): (r: (Text, nat))
    ensures r.1 > 0 && 0 !in r.0
  {
    var uc := ParseHex4(Drop(p, 1));
    if 0xDC00 <= uc <= 0xDFFF || uc == 0 then ([], 5)
    else if 0xD800 <= uc <= 0xDBFF then
      if Ch(p, 5) != BACKSLASH || Ch(p, 6) != LOWER_U then ([], 5)
      else
        var uc2 := ParseHex4(Drop(p, 7));
        (if uc2 < 0xDC00 || uc2 > 0xDFFF then [] else PutUtf8(Surrogates(uc, uc2)), 11)
    else (PutUtf8(uc), 5)
  }

  /** The second loop of parse_string, from s on; it stops at a quote or at the end. */
  function Unescape(s: Text): (u: Unescaped)
    ensures |u.rest| <= |s| && (u.rest != [] ==> u.rest[0] == QUOTE)
    ensures 0 !in s ==> 0 !in u.out && 0 !in u.rest
    decreases |s|
  {
    if s == [] || s[0] == QUOTE then Unescaped([], s)
    else if s[0] != BACKSLASH then Emit([s[0]], Unescape(s[1..]))
    else
      var p := s[1..];
      if p == [] then Unescaped([], [])
      else if p[0] != LOWER_U then Emit([Letter(p[0])], Unescape(p[1..]))
      else
        var d := DecodeCode(p);
        Emit(d.0, Unescape(Drop(p, d.1)))
  }

  /** The first loop of parse_string: how many bytes it allocates for. */
  function CountPass(s: Text): nat
    decreases |s|
  {
    if s == [] || s[0] == QUOTE then 0
    else if s[0] == BACKSLASH then 1 + CountPass(Drop(s, 2))
    else 1 + CountPass(s[1..])
  }

  datatype ParsedString = NoString | GotString(value: CStr, rest: CStr)

  /** parse_string: a missing closing quote is not an error. */
  function ParseString(s: CStr): (r: ParsedString)
    ensures r.GotString? ==> |r.rest| < |s|
  {
    if s == [] || s[0] != QUOTE then NoString
    else
      var u := Unescape(s[1..]);
      GotString(u.out, if u.rest == [] then [] else u.rest[1..])
  }

  // ---- What a literal means ----

  /** A number of sixteen bits as four hexadecimal digits, each letter in upper or in lower case. */
  datatype Hex = Hex(v: nat, upper0: bool, upper1: bool, upper2: bool, upper3: bool)

  function HexChar(d: nat, upper: bool): byte
    requires d < 16
  {
    if d < 10 then 0x30 + d else if upper then 0x41 + (d - 10) else 0x61 + (d - 10)
  }

  /** The digits, from the highest to the lowest. */
  function Spell(h: Hex): (t: Text)
    requires h.v < 0x1_0000
    ensures |t| == 4
  {
    [HexChar(h.v / 4096, h.upper0), HexChar(h.v / 256 % 16, h.upper1),
     HexChar(h.v / 16 % 16, h.upper2), HexChar(h.v % 16, h.upper3)]
  }

  lemma HexCharRead(d: nat, upper: bool)
    requires d < 16
    ensures IsHex(HexChar(d, upper)) && HexDigit(HexChar(d, upper)) == d
  {
  }

  /** parse_hex4 reads four digits as the number they spell, whatever follows. */
  lemma SpellRead(h: Hex, rest: Text)
    requires h.v < 0x1_0000
    ensures ParseHex4(Spell(h) + rest) == h.v
  {
    HexCharRead(h.v / 4096, h.upper0);
    HexCharRead(h.v / 256 % 16, h.upper1);
    HexCharRead(h.v / 16 % 16, h.upper2);
    HexCharRead(h.v % 16, h.upper3);
    hide IsHex, HexDigit, HexChar;
    FourDigits(h.v);
  }

  lemma FourDigits(v: nat)
    requires v < 0x1_0000
    ensures ((v / 4096 * 16 + v / 256 % 16) * 16 + v / 16 % 16) * 16 + v % 16 == v
  {
    assert v / 256 == v / 16 / 16 && v / 4096 == v / 16 / 16 / 16;
  }

  /** One character of a literal: plain, one-letter escape, \\u escape, or a surrogate pair of those. */
  datatype Unit = Raw(c: byte) | Esc(c: byte) | Code(h: Hex) | Pair(hi: Hex, lo: Hex)

  predicate WellFormed(u: Unit) {
    match u
    case Raw(c) => c != 0 && c != 0x22 && c != 0x5C
    case Esc(c) => c in {0x22, 0x5C, 0x2F, 0x62, 0x66, 0x6E, 0x72, 0x74}
    case Code(h) => 0 < h.v < 0xD800 || 0xE000 <= h.v < 0x1_0000
    case Pair(hi, lo) => 0xD800 <= hi.v < 0xDC00 && 0xDC00 <= lo.v < 0xE000
  }

  function Write(u: Unit): Text
    requires WellFormed(u)
  {
    match u
    case Raw(c) => [c]
    case Esc(c) => [0x5C, c]
    case Code(h) => [0x5C, 0x75] + Spell(h)
    case Pair(hi, lo) => [0x5C, 0x75] + Spell(hi) + [0x5C, 0x75] + Spell(lo)
  }

  /** The one-letter escapes of section 7 of RFC 8259. */
  function EscMeaning(c: byte): byte {
    if c == 0x62 then 8 else if c == 0x66 then 12 else if c == 0x6E then 10 else if c == 0x72 then 13
    else if c == 0x74 then 9 else c
  }

  /** The code point of a surrogate pair, by section 2.2 of RFC 2781. */
  function PairPoint(hi: nat, lo: nat): int {
    0x1_0000 + (hi - 0xD800) * 0x400 + (lo - 0xDC00)
  }

  function Meaning(u: Unit): Text
    requires WellFormed(u)
  {
    match u
    case Raw(c) => [c]
    case Esc(c) => [EscMeaning(c)]
    case Code(h) => PutUtf8(h.v)
    case Pair(hi, lo) => PutUtf8(PairPoint(hi.v, lo.v))
  }

  predicate AllWellFormed(us: seq<Unit>) {
    forall i | 0 <= i < |us| :: WellFormed(us[i])
  }

  function WriteAll(us: seq<Unit>): Text
    requires AllWellFormed(us)
  {
    if us == [] then [] else Write(us[0]) + WriteAll(us[1..])
  }

  function MeaningAll(us: seq<Unit>): Text
    requires AllWellFormed(us)
  {
    if us == [] then [] else Meaning(us[0]) + MeaningAll(us[1..])
  }

  lemma SurrogatePoint(hi: nat, lo: nat)
    requires 0xD800 <= hi <= 0xDBFF && 0xDC00 <= lo <= 0xDFFF
    ensures Surrogates(hi, lo) == PairPoint(hi, lo) && 0x1_0000 <= Surrogates(hi, lo) < 0x11_0000
  {
  }

  lemma UnescapeUnit(u: Unit, rest: Text)
    requires WellFormed(u)
    ensures Unescape(Write(u) + rest) == Emit(Meaning(u), Unescape(rest))
  {
    hide PutUtf8, DecodeCode, PairPoint, Unescape, Letter, EscMeaning, Emit, Spell;
    var s := Write(u) + rest;
    match u
    case Raw(c) => UnescapeChar(c, rest);
    case Esc(c) =>
      EscapesMean(c);
      UnescapeEsc(c, rest);
    case Code(h) =>
      DecodePlain(h, rest);
      UnescapeCode([0x75] + Spell(h), rest);
      assert s == [BACKSLASH] + ([0x75] + Spell(h)) + rest;
    case Pair(hi, lo) =>
      var p := [0x75] + Spell(hi) + [0x5C, 0x75] + Spell(lo);
      DecodePair(hi, lo, rest);
      UnescapeCode(p, rest);
      assert s == [BACKSLASH] + p + rest;
  }

  lemma UnescapeChar(c: byte, rest: Text)
    requires c != QUOTE && c != BACKSLASH
    ensures Unescape([c] + rest) == Emit([c], Unescape(rest))
  {
    assert ([c] + rest)[1..] == rest;
  }

  lemma UnescapeEsc(c: byte, rest: Text)
    requires c != LOWER_U
    ensures Unescape([BACKSLASH, c] + rest) == Emit([Letter(c)], Unescape(rest))
  {
    hide Letter;
    assert ([BACKSLASH, c] + rest)[1..][1..] == rest;
  }

  lemma UnescapeCode(p: Text, rest: Text)
    requires p != [] && p[0] == LOWER_U && DecodeCode(p + rest).1 == |p|
    ensures Unescape([BACKSLASH] + p + rest) == Emit(DecodeCode(p + rest).0, Unescape(rest))
  {
    hide DecodeCode;
    assert ([BACKSLASH] + p + rest)[1..] == p + rest;
    assert Drop(p + rest, |p|) == rest;
  }

  lemma DecodePlain(h: Hex, rest: Text)
    requires WellFormed(Code(h))
    ensures DecodeCode([0x75] + Spell(h) + rest) == (PutUtf8(h.v), 5)
  {
    hide PutUtf8, ParseHex4, Surrogates, Spell;
    SpellRead(h, rest);
    assert Drop([0x75] + Spell(h) + rest, 1) == Spell(h) + rest;
  }

  lemma EscapesMean(c: byte)
    requires WellFormed(Esc(c))
    ensures c != 0x75 && Letter(c) == EscMeaning(c)
  {
  }

  lemma DecodePair(hi: Hex, lo: Hex, rest: Text)
    requires WellFormed(Pair(hi, lo))
    ensures DecodeCode([0x75] + Spell(hi) + [0x5C, 0x75] + Spell(lo) + rest)
         == (PutUtf8(PairPoint(hi.v, lo.v)), 11)
  {
    hide PutUtf8, ParseHex4, Surrogates, Spell;
    PairFields(hi, lo, rest);
    SurrogatePoint(hi.v, lo.v);
  }

  /** Where parse_string looks for the two halves of a pair. */
  lemma PairFields(hi: Hex, lo: Hex, rest: Text)
    requires hi.v < 0x1_0000 && lo.v < 0x1_0000
    ensures var p := [0x75] + Spell(hi) + [0x5C, 0x75] + Spell(lo) + rest;
      && ParseHex4(Drop(p, 1)) == hi.v && Ch(p, 5) == BACKSLASH && Ch(p, 6) == LOWER_U
      && ParseHex4(Drop(p, 7)) == lo.v
  {
    hide ParseHex4, Spell;
    var p := [0x75] + Spell(hi) + [0x5C, 0x75] + Spell(lo) + rest;
    SpellRead(hi, [0x5C, 0x75] + Spell(lo) + rest);
    assert Drop(p, 1) == Spell(hi) + ([0x5C, 0x75] + Spell(lo) + rest);
    SpellRead(lo, rest);
    assert Drop(p, 7) == Spell(lo) + rest;
  }

  // ---- Escapes that mean nothing ----

  /** Zero, a low surrogate, and a high one that no other escape follows are left out. */
  lemma LoneDropped(h: Hex, rest: Text)
    requires h.v == 0 || 0xD800 <= h.v < 0xE000
    requires 0xD800 <= h.v < 0xDC00 ==> !([0x5C, 0x75] <= rest)
    ensures Unescape([0x5C, 0x75] + Spell(h) + rest) == Unescape(rest)
  {
    hide PutUtf8, ParseHex4, Surrogates, Spell;
    var p := [0x75] + Spell(h) + rest;
    SpellRead(h, rest);
    assert Drop(p, 1) == Spell(h) + rest;
    assert Ch(p, 5) == Ch(rest, 0) && Ch(p, 6) == Ch(rest, 1);
    DropsCode([0x75] + Spell(h), rest);
  }

  lemma HalfPairDecoded(hi: Hex, lo: Hex, rest: Text)
    requires 0xD800 <= hi.v < 0xDC00 && lo.v < 0x1_0000 && !(0xDC00 <= lo.v < 0xE000)
    ensures DecodeCode([0x75] + Spell(hi) + [0x5C, 0x75] + Spell(lo) + rest) == ([], 11)
  {
    PairFields(hi, lo, rest);
    hide PutUtf8, ParseHex4, Surrogates, Spell, Drop, Ch;
  }

  /** So is a high surrogate together with the escape behind it, if that is no low one. */
  lemma HalfPairDropped(hi: Hex, lo: Hex, rest: Text)
    requires 0xD800 <= hi.v < 0xDC00 && lo.v < 0x1_0000 && !(0xDC00 <= lo.v < 0xE000)
    ensures Unescape([0x5C] + ([0x75] + Spell(hi) + [0x5C, 0x75] + Spell(lo)) + rest) == Unescape(rest)
  {
    HalfPairDecoded(hi, lo, rest);
    hide DecodeCode, Unescape, Spell;
    var p := [0x75] + Spell(hi) + [0x5C, 0x75] + Spell(lo);
    assert p[0] == LOWER_U && |p| == 11;
    DropsCode(p, rest);
  }

  /** And four characters that are not all hexadecimal digits. */
  lemma NoHexDropped(x: Text, rest: Text)
    requires |x| == 4 && exists i | 0 <= i < 4 ::
      !(0x30 <= x[i] <= 0x39 || 0x41 <= x[i] <= 0x46 || 0x61 <= x[i] <= 0x66)
    ensures Unescape([0x5C, 0x75] + x + rest) == Unescape(rest)
  {
    hide PutUtf8, Surrogates;
    var p := [0x75] + x + rest;
    assert Drop(p, 1) == x + rest;
    assert ParseHex4(x + rest) == 0;
    DropsCode([0x75] + x, rest);
  }

  lemma DropsCode(p: Text, rest: Text)
    requires p != [] && p[0] == LOWER_U && DecodeCode(p + rest) == ([], |p|)
    ensures Unescape([0x5C] + p + rest) == Unescape(rest)
    ensures [0x5C, p[0]] + p[1..] == [0x5C] + p
  {
    hide DecodeCode, Unescape;
    UnescapeCode(p, rest);
    EmitNothing(Unescape(rest));
  }

  lemma EmitNothing(u: Unescaped)
    ensures Emit([], u) == u
  {
  }

  /** Every well-formed literal is read as what it means, and exactly up to its closing quote. */
  lemma {:induction false} LiteralMeaning(us: seq<Unit>, rest: Text)
    requires AllWellFormed(us)
    ensures Unescape(WriteAll(us) + [0x22] + rest) == Unescaped(MeaningAll(us), [0x22] + rest)
    decreases |us|
  {
    hide Meaning, Write, WellFormed, Unescape;
    if us == [] {
      UnescapeStops(rest);
      assert WriteAll(us) + [QUOTE] + rest == [QUOTE] + rest;
    } else {
      UnescapeUnit(us[0], WriteAll(us[1..]) + [QUOTE] + rest);
      LiteralMeaning(us[1..], rest);
      Regroup(Write(us[0]), WriteAll(us[1..]), [QUOTE], rest);
      hide QUOTE;
    }
  }

  lemma Regroup(a: Text, b: Text, c: Text, d: Text)
    ensures a + b + c + d == a + (b + c + d)
  {
  }

  lemma UnescapeStops(rest: Text)
    ensures Unescape([QUOTE] + rest) == Unescaped([], [QUOTE] + rest)
  {
  }

  lemma UnitHasNoZero(u: Unit)
    requires WellFormed(u)
    ensures 0 !in Write(u) && 0 !in Meaning(u)
  {
    hide PutUtf8;
    if u.Pair? {
      SurrogatePoint(u.hi.v, u.lo.v);
    }
  }

  /** No terminator in a well-formed literal, and none in what it means. */
  lemma {:induction false} LiteralHasNoZero(us: seq<Unit>)
    requires AllWellFormed(us)
    ensures 0 !in WriteAll(us) && 0 !in MeaningAll(us)
    decreases |us|
  {
    hide Write, Meaning, WellFormed;
    if us != [] {
      UnitHasNoZero(us[0]);
      LiteralHasNoZero(us[1..]);
    }
  }

  lemma StringMeaning(us: seq<Unit>, rest: CStr)
    requires AllWellFormed(us)
    ensures 0 !in WriteAll(us) && 0 !in MeaningAll(us)
    ensures ParseString([0x22] + WriteAll(us) + [0x22] + rest) == GotString(MeaningAll(us), rest)
  {
    hide Unescape, WriteAll, MeaningAll;
    LiteralHasNoZero(us);
    LiteralMeaning(us, rest);
    var s := [QUOTE] + WriteAll(us) + [QUOTE] + rest;
    assert s[1..] == WriteAll(us) + [QUOTE] + rest;
    assert ([QUOTE] + rest)[1..] == rest;
  }

  // ---- Strings that the grammar does not have ----

  /** A backslash in front of any other character stands for that character; one at the end for nothing. */
  lemma LooseEscape(c: byte, rest: Text)
    requires c !in {0x62, 0x66, 0x6E, 0x72, 0x74, 0x75}
    ensures Unescape([0x5C, c] + rest) == Unescaped([c] + Unescape(rest).out, Unescape(rest).rest)
    ensures Unescape([0x5C]) == Unescaped([], [])
  {
    UnescapeEsc(c, rest);
    var alone: Text := [0x5C];
    assert alone[1..] == [];
  }

  /** A literal whose closing quote is missing goes on to the end of the text. */
  lemma {:induction false} OpenLiteral(us: seq<Unit>)
    requires AllWellFormed(us)
    ensures Unescape(WriteAll(us)) == Unescaped(MeaningAll(us), [])
    decreases |us|
  {
    hide Meaning, Write, WellFormed;
    if us != [] {
      UnescapeUnit(us[0], WriteAll(us[1..]));
      OpenLiteral(us[1..]);
      hide Unescape;
    }
  }

  lemma OpenString(us: seq<Unit>)
    requires AllWellFormed(us)
    ensures 0 !in WriteAll(us) && 0 !in MeaningAll(us)
    ensures ParseString([0x22] + WriteAll(us)) == GotString(MeaningAll(us), [])
  {
    LiteralHasNoZero(us);
    OpenLiteral(us);
    hide Unescape, WriteAll, MeaningAll;
    assert ([0x22] + WriteAll(us))[1..] == WriteAll(us);
  }

  // ---- The allocation suffices ----

  lemma {:induction false} CountPlain(h: Text, rest: Text)
    requires forall i | 0 <= i < |h| :: h[i] != QUOTE && h[i] != BACKSLASH
    ensures CountPass(h + rest) == |h| + CountPass(rest)
    decreases |h|
  {
    if h == [] {
      assert h + rest == rest;
    } else {
      assert (h + rest)[1..] == h[1..] + rest;
      CountPlain(h[1..], rest);
    }
  }

  lemma CountEscape(c: byte, rest: Text)
    ensures CountPass([BACKSLASH, c] + rest) == 1 + CountPass(rest)
  {
    assert Drop([BACKSLASH, c] + rest, 2) == rest;
  }

  lemma SpelledPlainly(h: Hex)
    requires h.v < 0x1_0000
    ensures forall i | 0 <= i < 4 :: Spell(h)[i] != QUOTE && Spell(h)[i] != BACKSLASH && Spell(h)[i] != 0
  {
  }

  lemma CountCode(h: Text, rest: Text)
    requires |h| == 4 && forall i | 0 <= i < 4 :: h[i] != QUOTE && h[i] != BACKSLASH
    ensures CountPass([0x5C, 0x75] + (h + rest)) == 5 + CountPass(rest)
  {
    CountEscape(LOWER_U, h + rest);
    CountPlain(h, rest);
  }

  lemma PairText(b: Text, h: Text, l: Text, rest: Text)
    ensures b + h + b + l + rest == b + (h + (b + (l + rest)))
  {
  }

  lemma CountPair(hi: Hex, lo: Hex, rest: Text)
    requires WellFormed(Pair(hi, lo))
    ensures CountPass(Write(Pair(hi, lo)) + rest) == 10 + CountPass(rest)
  {
    SpelledPlainly(hi);
    SpelledPlainly(lo);
    hide CountPass, Spell;
    var tail := [0x5C, 0x75] + (Spell(lo) + rest);
    CountCode(Spell(hi), tail);
    CountCode(Spell(lo), rest);
    PairText([0x5C, 0x75], Spell(hi), Spell(lo), rest);
  }

  lemma CountUnit(u: Unit, rest: Text)
    requires WellFormed(u)
    ensures |Meaning(u)| + CountPass(rest) <= CountPass(Write(u) + rest)
  {
    hide CountPass, PutUtf8, Spell;
    match u
    case Raw(c) => CountPlain([c], rest);
    case Esc(c) => CountEscape(c, rest);
    case Code(h) =>
      SpelledPlainly(h);
      CountCode(Spell(h), rest);
      assert Write(u) + rest == [0x5C, 0x75] + (Spell(h) + rest);
    case Pair(hi, lo) => CountPair(hi, lo, rest);
  }

  /** parse_string never writes more bytes for a well-formed literal than its first pass counted. */
  lemma {:induction false} AllocationSuffices(us: seq<Unit>, rest: Text)
    requires AllWellFormed(us)
    ensures |MeaningAll(us)| <= CountPass(WriteAll(us) + [QUOTE] + rest)
    decreases |us|
  {
    hide Meaning, Write, WellFormed, CountPass;
    if us != [] {
      CountUnit(us[0], WriteAll(us[1..]) + [QUOTE] + rest);
      assert WriteAll(us) + [QUOTE] + rest == Write(us[0]) + (WriteAll(us[1..]) + [QUOTE] + rest);
      AllocationSuffices(us[1..], rest);
    }
  }
}
