/** What cJSON_Minify leaves of a text and what it takes out, piece by piece. */
module JsonPieces {
  import opened Bytes
  import opened JsonString
  import opened JsonMinify

  /** A blank, a comment up to the end of the line, one between marks, a string literal, or any other character. */
  datatype Piece = Gap(c: byte) | Line(x: Text) | Block(x: Text) | Literal(units: seq<Unit>) | Other(c: byte)

  predicate IsPiece(p: Piece) {
    match p
    case Gap(c) => c in {32, 9, 13, 10}
    case Line(x) => 10 !in x
    case Block(x) => NoMark([0x2F, 0x2A] + x + [0x2A])
    case Literal(us) => AllWellFormed(us)
    case Other(c) => c !in {32, 9, 13, 10, 0x2F, 0x22}
  }

  /** A star and a slash do not meet in s. */
  predicate NoMark(s: Text) {
    forall i | 0 <= i < |s| - 1 :: !(s[i] == 0x2A && s[i + 1] == 0x2F)
  }

  function PieceText(p: Piece): Text
    requires IsPiece(p)
  {
    match p
    case Gap(c) => [c]
    case Line(x) => [0x2F, 0x2F] + x + [10]
    case Block(x) => [0x2F, 0x2A] + x + [0x2A] + [0x2F]
    case Literal(us) => [0x22] + WriteAll(us) + [0x22]
    case Other(c) => [c]
  }

  function Kept(p: Piece): Text
    requires IsPiece(p)
  {
    if p.Literal? || p.Other? then PieceText(p) else []
  }

  function AllText(ps: seq<Piece>): Text
    requires forall p | p in ps :: IsPiece(p)
  {
    if ps == [] then [] else PieceText(ps[0]) + AllText(ps[1..])
  }

  function AllKept(ps: seq<Piece>): Text
    requires forall p | p in ps :: IsPiece(p)
  {
    if ps == [] then [] else Kept(ps[0]) + AllKept(ps[1..])
  }

  lemma {:induction false} LineGone(x: Text, rest: Text)
    requires 10 !in x
    ensures AfterLine(x + ([10] + rest)) == [10] + rest
    decreases |x|
  {
    if x == [] {
      assert x + ([10] + rest) == [10] + rest;
    } else {
      assert (x + ([10] + rest))[1..] == x[1..] + ([10] + rest);
      LineGone(x[1..], rest);
    }
  }

  lemma NoMarkTail(s: Text)
    requires s != [] && NoMark(s)
    ensures NoMark(s[1..])
  {
    var t := s[1..];
    forall i | 0 <= i < |t| - 1
      ensures !(t[i] == 0x2A && t[i + 1] == 0x2F)
    {
      assert s[i + 1] == t[i] && s[i + 2] == t[i + 1];
    }
  }

  lemma {:induction false} BlockGone(s: Text, rest: Text)
    requires s != [] && s[|s| - 1] == 0x2A && NoMark(s)
    ensures AfterBlock(s + ([0x2F] + rest)) == Some(rest)
    decreases |s|
  {
    var t := s + ([0x2F] + rest);
    if |s| == 1 {
      assert t[2..] == rest;
    } else {
      assert t[0] == s[0] && t[1] == s[1];
      assert t[1..] == s[1..] + ([0x2F] + rest);
      NoMarkTail(s);
      BlockGone(s[1..], rest);
    }
  }

  // ---- String literals ----

  lemma HexPassed(h: Hex, s: Text)
    requires h.v < 0x1_0000
    ensures StringEnd([0x5C, 0x75] + (Spell(h) + s)) == Plus(6, StringEnd(s))
  {
    SpelledPlainly(h);
    hide StringEnd, Spell;
    var t := Spell(h);
    EndPastPlain(t[3], s);
    EndPastPlain(t[2], [t[3]] + s);
    EndPastPlain(t[1], [t[2]] + ([t[3]] + s));
    EndPastPlain(t[0], [t[1]] + ([t[2]] + ([t[3]] + s)));
    EndPastEscape(0x75, [t[0]] + ([t[1]] + ([t[2]] + ([t[3]] + s))));
    assert t + s == [t[0]] + ([t[1]] + ([t[2]] + ([t[3]] + s)));
  }

  lemma UnitPassed(u: Unit, s: Text)
    requires WellFormed(u)
    ensures StringEnd(Write(u) + s) == Plus(|Write(u)|, StringEnd(s))
  {
    hide StringEnd, Spell;
    match u
    case Raw(c) => EndPastPlain(c, s);
    case Esc(c) => EndPastEscape(c, s);
    case Code(h) =>
      HexPassed(h, s);
      assert Write(u) + s == [0x5C, 0x75] + (Spell(h) + s);
    case Pair(hi, lo) =>
      HexPassed(lo, s);
      HexPassed(hi, [0x5C, 0x75] + (Spell(lo) + s));
      PairText([0x5C, 0x75], Spell(hi), Spell(lo), s);
  }

  lemma {:induction false} UnitsPassed(us: seq<Unit>, rest: Text)
    requires AllWellFormed(us)
    ensures StringEnd(WriteAll(us) + ([0x22] + rest)) == Some(|WriteAll(us)| + 1)
    decreases |us|
  {
    hide StringEnd, Write, WellFormed;
    var q := [0x22] + rest;
    if us == [] {
      QuotePassed(rest);
      assert WriteAll(us) + q == q;
    } else {
      UnitPassed(us[0], WriteAll(us[1..]) + q);
      UnitsPassed(us[1..], rest);
      UnitsText(us, q);
    }
  }

  lemma QuotePassed(rest: Text)
    ensures StringEnd([0x22] + rest) == Some(1)
  {
  }

  lemma UnitsText(us: seq<Unit>, q: Text)
    requires AllWellFormed(us) && us != []
    ensures WellFormed(us[0]) && AllWellFormed(us[1..])
    ensures WriteAll(us) + q == Write(us[0]) + (WriteAll(us[1..]) + q)
    ensures |WriteAll(us)| == |Write(us[0])| + |WriteAll(us[1..])|
  {
    hide Write, WellFormed;
  }

  lemma LiteralStays(us: seq<Unit>, rest: Text)
    requires AllWellFormed(us)
    ensures var t := [0x22] + WriteAll(us) + [0x22];
      Minify(t + rest) == Prepend(t, Minify(rest))
  {
    UnitsPassed(us, rest);
    hide WriteAll, StringEnd;
    var t := [0x22] + WriteAll(us) + [0x22];
    assert (t + rest)[1..] == WriteAll(us) + ([0x22] + rest);
    assert (t + rest)[..|WriteAll(us)| + 2] == t && (t + rest)[|WriteAll(us)| + 2..] == rest;
  }

  // ---- The pieces ----

  lemma PieceMinified(p: Piece, rest: Text)
    requires IsPiece(p)
    ensures Minify(PieceText(p) + rest) == Prepend(Kept(p), Minify(rest))
  {
    match p
    case Gap(c) =>
      GapsVanish([c], rest);
      PrependNothing(Minify(rest));
    case Line(x) =>
      LineMinified(x, rest);
      PrependNothing(Minify(rest));
    case Block(x) =>
      BlockMinified(x, rest);
      PrependNothing(Minify(rest));
    case Literal(us) => LiteralStays(us, rest);
    case Other(c) => PlainStays([c], rest);
  }

  lemma LineMinified(x: Text, rest: Text)
    requires 10 !in x
    ensures Minify([0x2F, 0x2F] + x + [10] + rest) == Minify(rest)
  {
    var t := [0x2F, 0x2F] + x + [10] + rest;
    assert t[1..] == [0x2F] + x + ([10] + rest);
    LineGone([0x2F] + x, rest);
    GapsVanish([10], rest);
    hide AfterLine;
  }

  lemma BlockMinified(x: Text, rest: Text)
    requires NoMark([0x2F, 0x2A] + x + [0x2A])
    ensures Minify([0x2F, 0x2A] + x + [0x2A] + [0x2F] + rest) == Minify(rest)
  {
    var s := [0x2F, 0x2A] + x + [0x2A];
    BlockGone(s, rest);
    assert s + [0x2F] + rest == s + ([0x2F] + rest);
    hide AfterBlock;
  }

  /** Blanks and comments go, string literals and everything else stay, in their order. */
  lemma {:induction false} PiecesMinified(ps: seq<Piece>)
    requires forall p | p in ps :: IsPiece(p)
    ensures Minify(AllText(ps)) == Some(AllKept(ps))
    decreases |ps|
  {
    hide IsPiece, PieceText, Kept;
    if ps != [] {
      PiecesMinified(ps[1..]);
      PieceMinified(ps[0], AllText(ps[1..]));
      hide Minify;
    }
  }
}
