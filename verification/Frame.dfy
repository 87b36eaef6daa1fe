/** The frame of packsocket.c: sixteen header bytes, the payload, four checksum bytes. */
module Frame {
  import opened Bytes
  import opened Crc
  import opened CrcDivision

  const SYNC_HEAD: u16 := 0x4747
  const HEAD: nat := 16
  const OVERHEAD: nat := 20

  /** What a sender hands to sendSocketCmd, with typeCmd already split. */
  datatype Packet = Packet(cmd: u16, ipnum: u32, curNo: u16, lastNo: u16, ptype: u16, data: seq<byte>)

  /** socket_cmd_info_t as the decoder fills it. */
  datatype Info = Info(cmd: u16, ipnum: u32, curNo: u16, lastNo: u16, ptype: u16, valid: seq<byte>, crc: u32)

  /** The `length` field is an unsigned short: only this much of the data goes out. */
  function Sent(data: seq<byte>): (s: seq<byte>)
    ensures |s| < 0x1_0000 && s <= data
  {
    data[..|data| % 0x1_0000]
  }

  /** The checksum field: zero for an empty message, else the CRC of what is sent. */
  function CrcField(data: seq<byte>): u32 {
    if data == [] then 0 else Checksum(Sent(data))
  }

  function Header(p: Packet, length: u16): (h: seq<byte>)
    ensures |h| == HEAD
  {
    ShortBytes(SYNC_HEAD) + ShortBytes(p.cmd) + IntBytes(p.ipnum) + ShortBytes(p.curNo)
    + ShortBytes(p.lastNo) + ShortBytes(p.ptype) + ShortBytes(length)
  }

  /** The bytes sendSocketCmd passes to send(). */
  function Encode(p: Packet): (f: seq<byte>)
    ensures |f| == OVERHEAD + |Sent(p.data)|
  {
    Header(p, |Sent(p.data)|) + Sent(p.data) + IntBytes(CrcField(p.data))
  }

  /** read_cmd_try_read: the length of the frame at the front of the buffer, if all of it is there. */
  function TryRead(buf: seq<byte>): (n: Option<nat>)
    ensures n.Some? ==> OVERHEAD <= n.value <= |buf| && n.value == OVERHEAD + ShortAt(buf, 14)
  {
    if |buf| < OVERHEAD || ShortAt(buf, 0) != SYNC_HEAD || |buf| < OVERHEAD + ShortAt(buf, 14) then None
    else Some(OVERHEAD + ShortAt(buf, 14))
  }

  predicate IsFrame(f: seq<byte>) {
    TryRead(f) == Some(|f|)
  }

  /** The field extraction of parseSocketCmd. */
  function Decode(f: seq<byte>): Info
    requires IsFrame(f)
  {
    var n: nat := ShortAt(f, 14);
    Info(ShortAt(f, 2), IntAt(f, 4), ShortAt(f, 8), ShortAt(f, 10), ShortAt(f, 12),
         f[HEAD..HEAD + n], IntAt(f, HEAD + n))
  }

  /** The checksum test of parseSocketCmd: a zero field switches the check off. */
  predicate CrcOk(i: Info) {
    i.crc == 0 || i.crc == Checksum(i.valid)
  }

  function Received(p: Packet): Info {
    Info(p.cmd, p.ipnum, p.curNo, p.lastNo, p.ptype, Sent(p.data), CrcField(p.data))
  }

  lemma HeaderFields(p: Packet, length: u16, rest: seq<byte>)
    ensures var f := Header(p, length) + rest;
      && ShortAt(f, 0) == SYNC_HEAD && ShortAt(f, 2) == p.cmd && IntAt(f, 4) == p.ipnum
      && ShortAt(f, 8) == p.curNo && ShortAt(f, 10) == p.lastNo && ShortAt(f, 12) == p.ptype
      && ShortAt(f, 14) == length
  {
    var f := Header(p, length) + rest;
    assert f[0..2] == ShortBytes(SYNC_HEAD);
    assert f[2..4] == ShortBytes(p.cmd);
    assert f[4..8] == IntBytes(p.ipnum);
    assert f[8..10] == ShortBytes(p.curNo);
    assert f[10..12] == ShortBytes(p.lastNo);
    assert f[12..14] == ShortBytes(p.ptype);
    assert f[14..16] == ShortBytes(length);
    ShortRoundTrip(f, 0, SYNC_HEAD);
    ShortRoundTrip(f, 2, p.cmd);
    IntRoundTrip(f, 4, p.ipnum);
    ShortRoundTrip(f, 8, p.curNo);
    ShortRoundTrip(f, 10, p.lastNo);
    ShortRoundTrip(f, 12, p.ptype);
    ShortRoundTrip(f, 14, length);
  }

  /** One frame: whatever was handed to the sender comes back field by field, and passes the check. */
  lemma EncodeDecode(p: Packet)
    ensures IsFrame(Encode(p))
    ensures Decode(Encode(p)) == Received(p)
    ensures CrcOk(Received(p))
  {
    var f, s := Encode(p), Sent(p.data);
    assert f == Header(p, |s|) + (s + IntBytes(CrcField(p.data)));
    HeaderFields(p, |s|, s + IntBytes(CrcField(p.data)));
    assert f[HEAD..HEAD + |s|] == s;
    assert f[HEAD + |s|..HEAD + |s| + 4] == IntBytes(CrcField(p.data));
    IntRoundTrip(f, HEAD + |s|, CrcField(p.data));
  }

  // ---- The bytes on the wire ----

  /** b holds the sixteen bits d at position i, the high byte first. */
  predicate Holds16(b: seq<byte>, i: nat, d: nat)
    requires i + 2 <= |b|
  {
    b[i] == d / 256 % 256 && b[i + 1] == d % 256
  }

  /** b holds the thirty-two bits d at position i, the highest byte first. */
  predicate Holds32(b: seq<byte>, i: nat, d: nat)
    requires i + 4 <= |b|
  {
    && b[i] == d / 16777216 % 256 && b[i + 1] == d / 65536 % 256
    && b[i + 2] == d / 256 % 256 && b[i + 3] == d % 256
  }

  lemma ShortHolds(d: u16)
    ensures Holds16(ShortBytes(d), 0, d)
  {
  }

  lemma IntHolds(d: u32)
    ensures Holds32(IntBytes(d), 0, d)
  {
    assert d / 65536 / 256 == d / 16777216 && d / 16777216 < 256;
    assert d % 65536 / 256 == d / 256 % 256 && d % 65536 % 256 == d % 256;
  }

  /** The layout of a frame, byte by byte. */
  lemma FrameLayout(p: Packet)
    ensures var f, n, m := Encode(p), |p.data| % 65536, 16 + |p.data| % 65536;
      && |f| == 20 + n
      && f[0] == 0x47 && f[1] == 0x47 && Holds16(f, 2, p.cmd) && Holds32(f, 4, p.ipnum) && Holds16(f, 8, p.curNo)
      && Holds16(f, 10, p.lastNo) && Holds16(f, 12, p.ptype) && Holds16(f, 14, n)
      && f[16..m] == p.data[..n]
      && Holds32(f, m, if p.data == [] then 0 else Checksum(p.data[..n]))
  {
    hide Checksum, ShortBytes, IntBytes, Holds16, Holds32;
    var f, h, n, s := Encode(p), Header(p, |Sent(p.data)|), |p.data| % 65536, Sent(p.data);
    var c := CrcField(p.data);
    HeaderLayout(p, n);
    assert f == h + (s + IntBytes(c));
    HoldsInFront(h, s + IntBytes(c));
    IntHolds(c);
    assert f[16 + n..16 + n + 4] == IntBytes(c);
    Moved32(f, 16 + n, IntBytes(c), c);
    assert f[16..16 + n] == s;
  }

  /** What is held at some position of a part is held at that position of the whole. */
  lemma Moved16(f: seq<byte>, i: nat, b: seq<byte>, d: nat)
    requires i + 2 <= |f| && |b| == 2 && f[i..i + 2] == b && Holds16(b, 0, d)
    ensures Holds16(f, i, d)
  {
    assert f[i] == f[i..i + 2][0] && f[i + 1] == f[i..i + 2][1];
  }

  lemma Moved32(f: seq<byte>, i: nat, b: seq<byte>, d: nat)
    requires i + 4 <= |f| && |b| == 4 && f[i..i + 4] == b && Holds32(b, 0, d)
    ensures Holds32(f, i, d)
  {
    var g := f[i..i + 4];
    assert f[i] == g[0] && f[i + 1] == g[1] && f[i + 2] == g[2] && f[i + 3] == g[3];
  }

  lemma HeaderLayout(p: Packet, n: u16)
    ensures var h := Header(p, n);
      && h[0] == 0x47 && h[1] == 0x47 && Holds16(h, 2, p.cmd) && Holds32(h, 4, p.ipnum) && Holds16(h, 8, p.curNo)
      && Holds16(h, 10, p.lastNo) && Holds16(h, 12, p.ptype) && Holds16(h, 14, n)
  {
    ShortHolds(SYNC_HEAD);
    ShortHolds(p.cmd);
    IntHolds(p.ipnum);
    ShortHolds(p.curNo);
    ShortHolds(p.lastNo);
    ShortHolds(p.ptype);
    ShortHolds(n);
    assert Holds16(ShortBytes(SYNC_HEAD), 0, 0x4747) ==> ShortBytes(SYNC_HEAD) == [0x47, 0x47];
    hide ShortBytes, IntBytes, Holds16, Holds32;
    var h := Header(p, n);
    assert h[0..2] == ShortBytes(SYNC_HEAD) && h[0] == h[0..2][0] && h[1] == h[0..2][1];
    assert h[2..4] == ShortBytes(p.cmd);
    assert h[4..8] == IntBytes(p.ipnum);
    assert h[8..10] == ShortBytes(p.curNo);
    assert h[10..12] == ShortBytes(p.lastNo);
    assert h[12..14] == ShortBytes(p.ptype);
    assert h[14..16] == ShortBytes(n);
    Moved16(h, 2, ShortBytes(p.cmd), p.cmd);
    Moved32(h, 4, IntBytes(p.ipnum), p.ipnum);
    Moved16(h, 8, ShortBytes(p.curNo), p.curNo);
    Moved16(h, 10, ShortBytes(p.lastNo), p.lastNo);
    Moved16(h, 12, ShortBytes(p.ptype), p.ptype);
    Moved16(h, 14, ShortBytes(n), n);
  }

  lemma HoldsInFront(h: seq<byte>, rest: seq<byte>)
    ensures forall i, d {:trigger Holds16(h, i, d)} | 0 <= i <= |h| - 2 && Holds16(h, i, d) :: Holds16(h + rest, i, d)
    ensures forall i, d {:trigger Holds32(h, i, d)} | 0 <= i <= |h| - 4 && Holds32(h, i, d) :: Holds32(h + rest, i, d)
  {
  }

  function Number16(a: int, b: int): int {
    a * 256 + b
  }

  function Number32(a: int, b: int, c: int, d: int): int {
    a * 16777216 + b * 65536 + c * 256 + d
  }

  /** Which bytes are a frame, and which numbers the decoder finds in it. */
  lemma DecodedFields(f: seq<byte>)
    ensures forall n: nat ::
      (TryRead(f) == Some(n)
       <==> |f| >= 20 && f[0] == 0x47 && f[1] == 0x47 && n == 20 + Number16(f[14], f[15]) && |f| >= n)
    ensures IsFrame(f) <==> |f| >= 20 && f[0] == 0x47 && f[1] == 0x47 && |f| == 20 + Number16(f[14], f[15])
    ensures IsFrame(f) ==> var i, n := Decode(f), |f| - 20;
      && i.cmd == Number16(f[2], f[3]) && i.ipnum == Number32(f[4], f[5], f[6], f[7])
      && i.curNo == Number16(f[8], f[9]) && i.lastNo == Number16(f[10], f[11]) && i.ptype == Number16(f[12], f[13])
      && i.valid == f[16..16 + n] && i.crc == Number32(f[16 + n], f[17 + n], f[18 + n], f[19 + n])
  {
  }

  /** The frame f with the k payload bytes from `at` on replaced by w. */
  function Damage(f: seq<byte>, at: nat, w: seq<byte>): seq<byte>
    requires HEAD + at + |w| <= |f|
  {
    f[..HEAD + at] + w + f[HEAD + at + |w|..]
  }

  /**
   * Damage inside four consecutive payload bytes is noticed exactly when the checksum field on the
   * wire is not zero.
   */
  lemma DamageNoticed(p: Packet, at: nat, w: seq<byte>)
    requires at + |w| <= |Sent(p.data)| && |w| <= 4
    requires w != Sent(p.data)[at..at + |w|]
    ensures var f := Damage(Encode(p), at, w);
      IsFrame(f) && (CrcOk(Decode(f)) <==> CrcField(p.data) == 0)
  {
    hide Checksum, Decode, IsFrame;
    DamagedFields(p, at, w);
    var s := Sent(p.data);
    var a, c := s[..at], s[at + |w|..];
    assert s == a + s[at..at + |w|] + c;
    BurstDetected(a, w, s[at..at + |w|], c);
    assert CrcField(p.data) == Checksum(s);
  }

  lemma DamagedFields(p: Packet, at: nat, w: seq<byte>)
    requires at + |w| <= |Sent(p.data)|
    ensures var f, s := Damage(Encode(p), at, w), Sent(p.data);
      IsFrame(f) && Decode(f) == Received(p).(valid := s[..at] + w + s[at + |w|..])
  {
    hide Header, CrcField;
    var s, f := Sent(p.data), Damage(Encode(p), at, w);
    var s' := s[..at] + w + s[at + |w|..];
    assert f == Header(p, |s|) + (s' + IntBytes(CrcField(p.data)));
    HeaderFields(p, |s|, s' + IntBytes(CrcField(p.data)));
    assert f[HEAD..HEAD + |s|] == s';
    assert f[HEAD + |s|..HEAD + |s| + 4] == IntBytes(CrcField(p.data));
    IntRoundTrip(f, HEAD + |s|, CrcField(p.data));
  }

  /** A frame at the front of a longer buffer is found whole, whatever follows it. */
  lemma FrameFirst(f: seq<byte>, rest: seq<byte>)
    requires IsFrame(f)
    ensures TryRead(f + rest) == Some(|f|)
    ensures (f + rest)[..|f|] == f && (f + rest)[|f|..] == rest
  {
    assert (f + rest)[0] == f[0] && (f + rest)[1] == f[1];
    assert (f + rest)[14] == f[14] && (f + rest)[15] == f[15];
  }

  /** A proper prefix of a frame is not a frame yet. */
  lemma PrefixNotReady(f: seq<byte>, x: seq<byte>)
    requires IsFrame(f) && x <= f && |x| < |f|
    ensures TryRead(x) == None
  {
    if OVERHEAD <= |x| {
      assert x[14] == f[14] && x[15] == f[15];
    }
  }

  /** The first |n| bytes of a buffer holding a whole frame are that frame. */
  lemma FrontIsFrame(buf: seq<byte>)
    requires TryRead(buf).Some?
    ensures IsFrame(buf[..TryRead(buf).value])
  {
    var f := buf[..TryRead(buf).value];
    assert f[0] == buf[0] && f[1] == buf[1] && f[14] == buf[14] && f[15] == buf[15];
  }

  /** sendSocketCmd, up to the call of send(): the frame is built field by field in one allocation. */
  method SendSocketCmd(typeCmd: u32, ipnum: u32, curNo: u16, lastNo: u16, data: seq<byte>)
    returns (out: array<byte>)
    ensures fresh(out)
    ensures out[..] == Encode(Packet(typeCmd % 0x1_0000, ipnum, curNo, lastNo, typeCmd / 0x1_0000, data))
  {
    ghost var p := Packet(typeCmd % 0x1_0000, ipnum, curNo, lastNo, typeCmd / 0x1_0000, data);
    var valid, crc := [], 0;
    if |data| != 0 {
      valid := data[..|data| % 0x1_0000];
      var register := Crc32Le(CRCPOLY_LE, valid);
      crc := register as int;
    }
    out := new byte[OVERHEAD + |valid|];
    var at := 0;
    Short2Buffer(out, at, SYNC_HEAD);
    at := at + 2;
    assert out[..at] == ShortBytes(SYNC_HEAD);
    Short2Buffer(out, at, typeCmd % 0x1_0000);
    at := at + 2;
    assert out[..at] == ShortBytes(SYNC_HEAD) + ShortBytes(p.cmd);
    Int2Buffer(out, at, ipnum);
    at := at + 4;
    assert out[..at] == ShortBytes(SYNC_HEAD) + ShortBytes(p.cmd) + IntBytes(ipnum);
    Short2Buffer(out, at, curNo);
    at := at + 2;
    assert out[..at] == ShortBytes(SYNC_HEAD) + ShortBytes(p.cmd) + IntBytes(ipnum) + ShortBytes(curNo);
    Short2Buffer(out, at, lastNo);
    at := at + 2;
    assert out[..at] == ShortBytes(SYNC_HEAD) + ShortBytes(p.cmd) + IntBytes(ipnum) + ShortBytes(curNo)
                        + ShortBytes(lastNo);
    Short2Buffer(out, at, typeCmd / 0x1_0000);
    at := at + 2;
    assert out[..at] == ShortBytes(SYNC_HEAD) + ShortBytes(p.cmd) + IntBytes(ipnum) + ShortBytes(curNo)
                        + ShortBytes(lastNo) + ShortBytes(p.ptype);
    Short2Buffer(out, at, |valid|);
    at := at + 2;
    assert out[..at] == Header(p, |valid|);
    CopyInto(out, at, valid);
    at := at + |valid|;
    assert out[..at] == Header(p, |valid|) + valid;
    Int2Buffer(out, at, crc);
    assert out[..] == Header(p, |valid|) + valid + IntBytes(crc);
  }
}
