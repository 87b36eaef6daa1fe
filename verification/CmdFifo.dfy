/** cmd_fifo_t: the byte ring between recv() and the decoder. */
module CmdFifo {
  import opened Bytes
  import opened Frame

  const FIFO_MAX_LEN: nat := 40960

  /** The ring position k places after r. */
  function Slot(r: nat, k: nat): (i: nat)
    requires r < FIFO_MAX_LEN && k <= FIFO_MAX_LEN
    ensures i < FIFO_MAX_LEN
  {
    if r + k < FIFO_MAX_LEN then r + k else r + k - FIFO_MAX_LEN
  }

  /** The n bytes of ring a that start at position r. */
  ghost function View(a: seq<byte>, r: nat, n: nat): (s: seq<byte>)
    requires |a| == FIFO_MAX_LEN && r < FIFO_MAX_LEN && n <= FIFO_MAX_LEN
    ensures |s| == n
  {
    seq(n, k requires 0 <= k < n => a[Slot(r, k)])
  }

  lemma ViewSlices(a: seq<byte>, r: nat, n: nat)
    requires |a| == FIFO_MAX_LEN && r < FIFO_MAX_LEN && n <= FIFO_MAX_LEN
    ensures View(a, r, n) == if r + n <= FIFO_MAX_LEN then a[r..r + n] else a[r..] + a[..r + n - FIFO_MAX_LEN]
  {
  }

  lemma ViewTake(a: seq<byte>, r: nat, n: nat, m: nat)
    requires |a| == FIFO_MAX_LEN && r < FIFO_MAX_LEN && m <= n <= FIFO_MAX_LEN
    ensures View(a, r, m) == View(a, r, n)[..m]
    ensures View(a, Slot(r, m), n - m) == View(a, r, n)[m..]
  {
  }

  lemma ViewPush(a: seq<byte>, b: seq<byte>, r: nat, n: nat, data: seq<byte>)
    requires |a| == |b| == FIFO_MAX_LEN && r < FIFO_MAX_LEN && n + |data| <= FIFO_MAX_LEN
    requires forall k | 0 <= k < n :: b[Slot(r, k)] == a[Slot(r, k)]
    requires forall k | 0 <= k < |data| :: b[Slot(r, n + k)] == data[k]
    ensures View(b, r, n + |data|) == View(a, r, n) + data
  {
    var v := View(b, r, n + |data|);
    forall k | 0 <= k < n + |data|
      ensures v[k] == (View(a, r, n) + data)[k]
    {
      assert k < n || b[Slot(r, n + (k - n))] == data[k - n];
    }
  }

  lemma SlotAdd(r: nat, k: nat, n: nat)
    requires r < FIFO_MAX_LEN && k <= n <= FIFO_MAX_LEN
    ensures (r + k) % FIFO_MAX_LEN == Slot(r, k) && Slot(Slot(r, k), n - k) == Slot(r, n)
  {
  }

  class Fifo {
    const cmd: array<byte>
    var read: nat
    var write: nat
    var len: nat

    ghost predicate Valid()
      reads this
    {
      && cmd.Length == FIFO_MAX_LEN
      && read < FIFO_MAX_LEN && len <= FIFO_MAX_LEN
      && write == Slot(read, len)
    }

    /** The bytes waiting to be decoded, oldest first. */
    ghost function Contents(): (s: seq<byte>)
      requires Valid()
      reads this, cmd
      ensures |s| == len
    {
      View(cmd[..], read, len)
    }

    /** init_cmd_fifo on a fresh connection object. */
    constructor ()
      ensures Valid() && fresh(cmd)
      ensures Contents() == []
    {
      cmd := new byte[FIFO_MAX_LEN];
      read, write, len := 0, 0, 0;
    }

    /** The memcpy calls of write_cmd_fifo: data goes in from `write` on, around the end if need be. */
    method Store(data: seq<byte>)
      requires Valid() && len + |data| <= FIFO_MAX_LEN
      modifies this`write, cmd
      ensures write == Slot(read, len + |data|) || (write == FIFO_MAX_LEN && Slot(read, len + |data|) == 0)
      ensures forall k | 0 <= k < len :: cmd[Slot(read, k)] == old(cmd[Slot(read, k)])
      ensures forall k | 0 <= k < |data| :: cmd[Slot(read, len + k)] == data[k]
    {
      if write >= read {
        if write + |data| < FIFO_MAX_LEN {
          CopyInto(cmd, write, data);
          write := write + |data|;
        } else {
          var len1 := FIFO_MAX_LEN - write;
          CopyInto(cmd, write, data[..len1]);
          CopyInto(cmd, 0, data[len1..]);
          write := |data| - len1;
        }
      } else {
        CopyInto(cmd, write, data);
        write := write + |data|;
      }
    }

    /** write_cmd_fifo: all of the data or none of it. */
    method WriteCmdFifo(data: seq<byte>) returns (status: int)
      requires Valid()
      modifies this`write, this`len, cmd
      ensures Valid()
      ensures status == if old(len) + |data| > 40960 then -1 else 0
      ensures Contents() == if status == 0 then old(Contents()) + data else old(Contents())
    {
      if len + |data| > FIFO_MAX_LEN {
        return -1;
      }
      Store(data);
      ViewPush(old(cmd[..]), cmd[..], read, len, data);
      len := len + |data|;
      write := write % FIFO_MAX_LEN;
      return 0;
    }

    /** read_cmd_try_read: looks at a header that may wrap, without consuming it. */
    method ReadCmdTryRead() returns (ready: Option<nat>)
      requires Valid()
      ensures ready == TryRead(Contents())
    {
      if len < OVERHEAD {
        return None;
      }
      var head: seq<byte>;
      var len1 := FIFO_MAX_LEN - read;
      if len1 > HEAD {
        head := cmd[read..read + HEAD];
      } else {
        head := cmd[read..read + len1] + cmd[..HEAD - len1];
      }
      ViewSlices(cmd[..], read, HEAD);
      ViewTake(cmd[..], read, len, HEAD);
      assert head == Contents()[..HEAD];
      assert ShortAt(Contents(), 0) == ShortAt(head, 0);
      assert ShortAt(Contents(), 14) == ShortAt(head, 14);
      if ShortAt(head, 0) == SYNC_HEAD {
        var validLen := ShortAt(head, 14);
        if len >= HEAD + validLen + 4 {
          return Some(HEAD + validLen + 4);
        }
      }
      return None;
    }

    /** read_cmd_fifo: takes the oldest n bytes out. */
    method ReadCmdFifo(n: nat) returns (buf: seq<byte>)
      requires Valid() && n <= len
      modifies this`read, this`len
      ensures Valid()
      ensures buf == old(Contents())[..n] && Contents() == old(Contents())[n..]
    {
      if read + n > FIFO_MAX_LEN {
        var len1 := FIFO_MAX_LEN - read;
        buf := cmd[read..read + len1] + cmd[..n - len1];
      } else {
        buf := cmd[read..read + n];
      }
      ViewSlices(cmd[..], read, n);
      hide View, Slot;
      assert buf == View(cmd[..], read, n);
      ViewTake(cmd[..], read, len, n);
      SlotAdd(read, n, len);
      read := (read + n) % FIFO_MAX_LEN;
      len := len - n;
    }
  }
}
