/** The pending-fragment list of packsocket.c, as a sequence. */
module Pending {
  import opened Bytes
  import opened Frame

  /** The fragments of one command, in arrival order. */
  function Matching(p: seq<Info>, cmd: u16): (m: seq<Info>) {
    if p == [] then []
    else
      var n := |p| - 1;
      Matching(p[..n], cmd) + (if p[n].cmd == cmd then [p[n]] else [])
  }

  /** Everything else. */
  function Others(p: seq<Info>, cmd: u16): seq<Info> {
    if p == [] then []
    else
      var n := |p| - 1;
      Others(p[..n], cmd) + (if p[n].cmd != cmd then [p[n]] else [])
  }

  /** _checkRecvList2: the first fragment says how many there are to be. */
  predicate Complete(p: seq<Info>, cmd: u16) {
    var m := Matching(p, cmd);
    m != [] && m[0].lastNo + 1 <= |m|
  }

  /** The places of the fragments of one command. */
  function Places(p: seq<Info>, cmd: u16): set<nat> {
    set i: nat | i < |p| && p[i].cmd == cmd
  }

  lemma {:induction false} MatchingCount(p: seq<Info>, cmd: u16)
    ensures |Matching(p, cmd)| == |Places(p, cmd)|
    decreases |p|
  {
    if p != [] {
      var n := |p| - 1;
      MatchingCount(p[..n], cmd);
      assert Places(p, cmd) == if p[n].cmd == cmd then Places(p[..n], cmd) + {n} else Places(p[..n], cmd);
    } else {
      assert Places(p, cmd) == {};
    }
  }

  lemma {:induction false} MatchingFirst(p: seq<Info>, cmd: u16, k: nat)
    requires k < |p| && p[k].cmd == cmd && forall j | 0 <= j < k :: p[j].cmd != cmd
    ensures Matching(p, cmd) != [] && Matching(p, cmd)[0] == p[k]
    decreases |p|
  {
    var n := |p| - 1;
    if k < n {
      MatchingFirst(p[..n], cmd, k);
    } else {
      NoneMatch(p[..n], cmd);
    }
  }

  /** A command is complete if and only if its first fragment announces no more than have come. */
  lemma CompleteIff(p: seq<Info>, cmd: u16, k: nat)
    requires k <= |p| && (forall j | 0 <= j < k :: p[j].cmd != cmd) && (k < |p| ==> p[k].cmd == cmd)
    ensures Complete(p, cmd) <==> k < |p| && p[k].lastNo + 1 <= |Places(p, cmd)|
  {
    MatchingCount(p, cmd);
    if k < |p| {
      MatchingFirst(p, cmd, k);
    } else {
      NoneMatch(p, cmd);
    }
    hide Matching, Places;
  }

  /** More nodes behind a complete command leave it complete. */
  lemma CompleteAppend(p: seq<Info>, q: seq<Info>, cmd: u16)
    requires Complete(p, cmd)
    ensures Complete(p + q, cmd)
  {
    hide Matching;
    MatchingAppend(p, q, cmd);
  }

  /** The bytes _addcmd collects: the payloads in arrival order, whatever their curNo. */
  function Payload(m: seq<Info>): seq<byte> {
    if m == [] then [] else Payload(m[..|m| - 1]) + m[|m| - 1].valid
  }

  /** How many fragments of cmd open the list. */
  function Lead(p: seq<Info>, cmd: u16): (n: nat)
    ensures n <= |p|
    ensures forall i | 0 <= i < n :: p[i].cmd == cmd
    ensures n < |p| ==> p[n].cmd != cmd
  {
    if p == [] then 0
    else
      var n := |p| - 1;
      var l := Lead(p[..n], cmd);
      if l == n && p[n].cmd == cmd then |p| else l
  }

  /** The length of the list once the fragments of cmd at its end are cut off. */
  function Keep(p: seq<Info>, cmd: u16): (n: nat)
    ensures n <= |p|
    ensures forall i | n <= i < |p| :: p[i].cmd == cmd
    ensures n > 0 ==> p[n - 1].cmd != cmd
  {
    if p == [] then 0
    else if p[|p| - 1].cmd != cmd then |p|
    else Keep(p[..|p| - 1], cmd)
  }

  /**
   * What is still linked after _destoryRecvList2: it moves the head past matching nodes and cuts a
   * matching tail off, but a matching node between two others stays on the chain.
   */
  function Destroyed(p: seq<Info>, cmd: u16): seq<Info> {
    if Keep(p, cmd) <= Lead(p, cmd) then [] else p[Lead(p, cmd)..Keep(p, cmd)]
  }

  /** A fragment of cmd lies between two fragments of other commands. */
  ghost predicate Sandwiched(p: seq<Info>, cmd: u16) {
    exists i, j, k | 0 <= i < j < k < |p| :: p[i].cmd != cmd && p[j].cmd == cmd && p[k].cmd != cmd
  }

  /**
   * The pending list as the program can use it. Dangling: a node that has been freed is still linked.
   * Crashed: such a node has been read; nothing is known from there on.
   */
  datatype List = Live(p: seq<Info>) | Dangling | Crashed

  /** _destoryRecvList2 frees the fragments of cmd; those that it leaves linked make the list useless. */
  ghost function Removed(p: seq<Info>, cmd: u16): List {
    if Sandwiched(p, cmd) then Dangling else Live(Others(p, cmd))
  }

  lemma {:induction false} MatchingAppend(p: seq<Info>, q: seq<Info>, cmd: u16)
    ensures Matching(p + q, cmd) == Matching(p, cmd) + Matching(q, cmd)
    ensures Others(p + q, cmd) == Others(p, cmd) + Others(q, cmd)
    decreases |q|
  {
    if q == [] {
      assert p + q == p;
    } else {
      assert (p + q)[..|p + q| - 1] == p + q[..|q| - 1];
      MatchingAppend(p, q[..|q| - 1], cmd);
    }
  }

  lemma {:induction false} AllMatch(p: seq<Info>, cmd: u16)
    requires forall i | 0 <= i < |p| :: p[i].cmd == cmd
    ensures Matching(p, cmd) == p && Others(p, cmd) == []
  {
    if p != [] {
      AllMatch(p[..|p| - 1], cmd);
    }
  }

  lemma {:induction false} NoneMatch(p: seq<Info>, cmd: u16)
    requires forall i | 0 <= i < |p| :: p[i].cmd != cmd
    ensures Matching(p, cmd) == [] && Others(p, cmd) == p
  {
    if p != [] {
      var n := |p| - 1;
      NoneMatch(p[..n], cmd);
      assert p[n].cmd != cmd;
      assert p[..n] + [p[n]] == p;
    }
  }

  lemma {:induction false} OthersOnly(p: seq<Info>, cmd: u16)
    ensures forall i | 0 <= i < |Others(p, cmd)| :: Others(p, cmd)[i].cmd != cmd
  {
    if p != [] {
      OthersOnly(p[..|p| - 1], cmd);
    }
  }

  lemma EmptyLeadKeep(cmd: u16)
    ensures Lead([], cmd) == 0 && Keep([], cmd) == 0
  {
  }

  /** Lead and Keep of a prefix that grows by one node. */
  lemma LeadKeepStep(p: seq<Info>, cmd: u16, i: nat)
    requires i < |p|
    ensures Lead(p[..i + 1], cmd) == if Lead(p[..i], cmd) == i && p[i].cmd == cmd then i + 1 else Lead(p[..i], cmd)
    ensures Keep(p[..i + 1], cmd) == if p[i].cmd == cmd then Keep(p[..i], cmd) else i + 1
  {
    assert p[..i + 1][..i] == p[..i];
  }

  lemma MatchingNone(cmd: u16)
    ensures Matching([], cmd) == [] && Payload(Matching([], cmd)) == []
  {
  }

  /** Matching and its payload, for a prefix that grows by one node. */
  lemma MatchingStep(p: seq<Info>, cmd: u16, i: nat)
    requires i < |p|
    ensures var m := Matching(p[..i], cmd);
      && Matching(p[..i + 1], cmd) == (if p[i].cmd == cmd then m + [p[i]] else m)
      && Payload(Matching(p[..i + 1], cmd)) == (if p[i].cmd == cmd then Payload(m) + p[i].valid else Payload(m))
  {
    assert p[..i + 1][..i] == p[..i];
    var m := Matching(p[..i], cmd);
    assert (m + [p[i]])[..|m|] == m;
  }

  /** Only the part between the leading and the trailing run of cmd can keep anything. */
  lemma OthersOfMiddle(p: seq<Info>, cmd: u16, l: nat, k: nat)
    requires l <= k <= |p|
    requires forall i | 0 <= i < l || k <= i < |p| :: p[i].cmd == cmd
    ensures Others(p, cmd) == Others(p[l..k], cmd)
  {
    hide Matching, Others;
    var a, b, c := p[..l], p[l..k], p[k..];
    assert p == (a + b) + c;
    MatchingAppend(a + b, c, cmd);
    MatchingAppend(a, b, cmd);
    AllMatch(a, cmd);
    AllMatch(c, cmd);
  }

  lemma NotBetween(p: seq<Info>, cmd: u16, i: nat, j: nat, k: nat)
    requires i < j < k < |p| && p[i].cmd != cmd && p[k].cmd != cmd
    requires !Sandwiched(p, cmd)
    ensures p[j].cmd != cmd
  {
  }

  lemma MiddleOnlyOthers(p: seq<Info>, cmd: u16, l: nat, k: nat)
    requires l < k <= |p| && p[l].cmd != cmd && p[k - 1].cmd != cmd
    requires !Sandwiched(p, cmd)
    ensures Others(p[l..k], cmd) == p[l..k]
  {
    forall j | l <= j < k
      ensures p[j].cmd != cmd
    {
      if l < j < k - 1 {
        NotBetween(p, cmd, l, j, k - 1);
      }
    }
    NoneMatch(p[l..k], cmd);
  }

  lemma SandwichSurvives(p: seq<Info>, cmd: u16, l: nat, k: nat)
    requires l <= k <= |p|
    requires forall i | 0 <= i < l || k <= i < |p| :: p[i].cmd == cmd
    requires Sandwiched(p, cmd)
    ensures Others(p[l..k], cmd) != p[l..k]
  {
    var i, j, n :| 0 <= i < j < n < |p| && p[i].cmd != cmd && p[j].cmd == cmd && p[n].cmd != cmd;
    hide Others, Sandwiched;
    assert p[l..k][j - l].cmd == cmd;
    OthersOnly(p[l..k], cmd);
  }

  lemma NotSandwiched(p: seq<Info>, cmd: u16, l: nat, k: nat)
    requires k <= l <= |p|
    requires forall i | 0 <= i < l || k <= i < |p| :: p[i].cmd == cmd
    ensures !Sandwiched(p, cmd)
  {
  }

  /** A fragment of cmd stays linked exactly if one is sandwiched. */
  lemma LeftOver(p: seq<Info>, cmd: u16)
    ensures (exists i | 0 <= i < |Destroyed(p, cmd)| :: Destroyed(p, cmd)[i].cmd == cmd) <==> Sandwiched(p, cmd)
  {
    hide Matching, Others, Sandwiched;
    DestroyedIsOthers(p, cmd);
    var d := Destroyed(p, cmd);
    if Sandwiched(p, cmd) {
      if forall i | 0 <= i < |d| :: d[i].cmd != cmd {
        NoneMatch(d, cmd);
        OthersOfDestroyed(p, cmd);
      }
    } else {
      OthersOnly(p, cmd);
    }
  }

  lemma OthersOfDestroyed(p: seq<Info>, cmd: u16)
    ensures Others(Destroyed(p, cmd), cmd) == Others(p, cmd)
  {
    hide Matching, Others;
    var l, k := Lead(p, cmd), Keep(p, cmd);
    hide Lead, Keep;
    if k <= l {
      forall i | 0 <= i < |p|
        ensures p[i].cmd == cmd
      {
        assert i < l || k <= i;
      }
      AllMatch(p, cmd);
      NoneMatch([], cmd);
    } else {
      OthersOfMiddle(p, cmd, l, k);
    }
  }

  /** What stays linked is what should stay, unless a fragment of cmd is sandwiched. */
  lemma DestroyedIsOthers(p: seq<Info>, cmd: u16)
    ensures Destroyed(p, cmd) == Others(p, cmd) <==> !Sandwiched(p, cmd)
  {
    hide Matching, Others, Lead, Keep, Sandwiched;
    var l, k := Lead(p, cmd), Keep(p, cmd);
    if k <= l {
      NotSandwiched(p, cmd, l, k);
      forall i | 0 <= i < |p|
        ensures p[i].cmd == cmd
      {
        assert i < l || k <= i;
      }
      AllMatch(p, cmd);
    } else {
      OthersOfMiddle(p, cmd, l, k);
      if Sandwiched(p, cmd) {
        SandwichSurvives(p, cmd, l, k);
      } else {
        MiddleOnlyOthers(p, cmd, l, k);
      }
    }
  }
}
