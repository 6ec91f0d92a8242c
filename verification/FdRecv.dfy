/**
 Receiving a message that may carry descriptors: every descriptor the kernel installs is closed
 once or returned, and at most one is returned.
 */
module FdRecv {
  import opened Bytes

  /** A control message: descriptors, or something of another level or type. */
  datatype Control = Rights(fds: seq<int>) | OtherControl

  /** What recvmsg and read report. */
  datatype Reply = Interrupted | Failed | Data(bytes: seq<Byte>, controls: seq<Control>, truncated: bool)

  /** The descriptors of a message in order. */
  function Installed(cs: seq<Control>): seq<int> {
    if cs == [] then []
    else Installed(cs[..|cs| - 1]) + if cs[|cs| - 1].Rights? then cs[|cs| - 1].fds else []
  }

  predicate Distinct(fds: seq<int>) { forall i, j | 0 <= i < j < |fds| :: fds[i] != fds[j] }

  function SetOf(fds: seq<int>): set<int> { set i | 0 <= i < |fds| :: fds[i] }

  /** The process and its peer's remaining replies. */
  class Process {
    var open: set<int>
    var replies: seq<Reply>

    /** The kernel numbers installed descriptors with unused, non-negative, distinct integers. */
    ghost predicate Plausible(used: set<int>)
      reads this`replies
    {
      forall i | 0 <= i < |replies| && replies[i].Data? ::
        IsNew(Installed(replies[i].controls), used)
    }

    constructor (open: set<int>, replies: seq<Reply>)
      ensures this.open == open && this.replies == replies
    {
      this.open, this.replies := open, replies;
    }

    /** A descriptor is closed only while open. */
    method Close(fd: int)
      requires fd in open
      modifies this`open
      ensures open == old(open) - {fd}
    {
      open := open - {fd};
    }

    /** recvmsg into a buffer of len bytes; a peer with nothing more to say has failed. */
    method RecvMsg(len: nat) returns (r: Reply)
      modifies this
      ensures r == if old(replies) == [] then Failed else Clipped(old(replies)[0], len)
      ensures replies == if old(replies) == [] then [] else old(replies)[1..]
      ensures open == old(open) + if r.Data? && r.bytes != [] then SetOf(Installed(r.controls)) else {}
    {
      if replies == [] { return Failed; }
      r := Clipped(replies[0], len);
      replies := replies[1..];
      if r.Data? && r.bytes != [] {
        open := open + SetOf(Installed(r.controls));
      }
    }

    /** A plain read carries no descriptors. */
    method Read(len: nat) returns (r: Reply)
      modifies this`replies
      ensures r == if old(replies) == [] then Failed else Clipped(old(replies)[0], len)
      ensures replies == if old(replies) == [] then [] else old(replies)[1..]
    {
      if replies == [] { return Failed; }
      r := Clipped(replies[0], len);
      replies := replies[1..];
    }

    /** One message's descriptors: the first of all is kept, the others are closed. */
    method KeepSome(fds: seq<int>, kept: int, ghost before: set<int>, ghost all: seq<int>, ghost seen: nat)
      returns (keep: int)
      requires IsNew(all, before) && seen + |fds| <= |all| && all[seen..seen + |fds|] == fds
      requires kept == (if seen == 0 then -1 else all[0]) && open == Remaining(before, all, seen)
      modifies this`open
      ensures keep == if seen + |fds| == 0 then -1 else all[0]
      ensures open == Remaining(before, all, seen + |fds|)
    {
      hide Remaining, Distinct;
      keep := kept;
      for i := 0 to |fds|
        invariant keep == if seen + i == 0 then -1 else all[0]
        invariant open == Remaining(before, all, seen + i)
      {
        assert fds[i] == all[seen..seen + |fds|][i] == all[seen + i];
        RemainingStep(before, all, seen + i);
        if keep < 0 {
          keep := fds[i];
        } else {
          Close(fds[i]);
        }
      }
    }

    /** Keeps the first descriptor of all control messages and closes the others. */
    method KeepFirst(controls: seq<Control>, ghost before: set<int>) returns (keep: int)
      requires IsNew(Installed(controls), before) && open == before + SetOf(Installed(controls))
      modifies this`open
      ensures keep == if Installed(controls) == [] then -1 else Installed(controls)[0]
      ensures open == if keep < 0 then before else before + {keep}
    {
      ghost var all := Installed(controls);
      RemainingEnds(before, all);
      hide Remaining, IsNew, SetOf;
      keep := -1;
      ghost var seen := 0;
      for c := 0 to |controls|
        invariant seen == |Installed(controls[..c])|
        invariant seen <= |all| && open == Remaining(before, all, seen)
        invariant keep == if seen == 0 then -1 else all[0]
      {
        InstalledNext(controls, c);
        if controls[c].OtherControl? { continue; }
        keep := KeepSome(controls[c].fds, keep, before, all, seen);
        seen := seen + |controls[c].fds|;
      }
      assert controls[..|controls|] == controls;
      KeptIsNew(before, all);
    }
  }

  ghost predicate IsNew(fds: seq<int>, used: set<int>) {
    Distinct(fds) && forall j | 0 <= j < |fds| :: fds[j] >= 0 && fds[j] !in used
  }

  lemma KeptIsNew(before: set<int>, all: seq<int>)
    requires IsNew(all, before)
    ensures all != [] ==> all[0] >= 0
  {}

  function Clipped(r: Reply, len: nat): (c: Reply)
    ensures c.Data? ==> r.Data? && |c.bytes| <= len && c.controls == r.controls
  {
    if r.Data? && |r.bytes| > len then r.(bytes := r.bytes[..len]) else r
  }

  /** The open descriptors once the first `seen` installed ones have been dealt with. */
  ghost function Remaining(before: set<int>, all: seq<int>, seen: nat): set<int>
    requires seen <= |all|
  {
    before + (if seen == 0 then {} else {all[0]}) + set j | seen <= j < |all| :: all[j]
  }

  lemma RemainingStep(before: set<int>, all: seq<int>, seen: nat)
    requires seen < |all| && IsNew(all, before)
    ensures all[seen] in Remaining(before, all, seen)
    ensures Remaining(before, all, seen + 1) ==
              if seen == 0 then Remaining(before, all, seen) else Remaining(before, all, seen) - {all[seen]}
  {
    var l := Remaining(before, all, seen + 1);
    var r := if seen == 0 then Remaining(before, all, seen) else Remaining(before, all, seen) - {all[seen]};
    forall x ensures x in l <==> x in r {
      if x in r && x !in before && x != all[0] {
        var j :| seen <= j < |all| && all[j] == x;
      }
    }
  }

  lemma {:induction false} InstalledPrefix(cs: seq<Control>, i: nat)
    requires i <= |cs|
    ensures Installed(cs[..i]) <= Installed(cs)
    decreases |cs|
  {
    if i < |cs| {
      InstalledPrefix(cs[..|cs| - 1], i);
      assert cs[..|cs| - 1][..i] == cs[..i];
    } else {
      assert cs[..i] == cs;
    }
  }

  /** At the start everything installed is open; at the end only the first is. */
  lemma RemainingEnds(before: set<int>, all: seq<int>)
    ensures Remaining(before, all, 0) == before + SetOf(all)
    ensures Remaining(before, all, |all|) == if all == [] then before else before + {all[0]}
  {}

  /** One more control message's descriptors come next. */
  lemma InstalledNext(cs: seq<Control>, c: nat)
    requires c < |cs|
    ensures var fds := if cs[c].Rights? then cs[c].fds else [];
      && Installed(cs[..c + 1]) == Installed(cs[..c]) + fds
      && |Installed(cs[..c])| + |fds| <= |Installed(cs)|
      && Installed(cs)[|Installed(cs[..c])|..|Installed(cs[..c])| + |fds|] == fds
  {
    InstalledPrefix(cs, c + 1);
    assert cs[..c + 1][..c] == cs[..c];
    hide Installed;
    assert Installed(cs)[..|Installed(cs[..c + 1])|] == Installed(cs[..c + 1]);
  }

  // ---- the call ---------------------------------------------------------------------------------------------

  /** What the caller is owed: the payload and the descriptors' control messages, or nothing. */
  datatype Delivery = Nothing | Delivered(payload: seq<Byte>, controls: seq<Control>)

  /** The first reply that is not an interruption, and the replies after it. */
  function FirstReply(rs: seq<Reply>): (Reply, seq<Reply>) {
    if rs == [] then (Failed, []) else if rs[0].Interrupted? then FirstReply(rs[1..]) else (rs[0], rs[1..])
  }

  /** The payload completed by plain reads. */
  function Collect(rs: seq<Reply>, got: seq<Byte>, len: nat, controls: seq<Control>): Delivery {
    if |got| >= len then Delivered(got, controls)
    else if rs == [] then Nothing
    else
      match Clipped(rs[0], len - |got|)
      case Interrupted => Collect(rs[1..], got, len, controls)
      case Failed => Nothing
      case Data(bytes, _, _) => if bytes == [] then Nothing else Collect(rs[1..], got + bytes, len, controls)
  }

  function Expected(rs: seq<Reply>, len: nat): Delivery {
    var (first, rest) := FirstReply(rs);
    var m := Clipped(first, len);
    if !m.Data? || m.bytes == [] || m.truncated then Nothing else Collect(rest, m.bytes, len, m.controls)
  }

  lemma {:induction false} CollectKeeps(rs: seq<Reply>, got: seq<Byte>, len: nat, controls: seq<Control>)
    requires |got| <= len
    ensures var d := Collect(rs, got, len, controls);
            d.Delivered? ==> d.controls == controls && |d.payload| == len && got <= d.payload
  {
    if |got| < len && rs != [] {
      var c := Clipped(rs[0], len - |got|);
      CollectKeeps(rs[1..], if c.Data? then got + c.bytes else got, len, controls);
    }
  }

  /** The bytes the peer gets through, end to end: interruptions carry none, a failure or an empty read ends them. */
  function Received(rs: seq<Reply>): seq<Byte> {
    if rs == [] then []
    else
      match rs[0]
      case Interrupted => Received(rs[1..])
      case Failed => []
      case Data(bytes, _, _) => if bytes == [] then [] else bytes + Received(rs[1..])
  }

  /** Reply i is the message: nothing but interruptions before it, some bytes, and no control message cut off. */
  ghost predicate OpensWith(rs: seq<Reply>, i: nat) {
    && i < |rs| && (forall j | 0 <= j < i :: rs[j].Interrupted?)
    && rs[i].Data? && rs[i].bytes != [] && !rs[i].truncated
  }

  lemma {:induction false} CollectIsReceived(rs: seq<Reply>, got: seq<Byte>, len: nat, controls: seq<Control>)
    requires |got| <= len
    ensures Collect(rs, got, len, controls) ==
              if |got + Received(rs)| >= len then Delivered((got + Received(rs))[..len], controls) else Nothing
  {
    if |got| == len {
      assert (got + Received(rs))[..len] == got;
    } else if rs != [] {
      var c := Clipped(rs[0], len - |got|);
      if c.Interrupted? {
        CollectIsReceived(rs[1..], got, len, controls);
      } else if c.Data? && c.bytes != [] {
        CollectIsReceived(rs[1..], got + c.bytes, len, controls);
        assert got + (rs[0].bytes + Received(rs[1..])) == got + rs[0].bytes + Received(rs[1..]);
        if |rs[0].bytes| > len - |got| {
          assert (got + c.bytes + Received(rs[1..]))[..len] == (got + rs[0].bytes + Received(rs[1..]))[..len];
        }
      }
    }
  }

  /** The call delivers precisely when a message opens and enough bytes get through: the first len of them, with its control messages. */
  lemma {:induction false} DeliveredExactly(rs: seq<Reply>, len: nat)
    ensures var d := Expected(rs, len);
      && (d.Delivered? <==> 1 <= len <= |Received(rs)| && exists i: nat :: OpensWith(rs, i))
      && (d.Delivered? ==> d.payload == Received(rs)[..len])
      && (d.Delivered? ==> forall i: nat | OpensWith(rs, i) :: d.controls == rs[i].controls)
  {
    if rs != [] {
      if rs[0].Interrupted? {
        DeliveredExactly(rs[1..], len);
        Later(rs);
      } else if rs[0].Data? {
        var m := Clipped(rs[0], len);
        if rs[0].bytes != [] && !rs[0].truncated { assert OpensWith(rs, 0); }
        CollectIsReceived(rs[1..], m.bytes, len, m.controls);
        assert |rs[0].bytes| > len ==> (m.bytes + Received(rs[1..]))[..len] == (rs[0].bytes + Received(rs[1..]))[..len];
      }
    }
  }

  /** An interruption in front does not change which reply is the message. */
  lemma Later(rs: seq<Reply>)
    requires rs != [] && rs[0].Interrupted?
    ensures forall i: nat | OpensWith(rs, i) :: i >= 1 && OpensWith(rs[1..], i - 1)
    ensures forall i: nat | OpensWith(rs[1..], i) :: OpensWith(rs, i + 1)
  {
    forall i: nat | OpensWith(rs[1..], i) ensures OpensWith(rs, i + 1) {
      forall j | 0 <= j < i + 1 ensures rs[j].Interrupted? {
        if j > 0 { assert rs[1..][j - 1].Interrupted?; }
      }
    }
  }

  /** recvmsg, again while it is interrupted. */
  method FirstMessage(p: Process, len: nat) returns (m: Reply)
    requires p.Plausible(p.open)
    modifies p
    ensures m == Clipped(FirstReply(old(p.replies)).0, len) && p.replies == FirstReply(old(p.replies)).1
    ensures p.open == old(p.open) + if m.Data? && m.bytes != [] then SetOf(Installed(m.controls)) else {}
    ensures m.Data? ==> IsNew(Installed(m.controls), old(p.open))
    ensures !m.Interrupted?
  {
    hide IsNew, SetOf, Installed;
    m := p.RecvMsg(len);
    while m.Interrupted?
      invariant p.open == old(p.open) + if m.Data? && m.bytes != [] then SetOf(Installed(m.controls)) else {}
      invariant p.Plausible(old(p.open))
      invariant m.Interrupted? ==> FirstReply(old(p.replies)) == FirstReply(p.replies)
      invariant !m.Interrupted? ==> m == Clipped(FirstReply(old(p.replies)).0, len) && p.replies == FirstReply(old(p.replies)).1
      invariant m.Data? ==> IsNew(Installed(m.controls), old(p.open))
      decreases |p.replies|, m.Interrupted?
    {
      m := p.RecvMsg(len);
    }
  }

  /**
   Either the whole payload arrives and at most one descriptor, the message's first, is new in
   the process, or the call fails and none is.
   */
  method Receive(p: Process, len: nat) returns (status: int, payload: seq<Byte>, outFd: int)
    requires p.Plausible(p.open)
    modifies p
    ensures status == 0 || status == -1
    ensures status == 0 <==> 1 <= len <= |Received(old(p.replies))| && exists i: nat :: OpensWith(old(p.replies), i)
    ensures status == -1 ==> outFd == -1 && p.open == old(p.open)
    ensures status == 0 ==>
              && |Received(old(p.replies))| >= len && payload == Received(old(p.replies))[..len]
              && (forall i: nat | OpensWith(old(p.replies), i) ::
                    outFd == if Installed(old(p.replies)[i].controls) == [] then -1 else Installed(old(p.replies)[i].controls)[0])
              && p.open == old(p.open) + (if outFd < 0 then {} else {outFd})
              && (outFd >= 0 ==> outFd !in old(p.open))
  {
    hide IsNew, SetOf, Installed, FirstReply, Received, OpensWith;
    DeliveredExactly(p.replies, len);
    var m := FirstMessage(p, len);
    if m.Failed? || m.bytes == [] { return -1, [], -1; }
    if Installed(m.controls) != [] { NewFirst(Installed(m.controls), old(p.open)); }
    var keep := p.KeepFirst(m.controls, old(p.open));
    if m.truncated {
      if keep >= 0 { p.Close(keep); }
      return -1, [], -1;
    }
    CollectKeeps(p.replies, m.bytes, len, m.controls);
    outFd, payload := keep, m.bytes;
    while |payload| < len
      invariant |payload| <= len
      invariant Collect(p.replies, payload, len, m.controls) == Expected(old(p.replies), len)
      invariant p.open == old(p.open) + if outFd < 0 then {} else {outFd}
      decreases |p.replies|, len - |payload|
    {
      var r := p.Read(len - |payload|);
      if r.Interrupted? { continue; }
      if r.Failed? || r.bytes == [] {
        if outFd >= 0 { p.Close(outFd); }
        return -1, [], -1;
      }
      payload := payload + r.bytes;
    }
    status := 0;
  }

  lemma NewFirst(fds: seq<int>, used: set<int>)
    requires IsNew(fds, used) && fds != []
    ensures fds[0] >= 0 && fds[0] !in used
  {}
}
