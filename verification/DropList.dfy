/**
 The list of index drops waiting for their transaction's fate: a flat list tagged with
 subtransaction ids, against a stack of nested transactions and against the transaction as a
 tree whose aborted branches never happened.
 */
module DropList {

  type Oid = nat
  type SubId = nat

  datatype PendingDrop = PendingDrop(oid: Oid, subid: SubId)

  datatype AccessType = OatDrop | OtherAccess
  datatype RelTuple = NotFound | Relation(isIndex: bool, am: Oid)
  datatype XactEvent = XactCommit | XactAbort | XactPrepare | OtherXactEvent
  datatype SubXactEvent = AbortSub | CommitSub | OtherSubXactEvent

  const INVALID_OID: Oid := 0

  function Without(ps: seq<PendingDrop>, id: SubId): seq<PendingDrop> {
    if ps == [] then []
    else (if ps[0].subid == id then [] else [ps[0]]) + Without(ps[1..], id)
  }

  function Reparented(ps: seq<PendingDrop>, id: SubId, parent: SubId): (r: seq<PendingDrop>)
    ensures |r| == |ps|
  {
    seq(|ps|, i requires 0 <= i < |ps| => if ps[i].subid == id then ps[i].(subid := parent) else ps[i])
  }

  function Oids(ps: seq<PendingDrop>): (r: seq<Oid>)
    ensures |r| == |ps|
  {
    seq(|ps|, i requires 0 <= i < |ps| => ps[i].oid)
  }

  class Backend {
    var pending: seq<PendingDrop>
    /** The indexes the daemon has been told about, in order. */
    var notified: seq<Oid>

    constructor ()
      ensures pending == [] && notified == []
    {
      pending, notified := [], [];
    }

    /**
     Dropping a whole index of either access method is remembered with the current
     subtransaction; every other access changes nothing.  An access method that is not installed
     has the invalid oid, which no index matches.
     */
    method ObjectAccess(access: AccessType, isRelationClass: bool, objectId: Oid, column: int, tup: RelTuple,
                        cagraAm: Oid, flatAm: Oid, current: SubId)
      modifies this`pending
      ensures access.OatDrop? && isRelationClass && column == 0 && cagraAm != 0 && tup == Relation(true, cagraAm) ==>
                pending == old(pending) + [PendingDrop(objectId, current)]
      ensures access.OatDrop? && isRelationClass && column == 0 && flatAm != 0 && tup == Relation(true, flatAm) ==>
                pending == old(pending) + [PendingDrop(objectId, current)]
      ensures !access.OatDrop? || !isRelationClass || column != 0 ==> pending == old(pending)
      ensures tup.NotFound? || !tup.isIndex || tup.am == 0 || (tup.am != cagraAm && tup.am != flatAm) ==> pending == old(pending)
    {
      if access.OatDrop? && isRelationClass && column == 0 {
        if tup.Relation? {
          if tup.isIndex && tup.am != INVALID_OID && (tup.am == cagraAm || tup.am == flatAm) {
            pending := pending + [PendingDrop(objectId, current)];
          }
        }
      }
    }

    method XactCallback(event: XactEvent)
      modifies this
      ensures notified == old(notified) + if event.XactCommit? then Oids(old(pending)) else []
      ensures pending == if event.OtherXactEvent? then old(pending) else []
    {
      if pending == [] { return; }
      if event.XactCommit? {
        for i := 0 to |pending|
          invariant pending == old(pending) && notified == old(notified) + Oids(pending)[..i]
        {
          notified := notified + [pending[i].oid];
        }
      }
      if event.XactCommit? || event.XactAbort? || event.XactPrepare? {
        pending := [];
      }
    }

    method SubXactCallback(event: SubXactEvent, mySubid: SubId, parentSubid: SubId)
      modifies this`pending
      ensures event.AbortSub? ==> pending == Without(old(pending), mySubid)
      ensures event.CommitSub? ==> pending == Reparented(old(pending), mySubid, parentSubid)
      ensures event.OtherSubXactEvent? ==> pending == old(pending)
    {
      if pending == [] { return; }
      if event.AbortSub? {
        var i := 0;
        while i < |pending|
          invariant i <= |pending|
          invariant pending[..i] + Without(pending[i..], mySubid) == Without(old(pending), mySubid)
          decreases |pending| - i
        {
          if pending[i].subid == mySubid {
            ghost var before := pending;
            pending := pending[..i] + pending[i + 1..];
            assert pending[..i] == before[..i] && pending[i..] == before[i..][1..];
          } else {
            assert pending[..i + 1] == pending[..i] + [pending[i]] && pending[i + 1..] == pending[i..][1..];
            i := i + 1;
          }
        }
        assert pending[..i] == pending;
      } else if event.CommitSub? {
        for i := 0 to |pending|
          invariant |pending| == |old(pending)|
          invariant forall j | 0 <= j < i :: pending[j] == Reparented(old(pending), mySubid, parentSubid)[j]
          invariant forall j | i <= j < |pending| :: pending[j] == old(pending)[j]
        {
          if pending[i].subid == mySubid {
            pending := pending[i := pending[i].(subid := parentSubid)];
          }
        }
      }
    }
  }

  // ---- nested transactions as a stack ----------------------------------------------------------------

  datatype Frame = Frame(subid: SubId, drops: seq<Oid>)

  /** What a session does inside one top-level transaction. */
  datatype Event = Begin | Drop(oid: Oid) | Release | Rollback

  /** The live frames, the top transaction first, and the last subtransaction id handed out. */
  datatype Stack = Stack(frames: seq<Frame>, last: SubId)

  ghost predicate ValidStack(s: Stack) {
    && s.frames != []
    && (forall i | 0 <= i < |s.frames| :: s.frames[i].subid <= s.last)
    && (forall i, j | 0 <= i < j < |s.frames| :: s.frames[i].subid < s.frames[j].subid)
  }

  function Top(s: Stack): Frame
    requires s.frames != []
  {
    s.frames[|s.frames| - 1]
  }

  /** A savepoint is released or rolled back only while one is open. */
  predicate Enabled(s: Stack, e: Event) {
    s.frames != [] && (e.Release? || e.Rollback? ==> |s.frames| >= 2)
  }

  function Apply(s: Stack, e: Event): Stack
    requires Enabled(s, e)
  {
    var n := |s.frames|;
    match e
    case Begin => Stack(s.frames + [Frame(s.last + 1, [])], s.last + 1)
    case Drop(oid) => s.(frames := s.frames[n - 1 := Top(s).(drops := Top(s).drops + [oid])])
    case Rollback => s.(frames := s.frames[..n - 1])
    case Release =>
      s.(frames := s.frames[..n - 2] + [Frame(s.frames[n - 2].subid, s.frames[n - 2].drops + Top(s).drops)])
  }

  function Tagged(drops: seq<Oid>, id: SubId): (r: seq<PendingDrop>)
    ensures |r| == |drops|
  {
    seq(|drops|, i requires 0 <= i < |drops| => PendingDrop(drops[i], id))
  }

  /** The live frames' drops, bottom to top. */
  function Flatten(frames: seq<Frame>): seq<PendingDrop> {
    if frames == [] then []
    else Flatten(frames[..|frames| - 1]) + Tagged(frames[|frames| - 1].drops, frames[|frames| - 1].subid)
  }

  /** The flat list after the callbacks of an event; s tells which ids are current. */
  function ListStep(ps: seq<PendingDrop>, s: Stack, e: Event): seq<PendingDrop>
    requires Enabled(s, e)
  {
    match e
    case Begin => ps
    case Drop(oid) => ps + [PendingDrop(oid, Top(s).subid)]
    case Rollback => Without(ps, Top(s).subid)
    case Release => Reparented(ps, Top(s).subid, s.frames[|s.frames| - 2].subid)
  }

  lemma {:induction false} WithoutConcat(a: seq<PendingDrop>, b: seq<PendingDrop>, id: SubId)
    ensures Without(a + b, id) == Without(a, id) + Without(b, id)
  {
    if a == [] {
      assert a + b == b;
    } else {
      var head := if a[0].subid == id then [] else [a[0]];
      WithoutConcat(a[1..], b, id);
      assert (a + b)[1..] == a[1..] + b;
      assert Without(a + b, id) == head + (Without(a[1..], id) + Without(b, id));
    }
  }

  lemma {:induction false} WithoutOther(ps: seq<PendingDrop>, id: SubId)
    requires forall i | 0 <= i < |ps| :: ps[i].subid != id
    ensures Without(ps, id) == ps
  {
    if ps != [] {
      WithoutOther(ps[1..], id);
    }
  }

  lemma ReparentedOther(ps: seq<PendingDrop>, id: SubId, parent: SubId)
    requires forall i | 0 <= i < |ps| :: ps[i].subid != id
    ensures Reparented(ps, id, parent) == ps
  {}

  lemma {:induction false} WithoutAll(drops: seq<Oid>, id: SubId)
    ensures Without(Tagged(drops, id), id) == []
  {
    if drops != [] {
      WithoutAll(drops[1..], id);
      assert Tagged(drops, id)[1..] == Tagged(drops[1..], id);
    }
  }

  lemma {:induction false} TagsBelow(frames: seq<Frame>, bound: SubId)
    requires forall i | 0 <= i < |frames| :: frames[i].subid < bound
    ensures forall i | 0 <= i < |Flatten(frames)| :: Flatten(frames)[i].subid < bound
  {
    if frames != [] {
      TagsBelow(frames[..|frames| - 1], bound);
    }
  }

  lemma FlattenPush(frames: seq<Frame>, f: Frame)
    ensures Flatten(frames + [f]) == Flatten(frames) + Tagged(f.drops, f.subid)
  {
    assert (frames + [f])[..|frames|] == frames;
  }

  lemma TaggedConcat(a: seq<Oid>, b: seq<Oid>, id: SubId)
    ensures Tagged(a + b, id) == Tagged(a, id) + Tagged(b, id)
  {}

  lemma ReleaseStep(s: Stack)
    requires ValidStack(s) && Enabled(s, Release)
    ensures ListStep(Flatten(s.frames), s, Release) == Flatten(Apply(s, Release).frames)
  {
    hide Flatten, Without, Reparented, Tagged;
    var n := |s.frames|;
    var below, parent, top := s.frames[..n - 2], s.frames[n - 2], Top(s);
    assert s.frames[..n - 1] == below + [parent];
    assert s.frames == (below + [parent]) + [top];
    FlattenPush(below + [parent], top);
    ReleaseRefines(below, parent, top);
  }

  /** One event keeps the flat list equal to the stack's drops. */
  lemma StepRefines(s: Stack, e: Event)
    requires ValidStack(s) && Enabled(s, e)
    ensures ListStep(Flatten(s.frames), s, e) == Flatten(Apply(s, e).frames)
  {
    if e.Release? {
      ReleaseStep(s);
    } else {
      OtherStep(s, e);
    }
  }

  lemma OtherStep(s: Stack, e: Event)
    requires ValidStack(s) && Enabled(s, e) && !e.Release?
    ensures ListStep(Flatten(s.frames), s, e) == Flatten(Apply(s, e).frames)
  {
    hide Flatten, Without, Reparented, Tagged;
    var below, top := s.frames[..|s.frames| - 1], Top(s);
    if e.Begin? {
      BeginRefines(s.frames, s.last + 1);
    } else {
      assert s.frames == below + [top];
      FlattenPush(below, top);
      if e.Drop? {
        DropRefines(below, top, e.oid);
      } else {
        RollbackRefines(below, top);
      }
    }
  }

  lemma StepValid(s: Stack, e: Event)
    requires ValidStack(s) && Enabled(s, e)
    ensures ValidStack(Apply(s, e))
  {}

  lemma BeginRefines(frames: seq<Frame>, id: SubId)
    ensures Flatten(frames + [Frame(id, [])]) == Flatten(frames)
  {
    hide Flatten;
    FlattenPush(frames, Frame(id, []));
  }

  lemma DropRefines(below: seq<Frame>, top: Frame, oid: Oid)
    ensures Flatten((below + [top])[|below| := top.(drops := top.drops + [oid])])
              == Flatten(below) + Tagged(top.drops, top.subid) + [PendingDrop(oid, top.subid)]
  {
    hide Flatten;
    var top' := top.(drops := top.drops + [oid]);
    assert (below + [top])[|below| := top'] == below + [top'];
    FlattenPush(below, top');
    TaggedConcat(top.drops, [oid], top.subid);
  }

  lemma RollbackRefines(below: seq<Frame>, top: Frame)
    requires forall i | 0 <= i < |below| :: below[i].subid < top.subid
    ensures Without(Flatten(below) + Tagged(top.drops, top.subid), top.subid) == Flatten(below)
  {
    TagsBelow(below, top.subid);
    WithoutConcat(Flatten(below), Tagged(top.drops, top.subid), top.subid);
    WithoutOther(Flatten(below), top.subid);
    WithoutAll(top.drops, top.subid);
  }

  lemma Regrouped(a: seq<PendingDrop>, b: seq<PendingDrop>, c: seq<PendingDrop>)
    ensures (a + b) + c == a + (b + c)
  {}

  lemma ReleaseRefines(below: seq<Frame>, parent: Frame, top: Frame)
    requires parent.subid < top.subid && forall i | 0 <= i < |below| :: below[i].subid < top.subid
    ensures Reparented(Flatten(below + [parent]) + Tagged(top.drops, top.subid), top.subid, parent.subid)
              == Flatten(below + [Frame(parent.subid, parent.drops + top.drops)])
  {
    hide Flatten, Tagged, Reparented, Without;
    var kept := Flatten(below + [parent]);
    TagsBelow(below + [parent], top.subid);
    ReparentedOther(kept, top.subid, parent.subid);
    ReparentedTop(kept, top.drops, top.subid, parent.subid);
    ReleasedFrame(below, parent, top.drops);
  }

  /** The parent's frame after a release, flattened. */
  lemma ReleasedFrame(below: seq<Frame>, parent: Frame, drops: seq<Oid>)
    ensures Flatten(below + [parent]) + Tagged(drops, parent.subid)
              == Flatten(below + [Frame(parent.subid, parent.drops + drops)])
  {
    hide Flatten, Tagged;
    FlattenPush(below, parent);
    FlattenPush(below, Frame(parent.subid, parent.drops + drops));
    TaggedConcat(parent.drops, drops, parent.subid);
    Regrouped(Flatten(below), Tagged(parent.drops, parent.subid), Tagged(drops, parent.subid));
  }

  lemma ReparentedTop(kept: seq<PendingDrop>, drops: seq<Oid>, id: SubId, parent: SubId)
    requires Reparented(kept, id, parent) == kept
    ensures Reparented(kept + Tagged(drops, id), id, parent) == kept + Tagged(drops, parent)
  {
    var l, r := Reparented(kept + Tagged(drops, id), id, parent), kept + Tagged(drops, parent);
    assert forall i | 0 <= i < |kept| :: Reparented(kept, id, parent)[i] == kept[i];
    assert forall i | 0 <= i < |l| :: l[i] == r[i];
  }

  // ---- runs ------------------------------------------------------------------------------------------------

  const TOP_SUBID: SubId := 1

  function Start(): Stack { Stack([Frame(TOP_SUBID, [])], TOP_SUBID) }

  predicate ValidRun(es: seq<Event>)
    decreases |es|, 0
  {
    es == [] || (ValidRun(es[..|es| - 1]) && Enabled(StackAfter(es[..|es| - 1]), es[|es| - 1]))
  }

  function StackAfter(es: seq<Event>): Stack
    requires ValidRun(es)
    decreases |es|, 1
  {
    if es == [] then Start() else Apply(StackAfter(es[..|es| - 1]), es[|es| - 1])
  }

  function ListAfter(es: seq<Event>): seq<PendingDrop>
    requires ValidRun(es)
  {
    if es == [] then []
    else ListStep(ListAfter(es[..|es| - 1]), StackAfter(es[..|es| - 1]), es[|es| - 1])
  }

  /** At every point of every transaction the list is the live frames' drops, bottom to top. */
  lemma {:induction false} ListIsTheStack(es: seq<Event>)
    requires ValidRun(es)
    ensures ValidStack(StackAfter(es)) && ListAfter(es) == Flatten(StackAfter(es).frames)
  {
    hide Apply, ListStep, Flatten, ValidStack, Enabled, Start;
    if es != [] {
      ListIsTheStack(es[..|es| - 1]);
      StepRefines(StackAfter(es[..|es| - 1]), es[|es| - 1]);
      StepValid(StackAfter(es[..|es| - 1]), es[|es| - 1]);
    } else {
      StartIsEmpty();
    }
  }

  lemma StartIsEmpty()
    ensures ValidStack(Start()) && Flatten(Start().frames) == []
  {
    FlattenPush([], Frame(TOP_SUBID, []));
    assert [] + [Frame(TOP_SUBID, [])] == [Frame(TOP_SUBID, [])];
  }

  // ---- a transaction as a tree -------------------------------------------------------------------------------

  /** Drops and subtransactions in the order they happen; a subtransaction commits or aborts. */
  datatype Node = Leaf(oid: Oid) | Sub(children: seq<Node>, commits: bool)

  /** The events a tree stands for. */
  function Events(ns: seq<Node>): seq<Event> {
    if ns == [] then []
    else NodeEvents(ns[0]) + Events(ns[1..])
  }

  function NodeEvents(n: Node): seq<Event> {
    match n
    case Leaf(oid) => [Drop(oid)]
    case Sub(children, commits) => [Begin] + Events(children) + [if commits then Release else Rollback]
  }

  /** The drops no aborted subtransaction contains. */
  function Survivors(ns: seq<Node>): seq<Oid> {
    if ns == [] then [] else NodeSurvivors(ns[0]) + Survivors(ns[1..])
  }

  function NodeSurvivors(n: Node): seq<Oid> {
    match n
    case Leaf(oid) => [oid]
    case Sub(children, commits) => if commits then Survivors(children) else []
  }

  lemma RunExtends(es: seq<Event>, e: Event)
    requires ValidRun(es) && Enabled(StackAfter(es), e)
    ensures ValidRun(es + [e]) && StackAfter(es + [e]) == Apply(StackAfter(es), e)
  {
    hide Apply, Enabled;
    assert (es + [e])[..|es|] == es;
  }

  /** Running a tree adds its surviving drops to the frame it runs in and leaves the other frames alone. */
  lemma {:induction false} TreeRuns(es: seq<Event>, ns: seq<Node>)
    requires ValidRun(es) && StackAfter(es).frames != []
    ensures ValidRun(es + Events(ns))
    ensures Grown(StackAfter(es), StackAfter(es + Events(ns)), Survivors(ns))
    decreases ns, 1
  {
    hide ValidRun, StackAfter, Grown, Apply, NodeEvents, NodeSurvivors;
    if ns == [] {
      assert es + Events(ns) == es;
      GrownByNothing(StackAfter(es));
    } else {
      NodeRuns(es, ns[0]);
      GrownFrames(StackAfter(es), StackAfter(es + NodeEvents(ns[0])), NodeSurvivors(ns[0]));
      var mid := es + NodeEvents(ns[0]);
      TreeRuns(mid, ns[1..]);
      assert es + Events(ns) == mid + Events(ns[1..]);
      GrownTwice(StackAfter(es), StackAfter(mid), StackAfter(mid + Events(ns[1..])), NodeSurvivors(ns[0]), Survivors(ns[1..]));
    }
  }

  predicate Grown(s: Stack, t: Stack, drops: seq<Oid>)
  {
    && s.frames != [] && |t.frames| == |s.frames|
    && t.frames[..|s.frames| - 1] == s.frames[..|s.frames| - 1]
    && Top(t) == Top(s).(drops := Top(s).drops + drops)
  }

  lemma GrownByNothing(s: Stack)
    requires s.frames != []
    ensures Grown(s, s, [])
  {
    assert Top(s).drops + [] == Top(s).drops;
  }

  lemma GrownFrames(s: Stack, t: Stack, drops: seq<Oid>)
    requires Grown(s, t, drops)
    ensures s.frames != [] && t.frames != []
  {}

  lemma GrownTwice(s: Stack, t: Stack, u: Stack, a: seq<Oid>, b: seq<Oid>)
    requires Grown(s, t, a) && Grown(t, u, b)
    ensures Grown(s, u, a + b)
  {
    assert Top(s).drops + a + b == Top(s).drops + (a + b);
  }

  lemma {:induction false} NodeRuns(es: seq<Event>, n: Node)
    requires ValidRun(es) && StackAfter(es).frames != []
    ensures ValidRun(es + NodeEvents(n))
    ensures Grown(StackAfter(es), StackAfter(es + NodeEvents(n)), NodeSurvivors(n))
    decreases n, 0
  {
    hide ValidRun, StackAfter, Grown, Apply, Enabled, Events, Survivors;
    var s := StackAfter(es);
    match n {
      case Leaf(oid) =>
        DropGrows(s, oid);
        RunExtends(es, Drop(oid));
      case Sub(children, commits) =>
        BeginEnabled(s);
        RunExtends(es, Begin);
        var begun := es + [Begin];
        TreeRuns(begun, children);
        var ran := begun + Events(children);
        var last := if commits then Release else Rollback;
        EndSub(s, StackAfter(begun), StackAfter(ran), Survivors(children), commits);
        RunExtends(ran, last);
        assert es + NodeEvents(n) == ran + [last];
    }
  }

  lemma DropGrows(s: Stack, oid: Oid)
    requires s.frames != []
    ensures Enabled(s, Drop(oid)) && Grown(s, Apply(s, Drop(oid)), [oid])
  {}

  lemma BeginEnabled(s: Stack)
    requires s.frames != []
    ensures Enabled(s, Begin) && Apply(s, Begin).frames != []
  {}

  lemma EndSub(s: Stack, begun: Stack, ran: Stack, drops: seq<Oid>, commits: bool)
    requires s.frames != [] && begun == Apply(s, Begin) && Grown(begun, ran, drops)
    ensures var last := if commits then Release else Rollback;
            Enabled(ran, last) && Grown(s, Apply(ran, last), if commits then drops else [])
  {
    assert ran.frames[..|s.frames|] == begun.frames[..|s.frames|] == s.frames;
    assert ran.frames[|s.frames| - 1] == ran.frames[..|s.frames|][|s.frames| - 1] == Top(s);
    assert ran.frames[..|s.frames| - 1] == s.frames[..|s.frames| - 1];
    assert [] + drops == drops;
    assert Top(s).drops + [] == Top(s).drops;
  }

  /** What the daemon hears when the whole transaction is the given tree. */
  function Heard(ns: seq<Node>, end: XactEvent): seq<Oid>
    requires ValidRun(Events(ns))
  {
    if end.XactCommit? then Oids(ListAfter(Events(ns))) else []
  }

  /**
   A transaction that commits tells the daemon about exactly the drops outside its aborted
   branches, in order, and one that aborts or is prepared tells it nothing.
   */
  lemma NotifiesSurvivors(ns: seq<Node>, end: XactEvent)
    ensures ValidRun(Events(ns))
    ensures Heard(ns, end) == if end.XactCommit? then Survivors(ns) else []
  {
    hide Events, Survivors, Grown, Flatten;
    StartIsEmpty();
    TreeRuns([], ns);
    assert [] + Events(ns) == Events(ns);
    ListIsTheStack(Events(ns));
    var t := StackAfter(Events(ns));
    hide StackAfter, ListAfter, ValidRun;
    LoneFrame(t, Survivors(ns));
  }

  lemma LoneFrame(t: Stack, drops: seq<Oid>)
    requires Grown(Start(), t, drops)
    ensures Oids(Flatten(t.frames)) == drops
  {
    assert t.frames == [] + [Frame(TOP_SUBID, [] + drops)];
    FlattenPush([], Frame(TOP_SUBID, [] + drops));
  }

  /** The callbacks of one event, as the server makes them. */
  method Play(b: Backend, s: Stack, e: Event, tup: RelTuple, cagraAm: Oid, flatAm: Oid)
    requires Enabled(s, e)
    requires tup.Relation? && tup.isIndex && tup.am != INVALID_OID && (tup.am == cagraAm || tup.am == flatAm)
    modifies b`pending
    ensures b.pending == ListStep(old(b.pending), s, e)
  {
    match e {
      case Begin => b.SubXactCallback(OtherSubXactEvent, s.last + 1, Top(s).subid);
      case Drop(oid) => b.ObjectAccess(OatDrop, true, oid, 0, tup, cagraAm, flatAm, Top(s).subid);
      case Rollback => b.SubXactCallback(AbortSub, Top(s).subid, s.frames[|s.frames| - 2].subid);
      case Release => b.SubXactCallback(CommitSub, Top(s).subid, s.frames[|s.frames| - 2].subid);
    }
  }

  /** A whole transaction through the callbacks, over indexes of either access method. */
  method PlayTransaction(b: Backend, ns: seq<Node>, end: XactEvent, am: Oid -> Oid, cagraAm: Oid, flatAm: Oid)
    requires b.pending == [] && !end.OtherXactEvent?
    requires forall index :: am(index) != INVALID_OID && (am(index) == cagraAm || am(index) == flatAm)
    modifies b
    ensures b.pending == []
    ensures b.notified == old(b.notified) + if end.XactCommit? then Survivors(ns) else []
  {
    NotifiesSurvivors(ns, end);
    var es := Events(ns);
    var s := Start();
    hide Events, NodeEvents, Survivors, NodeSurvivors, Apply, ListStep;
    for i := 0 to |es|
      invariant ValidRun(es[..i]) && s == StackAfter(es[..i]) && b.pending == ListAfter(es[..i])
      invariant b.notified == old(b.notified)
    {
      PrefixValid(es, i + 1);
      assert es[..i + 1][..i] == es[..i];
      Play(b, s, es[i], Relation(true, am(if es[i].Drop? then es[i].oid else INVALID_OID)), cagraAm, flatAm);
      s := Apply(s, es[i]);
    }
    assert es[..|es|] == es;
    b.XactCallback(end);
  }

  lemma {:induction false} PrefixValid(es: seq<Event>, i: nat)
    requires ValidRun(es) && i <= |es|
    ensures ValidRun(es[..i])
    decreases |es|
  {
    if i < |es| {
      PrefixValid(es[..|es| - 1], i);
      assert es[..|es| - 1][..i] == es[..i];
    } else {
      assert es[..i] == es;
    }
  }
}
