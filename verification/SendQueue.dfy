/** The bounded queue in front of every connection: a sender never blocks, and a full queue sheds
    its oldest frame (hub/session.go, and the same algorithm in agent/agent.go). */
module SendQueue {

  // ----- one sender at a time -----

  /** The last `capacity` elements. */
  function Newest<T>(s: seq<T>, capacity: nat): (r: seq<T>)
    ensures |r| <= capacity && |r| <= |s|
  {
    if |s| <= capacity then s else s[|s| - capacity..]
  }

  /** What was queued last is kept. */
  lemma NewestKeepsLast<T>(s: seq<T>, x: T, capacity: nat)
    requires capacity >= 1
    ensures var r := Newest(s + [x], capacity); r != [] && r[|r| - 1] == x
  {
  }

  class Outbound<T> {
    const capacity: nat
    var out: seq<T>
    var dropped: nat
    var done: bool

    ghost predicate Valid()
      reads this
    {
      capacity >= 1 && |out| <= capacity
    }

    constructor (capacity: nat)
      requires capacity >= 1
      ensures Valid() && this.capacity == capacity && out == [] && dropped == 0 && !done
    {
      this.capacity := capacity;
      out, dropped, done := [], 0, false;
    }

    /** One `select` that sends only when there is room. */
    method TryPut(frame: T) returns (ok: bool)
      requires Valid()
      modifies this`out
      ensures Valid() && ok == (|old(out)| < capacity)
      ensures out == if ok then old(out) + [frame] else old(out)
    {
      ok := |out| < capacity;
      if ok {
        out := out + [frame];
      }
    }

    /** One `select` that receives only when something is queued. */
    method TryTake() returns (ok: bool)
      requires Valid()
      modifies this`out
      ensures Valid() && ok == (old(out) != [])
      ensures out == if ok then old(out)[1..] else old(out)
    {
      ok := out != [];
      if ok {
        out := out[1..];
      }
    }

    /** Queues a frame with nobody else at the queue: the newest frames stay. */
    method Enqueue(frame: T)
      requires Valid()
      modifies this`out, this`dropped
      ensures Valid() && out == Newest(old(out) + [frame], capacity)
      ensures dropped == old(dropped) + |old(out)| + 1 - |out|
    {
      var ok := TryPut(frame);
      if ok {
        return;
      }
      ok := TryTake();
      if ok {
        dropped := dropped + 1;
      }
      ok := TryPut(frame);
      if !ok {
        assert false; // needs another sender in between: see Retrying below
      }
    }

    method Send(frame: T)
      requires Valid()
      modifies this`out, this`dropped
      ensures Valid()
      ensures old(done) ==> out == old(out) && dropped == old(dropped)
      ensures !old(done) ==> out == Newest(old(out) + [frame], capacity)
      ensures !old(done) ==> dropped == old(dropped) + |old(out)| + 1 - |out|
    {
      if done {
        return;
      }
      Enqueue(frame);
    }

    /** Safe to call more than once. */
    method Close()
      modifies this`done
      ensures done
    {
      done := true;
    }
  }

  /** A history without interleaving: whole sends and takes. */
  datatype Whole<T> = Sent(frame: T) | Took

  ghost function Frames<T>(ops: seq<Whole<T>>): seq<T> {
    if ops == [] then []
    else
      var last := ops[|ops| - 1];
      Frames(ops[..|ops| - 1]) + if last.Sent? then [last.frame] else []
  }

  ghost function Queued<T>(ops: seq<Whole<T>>, capacity: nat): seq<T> {
    if ops == [] then []
    else
      var before := Queued(ops[..|ops| - 1], capacity);
      match ops[|ops| - 1]
      case Sent(frame) => Newest(before + [frame], capacity)
      case Took => if before == [] then [] else before[1..]
  }

  /** How many frames were sent up to and including the last one taken. */
  ghost function TakenThrough<T>(ops: seq<Whole<T>>, capacity: nat): int {
    if ops == [] then 0
    else
      var rest := ops[..|ops| - 1];
      if ops[|ops| - 1].Took? && Queued(rest, capacity) != [] then
        |Frames(rest)| - |Queued(rest, capacity)| + 1
      else TakenThrough(rest, capacity)
  }

  /** The queue is exactly the newest undelivered frames, up to capacity. */
  lemma QueuedIsNewestUndelivered<T>(ops: seq<Whole<T>>, capacity: nat)
    requires capacity >= 1
    ensures 0 <= TakenThrough(ops, capacity) <= |Frames(ops)|
    ensures var all, undelivered := Frames(ops), |Frames(ops)| - TakenThrough(ops, capacity);
            Queued(ops, capacity) == all[|all| - (if undelivered > capacity then capacity else undelivered)..]
  {
    hide Frames, Queued, TakenThrough;
    QueuedIsSuffix(ops, capacity);
    var all, k := Frames(ops), TakenThrough(ops, capacity);
    assert |all[k..]| == |all| - k;
  }

  lemma {:induction false} QueuedIsSuffix<T>(ops: seq<Whole<T>>, capacity: nat)
    requires capacity >= 1
    ensures 0 <= TakenThrough(ops, capacity) <= |Frames(ops)|
    ensures Queued(ops, capacity)
            == Newest(Frames(ops)[TakenThrough(ops, capacity)..], capacity)
  {
    if ops == [] {
      assert Frames(ops)[0..] == [];
    } else {
      hide Newest, Frames, Queued, TakenThrough;
      var rest := ops[..|ops| - 1];
      QueuedIsSuffix(rest, capacity);
      LastOperation(ops, capacity);
      var all, k := Frames(rest), TakenThrough(rest, capacity);
      match ops[|ops| - 1]
      case Sent(frame) => SendOnSuffix(all, k, frame, capacity);
      case Took => TakeOnSuffix(all, k, capacity);
    }
  }

  /** What the last operation does to the three functions of a history. */
  lemma LastOperation<T>(ops: seq<Whole<T>>, capacity: nat)
    requires ops != []
    ensures var rest := ops[..|ops| - 1];
            var q := Queued(rest, capacity);
            match ops[|ops| - 1]
            case Sent(frame) =>
              && Frames(ops) == Frames(rest) + [frame]
              && TakenThrough(ops, capacity) == TakenThrough(rest, capacity)
              && Queued(ops, capacity) == Newest(q + [frame], capacity)
            case Took =>
              && Frames(ops) == Frames(rest)
              && TakenThrough(ops, capacity) == (if q == [] then TakenThrough(rest, capacity)
                                                 else |Frames(rest)| - |q| + 1)
              && Queued(ops, capacity) == if q == [] then [] else q[1..]
  {
    hide Newest;
    assert Frames(ops[..|ops| - 1]) + [] == Frames(ops[..|ops| - 1]);
  }

  lemma SendOnSuffix<T>(all: seq<T>, k: nat, frame: T, capacity: nat)
    requires k <= |all|
    ensures Newest(Newest(all[k..], capacity) + [frame], capacity)
            == Newest((all + [frame])[k..], capacity)
  {
    assert (all + [frame])[k..] == all[k..] + [frame];
  }

  lemma TakeOnSuffix<T>(all: seq<T>, k: nat, capacity: nat)
    requires k <= |all| && capacity >= 1
    ensures var q := Newest(all[k..], capacity);
            var through := if q == [] then k else |all| - |q| + 1;
            && 0 <= through <= |all|
            && Newest(all[through..], capacity) == if q == [] then [] else q[1..]
  {
    var rest := all[k..];
    if rest != [] {
      var q := Newest(rest, capacity);
      var cut := |rest| - |q|;
      assert q == rest[cut..] && q[1..] == rest[cut + 1..] == all[k + cut + 1..];
    }
  }

  // ----- any number of senders and the writer, interleaved -----

  /** A frame and where it came from: the `number`-th frame of its sender. */
  datatype Frame = Frame(sender: nat, number: nat, payload: string)

  /** Where a sender stands inside Send; each case is one `select`. */
  datatype Pc = Idle | Offering(frame: Frame) | Shedding(frame: Frame) | Retrying(frame: Frame)

  datatype Shared = Shared(
    capacity: nat, out: seq<Frame>, done: bool, dropped: nat,
    pcs: map<nat, Pc>, begun: map<nat, nat>,
    taken: seq<Frame>, lost: seq<Frame>, offered: set<Frame>)

  datatype Action = Begin(sender: nat, payload: string) | Step(sender: nat) | Take | Shut

  function PcOf(s: Shared, sender: nat): Pc {
    if sender in s.pcs then s.pcs[sender] else Idle
  }

  function BegunBy(s: Shared, sender: nat): nat {
    if sender in s.begun then s.begun[sender] else 0
  }

  function Empty(capacity: nat): Shared {
    Shared(capacity, [], false, 0, map[], map[], [], [], {})
  }

  function At(s: Shared, sender: nat, pc: Pc): Shared {
    s.(pcs := s.pcs[sender := pc])
  }

  /** The atomic steps. A step that is not enabled leaves the state alone. */
  function Next(s: Shared, a: Action): Shared {
    match a
    case Begin(sender, payload) =>
      if PcOf(s, sender) != Idle || s.done then s
      else
        var f := Frame(sender, BegunBy(s, sender), payload);
        At(s, sender, Offering(f)).(begun := s.begun[sender := f.number + 1],
                                    offered := s.offered + {f})
    case Step(sender) =>
      (match PcOf(s, sender)
       case Idle => s
       case Offering(f) =>
         if |s.out| < s.capacity then At(s, sender, Idle).(out := s.out + [f])
         else At(s, sender, Shedding(f))
       case Shedding(f) =>
         if s.out == [] then At(s, sender, Retrying(f))
         else
           At(s, sender, Retrying(f)).(out := s.out[1..], dropped := s.dropped + 1,
                                       lost := s.lost + [s.out[0]])
       case Retrying(f) =>
         if |s.out| < s.capacity then At(s, sender, Idle).(out := s.out + [f])
         else At(s, sender, Idle).(dropped := s.dropped + 1, lost := s.lost + [f]))
    case Take =>
      if s.out == [] then s else s.(out := s.out[1..], taken := s.taken + [s.out[0]])
    case Shut => s.(done := true)
  }

  ghost function Run(capacity: nat, actions: seq<Action>): Shared {
    if actions == [] then Empty(capacity)
    else Next(Run(capacity, actions[..|actions| - 1]), actions[|actions| - 1])
  }

  predicate HeldBy(pc: Pc, f: Frame) {
    !pc.Idle? && pc.frame == f
  }

  /** How often a frame is taken, queued, lost or held by a Send in progress. */
  ghost function Places(s: Shared, f: Frame): nat {
    multiset(s.taken)[f] + multiset(s.out)[f] + multiset(s.lost)[f]
    + if HeldBy(PcOf(s, f.sender), f) then 1 else 0
  }

  /** Everything past the writer or still queued, in order. */
  ghost function Line(s: Shared): seq<Frame> {
    s.taken + s.out
  }

  ghost predicate InSendOrder(line: seq<Frame>) {
    forall i, j :: 0 <= i < j < |line| && line[i].sender == line[j].sender
                   ==> line[i].number < line[j].number
  }

  ghost predicate Located(s: Shared) {
    forall f :: Places(s, f) == if f in s.offered then 1 else 0
  }

  /** Frames of one sender are numbered as they begin, and a sender inside Send holds its last. */
  ghost predicate Numbered(s: Shared) {
    && (forall f :: f in s.offered ==> f.number < BegunBy(s, f.sender))
    && (forall f, g | f in s.offered && g in s.offered && f.sender == g.sender ::
          f.number == g.number ==> f == g)
    && (forall sender {:trigger PcOf(s, sender)} :: !PcOf(s, sender).Idle? ==>
          var f := PcOf(s, sender).frame;
          f.sender == sender && f.number + 1 == BegunBy(s, sender) && f in s.offered)
  }

  ghost predicate Inv(s: Shared) {
    && s.capacity >= 1 && |s.out| <= s.capacity && s.dropped == |s.lost|
    && Located(s) && Numbered(s) && InSendOrder(Line(s))
  }

  lemma LineIsOffered(s: Shared, f: Frame)
    requires Inv(s) && f in Line(s)
    ensures f in s.offered
  {
    assert Places(s, f) > 0;
  }

  /** Putting a held frame at the end of the queue. */
  lemma PutKeepsInv(s: Shared, sender: nat)
    requires Inv(s) && !PcOf(s, sender).Idle? && |s.out| < s.capacity
    ensures Inv(At(s, sender, Idle).(out := s.out + [PcOf(s, sender).frame]))
  {
    var f := PcOf(s, sender).frame;
    var t := At(s, sender, Idle).(out := s.out + [f]);
    assert forall g :: multiset(t.out)[g] == multiset(s.out)[g] + if g == f then 1 else 0;
    PutKeepsOrder(s, sender);
    assert Line(t) == Line(s) + [f];
    OnlyMoved(s, t);
  }

  /** A held frame is newer than all its sender's frames in the line. */
  lemma PutKeepsOrder(s: Shared, sender: nat)
    requires Inv(s) && !PcOf(s, sender).Idle?
    ensures InSendOrder(Line(s) + [PcOf(s, sender).frame])
  {
    var f := PcOf(s, sender).frame;
    assert Places(s, f) == 1 && HeldBy(PcOf(s, f.sender), f);
    forall i | 0 <= i < |Line(s)| && Line(s)[i].sender == sender
      ensures Line(s)[i].number < f.number
    {
      var g := Line(s)[i];
      LineIsOffered(s, g);
      assert multiset(s.taken)[g] + multiset(s.out)[g] > 0;
      assert Places(s, g) == 1;
    }
  }

  /** What a step must show when it only moves frames between places. */
  lemma OnlyMoved(s: Shared, t: Shared)
    requires Inv(s)
    requires t.capacity == s.capacity && |t.out| <= t.capacity && t.dropped == |t.lost|
    requires t.offered == s.offered && t.begun == s.begun
    requires forall f :: Places(t, f) == Places(s, f)
    requires InSendOrder(Line(t))
    requires forall sender :: PcOf(t, sender).Idle? ||
                              (!PcOf(s, sender).Idle? && PcOf(t, sender).frame == PcOf(s, sender).frame)
    ensures Inv(t)
  {
  }

  lemma BeginKeepsNumbers(s: Shared, sender: nat, payload: string)
    requires Numbered(s)
    ensures Numbered(Next(s, Begin(sender, payload)))
  {
    var t := Next(s, Begin(sender, payload));
    forall other | other != sender ensures PcOf(t, other) == PcOf(s, other) {
    }
  }

  lemma BeginKeepsInv(s: Shared, sender: nat, payload: string)
    requires Inv(s)
    ensures Inv(Next(s, Begin(sender, payload)))
  {
    var t := Next(s, Begin(sender, payload));
    BeginKeepsNumbers(s, sender, payload);
    assert Line(t) == Line(s);
    forall g ensures Places(t, g) == if g in t.offered then 1 else 0 {
      assert Places(s, g) == if g in s.offered then 1 else 0;
    }
  }

  /** Dropping the head of a full queue keeps everyone else in order. */
  lemma DropHeadKeepsOrder(taken: seq<Frame>, out: seq<Frame>)
    requires out != [] && InSendOrder(taken + out)
    ensures InSendOrder(taken + out[1..])
  {
    var line, shorter := taken + out, taken + out[1..];
    forall i, j | 0 <= i < j < |shorter| && shorter[i].sender == shorter[j].sender
      ensures shorter[i].number < shorter[j].number
    {
      var i' := if i < |taken| then i else i + 1;
      var j' := if j < |taken| then j else j + 1;
      assert line[i'] == shorter[i] && line[j'] == shorter[j];
    }
  }

  lemma HeadMoves(s: seq<Frame>, f: Frame)
    requires s != []
    ensures multiset(s)[f] == multiset(s[1..])[f] + if s[0] == f then 1 else 0
  {
    assert s == [s[0]] + s[1..];
  }

  lemma ShedKeepsInv(s: Shared, sender: nat)
    requires Inv(s) && PcOf(s, sender).Shedding?
    ensures Inv(Next(s, Step(sender)))
  {
    var t := Next(s, Step(sender));
    if s.out != [] {
      DropHeadKeepsOrder(s.taken, s.out);
      forall g ensures Places(t, g) == Places(s, g) {
        HeadMoves(s.out, g);
      }
    }
    OnlyMoved(s, t);
  }

  lemma GiveUpKeepsInv(s: Shared, sender: nat)
    requires Inv(s) && PcOf(s, sender).Retrying? && |s.out| == s.capacity
    ensures Inv(Next(s, Step(sender)))
  {
    var t, f := Next(s, Step(sender)), PcOf(s, sender).frame;
    assert Places(s, f) == 1 && HeldBy(PcOf(s, sender), f);
    forall g ensures Places(t, g) == Places(s, g) {
      assert multiset(t.lost)[g] == multiset(s.lost)[g] + if g == f then 1 else 0;
    }
    OnlyMoved(s, t);
  }

  lemma SenderStepKeepsInv(s: Shared, sender: nat)
    requires Inv(s)
    ensures Inv(Next(s, Step(sender)))
  {
    var pc := PcOf(s, sender);
    if pc.Shedding? {
      ShedKeepsInv(s, sender);
    } else if !pc.Idle? && |s.out| < s.capacity {
      PutKeepsInv(s, sender);
    } else if pc.Retrying? {
      GiveUpKeepsInv(s, sender);
    } else if pc.Offering? {
      OnlyMoved(s, Next(s, Step(sender)));
    }
  }

  lemma TakeKeepsInv(s: Shared)
    requires Inv(s)
    ensures Inv(Next(s, Take))
  {
    var t := Next(s, Take);
    if s.out != [] {
      assert Line(t) == Line(s);
      forall g ensures Places(t, g) == Places(s, g) {
        HeadMoves(s.out, g);
      }
      OnlyMoved(s, t);
    }
  }

  lemma NextKeepsInv(s: Shared, a: Action)
    requires Inv(s)
    ensures Inv(Next(s, a)) && Next(s, a).capacity == s.capacity
  {
    match a
    case Begin(sender, payload) => BeginKeepsInv(s, sender, payload);
    case Step(sender) => SenderStepKeepsInv(s, sender);
    case Take => TakeKeepsInv(s);
    case Shut => OnlyMoved(s, Next(s, Shut));
  }

  lemma EmptyInv(capacity: nat)
    requires capacity >= 1
    ensures Inv(Empty(capacity))
  {
    assert Line(Empty(capacity)) == [];
  }

  lemma {:induction false} RunKeepsInv(capacity: nat, actions: seq<Action>)
    requires capacity >= 1
    ensures Inv(Run(capacity, actions)) && Run(capacity, actions).capacity == capacity
  {
    if actions == [] {
      EmptyInv(capacity);
    } else {
      var before := Run(capacity, actions[..|actions| - 1]);
      RunKeepsInv(capacity, actions[..|actions| - 1]);
      NextKeepsInv(before, actions[|actions| - 1]);
    }
  }

  /** However senders and the writer interleave, every frame offered to an open connection is in
      exactly one place, the drop counter counts the lost ones and the queue stays bounded. */
  lemma {:induction false} EveryFrameInExactlyOnePlace(capacity: nat, actions: seq<Action>, f: Frame)
    requires capacity >= 1
    ensures var s := Run(capacity, actions);
            && Places(s, f) == (if f in s.offered then 1 else 0)
            && s.dropped == |s.lost| && |s.out| <= capacity
  {
    RunKeepsInv(capacity, actions);
  }

  /** Each sender's delivered frames keep the order they were sent in. */
  lemma TakenKeepsSendOrder(capacity: nat, actions: seq<Action>)
    requires capacity >= 1
    ensures InSendOrder(Run(capacity, actions).taken)
  {
    RunKeepsInv(capacity, actions);
    var s := Run(capacity, actions);
    assert forall i :: 0 <= i < |s.taken| ==> Line(s)[i] == s.taken[i];
  }

  /** Once closed, nothing more is offered. */
  lemma ClosedOffersNothing(s: Shared, a: Action)
    requires s.done
    ensures Next(s, a).done && Next(s, a).offered == s.offered
  {
  }

  /** A Send that nobody interleaves with is the sequential one. */
  lemma UninterruptedSend(s: Shared, sender: nat, payload: string)
    requires Inv(s) && PcOf(s, sender) == Idle && !s.done
    ensures var f := Frame(sender, BegunBy(s, sender), payload);
            var t := Next(Next(Next(Next(s, Begin(sender, payload)), Step(sender)), Step(sender)),
                          Step(sender));
            && PcOf(t, sender) == Idle
            && t.out == Newest(s.out + [f], s.capacity)
            && t.dropped == s.dropped + |s.out| + 1 - |t.out|
  {
    var first := Next(Next(s, Begin(sender, payload)), Step(sender));
    if |s.out| < s.capacity {
      assert PcOf(first, sender) == Idle;
    } else {
      assert PcOf(first, sender).Shedding? && first.out == s.out;
      var second := Next(first, Step(sender));
      assert PcOf(second, sender).Retrying? && second.out == s.out[1..];
    }
  }
}
