/// Output credit of an ADB stream, `src/adb.rs`: `OutputFlow`, the output thread, the server and the
/// host as one state machine whose steps interleave in any order.
module AdbFlow {
  import opened Bytes

  /// `OutputState`, as a value.
  datatype Flow = Flow(canWrite: bool, closed: bool)
  {
    /// `allow_one_write`.
    function Allow(): Flow { if closed then this else this.(canWrite := true) }

    /// `wait_for_write_credit` returns: with credit, without, or not yet.
    function Take(): Taken {
      if closed then Refused else if canWrite then Granted(this.(canWrite := false)) else Blocked
    }

    /// `close`: the caller that closes is told so.
    function Close(): (Flow, bool) { (this.(closed := true), !closed) }
  }

  datatype Taken = Granted(flow: Flow) | Refused | Blocked

  /// The object behind the lock; every method holds the lock for its whole body.
  class OutputFlow {
    var canWrite: bool
    var closed: bool

    constructor ()
      ensures Value() == Flow(false, false)
    {
      canWrite, closed := false, false;
    }

    function Value(): Flow
      reads this
    {
      Flow(canWrite, closed)
    }

    method AllowOneWrite()
      modifies this
      ensures Value() == old(Value()).Allow()
      ensures closed == old(closed) && canWrite == (old(canWrite) || !closed)
    {
      if !closed {
        canWrite := true;
      }
    }

    /// One look at the state by the waiting thread.
    method TryTake() returns (t: Taken)
      modifies this
      ensures t == old(Value()).Take()
      ensures Value() == if t.Granted? then t.flow else old(Value())
      ensures closed == old(closed) && (t.Refused? <==> closed) && (t.Granted? <==> !closed && old(canWrite))
      ensures canWrite == (old(canWrite) && closed)
    {
      if closed {
        return Refused;
      }
      if !canWrite {
        return Blocked;
      }
      canWrite := false;
      return Granted(Value());
    }

    method Close() returns (won: bool)
      modifies this
      ensures (Value(), won) == old(Value()).Close()
      ensures closed && canWrite == old(canWrite) && won == !old(closed)
    {
      if closed {
        return false;
      }
      closed := true;
      return true;
    }
  }

  datatype Closer = OutputThread | HostClose | DeviceClose | Dropped

  /// What is sent on the stream.
  datatype Packet = OpeningOkay | Wrte | Clse(closer: Closer)

  /// Where `handle_open` is: the stream is spawned, acknowledged, or in the table of sessions.
  datatype Phase = Spawned | Acknowledged | Listed

  /// One stream. The thread has credit between `wait_for_write_credit` and its write; a closer that won
  /// still has its A_CLSE to send.
  datatype Stream = Stream(
    phase: Phase,
    flow: Flow,
    hasCredit: bool,
    hostOkays: nat,
    winners: seq<Closer>,
    owed: Option<Closer>,
    sent: seq<Packet>)

  const START := Stream(Spawned, Flow(false, false), false, 0, [], None, [])

  datatype Step =
    | SendOpeningOkay        // handle_open sends A_OKAY ...
    | List                   // ... puts the session into the table and allows the first write
    | HostOkay               // handle_okay for a session in the table
    | TakeCredit             // the output thread wakes up with credit
    | SendWrte               // the output thread sends with the credit that it took
    | GiveUp                 // ... or finds nothing to send, or fails, and stops
    | Close(who: Closer)      // somebody calls close
    | SendClse               // the winner sends A_CLSE

  /// A step; one that is not possible changes nothing.
  function Next(s: Stream, step: Step): Stream {
    match step
    case SendOpeningOkay =>
      if s.phase == Spawned then s.(phase := Acknowledged, sent := s.sent + [OpeningOkay]) else s
    case List =>
      if s.phase == Acknowledged then s.(phase := Listed, flow := s.flow.Allow()) else s
    case HostOkay =>
      if s.phase == Listed then s.(hostOkays := s.hostOkays + 1, flow := s.flow.Allow()) else s
    case TakeCredit =>
      if !s.hasCredit && s.flow.Take().Granted? then s.(flow := s.flow.Take().flow, hasCredit := true) else s
    case SendWrte =>
      if s.hasCredit then s.(hasCredit := false, sent := s.sent + [Wrte]) else s
    case GiveUp =>
      s.(hasCredit := false)
    case Close(who) =>
      var (flow, won) := s.flow.Close();
      if won then s.(flow := flow, winners := s.winners + [who], owed := Some(who)) else s.(flow := flow)
    case SendClse =>
      if s.owed.Some? then s.(owed := None, sent := s.sent + [Clse(s.owed.value)]) else s
  }

  function Run(s: Stream, steps: seq<Step>): Stream
    decreases |steps|
  {
    if steps == [] then s else Run(Next(s, steps[0]), steps[1..])
  }

  function Writes(sent: seq<Packet>): nat {
    if sent == [] then 0 else Writes(sent[..|sent| - 1]) + (if sent[|sent| - 1] == Wrte then 1 else 0)
  }

  function Closes(sent: seq<Packet>): nat {
    if sent == [] then 0 else Closes(sent[..|sent| - 1]) + (if sent[|sent| - 1].Clse? then 1 else 0)
  }

  lemma CountSnoc(sent: seq<Packet>, p: Packet)
    ensures Writes(sent + [p]) == Writes(sent) + (if p == Wrte then 1 else 0)
    ensures Closes(sent + [p]) == Closes(sent) + (if p.Clse? then 1 else 0)
  {
    assert (sent + [p])[..|sent|] == sent;
  }

  /// Every A_WRTE comes after the opening A_OKAY.
  ghost predicate OkayFirst(sent: seq<Packet>) {
    forall i :: 0 <= i < |sent| && sent[i] == Wrte ==> OpeningOkay in sent[..i]
  }

  function One(b: bool): nat { if b then 1 else 0 }

  /// The invariant: credit is accounted for, nothing is written before the stream is listed, and the
  /// flow is closed exactly when somebody won.
  ghost predicate Inv(s: Stream) {
    && Writes(s.sent) + One(s.hasCredit) + One(s.flow.canWrite) <= One(s.phase == Listed) + s.hostOkays
    && (s.phase != Listed ==> s.hostOkays == 0)
    && (s.phase != Spawned ==> OpeningOkay in s.sent)
    && OkayFirst(s.sent)
    && |s.winners| == One(s.flow.closed)
    && Closes(s.sent) + One(s.owed.Some?) == |s.winners|
    && (s.owed.Some? ==> s.winners == [s.owed.value])
    && forall p <- s.sent :: p.Clse? ==> s.winners == [p.closer]
  }

  lemma OkayFirstSnoc(sent: seq<Packet>, p: Packet)
    requires OkayFirst(sent) && (p == Wrte ==> OpeningOkay in sent)
    ensures OkayFirst(sent + [p])
  {
    var all := sent + [p];
    forall i | 0 <= i < |all| && all[i] == Wrte ensures OpeningOkay in all[..i] {
      if i < |sent| {
        assert all[..i] == sent[..i];
      } else {
        assert all[..i] == sent;
      }
    }
  }

  lemma StepKeepsInv(s: Stream, step: Step)
    requires Inv(s)
    ensures Inv(Next(s, step))
  {
    hide OkayFirst, Writes, Closes;
    match step
    case SendOpeningOkay =>
      CountSnoc(s.sent, OpeningOkay);
      OkayFirstSnoc(s.sent, OpeningOkay);
    case SendWrte =>
      CountSnoc(s.sent, Wrte);
      if s.hasCredit {
        OkayFirstSnoc(s.sent, Wrte);
      }
    case SendClse =>
      if s.owed.Some? {
        CountSnoc(s.sent, Clse(s.owed.value));
        OkayFirstSnoc(s.sent, Clse(s.owed.value));
      }
    case _ =>
  }

  lemma {:induction false} RunKeepsInv(s: Stream, steps: seq<Step>)
    requires Inv(s)
    ensures Inv(Run(s, steps))
    decreases |steps|
  {
    hide Inv, Next;
    if steps != [] {
      StepKeepsInv(s, steps[0]);
      RunKeepsInv(Next(s, steps[0]), steps[1..]);
    }
  }

  /// For every interleaving: no A_WRTE before the opening A_OKAY, never more A_WRTE than one and the
  /// host's acknowledgements, at most one closer wins, and at most one A_CLSE goes out, sent by the winner.
  lemma CreditProtocol(steps: seq<Step>)
    ensures
      var s := Run(START, steps);
      && OkayFirst(s.sent)
      && Writes(s.sent) <= 1 + s.hostOkays
      && |s.winners| <= 1 && Closes(s.sent) <= |s.winners|
      && (forall p <- s.sent :: p.Clse? ==> s.winners == [p.closer])
      && (s.flow.closed <==> s.winners != [])
  {
    RunKeepsInv(START, steps);
  }

  // Progress: the bounds are reached.

  lemma Steps2(s: Stream, a: Step, b: Step)
    ensures Run(s, [a, b]) == Next(Next(s, a), b)
  {
    hide Next;
    assert [a, b][1..] == [b] && [b][1..] == [];
    assert Run(Next(s, a), [b]) == Run(Next(Next(s, a), b), []);
  }

  lemma Steps3(s: Stream, a: Step, b: Step, c: Step)
    ensures Run(s, [a, b, c]) == Next(Next(Next(s, a), b), c)
  {
    hide Next;
    assert [a, b, c][1..] == [b, c];
    Steps2(Next(s, a), b, c);
  }

  /// An acknowledgement of the host for a listed stream that is open lets the thread write once more.
  lemma OkayIsUsable(s: Stream)
    requires s.phase == Listed && !s.flow.closed && !s.hasCredit
    ensures Run(s, [HostOkay, TakeCredit, SendWrte]).sent == s.sent + [Wrte]
    ensures !Run(s, [HostOkay, TakeCredit, SendWrte]).flow.canWrite
  {
    hide Run;
    Steps3(s, HostOkay, TakeCredit, SendWrte);
  }

  /// A new stream may write once before the host acknowledges anything, and not twice.
  lemma FirstWrite()
    ensures
      var s := Run(Run(START, [SendOpeningOkay, List]), [TakeCredit, SendWrte]);
      && s.sent == [OpeningOkay, Wrte] && s.hostOkays == 0 && Run(s, [TakeCredit, SendWrte]) == s
  {
    hide Run;
    Steps2(START, SendOpeningOkay, List);
    var s := Run(START, [SendOpeningOkay, List]);
    Steps2(s, TakeCredit, SendWrte);
    var s' := Run(s, [TakeCredit, SendWrte]);
    Steps2(s', TakeCredit, SendWrte);
  }

  /// Whoever closes an open stream is the one whose A_CLSE is sent; closing again sends nothing.
  lemma CloserIsHeard(s: Stream, who: Closer, other: Closer)
    requires !s.flow.closed
    ensures Run(s, [Close(who), SendClse]).sent == s.sent + [Clse(who)]
    ensures Run(Run(s, [Close(who), SendClse]), [Close(other), SendClse]) == Run(s, [Close(who), SendClse])
  {
    hide Run;
    Steps2(s, Close(who), SendClse);
    Steps2(Run(s, [Close(who), SendClse]), Close(other), SendClse);
  }

  /// After the close only the credit that the thread already took can still be written.
  lemma {:induction false} NothingAfterClose(s: Stream, steps: seq<Step>)
    requires s.flow.closed
    ensures Writes(Run(s, steps).sent) + One(Run(s, steps).hasCredit) <= Writes(s.sent) + One(s.hasCredit)
    decreases |steps|
  {
    hide Writes;
    if steps != [] {
      var next := Next(s, steps[0]);
      NothingAfterClose(next, steps[1..]);
      CountSnoc(s.sent, Wrte);
      CountSnoc(s.sent, OpeningOkay);
      if s.owed.Some? {
        CountSnoc(s.sent, Clse(s.owed.value));
      }
    }
  }
}
