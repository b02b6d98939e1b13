// The client end of the v2 plugin protocol: many concurrent callers, one
// reader. Every step below is one section of the source that runs without
// another goroutine being able to observe its middle: a critical section of
// `mu`, a write under `writeMu`, or one channel operation. The bytes the
// plugin sends are arbitrary.

module PluginClient {
  import opened Wrappers
  import opened Wire

  /** A one-slot channel, as the log of everything ever sent on it and the number of messages taken out. */
  datatype Channel = Channel(sent: seq<Message>, received: nat) {
    predicate HasMessage() { received < |sent| }
    /** A send blocks unless the single slot is free. */
    predicate CanSend() { |sent| < received + 1 }
    function Send(m: Message): Channel { this.(sent := sent + [m]) }
    function Receive(): Channel { this.(received := received + 1) }
  }

  /** What `mu` guards. The channel made for a call is named by the call's ID. */
  datatype Table = Table(
    closed: bool,
    closeErr: string,
    nextId: nat,
    pending: set<nat>,
    channels: map<nat, Channel>)
  {
    ghost predicate WellFormed() {
      && (forall id :: id in channels <==> 1 <= id <= nextId)
      && pending <= channels.Keys
    }

    function Register(): Table {
      var id := nextId + 1;
      this.(nextId := id, pending := pending + {id}, channels := channels[id := Channel([], 0)])
    }

    function Forget(id: nat): Table {
      this.(pending := pending - {id})
    }

    function Send(id: nat, m: Message): Table
      requires id in channels
    {
      this.(channels := channels[id := channels[id].Send(m)])
    }

    function Receive(id: nat): Table
      requires id in channels
    {
      this.(channels := channels[id := channels[id].Receive()])
    }

    function FailAll(err: ReadError): Table {
      if closed then this
      else Table(true, CloseText(err), nextId, {},
                 map id | id in channels ::
                   if id in pending then channels[id].Send(ConnectionClosed(id, CloseText(err))) else channels[id])
    }
  }

  datatype ReadError = Eof | Broken(text: string)

  function CloseText(err: ReadError): string {
    match err
    case Eof => "plugin connection closed"
    case Broken(text) => text
  }

  /** The message failAll puts in each pending call's channel. */
  function ConnectionClosed(id: nat, text: string): Message {
    Message(id, "", None, None, Some(WireError(CODE_INTERNAL, text)))
  }

  datatype Outcome = Rejected(err: string) | WriteError | ContextDone | Got(msg: Message)

  /** Where a caller is inside `call`. Rejected calls never get an ID and finish with 0. */
  datatype Pc =
    | Begin
    | Registered(id: nat)
    | WriteFailed(id: nat)
    | Waiting(id: nat)
    | Cancelled(id: nat)
    | Finished(id: nat, outcome: Outcome)
  {
    function Id(): nat { if Begin? then 0 else id }
    /** The call owns an ID and has not returned yet. */
    predicate Live() { !Begin? && !Finished? }
  }

  datatype Call = Call(verb: string, params: Option<string>, pc: Pc)

  datatype Reader = Decoding | Holding(id: nat, msg: Message) | Failing(err: ReadError) | Closing | Exited

  /** `owner` is history: which call was given each ID. */
  datatype State = State(table: Table, calls: seq<Call>, reader: Reader, owner: map<nat, nat>)

  datatype Step =
    | Start(verb: string, params: Option<string>)
    | Enter(c: nat)
    | Write(c: nat)
    | WriteErr(c: nat)
    | ForgetFailed(c: nat)
    | Cancel(c: nat)
    | ForgetCancelled(c: nat)
    | TakeMessage(c: nat)
    | Decode(msg: Message)
    | Deliver
    | DecodeErr(err: ReadError)
    | FailAllPending
    | CloseDone

  const INITIAL_TABLE := Table(false, "", 0, {}, map[])
  const INITIAL := State(INITIAL_TABLE, [], Decoding, map[])

  function Pcs(s: State, c: nat): Pc
    requires c < |s.calls|
  {
    s.calls[c].pc
  }

  predicate Enabled(s: State, step: Step) {
    match step
    case Start(_, _) => true
    case Enter(c) => c < |s.calls| && Pcs(s, c).Begin?
    case Write(c) => c < |s.calls| && Pcs(s, c).Registered?
    case WriteErr(c) => c < |s.calls| && Pcs(s, c).Registered?
    case ForgetFailed(c) => c < |s.calls| && Pcs(s, c).WriteFailed?
    case Cancel(c) => c < |s.calls| && Pcs(s, c).Waiting?
    case ForgetCancelled(c) => c < |s.calls| && Pcs(s, c).Cancelled?
    case TakeMessage(c) =>
      && c < |s.calls| && Pcs(s, c).Waiting?
      && Pcs(s, c).id in s.table.channels && s.table.channels[Pcs(s, c).id].HasMessage()
    case Decode(_) => s.reader.Decoding?
    case Deliver => s.reader.Holding? && s.reader.id in s.table.channels && s.table.channels[s.reader.id].CanSend()
    case DecodeErr(_) => s.reader.Decoding?
    case FailAllPending =>
      s.reader.Failing?
      && (forall id :: id in s.table.pending ==> id in s.table.channels && s.table.channels[id].CanSend())
    case CloseDone => s.reader.Closing?
  }

  function At(s: State, c: nat, pc: Pc): State
    requires c < |s.calls|
  {
    s.(calls := s.calls[c := s.calls[c].(pc := pc)])
  }

  function Next(s: State, step: Step): State
    requires Enabled(s, step)
  {
    match step
    case Start(verb, params) => s.(calls := s.calls + [Call(verb, params, Begin)])
    case Enter(c) =>
      if s.table.closed then At(s, c, Finished(0, Rejected(s.table.closeErr)))
      else
        var id := s.table.nextId + 1;
        At(s, c, Registered(id)).(table := s.table.Register(), owner := s.owner[id := c])
    case Write(c) => At(s, c, Waiting(Pcs(s, c).id))
    case WriteErr(c) => At(s, c, WriteFailed(Pcs(s, c).id))
    case ForgetFailed(c) => At(s, c, Finished(Pcs(s, c).id, WriteError)).(table := s.table.Forget(Pcs(s, c).id))
    case Cancel(c) => At(s, c, Cancelled(Pcs(s, c).id))
    case ForgetCancelled(c) => At(s, c, Finished(Pcs(s, c).id, ContextDone)).(table := s.table.Forget(Pcs(s, c).id))
    case TakeMessage(c) =>
      var id := Pcs(s, c).id;
      var ch := s.table.channels[id];
      At(s, c, Finished(id, Got(ch.sent[ch.received]))).(table := s.table.Receive(id))
    case Decode(msg) =>
      if msg.id in s.table.pending then s.(table := s.table.Forget(msg.id), reader := Holding(msg.id, msg)) else s
    case Deliver => s.(table := s.table.Send(s.reader.id, s.reader.msg), reader := Decoding)
    case DecodeErr(err) => s.(reader := Failing(err))
    case FailAllPending => s.(table := s.table.FailAll(s.reader.err), reader := Closing)
    case CloseDone => s.(reader := Exited)
  }

  /** How many of the three places hold, or have held, the answer to `id`. */
  function Places(s: State, id: nat): nat
    requires id in s.table.channels
  {
    (if id in s.table.pending then 1 else 0)
    + (if s.reader.Holding? && s.reader.id == id then 1 else 0)
    + |s.table.channels[id].sent|
  }

  ghost predicate IdOk(s: State, id: nat)
    requires id in s.table.channels
  {
    && Places(s, id) <= 1
    && s.table.channels[id].received <= |s.table.channels[id].sent|
    && (forall k :: 0 <= k < |s.table.channels[id].sent| ==> s.table.channels[id].sent[k].id == id)
    && id in s.owner && s.owner[id] < |s.calls| && Pcs(s, s.owner[id]).Id() == id
    && (id in s.table.pending ==> Pcs(s, s.owner[id]).Live())
  }

  ghost predicate CallOk(s: State, c: nat)
    requires c < |s.calls|
  {
    var pc := Pcs(s, c);
    && (pc.Id() != 0 ==> pc.Id() in s.table.channels && pc.Id() in s.owner && s.owner[pc.Id()] == c)
    && (pc.Live() ==>
          pc.id != 0 && Places(s, pc.id) == 1 && s.table.channels[pc.id].received == 0)
    && (pc.Finished? && pc.outcome.Got? ==>
          pc.id != 0 && s.table.channels[pc.id] == Channel([pc.outcome.msg], 1))
    && (pc.Finished? && pc.outcome.Rejected? ==> s.table.closed && pc.outcome.err == s.table.closeErr)
  }

  /** What every interleaving keeps. */
  ghost predicate Inv(s: State) {
    && s.table.WellFormed()
    && (s.table.closed <==> s.reader.Closing? || s.reader.Exited?)
    && (s.table.closed ==> s.table.pending == {})
    && (s.reader.Holding? ==> s.reader.id in s.table.channels && s.reader.msg.id == s.reader.id)
    && (forall id :: id in s.table.channels ==> IdOk(s, id))
    && (forall c :: 0 <= c < |s.calls| ==> CallOk(s, c))
  }

  lemma InvStep(s: State, step: Step)
    requires Inv(s) && Enabled(s, step)
    ensures Inv(Next(s, step))
  {
    match step
    case Start(_, _) => StartKeeps(s, step);
    case Enter(c) => EnterKeeps(s, step, c);
    case Write(c) => MoveKeeps(s, step, c);
    case WriteErr(c) => MoveKeeps(s, step, c);
    case Cancel(c) => MoveKeeps(s, step, c);
    case ForgetFailed(c) => ForgetKeeps(s, step, c);
    case ForgetCancelled(c) => ForgetKeeps(s, step, c);
    case TakeMessage(c) => TakeKeeps(s, step, c);
    case _ => ReaderKeeps(s, step);
  }

  lemma StartKeeps(s: State, step: Step)
    requires Inv(s) && Enabled(s, step) && step.Start?
    ensures Inv(Next(s, step))
  {
    var t := Next(s, step);
    forall c | 0 <= c < |t.calls| ensures CallOk(t, c) {
      if c < |s.calls| { assert CallOk(s, c); }
    }
    forall id | id in t.table.channels ensures IdOk(t, id) {
      assert IdOk(s, id);
    }
  }

  lemma EnterKeeps(s: State, step: Step, c: nat)
    requires Inv(s) && Enabled(s, step) && step == Enter(c)
    ensures Inv(Next(s, step))
  {
    var t := Next(s, step);
    forall d | 0 <= d < |t.calls| ensures CallOk(t, d) {
      assert CallOk(s, d);
    }
    forall id | id in t.table.channels ensures IdOk(t, id) {
      if id in s.table.channels { assert IdOk(s, id); }
    }
  }

  // A step that only moves one live caller's program counter, keeping its ID.
  lemma MoveKeeps(s: State, step: Step, c: nat)
    requires Inv(s) && Enabled(s, step)
    requires step == Write(c) || step == WriteErr(c) || step == Cancel(c)
    ensures Inv(Next(s, step))
  {
    var t := Next(s, step);
    forall d | 0 <= d < |t.calls| ensures CallOk(t, d) {
      assert CallOk(s, d);
    }
    forall id | id in t.table.channels ensures IdOk(t, id) {
      assert IdOk(s, id);
    }
  }

  lemma ForgetKeeps(s: State, step: Step, c: nat)
    requires Inv(s) && Enabled(s, step)
    requires step == ForgetFailed(c) || step == ForgetCancelled(c)
    ensures Inv(Next(s, step))
  {
    var t := Next(s, step);
    assert CallOk(s, c);
    forall d | 0 <= d < |t.calls| ensures CallOk(t, d) {
      assert CallOk(s, d);
    }
    forall id | id in t.table.channels ensures IdOk(t, id) {
      assert IdOk(s, id);
    }
  }

  lemma TakeKeeps(s: State, step: Step, c: nat)
    requires Inv(s) && Enabled(s, step) && step == TakeMessage(c)
    ensures Inv(Next(s, step))
  {
    var t := Next(s, step);
    assert CallOk(s, c);
    var id := Pcs(s, c).id;
    assert s.table.channels[id].sent == [s.table.channels[id].sent[0]];
    forall d | 0 <= d < |t.calls| ensures CallOk(t, d) {
      assert CallOk(s, d);
    }
    forall id | id in t.table.channels ensures IdOk(t, id) {
      assert IdOk(s, id);
    }
  }

  lemma ReaderKeeps(s: State, step: Step)
    requires Inv(s) && Enabled(s, step)
    requires step.Decode? || step.Deliver? || step.DecodeErr? || step.FailAllPending? || step.CloseDone?
    ensures Inv(Next(s, step))
  {
    var t := Next(s, step);
    forall id | id in t.table.channels ensures IdOk(t, id) {
      assert IdOk(s, id);
    }
    forall d | 0 <= d < |t.calls| ensures CallOk(t, d) {
      assert CallOk(s, d);
      var id := Pcs(s, d).Id();
      if id != 0 { assert IdOk(s, id); }
    }
  }

  // What a step may change, in the terms a composition with the plugin needs.

  ghost predicate CallsKept(s: State, t: State) {
    && |s.calls| <= |t.calls|
    && (forall c :: 0 <= c < |s.calls| ==>
          t.calls[c].verb == s.calls[c].verb && t.calls[c].params == s.calls[c].params)
  }

  ghost predicate CallEffect(s: State, step: Step, t: State) {
    && (forall c :: 0 <= c < |t.calls| && Pcs(t, c).Waiting? ==>
          c < |s.calls| && (Pcs(s, c) == Pcs(t, c) || (step == Write(c) && Pcs(s, c) == Registered(Pcs(t, c).id))))
    && (forall c :: 0 <= c < |t.calls| && Pcs(t, c).Registered? ==>
          c < |s.calls| && (Pcs(s, c) == Pcs(t, c) || (step == Enter(c) && Pcs(t, c).id !in s.table.channels)))
    && (step.Write? ==>
          && step.c < |s.calls| && step.c < |t.calls|
          && Pcs(s, step.c).Registered? && Pcs(t, step.c) == Waiting(Pcs(s, step.c).id))
  }

  ghost predicate TableEffect(s: State, step: Step, t: State) {
    && s.table.channels.Keys <= t.table.channels.Keys
    && (forall id :: id in s.table.channels && id in s.owner ==> id in t.owner && t.owner[id] == s.owner[id])
    && (forall id :: id in t.table.pending && id in s.table.channels ==> id in s.table.pending)
    && (step.Decode? ==> step.msg.id !in t.table.pending)
  }

  ghost predicate DeliveryEffect(s: State, step: Step, t: State) {
    && (forall id, m :: id in t.table.channels && m in t.table.channels[id].sent ==>
          || (id in s.table.channels && m in s.table.channels[id].sent)
          || (s.reader.Holding? && m == s.reader.msg)
          || (t.table.closed && id in s.table.pending && m == ConnectionClosed(id, t.table.closeErr)))
    && (t.table.closed && !s.table.closed ==> step.FailAllPending?)
    && (s.table.closed ==> t.table.closed && t.table.closeErr == s.table.closeErr)
    && (t.reader.Holding? ==> t.reader == s.reader || (step.Decode? && t.reader.msg == step.msg))
  }

  ghost predicate Effect(s: State, step: Step, t: State) {
    CallsKept(s, t) && CallEffect(s, step, t) && TableEffect(s, step, t) && DeliveryEffect(s, step, t)
  }

  lemma StepHasEffect(s: State, step: Step)
    requires Inv(s) && Enabled(s, step)
    ensures Effect(s, step, Next(s, step))
  {
    CallsKeptHolds(s, step);
    CallEffectHolds(s, step);
    TableEffectHolds(s, step);
    DeliveryEffectHolds(s, step);
  }

  lemma CallsKeptHolds(s: State, step: Step)
    requires Enabled(s, step)
    ensures CallsKept(s, Next(s, step))
  {
  }

  lemma CallEffectHolds(s: State, step: Step)
    requires Inv(s) && Enabled(s, step)
    ensures CallEffect(s, step, Next(s, step))
  {
  }

  lemma TableEffectHolds(s: State, step: Step)
    requires Inv(s) && Enabled(s, step)
    ensures TableEffect(s, step, Next(s, step))
  {
  }

  lemma DeliveryEffectHolds(s: State, step: Step)
    requires Inv(s) && Enabled(s, step)
    ensures DeliveryEffect(s, step, Next(s, step))
  {
  }

  /** A finite run: `trace[i+1]` is reached from `trace[i]` by `steps[i]`. */
  ghost predicate IsRun(trace: seq<State>, steps: seq<Step>) {
    && |trace| == |steps| + 1
    && trace[0] == INITIAL
    && (forall i :: 0 <= i < |steps| ==> Enabled(trace[i], steps[i]) && trace[i + 1] == Next(trace[i], steps[i]))
  }

  lemma {:induction false} InvHolds(trace: seq<State>, steps: seq<Step>, n: nat)
    requires IsRun(trace, steps) && n < |trace|
    ensures Inv(trace[n])
  {
    if n > 0 {
      InvHolds(trace, steps, n - 1);
      InvStep(trace[n - 1], steps[n - 1]);
    }
  }

  // What the invariant says to a caller, a reader and a plugin author, whatever bytes the plugin sent.

  /** A caller in its select has its answer in exactly one place: still expected, in the reader's hands,
      or in its channel. */
  lemma WaitingHasExactlyOnePlace(trace: seq<State>, steps: seq<Step>, n: nat, c: nat)
    requires IsRun(trace, steps) && n < |trace|
    requires c < |trace[n].calls| && Pcs(trace[n], c).Waiting?
    ensures
      var s, id := trace[n], Pcs(trace[n], c).id;
      var expected, held := id in s.table.pending, s.reader.Holding? && s.reader.id == id;
      && id in s.table.channels
      && var buffered := s.table.channels[id].HasMessage();
      && (expected || held || buffered)
      && !(expected && held) && !(expected && buffered) && !(held && buffered)
  {
    InvHolds(trace, steps, n);
    assert CallOk(trace[n], c);
    assert IdOk(trace[n], Pcs(trace[n], c).id);
  }

  /** Over its whole life a channel is sent at most one message, and that message carries the channel's ID. */
  lemma AtMostOneMessagePerChannel(trace: seq<State>, steps: seq<Step>, n: nat, id: nat)
    requires IsRun(trace, steps) && n < |trace| && id in trace[n].table.channels
    ensures |trace[n].table.channels[id].sent| <= 1
    ensures forall m :: m in trace[n].table.channels[id].sent ==> m.id == id
  {
    InvHolds(trace, steps, n);
    assert IdOk(trace[n], id);
  }

  lemma SendsAreFree(s: State)
    requires Inv(s)
    ensures s.reader.Holding? ==> Enabled(s, Deliver)
    ensures s.reader.Failing? ==> Enabled(s, FailAllPending)
  {
    forall id | id in s.table.channels && (id in s.table.pending || (s.reader.Holding? && s.reader.id == id))
      ensures s.table.channels[id].CanSend()
    {
      assert IdOk(s, id);
    }
  }

  /** Neither the reader's send nor a send made by failAll under the lock ever finds the slot taken: everything sent on
      the channel before has been received. */
  lemma SendsNeverBlock(trace: seq<State>, steps: seq<Step>, n: nat)
    requires IsRun(trace, steps) && n < |trace|
    ensures forall id :: id in trace[n].table.channels ==>
              var s, ch := trace[n], trace[n].table.channels[id];
              id in s.table.pending || (s.reader.Holding? && s.reader.id == id) ==> |ch.sent| == ch.received
    ensures trace[n].reader.Holding? ==> Enabled(trace[n], Deliver)
    ensures trace[n].reader.Failing? ==> Enabled(trace[n], FailAllPending)
  {
    InvHolds(trace, steps, n);
    SendsAreFree(trace[n]);
    forall id | id in trace[n].table.channels ensures IdOk(trace[n], id) {}
  }

  /** Once failAll has run nobody is left waiting without a message, and later callers are turned away. */
  lemma NobodyWaitsForever(trace: seq<State>, steps: seq<Step>, n: nat, c: nat)
    requires IsRun(trace, steps) && n < |trace| && c < |trace[n].calls|
    requires trace[n].reader.Closing? || trace[n].reader.Exited?
    ensures trace[n].table.pending == {}
    ensures Pcs(trace[n], c).Waiting? ==> Enabled(trace[n], TakeMessage(c))
    ensures Pcs(trace[n], c).Begin? ==>
              Pcs(Next(trace[n], Enter(c)), c) == Finished(0, Rejected(trace[n].table.closeErr))
  {
    InvHolds(trace, steps, n);
    assert CallOk(trace[n], c);
    if Pcs(trace[n], c).Waiting? { assert IdOk(trace[n], Pcs(trace[n], c).id); }
  }

  /** Every call was started by its caller, with its method and params. */
  lemma {:induction false} CallsWereStarted(trace: seq<State>, steps: seq<Step>, n: nat, c: nat)
    requires IsRun(trace, steps) && n < |trace| && c < |trace[n].calls|
    ensures exists i :: 0 <= i < n && |trace[i].calls| == c
                   && steps[i] == Start(trace[n].calls[c].verb, trace[n].calls[c].params)
  {
    InvHolds(trace, steps, n - 1);
    CallsKeptHolds(trace[n - 1], steps[n - 1]);
    if c < |trace[n - 1].calls| {
      CallsWereStarted(trace, steps, n - 1, c);
    } else {
      assert steps[n - 1] == Start(trace[n].calls[c].verb, trace[n].calls[c].params);
    }
  }

  /** The way a call ended tells what happened to it. */
  ghost predicate OutcomeTells(steps: seq<Step>, n: nat, c: nat, pc: Pc)
    requires n <= |steps|
  {
    var failed := exists i :: 0 <= i < n && steps[i] == WriteErr(c);
    var cancelled := exists i :: 0 <= i < n && steps[i] == Cancel(c);
    var took := exists i :: 0 <= i < n && steps[i] == TakeMessage(c);
    && (failed <==> pc.WriteFailed? || (pc.Finished? && pc.outcome == WriteError))
    && (cancelled <==> pc.Cancelled? || (pc.Finished? && pc.outcome == ContextDone))
    && (took <==> pc.Finished? && pc.outcome.Got?)
  }

  /** A call returns its write error, its context's error or a message exactly when its write failed, it was cancelled
      in its select, or it took that message. */
  lemma {:induction false} OutcomesTell(trace: seq<State>, steps: seq<Step>, n: nat, c: nat)
    requires IsRun(trace, steps) && n < |trace| && c < |trace[n].calls|
    ensures OutcomeTells(steps, n, c, Pcs(trace[n], c))
  {
    if c < |trace[n - 1].calls| {
      OutcomesTell(trace, steps, n - 1, c);
      OutcomeNext(trace, steps, n - 1, c);
    } else {
      assert Pcs(trace[n], c) == Begin;
      NothingBefore(trace, steps, n, c);
    }
  }

  lemma OutcomeNext(trace: seq<State>, steps: seq<Step>, n: nat, c: nat)
    requires IsRun(trace, steps) && n < |steps| && c < |trace[n].calls|
    requires OutcomeTells(steps, n, c, Pcs(trace[n], c))
    ensures OutcomeTells(steps, n + 1, c, Pcs(trace[n + 1], c))
  {
    assert Enabled(trace[n], steps[n]) && trace[n + 1] == Next(trace[n], steps[n]);
  }

  lemma NothingBefore(trace: seq<State>, steps: seq<Step>, n: nat, c: nat)
    requires IsRun(trace, steps) && 0 < n < |trace| && |trace[n - 1].calls| <= c
    ensures forall i :: 0 <= i < n ==> steps[i] != WriteErr(c) && steps[i] != Cancel(c) && steps[i] != TakeMessage(c)
  {
    forall i | 0 <= i < n ensures steps[i] != WriteErr(c) && steps[i] != Cancel(c) && steps[i] != TakeMessage(c) {
      CallsOnlyGrow(trace, steps, i, n - 1);
      assert Enabled(trace[i], steps[i]);
    }
  }

  lemma {:induction false} CallsOnlyGrow(trace: seq<State>, steps: seq<Step>, i: nat, n: nat)
    requires IsRun(trace, steps) && i <= n < |trace|
    ensures |trace[i].calls| <= |trace[n].calls|
  {
    if i < n {
      CallsOnlyGrow(trace, steps, i, n - 1);
      CallsKeptHolds(trace[n - 1], steps[n - 1]);
    }
  }

  /** A waiting caller can always give up, and is then gone from the table and returns its context's error. */
  lemma GivingUpIsAlwaysPossible(s: State, c: nat)
    requires c < |s.calls| && Pcs(s, c).Waiting?
    ensures Enabled(s, Cancel(c)) && Enabled(Next(s, Cancel(c)), ForgetCancelled(c))
    ensures
      var t := Next(Next(s, Cancel(c)), ForgetCancelled(c));
      Pcs(t, c) == Finished(Pcs(s, c).id, ContextDone) && t.table.pending == s.table.pending - {Pcs(s, c).id}
  {
  }

  /** The pending table never leaks: every entry belongs to a call that has not returned. */
  lemma PendingEntriesHaveLiveOwners(trace: seq<State>, steps: seq<Step>, n: nat, id: nat)
    requires IsRun(trace, steps) && n < |trace| && id in trace[n].table.pending
    ensures exists c :: 0 <= c < |trace[n].calls| && Pcs(trace[n], c).Live() && Pcs(trace[n], c).id == id
  {
    InvHolds(trace, steps, n);
    assert IdOk(trace[n], id);
    assert Pcs(trace[n], trace[n].owner[id]).Live();
  }

  // The client object whose critical sections the steps above are.

  class Client {
    var closed: bool
    var closeErr: string
    var nextId: nat
    var pending: set<nat>
    var channels: map<nat, Channel>

    ghost function View(): Table
      reads this
    {
      Table(closed, closeErr, nextId, pending, channels)
    }

    constructor ()
      ensures View() == INITIAL_TABLE
    {
      closed, closeErr, nextId, pending, channels := false, "", 0, {}, map[];
    }

    /** The critical section at the head of `call`. */
    method Register() returns (id: Option<nat>, err: string)
      modifies this
      ensures old(closed) ==> id == None && err == old(closeErr) && View() == old(View())
      ensures !old(closed) ==> id == Some(old(nextId) + 1) && View() == old(View()).Register()
    {
      if closed {
        return None, closeErr;
      }
      nextId := nextId + 1;
      channels := channels[nextId := Channel([], 0)];
      pending := pending + {nextId};
      return Some(nextId), "";
    }

    /** The critical section of a caller that gives up. */
    method Forget(id: nat)
      modifies this
      ensures View() == old(View()).Forget(id)
    {
      pending := pending - {id};
    }

    /** The critical section of the reader, between decoding a message and sending it on. */
    method Claim(id: nat) returns (ok: bool)
      modifies this
      ensures ok == (id in old(pending))
      ensures View() == old(View()).Forget(id)
    {
      ok := id in pending;
      if ok {
        pending := pending - {id};
      }
    }

    /** failAll: the pending table is emptied in whatever order the map yields its keys. */
    method FailAll(err: ReadError)
      requires View().WellFormed()
      requires forall id :: id in pending ==> channels[id].CanSend()
      modifies this
      ensures View() == old(View()).FailAll(err)
      ensures !old(closed) ==> closed && pending == {}
      ensures !old(closed) ==> closeErr == match err case Eof => "plugin connection closed" case Broken(text) => text
      ensures !old(closed) ==> forall id :: id in old(pending) ==>
                && id in channels && |channels[id].sent| == |old(channels)[id].sent| + 1
                && SaysClosed(channels[id].sent[|old(channels)[id].sent|], id, closeErr)
      ensures forall id :: id in channels && |old(channels)[id].sent| - old(channels)[id].received <= 1
                ==> |channels[id].sent| - channels[id].received <= 1
    {
      if closed {
        return;
      }
      closed := true;
      closeErr := CloseText(err);
      while pending != {}
        invariant closed && closeErr == CloseText(err) && nextId == old(nextId)
        invariant pending <= old(pending) && channels.Keys == old(channels).Keys
        invariant forall id :: id in channels ==>
          channels[id] == if id in old(pending) && id !in pending
                          then old(channels)[id].Send(ConnectionClosed(id, closeErr)) else old(channels)[id]
        decreases |pending|
      {
        var id :| id in pending;
        assert channels[id].CanSend();
        channels := channels[id := channels[id].Send(ConnectionClosed(id, closeErr))];
        pending := pending - {id};
      }
    }
  }
}
