/**
 The async worker's connections: one fiber each, and one drain fiber, interleaved at every point where a
 fiber can be suspended.  The drain's write, flush and close of an error frame are one step, and so
 is everything a fiber does between two suspension points.
 */
module AsyncWorker {
  import opened Common
  import opened HopFrame
  import Ruby = RubyCodec

  type ConnId = nat

  /** What the registry says about a connection. */
  datatype Phase = Idle | InApp | Writing | Unregistered

  /** Where the connection's fiber is suspended. */
  datatype Fiber = Reading | Calling | Answering | WritingError | Ended

  /** A frame put on the socket for the `call`-th request of the connection. */
  datatype Sent = Sent(call: nat, error: bool)

  datatype Conn = Conn(phase: Phase, fiber: Fiber, isOpen: bool, calls: seq<RequestFrame>, sent: seq<Sent>)

  datatype Drain = NotDraining | Started | ListenerClosed | IdleClosed | Abandoning

  datatype Worker = Worker(conns: map<ConnId, Conn>, drain: Drain)

  datatype Limits = Limits(maxHeaderBytes: nat, maxBody: nat) {
    function MaxRemaining(): nat {
      4096 + maxHeaderBytes + maxBody
    }
  }

  datatype Action =
    | Receive(prefix: Bytes, envelope: Bytes)   // what the reads return; a short or empty prefix is end of file
    | AppAnswers
    | AppRaises
    | WriteEnds(ok: bool)
    | ErrorWriteEnds
    | DrainAbandons

  datatype Label =
    | Accept(c: ConnId)
    | Do(c: ConnId, act: Action)
    | StartDrain
    | CloseListener
    | CloseIdle
    | StartAbandoning

  const INIT := Worker(map[], NotDraining)

  function Ending(k: Conn): Conn {
    k.(phase := Unregistered, fiber := Ended, isOpen := false)
  }

  function Put(k: Conn, error: bool): Conn
    requires |k.calls| > 0
  {
    k.(sent := k.sent + [Sent(|k.calls| - 1, error)])
  }

  /** The request the fiber dispatches for these bytes, if the prefix is good and the envelope decodes in full. */
  function Decoded(limits: Limits, prefix: Bytes, envelope: Bytes): Option<RequestFrame> {
    if |prefix| != PREFIX_LEN || prefix[0] != FRAME_MAGIC || prefix[1] != FRAME_VERSION then None
    else
      var remaining := U32Of(prefix[2], prefix[3], prefix[4], prefix[5]);
      if remaining > limits.MaxRemaining() || |envelope| != remaining then None
      else
        match Ruby.Decode(envelope, limits.maxBody)
        case Ok(request) => Some(request)
        case Err(_) => None
  }

  predicate Applies(k: Conn, act: Action, drain: Drain) {
    match act
    case Receive(_, _) => k.fiber.Reading?
    case AppAnswers => k.fiber.Calling?
    case AppRaises => k.fiber.Calling?
    case WriteEnds(_) => k.fiber.Answering?
    case ErrorWriteEnds => k.fiber.WritingError?
    case DrainAbandons => drain.Abandoning? && (k.phase.InApp? || k.phase.Writing?)
  }

  /** One step of the connection's fiber, or the drain giving up on the connection. */
  function Step(limits: Limits, k: Conn, act: Action, drain: Drain): Conn
    requires Applies(k, act, drain) && (k.fiber != Reading ==> |k.calls| > 0) && (act.DrainAbandons? ==> |k.calls| > 0)
  {
    match act
    case Receive(prefix, envelope) =>
      if !k.isOpen then Ending(k)
      else
        (match Decoded(limits, prefix, envelope)
         case None => Ending(k)
         case Some(request) => k.(phase := InApp, fiber := Calling, calls := k.calls + [request]))
    case AppAnswers => if !k.isOpen then Ending(k) else Put(k, false).(phase := Writing, fiber := Answering)
    case AppRaises => if !k.isOpen then Ending(k) else Put(k, true).(fiber := WritingError)
    case WriteEnds(ok) =>
      if !ok || !k.isOpen || drain != NotDraining then Ending(k)
      else k.(phase := Idle, fiber := Reading)
    case ErrorWriteEnds => Ending(k)
    case DrainAbandons => (if k.phase.InApp? && k.isOpen then Put(k, true) else k).(isOpen := false)
  }

  predicate HasCall(k: Conn) {
    (k.fiber == Reading || |k.calls| > 0) && (k.phase.InApp? || k.phase.Writing? ==> |k.calls| > 0)
  }

  function MaybeStep(limits: Limits, k: Conn, act: Action, drain: Drain): Conn {
    if Applies(k, act, drain) && HasCall(k) then Step(limits, k, act, drain) else k
  }

  function CloseIfIdle(k: Conn): Conn {
    if k.phase.Idle? then k.(isOpen := false) else k
  }

  function Apply(limits: Limits, w: Worker, l: Label): Worker {
    match l
    case Accept(c) =>
      if c in w.conns || !(w.drain.NotDraining? || w.drain.Started?) then w
      else w.(conns := w.conns[c := Conn(Idle, Reading, true, [], [])])
    case Do(c, act) => if c in w.conns then w.(conns := w.conns[c := MaybeStep(limits, w.conns[c], act, w.drain)])
        else w
    case StartDrain => if w.drain.NotDraining? then w.(drain := Started) else w
    case CloseListener => if w.drain.Started? then w.(drain := ListenerClosed) else w
    case CloseIdle =>
      if w.drain.ListenerClosed? then Worker(map c | c in w.conns :: CloseIfIdle(w.conns[c]), IdleClosed) else w
    case StartAbandoning => if w.drain.IdleClosed? then w.(drain := Abandoning) else w
  }

  function Run(limits: Limits, labels: seq<Label>): Worker {
    if labels == [] then INIT else Apply(limits, Run(limits, labels[..|labels| - 1]), labels[|labels| - 1])
  }

  // ----- one frame for each request -----

  /** The i-th frame answers the i-th request, and nothing follows an error frame. */
  predicate OneFrameEach(sent: seq<Sent>) {
    forall i :: 0 <= i < |sent| ==> sent[i].call == i && (sent[i].error ==> i == |sent| - 1)
  }

  predicate NoError(sent: seq<Sent>) {
    forall i :: 0 <= i < |sent| ==> !sent[i].error
  }

  /** What holds of a connection at each suspension point. */
  predicate Orderly(k: Conn, drain: Drain) {
    && OneFrameEach(k.sent) && |k.sent| <= |k.calls|
    && (drain.NotDraining? || drain.Started? || drain.ListenerClosed? ==> k.isOpen || k.fiber.Ended?)
    && (drain.IdleClosed? || drain.Abandoning? ==> (k.fiber.Reading? ==> !k.isOpen))
    && match k.fiber
       case Reading => k.phase.Idle? && |k.sent| == |k.calls| && NoError(k.sent)
       case Calling => k.phase.InApp? && |k.calls| > 0 && (k.isOpen ==> |k.sent| == |k.calls| - 1 && NoError(k.sent))
       case Answering => k.phase.Writing? && |k.calls| > 0 && |k.sent| == |k.calls| && NoError(k.sent)
       case WritingError => k.phase.InApp? && |k.calls| > 0 && |k.sent| == |k.calls| && k.sent[|k.sent| - 1].error
           && k.isOpen
       case Ended => k.phase.Unregistered? && !k.isOpen
  }

  /** The drain gives up on a connection whose fiber is itself inside the write of an error frame. */
  predicate Clash(k: Conn, act: Action, drain: Drain) {
    act.DrainAbandons? && drain.Abandoning? && k.fiber.WritingError?
  }

  lemma StepStaysOrderly(limits: Limits, k: Conn, act: Action, drain: Drain)
    requires Orderly(k, drain) && !Clash(k, act, drain)
    ensures Orderly(MaybeStep(limits, k, act, drain), drain)
  {
  }

  lemma ClashDoubles(limits: Limits, k: Conn, act: Action, drain: Drain)
    requires Orderly(k, drain) && Clash(k, act, drain)
    ensures !OneFrameEach(MaybeStep(limits, k, act, drain).sent)
  {
    var k' := MaybeStep(limits, k, act, drain);
    assert k'.sent[|k.sent|] == Sent(|k.calls| - 1, true);
  }

  /** Frames already on the socket stay there. */
  lemma StepOnlyAdds(limits: Limits, k: Conn, act: Action, drain: Drain)
    ensures k.sent <= MaybeStep(limits, k, act, drain).sent && k.calls <= MaybeStep(limits, k, act, drain).calls
  {
  }

  lemma DisorderStays(sent: seq<Sent>, more: seq<Sent>)
    requires sent <= more && !OneFrameEach(sent)
    ensures !OneFrameEach(more)
  {
    var i :| 0 <= i < |sent| && !(sent[i].call == i && (sent[i].error ==> i == |sent| - 1));
    assert more[i] == sent[i];
  }

  /** The label makes the drain clash with a fiber in this state. */
  predicate Clashes(w: Worker, l: Label) {
    l.Do? && l.c in w.conns && Clash(w.conns[l.c], l.act, w.drain)
  }

  predicate ClashFree(limits: Limits, labels: seq<Label>) {
    forall i :: 0 <= i < |labels| ==> !Clashes(Run(limits, labels[..i]), labels[i])
  }

  predicate AllOrderly(w: Worker) {
    forall c :: c in w.conns ==> Orderly(w.conns[c], w.drain)
  }

  predicate AllOneFrameEach(w: Worker) {
    forall c :: c in w.conns ==> OneFrameEach(w.conns[c].sent)
  }

  lemma ApplyStaysOrderly(limits: Limits, w: Worker, l: Label)
    requires AllOrderly(w) && !Clashes(w, l)
    ensures AllOrderly(Apply(limits, w, l))
  {
    if l.Do? && l.c in w.conns {
      StepStaysOrderly(limits, w.conns[l.c], l.act, w.drain);
    }
  }

  lemma ApplyOnlyAdds(limits: Limits, w: Worker, l: Label, c: ConnId)
    requires c in w.conns
    ensures c in Apply(limits, w, l).conns
    ensures w.conns[c].sent <= Apply(limits, w, l).conns[c].sent
            && w.conns[c].calls <= Apply(limits, w, l).conns[c].calls
  {
    if l.Do? && l.c == c {
      StepOnlyAdds(limits, w.conns[c], l.act, w.drain);
    }
  }

  lemma ClashFreePrefix(limits: Limits, labels: seq<Label>)
    requires labels != []
    ensures var before := labels[..|labels| - 1];
            ClashFree(limits, labels) <==>
                ClashFree(limits, before) && !Clashes(Run(limits, before), labels[|labels| - 1])
  {
    var before := labels[..|labels| - 1];
    forall i | 0 <= i < |before|
      ensures labels[..i] == before[..i]
    {
    }
    if ClashFree(limits, before) && !Clashes(Run(limits, before), labels[|labels| - 1]) {
      forall i | 0 <= i < |labels|
        ensures !Clashes(Run(limits, labels[..i]), labels[i])
      {
        if i < |before| {
          assert !Clashes(Run(limits, before[..i]), before[i]);
        }
      }
    }
    if ClashFree(limits, labels) {
      forall i | 0 <= i < |before|
        ensures !Clashes(Run(limits, before[..i]), before[i])
      {
        assert !Clashes(Run(limits, labels[..i]), labels[i]);
      }
    }
  }

  /**
   In every interleaving each request puts at most one frame on its socket, in the order of the requests, and nothing
   follows an error frame, if and only if the drain never gives up on a connection while that connection's
   fiber is suspended inside its own error frame.
   */
  lemma {:induction false} FramesAreOrderlyExactly(limits: Limits, labels: seq<Label>)
    ensures ClashFree(limits, labels) ==> AllOrderly(Run(limits, labels))
    ensures AllOneFrameEach(Run(limits, labels)) <==> ClashFree(limits, labels)
  {
    if labels != [] {
      var before, last := labels[..|labels| - 1], labels[|labels| - 1];
      var w := Run(limits, before);
      FramesAreOrderlyExactly(limits, before);
      ClashFreePrefix(limits, labels);
      if !ClashFree(limits, before) {
        var c :| c in w.conns && !OneFrameEach(w.conns[c].sent);
        ApplyOnlyAdds(limits, w, last, c);
        DisorderStays(w.conns[c].sent, Apply(limits, w, last).conns[c].sent);
      } else if Clashes(w, last) {
        ClashDoubles(limits, w.conns[last.c], last.act, w.drain);
        assert !OneFrameEach(Run(limits, labels).conns[last.c].sent);
      } else {
        ApplyStaysOrderly(limits, w, last);
      }
    }
  }

  // ----- which frame a call ends with -----

  /** In this state the label ends the latest call of `c` with the frame `f`. */
  predicate EndsWith(w: Worker, l: Label, c: ConnId, f: Sent) {
    && l.Do? && l.c == c && c in w.conns && w.conns[c].isOpen && |w.conns[c].calls| == f.call + 1
    && match l.act
       case AppAnswers => w.conns[c].fiber.Calling? && !f.error
       case AppRaises => w.conns[c].fiber.Calling? && f.error
       case DrainAbandons => w.drain.Abandoning? && w.conns[c].phase.InApp? && f.error
       case _ => false
  }

  ghost predicate CallEnded(limits: Limits, labels: seq<Label>, c: ConnId, f: Sent) {
    exists j :: 0 <= j < |labels| && EndsWith(Run(limits, labels[..j]), labels[j], c, f)
  }

  predicate CallOrGone(k: Conn) {
    HasCall(k) || (k.fiber.Ended? && k.phase.Unregistered?)
  }

  predicate AllCallOrGone(w: Worker) {
    forall c :: c in w.conns ==> CallOrGone(w.conns[c])
  }

  lemma {:induction false} RunCallsOrIsGone(limits: Limits, labels: seq<Label>)
    ensures AllCallOrGone(Run(limits, labels))
  {
    if labels != [] {
      RunCallsOrIsGone(limits, labels[..|labels| - 1]);
      ApplyCallsOrIsGone(limits, Run(limits, labels[..|labels| - 1]), labels[|labels| - 1]);
    }
  }

  lemma ApplyCallsOrIsGone(limits: Limits, w: Worker, l: Label)
    requires AllCallOrGone(w)
    ensures AllCallOrGone(Apply(limits, w, l))
  {
    if l.Do? && l.c in w.conns {
      StepCallsOrIsGone(limits, w.conns[l.c], l.act, w.drain);
    }
  }

  lemma StepCallsOrIsGone(limits: Limits, k: Conn, act: Action, drain: Drain)
    requires CallOrGone(k)
    ensures CallOrGone(MaybeStep(limits, k, act, drain))
  {
  }

  function SentOn(w: Worker, c: ConnId): seq<Sent> {
    if c in w.conns then w.conns[c].sent else []
  }

  /** One label puts on the socket of `c` the frame it ends a call with, if it ends one, and nothing else. */
  lemma ApplySends(limits: Limits, w: Worker, l: Label, c: ConnId, f: Sent)
    requires AllCallOrGone(w)
    ensures f in SentOn(Apply(limits, w, l), c) <==> f in SentOn(w, c) || EndsWith(w, l, c, f)
  {
    if l.Do? && l.c == c && c in w.conns {
      StepSends(limits, w, c, l.act, f);
    }
  }

  lemma StepSends(limits: Limits, w: Worker, c: ConnId, act: Action, f: Sent)
    requires c in w.conns && CallOrGone(w.conns[c])
    ensures f in MaybeStep(limits, w.conns[c], act, w.drain).sent <==>
            f in w.conns[c].sent || EndsWith(w, Do(c, act), c, f)
  {
  }

  /**
   The frames on a socket say how the calls ended: there is a good frame for exactly the calls whose application
   answered while the socket was open, and an error frame for exactly those whose application raised, or which the drain
   gave up on, while it was open.
   */
  lemma {:induction false} FramesSayHowCallsEnded(limits: Limits, labels: seq<Label>, c: ConnId, f: Sent)
    ensures f in SentOn(Run(limits, labels), c) <==> CallEnded(limits, labels, c, f)
  {
    if labels != [] {
      var before := labels[..|labels| - 1];
      FramesSayHowCallsEnded(limits, before, c, f);
      RunCallsOrIsGone(limits, before);
      ApplySends(limits, Run(limits, before), labels[|labels| - 1], c, f);
      CallEndedOneMore(limits, labels, c, f);
    }
  }

  lemma CallEndedOneMore(limits: Limits, labels: seq<Label>, c: ConnId, f: Sent)
    requires labels != []
    ensures var before := labels[..|labels| - 1];
            CallEnded(limits, labels, c, f) <==>
            CallEnded(limits, before, c, f) || EndsWith(Run(limits, before), labels[|labels| - 1], c, f)
  {
    var before := labels[..|labels| - 1];
    forall j | 0 <= j < |before|
      ensures before[..j] == labels[..j]
    {
    }
    if CallEnded(limits, before, c, f) {
      var j :| 0 <= j < |before| && EndsWith(Run(limits, before[..j]), before[j], c, f);
      assert EndsWith(Run(limits, labels[..j]), labels[j], c, f);
    }
  }

  // ----- application calls -----

  /** These bytes are a good prefix and an envelope that begins with the encoding of `request`. */
  predicate Carries(limits: Limits, prefix: Bytes, envelope: Bytes, request: RequestFrame) {
    && |prefix| == PREFIX_LEN && prefix[0] == FRAME_MAGIC && prefix[1] == FRAME_VERSION
    && U32Of(prefix[2], prefix[3], prefix[4], prefix[5]) == |envelope| <= limits.MaxRemaining()
    && RequestFits(request) && |request.headers| <= Ruby.MAX_HEADERS && |request.body| <= limits.maxBody
    && RequestEnvelope(request) <= envelope
  }

  lemma DecodedCarries(limits: Limits, prefix: Bytes, envelope: Bytes, request: RequestFrame)
    ensures Decoded(limits, prefix, envelope) == Some(request) <==> Carries(limits, prefix, envelope, request)
  {
    Ruby.WorkerAccepts(envelope, limits.maxBody, request);
  }

  lemma StepCalls(limits: Limits, k: Conn, act: Action, drain: Drain)
    ensures var k' := MaybeStep(limits, k, act, drain);
            k'.calls == k.calls || (k.isOpen && act.Receive? && Decoded(limits, act.prefix, act.envelope).Some?
                                    && k'.calls == k.calls + [Decoded(limits, act.prefix, act.envelope).value])
  {
  }

  /**
   The application is entered only with a request that was decoded in full, from a well-formed frame on an open socket.
   */
  lemma CallsAreDecoded(limits: Limits, w: Worker, l: Label, c: ConnId)
    requires c in w.conns
    ensures c in Apply(limits, w, l).conns
    ensures var calls, calls' := w.conns[c].calls, Apply(limits, w, l).conns[c].calls;
            calls' == calls ||
            (exists request ::
               && calls' == calls + [request] && w.conns[c].isOpen
               && l.Do? && l.c == c && l.act.Receive? && Carries(limits, l.act.prefix, l.act.envelope, request))
  {
    if l.Do? && l.c == c && l.act.Receive? {
      StepCalls(limits, w.conns[c], l.act, w.drain);
      var d := Decoded(limits, l.act.prefix, l.act.envelope);
      if d.Some? {
        DecodedCarries(limits, l.act.prefix, l.act.envelope, d.value);
      }
    }
  }

  /** A connection that is read and open enters the application with a request exactly when its frame carries it. */
  lemma DispatchesExactly(limits: Limits, w: Worker, c: ConnId, prefix: Bytes, envelope: Bytes, request: RequestFrame)
    requires c in w.conns && w.conns[c].fiber.Reading? && w.conns[c].isOpen && HasCall(w.conns[c])
    ensures var k, k' := w.conns[c], Apply(limits, w, Do(c, Receive(prefix, envelope))).conns[c];
            k'.calls == k.calls + [request] && k'.fiber.Calling? <==> Carries(limits, prefix, envelope, request)
  {
    DecodedCarries(limits, prefix, envelope, request);
    var k, d := w.conns[c], Decoded(limits, prefix, envelope);
    if d.Some? && d.value != request {
      assert (k.calls + [d.value])[|k.calls|] != (k.calls + [request])[|k.calls|];
    }
  }

  /**
   Without a drain an open connection serves request after request: a frame that carries one, the application's answer
   and the finished write put the good frame of that call on the socket and the fiber back at its read.
   */
  lemma ServesAgain(limits: Limits, k: Conn, prefix: Bytes, envelope: Bytes, request: RequestFrame)
    requires k.fiber.Reading? && k.phase.Idle? && k.isOpen && Carries(limits, prefix, envelope, request)
    ensures var called := MaybeStep(limits, k, Receive(prefix, envelope), NotDraining);
            var answered := MaybeStep(limits, called, AppAnswers, NotDraining);
            MaybeStep(limits, answered, WriteEnds(true), NotDraining) ==
            Conn(Idle, Reading, true, k.calls + [request], k.sent + [Sent(|k.calls|, false)])
  {
    IsDispatched(limits, k, prefix, envelope, request);
    IsAnswered(limits, k.(phase := InApp, fiber := Calling, calls := k.calls + [request]));
  }

  lemma IsDispatched(limits: Limits, k: Conn, prefix: Bytes, envelope: Bytes, request: RequestFrame)
    requires k.fiber.Reading? && k.phase.Idle? && k.isOpen && Carries(limits, prefix, envelope, request)
    ensures MaybeStep(limits, k, Receive(prefix, envelope), NotDraining) ==
            k.(phase := InApp, fiber := Calling, calls := k.calls + [request])
  {
    DecodedCarries(limits, prefix, envelope, request);
  }

  lemma IsAnswered(limits: Limits, k: Conn)
    requires k.fiber.Calling? && k.isOpen && |k.calls| > 0
    ensures MaybeStep(limits, MaybeStep(limits, k, AppAnswers, NotDraining), WriteEnds(true), NotDraining) ==
            Conn(Idle, Reading, true, k.calls, k.sent + [Sent(|k.calls| - 1, false)])
  {
  }

  predicate IdleGone(w: Worker) {
    && (w.drain.IdleClosed? || w.drain.Abandoning?)
    && forall c :: c in w.conns ==> NotServing(w.conns[c])
  }

  predicate NotServing(k: Conn) {
    k.fiber.Reading? ==> !k.isOpen
  }

  lemma StepAfterDrain(limits: Limits, k: Conn, act: Action, drain: Drain)
    requires drain != NotDraining && NotServing(k)
    ensures NotServing(MaybeStep(limits, k, act, drain)) && MaybeStep(limits, k, act, drain).calls == k.calls
  {
  }

  lemma ApplyAfterDrain(limits: Limits, w: Worker, l: Label)
    requires IdleGone(w)
    ensures var w' := Apply(limits, w, l);
            IdleGone(w') && SameCalls(w, w')
  {
    if l.Do? && l.c in w.conns {
      StepAfterDrain(limits, w.conns[l.c], l.act, w.drain);
    }
  }

  /** Closing idle connections leaves none whose fiber could still dispatch a request. */
  lemma {:induction false} DrainedIsIdleGone(limits: Limits, labels: seq<Label>)
    ensures var w := Run(limits, labels);
            && (forall c :: c in w.conns && w.conns[c].fiber.Reading? ==> w.conns[c].phase.Idle?)
            && (w.drain.IdleClosed? || w.drain.Abandoning? ==> IdleGone(w))
  {
    if labels != [] {
      var before, last := labels[..|labels| - 1], labels[|labels| - 1];
      var w := Run(limits, before);
      DrainedIsIdleGone(limits, before);
      if w.drain.IdleClosed? || w.drain.Abandoning? {
        ApplyAfterDrain(limits, w, last);
      }
      ReadersStayIdle(limits, w, last);
    }
  }

  lemma ReadersStayIdle(limits: Limits, w: Worker, l: Label)
    requires forall c :: c in w.conns && w.conns[c].fiber.Reading? ==> w.conns[c].phase.Idle?
    ensures var w' := Apply(limits, w, l);
            forall c :: c in w'.conns && w'.conns[c].fiber.Reading? ==> w'.conns[c].phase.Idle?
  {
    if l.Do? && l.c in w.conns {
      ReaderStaysIdle(limits, w.conns[l.c], l.act, w.drain);
    }
  }

  lemma ReaderStaysIdle(limits: Limits, k: Conn, act: Action, drain: Drain)
    requires k.fiber.Reading? ==> k.phase.Idle?
    ensures var k' := MaybeStep(limits, k, act, drain); k'.fiber.Reading? ==> k'.phase.Idle?
  {
  }

  ghost predicate SameCalls(w: Worker, w': Worker) {
    w'.conns.Keys == w.conns.Keys && forall c :: c in w.conns ==> w'.conns[c].calls == w.conns[c].calls
  }

  /** Once the drain has closed the idle connections, no application call starts any more and no connection is added. */
  lemma {:induction false} NoCallAfterDrain(limits: Limits, labels: seq<Label>, more: seq<Label>)
    requires Run(limits, labels).drain.IdleClosed? || Run(limits, labels).drain.Abandoning?
    ensures IdleGone(Run(limits, labels + more)) && SameCalls(Run(limits, labels), Run(limits, labels + more))
    decreases |more|
  {
    if more == [] {
      assert labels + more == labels;
      DrainedIsIdleGone(limits, labels);
    } else {
      var some := more[..|more| - 1];
      NoCallAfterDrain(limits, labels, some);
      assert labels + more == labels + some + [more[|more| - 1]];
      RunStep(limits, labels + some, more[|more| - 1]);
      ApplyAfterDrain(limits, Run(limits, labels + some), more[|more| - 1]);
    }
  }

  lemma RunStep(limits: Limits, labels: seq<Label>, l: Label)
    ensures Run(limits, labels + [l]) == Apply(limits, Run(limits, labels), l)
  {
    assert (labels + [l])[..|labels|] == labels;
  }

  /** The clash is possible: any request the worker accepts can end with two error frames on its socket. */
  lemma ErrorFrameCanDouble(limits: Limits, prefix: Bytes, envelope: Bytes, request: RequestFrame)
    requires Carries(limits, prefix, envelope, request)
    ensures var labels := [Accept(0), Do(0, Receive(prefix, envelope)), StartDrain, CloseListener, CloseIdle,
                           StartAbandoning, Do(0, AppRaises), Do(0, DrainAbandons)];
            0 in Run(limits, labels).conns && Run(limits, labels).conns[0].sent == [Sent(0, true), Sent(0, true)]
  {
    var calling := Conn(InApp, Calling, true, [request], []);
    var l2: seq<Label> := [Accept(0), Do(0, Receive(prefix, envelope))];
    var l3 := l2 + [StartDrain, CloseListener, CloseIdle, StartAbandoning];
    Dispatches(limits, prefix, envelope, request);
    DrainReaches(limits, l2, calling);
    GivesUpTwice(limits, l3, calling);
    assert l3 + [Do(0, AppRaises), Do(0, DrainAbandons)] ==
      [Accept(0), Do(0, Receive(prefix, envelope)), StartDrain, CloseListener, CloseIdle, StartAbandoning,
          Do(0, AppRaises), Do(0, DrainAbandons)];
  }

  lemma Dispatches(limits: Limits, prefix: Bytes, envelope: Bytes, request: RequestFrame)
    requires Carries(limits, prefix, envelope, request)
    ensures Run(limits, [Accept(0), Do(0, Receive(prefix, envelope))]) ==
            Worker(map[0 := Conn(InApp, Calling, true, [request], [])], NotDraining)
  {
    var reading := Conn(Idle, Reading, true, [], []);
    RunStep(limits, [], Accept(0));
    assert [] + [Accept(0)] == [Accept(0)];
    assert Run(limits, [Accept(0)]) == Worker(map[0 := reading], NotDraining);
    RunStep(limits, [Accept(0)], Do(0, Receive(prefix, envelope)));
    FirstCall(limits, prefix, envelope, request);
    assert [Accept(0)] + [Do(0, Receive(prefix, envelope))] == [Accept(0), Do(0, Receive(prefix, envelope))];
  }

  lemma FirstCall(limits: Limits, prefix: Bytes, envelope: Bytes, request: RequestFrame)
    requires Carries(limits, prefix, envelope, request)
    ensures MaybeStep(limits, Conn(Idle, Reading, true, [], []), Receive(prefix, envelope), NotDraining) ==
            Conn(InApp, Calling, true, [request], [])
  {
    DecodedCarries(limits, prefix, envelope, request);
  }

  lemma GivesUpTwice(limits: Limits, labels: seq<Label>, k: Conn)
    requires Run(limits, labels) == Worker(map[0 := k], Abandoning)
    requires k.phase.InApp? && k.fiber.Calling? && k.isOpen && |k.calls| == 1 && k.sent == []
    ensures var w := Run(limits, labels + [Do(0, AppRaises), Do(0, DrainAbandons)]);
            0 in w.conns && w.conns[0].sent == [Sent(0, true), Sent(0, true)]
  {
    var raised := MaybeStep(limits, k, AppRaises, Abandoning);
    assert raised.sent == [Sent(0, true)];
    RunStep(limits, labels, Do(0, AppRaises));
    var l := labels + [Do(0, AppRaises)];
    assert Run(limits, l) == Worker(map[0 := raised], Abandoning);
    RunStep(limits, l, Do(0, DrainAbandons));
    assert l + [Do(0, DrainAbandons)] == labels + [Do(0, AppRaises), Do(0, DrainAbandons)];
  }

  lemma DrainReaches(limits: Limits, labels: seq<Label>, k: Conn)
    requires Run(limits, labels) == Worker(map[0 := k], NotDraining) && k.phase.InApp?
    ensures Run(limits, labels + [StartDrain, CloseListener, CloseIdle, StartAbandoning]) ==
            Worker(map[0 := k], Abandoning)
  {
    var w: Worker := Worker(map[0 := k], NotDraining);
    RunFour(limits, labels, StartDrain, CloseListener, CloseIdle, StartAbandoning);
    assert Apply(limits, Apply(limits, w, StartDrain), CloseListener) == w.(drain := ListenerClosed);
    BusyIsNotClosed(limits, k);
    assert Apply(limits, w.(drain := IdleClosed), StartAbandoning) == w.(drain := Abandoning);
  }

  lemma RunFour(limits: Limits, labels: seq<Label>, a: Label, b: Label, c: Label, d: Label)
    ensures Run(limits, labels + [a, b, c, d]) ==
            Apply(limits, Apply(limits, Apply(limits, Apply(limits, Run(limits, labels), a), b), c), d)
  {
    RunStep(limits, labels, a);
    RunStep(limits, labels + [a], b);
    RunStep(limits, labels + [a] + [b], c);
    RunStep(limits, labels + [a] + [b] + [c], d);
    FourMore(labels, a, b, c, d);
  }

  lemma BusyIsNotClosed(limits: Limits, k: Conn)
    requires k.phase.InApp?
    ensures Apply(limits, Worker(map[0 := k], ListenerClosed), CloseIdle) == Worker(map[0 := k], IdleClosed)
  {
    var conns: map<ConnId, Conn> := map[0 := k];
    assert (map c | c in conns :: CloseIfIdle(conns[c])) == conns;
  }

  lemma FourMore(labels: seq<Label>, a: Label, b: Label, c: Label, d: Label)
    ensures labels + [a] + [b] + [c] + [d] == labels + [a, b, c, d]
  {
  }
}
