/**
 Whole runs of an asynchronous context: an event loop that reads bytes from the
 connection, writes to it and lets the user act, with the reply reader in
 between. Callbacks cannot touch the reader, so the replies of a read are taken
 out of it before the first of their callbacks runs.
 */
module AsyncSession {
  import opened Bytes
  import opened CTypes
  import opened Wrappers
  import opened Resp
  import opened RespReader
  import opened CallbackList
  import opened AsyncTrace
  import opened Async

  /** The bytes read during a run. */
  function BytesOf(events: seq<Event>): bytes {
    if events == [] then []
    else (if events[0].Readable? then events[0].chunk else []) + BytesOf(events[1..])
  }

  /** The user's acts from outside callbacks. */
  function UserActs(events: seq<Event>): seq<Act> {
    if events == [] then []
    else UserActs(events[..|events| - 1]) + ActOf(events[|events| - 1])
  }

  /** What the bytes read during a run are parsed to. */
  function Parsed(events: seq<Event>): Transcript {
    ParseStream(BytesOf(events))
  }

  /** What can be seen of a context before, between and after the events of a run,
      which are the first ones of `events`: each event does what AsyncTrace says of
      it, the replies that have arrived are always those in the bytes read, and they
      have gone to the commands in order. */
  ghost predicate Happened(script: Script, events: seq<Event>, hist: seq<View>) {
    && 0 < |hist| <= |events| + 1 && hist[0] == START
    && forall i :: 0 <= i < |hist| - 1 ==> EventAt(script, events, i, hist[i], hist[i + 1])
  }

  ghost predicate EventAt(script: Script, events: seq<Event>, i: nat, v: View, w: View)
    requires i < |events|
  {
    && !Ended(v) && w.arrived == Parsed(events[..i + 1]).replies && InOrder(w) && (Ended(w) || AtRest(w))
    && Step(script, v, events[i], Parsed(events[..i + 1]).ending.Failed?, w)
  }

  /** One more event. */
  lemma HappenedSnoc(script: Script, events: seq<Event>, hist: seq<View>, w: View)
    requires Happened(script, events, hist) && |hist| <= |events|
    requires EventAt(script, events, |hist| - 1, hist[|hist| - 1], w)
    ensures Happened(script, events, hist + [w])
  {
    hide EventAt;
    var after := hist + [w];
    forall i | 0 <= i < |after| - 1
      ensures EventAt(script, events, i, after[i], after[i + 1])
    {
      if i < |hist| - 1 { assert after[i] == hist[i] && after[i + 1] == hist[i + 1]; }
    }
  }

  /** Why the last event of a run freed the context. */
  ghost predicate LastFreed(script: Script, events: seq<Event>, hist: seq<View>)
    requires 0 < |hist| <= |events| + 1
  {
    var n := |hist| - 1;
    n > 0 && Cause(script, hist[n - 1], events[n - 1], Parsed(events[..n]).ending.Failed?, hist[n])
  }

  /** The last event of a run ended the connection by an error. */
  ghost predicate LastFailed(script: Script, events: seq<Event>, hist: seq<View>)
    requires 0 < |hist| <= |events| + 1
  {
    var n := |hist| - 1;
    n > 0 && ErrorCause(script, hist[n - 1], events[n - 1], Parsed(events[..n]).ending.Failed?, hist[n])
  }

  /** In any run, the acts from outside are noted in the order in which they came,
      every callback of a consumed entry acts once and as its script says, and a
      context is freed, or its connection broken, only by an event that causes it. */
  lemma {:induction false} Booked(script: Script, events: seq<Event>, hist: seq<View>)
    requires Happened(script, events, hist)
    ensures var n, w := |hist| - 1, hist[|hist| - 1];
      && AskedOf(w.log) == UserActs(events[..n]) && Scripted(script, w)
      && (w.freed <==> LastFreed(script, events, hist))
      && (Broke in w.log <==> LastFailed(script, events, hist)) && (Broke in w.log ==> w.freed)
      && (w.stuck ==> n > 0 && events[n - 1].Readable?)
  {
    hide Step, Parsed, AskedOf, Scripted, Cause, ErrorCause, UserActs, AskedToFree;
    var n := |hist| - 1;
    if n == 0 {
      NothingBooked(script);
      assert events[..0] == [];
    } else {
      HappenedFront(script, events, hist);
      Booked(script, events, hist[..n]);
      ActsSnoc(events, n - 1);
      var broken := Parsed(events[..n]).ending.Failed?;
      StepBooked(script, hist[n - 1], events[n - 1], broken, hist[n]);
      FreedIff(script, hist[n - 1], events[n - 1], broken, hist[n]);
    }
  }

  lemma HappenedFront(script: Script, events: seq<Event>, hist: seq<View>)
    requires Happened(script, events, hist) && |hist| > 1
    ensures var n := |hist| - 1;
      Happened(script, events, hist[..n]) && EventAt(script, events, n - 1, hist[n - 1], hist[n])
  {
    hide EventAt;
    var n := |hist| - 1;
    assert EventAt(script, events, n - 1, hist[n - 1], hist[n]);
    forall i | 0 <= i < n - 1
      ensures EventAt(script, events, i, hist[..n][i], hist[..n][i + 1])
    {
      assert EventAt(script, events, i, hist[i], hist[i + 1]);
    }
  }

  lemma NothingBooked(script: Script)
    ensures AskedOf([]) == [] == UserActs([]) && Scripted(script, START)
  {
  }

  lemma ActsSnoc(events: seq<Event>, n: nat)
    requires n < |events|
    ensures UserActs(events[..n + 1]) == UserActs(events[..n]) + ActOf(events[n])
  {
    assert events[..n + 1][..n] == events[..n];
  }

  ghost function Frame(reader: Reader): set<object>
    reads reader, reader.buf
  {
    {reader, reader.rstack} + reader.BufRepr()
  }

  /** Nothing happens to this context any more. */
  predicate Over(ctx: Context)
    reads ctx
  {
    ctx.freed || ctx.stuck
  }

  /** Between two events every reply that arrived has been handled. */
  ghost predicate Rested(ctx: Context)
    reads ctx, ctx.queue, ctx.queue.Nodes()
  {
    ctx.Valid() && (Over(ctx) || (ctx.Idle() && ctx.inbox == []))
  }

  /** The context and its reader between two events. */
  ghost predicate Ready(ctx: Context, reader: Reader)
    reads ctx, ctx.queue, ctx.queue.Nodes(), reader, reader.rstack, reader.buf, reader.BufRepr()
    ensures Ready(ctx, reader) ==> reader.Valid()
  {
    reader.Valid() && Drained(reader) && Rested(ctx) && ctx.Repr() !! Frame(reader)
  }

  /** The user acts from outside a callback. */
  method PerformAct(ctx: Context, act: Act)
    requires ctx.Idle() && ctx.inbox == []
    modifies ctx.Repr()
    ensures Rested(ctx) && fresh(ctx.Repr() - old(ctx.Repr()))
    ensures Step(ctx.script, old(ctx.Seen()), User(act), false, ctx.Seen()) && ctx.arrived == old(ctx.arrived)
  {
    hide Context.Valid, Queue.Contents, Torn, Waits;
    ctx.NobodyWaits();
    ghost var v := ctx.Seen();
    match act {
      case Command(cb, cmd) => var ok := ctx.AsyncCommand(cb, cmd);
      case Disconnect => ctx.AsyncDisconnect();
      case Free => ctx.AsyncFree();
    }
    TornArrived(ctx.script, v.(log := v.log + [Asked(act)]), false, ctx.Seen());
  }

  lemma TornArrived(script: Script, v: View, broke: bool, w: View)
    ensures Torn(script, v, broke, w) ==> w.freed && w.arrived == v.arrived
  {
  }

  /** An event that reads nothing. */
  method PerformOther(ctx: Context, e: Event)
    requires ctx.Idle() && ctx.inbox == [] && !e.Readable?
    modifies ctx.Repr()
    ensures Rested(ctx) && fresh(ctx.Repr() - old(ctx.Repr()))
    ensures Step(ctx.script, old(ctx.Seen()), e, false, ctx.Seen()) && ctx.arrived == old(ctx.arrived)
  {
    hide Context.Valid, Queue.Contents, Torn, Waits;
    ghost var v := ctx.Seen();
    match e {
      case ReadFailed => ctx.HandleRead([], false, true);
      case Writable(n) => ctx.HandleWrite(n, false);
      case WriteFailed => ctx.HandleWrite(0, true);
      case User(act) => PerformAct(ctx, act);
    }
    TornArrived(ctx.script, v, true, ctx.Seen());
  }

  /** Bytes of the stream `all` are read, and the replies they complete are handled. */
  method PerformRead(ctx: Context, reader: Reader, chunk: bytes, ghost all: bytes, ghost future: bytes)
    requires Ready(ctx, reader) && !Over(ctx) && reader.len + |chunk| <= INT_MAX
    requires Tracks(reader, all, ctx.arrived, chunk + future)
    modifies ctx.Repr(), Frame(reader)
    ensures Ready(ctx, reader) && Tracks(reader, all, ctx.arrived, future)
    ensures fresh(ctx.Repr() - old(ctx.Repr())) && fresh(Frame(reader) - old(Frame(reader)))
    ensures ReadStep(ctx.script, old(ctx.Seen()), reader.err.Some?, ctx.Seen())
  {
    hide Context.Valid, Reader.Valid, Tracks, Queue.Contents, Drained, ReadStep;
    var replies := Deliver(reader, chunk, all, ctx.arrived, future);
    ctx.HandleRead(replies, reader.err.Some?, false);
  }

  /** One event of a run that reads the stream `all`; `future` is what will be read
      after it. */
  method Perform(ctx: Context, reader: Reader, e: Event, ghost all: bytes, ghost future: bytes)
    requires Ready(ctx, reader) && !Over(ctx) && (e.Readable? ==> reader.len + |e.chunk| <= INT_MAX)
    requires Tracks(reader, all, ctx.arrived, BytesOf([e]) + future)
    modifies ctx.Repr(), Frame(reader)
    ensures Ready(ctx, reader) && Tracks(reader, all, ctx.arrived, future)
    ensures fresh(ctx.Repr() - old(ctx.Repr())) && fresh(Frame(reader) - old(Frame(reader)))
    ensures Step(ctx.script, old(ctx.Seen()), e, reader.err.Some?, ctx.Seen())
  {
    hide Context.Valid, Reader.Valid, Tracks, Queue.Contents, Drained, ReadStep, Torn, Waits;
    OneEvent(e, future);
    if e.Readable? {
      PerformRead(ctx, reader, e.chunk, all, future);
    } else {
      PerformOther(ctx, e);
    }
  }

  lemma OneEvent(e: Event, future: bytes)
    ensures BytesOf([e]) + future == (if e.Readable? then e.chunk else []) + future
    ensures [] + future == future
  {
  }

  lemma BytesFront(events: seq<Event>, i: nat)
    requires i < |events|
    ensures BytesOf(events[i..]) == BytesOf([events[i]]) + BytesOf(events[i + 1..])
  {
    assert events[i..][1..] == events[i + 1..];
    assert BytesOf([events[i]]) == (if events[i].Readable? then events[i].chunk else []) + [];
  }

  /** The bytes and the acts of a run with one more event. */
  lemma OneMore(events: seq<Event>, e: Event)
    ensures BytesOf([]) == [] && BytesOf(events + [e]) == BytesOf(events) + if e.Readable? then e.chunk else []
    ensures UserActs([]) == [] && UserActs(events + [e]) == UserActs(events) + if e.User? then [e.act] else []
  {
    var all := events + [e];
    BytesSplit(all, |events|);
    BytesFront([e], 0);
    assert all[..|events|] == events && all[|events|..] == [e] && [e][0..] == [e] && [e][1..] == [];
    OneEvent(e, []);
    assert BytesOf([e]) + [] == BytesOf([e]) && (if e.Readable? then e.chunk else []) + [] == if e.Readable? then e.chunk else [];
    ActsSnoc(all, |events|);
    assert all[..|events| + 1] == all;
  }

  lemma {:induction false} BytesSplit(events: seq<Event>, n: nat)
    requires n <= |events|
    ensures BytesOf(events) == BytesOf(events[..n]) + BytesOf(events[n..])
  {
    if n == 0 {
      assert events[0..] == events;
    } else {
      BytesSplit(events[1..], n - 1);
      assert events[1..][..n - 1] == events[..n][1..] && events[1..][n - 1..] == events[n..];
    }
  }

  /** What the books of a context say between two events. */
  ghost predicate Balanced(ctx: Context)
    reads ctx, ctx.queue
  {
    && AcceptedOf(ctx.log) == Callbacks(ctx.consumed) + ctx.queue.Contents()
    && ctx.flushed + ctx.obuf == OutputOf(ctx.log)
    && Matched(ctx.consumed, ctx.received) && ctx.received <= ctx.arrived
    && (if ctx.freed then ctx.queue.Contents() == [] else |ctx.received| == |ctx.consumed|)
    && ctx.onDisconnectCalls == (if ctx.freed && ctx.hasOnDisconnect then [FreedBy(ctx.log) || Broke !in ctx.log] else [])
    && (ctx.stuck ==> ctx.queue.Contents() == [])
    && (Over(ctx) || ctx.received == ctx.arrived)
  }

  lemma Books(ctx: Context)
    requires Rested(ctx)
    ensures Balanced(ctx)
  {
    hide AcceptedOf, OutputOf, ClosedBy, FreedBy, Callbacks, Matched, Queue.Valid, Queue.Contents;
  }

  /** A run in which `hist` has been seen. */
  ghost predicate Serving(ctx: Context, reader: Reader, events: seq<Event>, hist: seq<View>)
    reads ctx, ctx.queue, ctx.queue.Nodes(), reader, reader.rstack, reader.buf, reader.BufRepr()
  {
    && Happened(ctx.script, events, hist) && hist[|hist| - 1] == ctx.Seen()
    && Ready(ctx, reader) && Tracks(reader, BytesOf(events), ctx.arrived, BytesOf(events[|hist| - 1..]))
  }

  method Connect(hasOnDisconnect: bool, script: Script, ghost events: seq<Event>)
    returns (ctx: Context, reader: Reader)
    ensures Serving(ctx, reader, events, [START]) && fresh(ctx.Repr()) && fresh(Frame(reader))
    ensures ctx.script == script && ctx.hasOnDisconnect == hasOnDisconnect
  {
    hide Context.Valid, Reader.Valid, Tracks, Drained, BytesOf;
    reader := Start(BytesOf(events));
    ctx := new Context(hasOnDisconnect, script);
    assert events[0..] == events;
  }

  /** The next event of a run. */
  method Serve(ctx: Context, reader: Reader, events: seq<Event>, n: nat, ghost hist: seq<View>)
    requires Serving(ctx, reader, events, hist) && n == |hist| - 1 < |events| && !Over(ctx)
    requires events[n].Readable? ==> reader.len + |events[n].chunk| <= INT_MAX
    modifies ctx.Repr(), Frame(reader)
    ensures Serving(ctx, reader, events, hist + [ctx.Seen()])
    ensures fresh(ctx.Repr() - old(ctx.Repr())) && fresh(Frame(reader) - old(Frame(reader)))
  {
    hide Rested, Reader.Valid, Tracks, Drained, Step, BytesOf, Happened, InOrder;
    BytesFront(events, n);
    ghost var future := BytesOf(events[n + 1..]);
    Perform(ctx, reader, events[n], BytesOf(events), future);
    Reached(reader, events, n + 1, ctx.arrived);
    Ordered(ctx);
    assert EventAt(ctx.script, events, n, hist[n], ctx.Seen());
    HappenedSnoc(ctx.script, events, hist, ctx.Seen());
  }

  lemma Ordered(ctx: Context)
    requires Rested(ctx)
    ensures InOrder(ctx.Seen()) && (Over(ctx) || AtRest(ctx.Seen()))
  {
    hide AcceptedOf, OutputOf, ClosedBy, FreedBy, Callbacks, Matched, Queue.Valid, Queue.Contents;
    assert ctx.arrived[..|ctx.received|] == ctx.received;
  }

  /** What has arrived after `n` events are the replies in the bytes read so far. */
  lemma Reached(reader: Reader, events: seq<Event>, n: nat, arrived: seq<Reply>)
    requires n <= |events| && reader.Valid() && Drained(reader)
    requires Tracks(reader, BytesOf(events), arrived, BytesOf(events[n..]))
    ensures Parsed(events[..n]) == Transcript(arrived, StatusOf(reader))
  {
    hide Reader.Valid, Tracks, Drained, BytesOf, ParseStream;
    BytesSplit(events, n);
    SoFar(reader, BytesOf(events[..n]), BytesOf(events[n..]), arrived);
  }

  /** What can be seen of the context itself after the last event of a run. */
  lemma LastEvent(ctx: Context, reader: Reader, events: seq<Event>, hist: seq<View>)
    requires Serving(ctx, reader, events, hist) && 1 < |hist| <= |events| + 1
    ensures var e := events[|hist| - 2];
      && (e.ReadFailed? || e.WriteFailed? || e == User(Free) ==> ctx.freed)
      && (e == User(Disconnect) && !ctx.freed ==> ctx.disconnecting && ctx.queue.Contents() != [])
      && (e.Readable? && !Over(ctx) ==>
            reader.err.None? && !(ctx.disconnecting && ctx.queue.Contents() == [] && ctx.obuf == []))
      && (e.Readable? && ctx.freed && !ctx.freeing && Broke !in ctx.log ==>
            && |ctx.received| == |ctx.consumed| == |ctx.arrived| && ctx.flushed == OutputOf(ctx.log)
            && exists i :: 0 <= i < |ctx.log| && !ctx.log[i].Broke? && ctx.log[i].act.Disconnect?)
  {
    hide Step, Parsed, Scripted, Rested, Tracks, Drained, Reader.Valid, InOrder, AcceptedOf, OutputOf, ClosedBy, FreedBy;
    var n := |hist| - 1;
    var v, e, w := hist[n - 1], events[n - 1], hist[n];
    HappenedFront(ctx.script, events, hist);
    RestedBefore(ctx.script, events, hist);
    Reached(reader, events, n, ctx.arrived);
    State(ctx);
    var broken := Parsed(events[..n]).ending.Failed?;
    if e.User? {
      UserLaws(ctx.script, v, e.act, broken, w);
      LogSnoc(v.log, Asked(e.act));
    } else if e.Readable? {
      ReadLaws(ctx.script, v, e, broken, w);
      if ctx.freed && !ctx.freeing && Broke !in ctx.log {
        Booked(ctx.script, events, hist);
        if 0 < w.handled <= |w.consumed| && w.consumed[w.handled - 1].cb.hasFn && Free in ctx.script(w.handled - 1) {
          AskedIsFreed(ctx.script, w, w.handled - 1);
        }
        DisconnectNoted(w.log);
      }
    } else {
      SocketLaws(ctx.script, v, e, broken, w);
    }
  }

  /** What is closed without an error and without a free was disconnected. */
  lemma DisconnectNoted(log: seq<Note>)
    requires ClosedBy(log) && !FreedBy(log) && Broke !in log
    ensures exists i :: 0 <= i < |log| && !log[i].Broke? && log[i].act.Disconnect?
  {
    hide ClosedBy, FreedBy;
    ClosedIff(log);
    var i :| 0 <= i < |log| && (log[i].Broke? || !log[i].act.Command?);
    assert log[i] in log;
  }

  /** A callback that asked for the free is in the log. */
  lemma AskedIsFreed(script: Script, w: View, k: nat)
    requires Scripted(script, w) && k < |w.consumed| && w.consumed[k].cb.hasFn && Free in script(k)
    ensures FreedBy(w.log)
  {
    hide FreedBy, RanOf;
    assert RanOf(w.log, k) == script(k);
    RanIn(w.log, k, Free);
    ClosedIff(w.log);
    var i :| 0 <= i < |w.log| && w.log[i] == Ran(k, Free);
  }

  lemma RestedBefore(script: Script, events: seq<Event>, hist: seq<View>)
    requires Happened(script, events, hist) && |hist| > 1
    ensures AtRest(hist[|hist| - 2])
  {
    hide Step, Parsed, InOrder;
    var n := |hist| - 1;
    assert EventAt(script, events, n - 1, hist[n - 1], hist[n]);
    if n > 1 {
      assert EventAt(script, events, n - 2, hist[n - 2], hist[n - 1]);
    }
  }

  /** The flags, the queue and the output buffer of a context, in terms of its log. */
  lemma State(ctx: Context)
    requires Rested(ctx)
    ensures (ctx.disconnecting || ctx.freeing <==> ClosedBy(ctx.log)) && (ctx.freeing <==> FreedBy(ctx.log))
    ensures !Over(ctx) ==> !ctx.freeing
    ensures ctx.queue.Contents() == [] <==> |AcceptedOf(ctx.log)| <= |ctx.consumed|
    ensures |ctx.consumed| <= |AcceptedOf(ctx.log)|
    ensures ctx.flushed + ctx.obuf == OutputOf(ctx.log)
  {
    hide AcceptedOf, OutputOf, ClosedBy, FreedBy, Matched, Queue.Valid;
  }

  /** Any run. `hist` is what could be seen of the context: each event did what
      AsyncTrace says of it, and the replies that arrived are those that the recursive
      parser finds in the bytes read, however they were cut. So commands are accepted
      in the order in which user and callbacks try them, until one of them or an error
      closes the context; the k-th accepted command's callback gets the k-th reply and
      acts as its script says; a context is freed only by an event that causes it, and
      then every command without a reply got its callback without one. The run ends
      early only when the context has ended, or in front of bytes with which the
      reader's buffer would outgrow an int. */
  method Run(hasOnDisconnect: bool, script: Script, events: seq<Event>)
    returns (ctx: Context, reader: Reader, n: nat, ghost hist: seq<View>)
    ensures n <= |events| && |hist| == n + 1 && Happened(script, events, hist) && hist[n] == ctx.Seen()
    ensures n < |events| ==> Over(ctx) || (events[n].Readable? && reader.len + |events[n].chunk| > INT_MAX)
    ensures Balanced(ctx) && ctx.script == script && ctx.hasOnDisconnect == hasOnDisconnect
    ensures ctx.arrived == Parsed(events[..n]).replies
    ensures AskedOf(ctx.log) == UserActs(events[..n]) && Scripted(script, ctx.Seen())
    ensures ctx.freed <==> LastFreed(script, events, hist)
    ensures Broke in ctx.log <==> LastFailed(script, events, hist)
    ensures forall k: nat :: RanOf(ctx.log, k) == if k < |ctx.consumed| && ctx.consumed[k].cb.hasFn then script(k) else []
    ensures ctx.onDisconnectCalls ==
      if ctx.freed && hasOnDisconnect then [FreedBy(ctx.log) || Broke !in ctx.log] else []
    ensures ctx.flushed + ctx.obuf == OutputOf(ctx.log) && (Over(ctx) || |ctx.received| == |ctx.arrived|)
    ensures ctx.freed ==> |ctx.consumed| == |AcceptedOf(ctx.log)|
    ensures |ctx.consumed| <= |AcceptedOf(ctx.log)| && forall k :: 0 <= k < |ctx.consumed| ==>
      && ctx.consumed[k].cb == AcceptedOf(ctx.log)[k]
      && ctx.consumed[k].reply == if k < |ctx.received| then Some(Parsed(events[..n]).replies[k]) else None
    ensures n > 0 && (events[n - 1].ReadFailed? || events[n - 1].WriteFailed? || events[n - 1] == User(Free)) ==> ctx.freed
    ensures n > 0 && events[n - 1] == User(Disconnect) && !ctx.freed ==> ctx.disconnecting && ctx.queue.Contents() != []
    ensures n > 0 && events[n - 1].Readable? && !Over(ctx) ==>
      reader.err.None? && !(ctx.disconnecting && ctx.queue.Contents() == [] && ctx.obuf == [])
    ensures n > 0 && events[n - 1].Readable? && ctx.freed && !ctx.freeing && Broke !in ctx.log ==>
      && |ctx.received| == |ctx.consumed| == |ctx.arrived| && ctx.flushed == OutputOf(ctx.log)
      && exists i :: 0 <= i < |ctx.log| && !ctx.log[i].Broke? && ctx.log[i].act.Disconnect?
  {
    hide Serving, Balanced, Happened, Parsed, AskedOf, UserActs, Scripted, LastFreed, LastFailed;
    ctx, reader := Connect(hasOnDisconnect, script, events);
    n, hist := 0, [START];
    while n < |events| && !Over(ctx)
      invariant Serving(ctx, reader, events, hist) && fresh(ctx.Repr()) && fresh(Frame(reader))
      invariant n <= |events| && |hist| == n + 1
      invariant ctx.script == script && ctx.hasOnDisconnect == hasOnDisconnect
    {
      if events[n].Readable? && reader.len + |events[n].chunk| > INT_MAX { break; }
      Serve(ctx, reader, events, n, hist);
      hist := hist + [ctx.Seen()];
      n := n + 1;
    }
    Served(ctx, reader, events, hist);
    ScriptedPlain(script, ctx.Seen());
    BalancedPlain(ctx);
    if n > 0 { LastEvent(ctx, reader, events, hist); }
  }

  lemma BalancedPlain(ctx: Context)
    requires Balanced(ctx)
    ensures ctx.onDisconnectCalls ==
      if ctx.freed && ctx.hasOnDisconnect then [FreedBy(ctx.log) || Broke !in ctx.log] else []
    ensures ctx.flushed + ctx.obuf == OutputOf(ctx.log) && (Over(ctx) || |ctx.received| == |ctx.arrived|)
    ensures ctx.freed ==> |ctx.consumed| == |AcceptedOf(ctx.log)|
    ensures |ctx.consumed| <= |AcceptedOf(ctx.log)| && |ctx.received| <= |ctx.arrived|
    ensures forall k :: 0 <= k < |ctx.consumed| ==>
      && ctx.consumed[k].cb == AcceptedOf(ctx.log)[k]
      && ctx.consumed[k].reply == if k < |ctx.received| then Some(ctx.arrived[k]) else None
  {
    hide AcceptedOf, OutputOf, FreedBy;
  }

  lemma ScriptedPlain(script: Script, v: View)
    requires Scripted(script, v)
    ensures forall k: nat :: RanOf(v.log, k) == if k < |v.consumed| && v.consumed[k].cb.hasFn then script(k) else []
  {
    hide RanOf;
  }

  lemma Served(ctx: Context, reader: Reader, events: seq<Event>, hist: seq<View>)
    requires Serving(ctx, reader, events, hist) && 0 < |hist| <= |events| + 1
    ensures var n := |hist| - 1;
      && Happened(ctx.script, events, hist) && hist[n] == ctx.Seen()
      && Balanced(ctx) && ctx.arrived == Parsed(events[..n]).replies
      && AskedOf(ctx.log) == UserActs(events[..n]) && Scripted(ctx.script, ctx.Seen())
      && (ctx.freed <==> LastFreed(ctx.script, events, hist))
      && (Broke in ctx.log <==> LastFailed(ctx.script, events, hist))
  {
    hide Balanced, Rested, Tracks, Drained, Reader.Valid, BytesOf, Parsed, AskedOf, UserActs, Scripted, LastFreed, LastFailed, Happened;
    Books(ctx);
    Booked(ctx.script, events, hist);
    Reached(reader, events, |hist| - 1, ctx.arrived);
  }
}
