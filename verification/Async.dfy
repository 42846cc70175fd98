/**
 The asynchronous context of async.c as an object that events, users and its own
 callbacks update. Each operation is tied to what AsyncTrace says of it.
 */
module Async {
  import opened Bytes
  import opened Wrappers
  import opened Resp
  import opened CallbackList
  import opened AsyncTrace

  const ERR_IO: int := 1
  const ERR_OTHER: int := 2
  const ERR_PROTOCOL: int := 4

  class Context {
    const queue: Queue
    const hasOnDisconnect: bool
    const script: Script
    var disconnecting: bool
    var freeing: bool
    var inCallback: bool
    var freed: bool
    var stuck: bool
    var err: int
    var obuf: bytes
    var inbox: seq<Reply>
    var onDisconnectCalls: seq<bool>
    var turn: nat

    ghost var log: seq<Note>
    ghost var consumed: seq<Entry>
    ghost var received: seq<Reply>
    ghost var arrived: seq<Reply>
    ghost var flushed: bytes
    ghost var tearing: bool

    ghost function Repr(): set<object>
      reads this, queue
    {
      {this, queue} + queue.Nodes()
    }

    ghost function Seen(): View
      reads this
    {
      View(log, consumed, |received|, arrived, flushed, freed, stuck)
    }

    /** No further command is accepted. */
    predicate Closing()
      reads `disconnecting, `freeing
    {
      disconnecting || freeing
    }

    /** The flags and the output follow from what was tried. */
    ghost predicate Booked()
      reads `log, `flushed, `obuf, `disconnecting, `freeing
    {
      && flushed + obuf == OutputOf(log)
      && (Closing() <==> ClosedBy(log)) && (freeing <==> FreedBy(log))
    }

    /** Whom the disconnect callback has told what: once freed, that all went well if
        there was no error or the user asked for it. */
    ghost predicate Told()
      reads `freed, `log, `onDisconnectCalls
    {
      onDisconnectCalls == if freed && hasOnDisconnect then [FreedBy(log) || Broke !in log] else []
    }

    ghost predicate Valid()
      reads this, queue, queue.Nodes()`next
      ensures Valid() ==> turn == |consumed| && |received| <= |consumed|
    {
      && queue.Valid() && Booked() && Told() && turn == |consumed|
      && AcceptedOf(log) == Callbacks(consumed) + queue.Contents()
      && Matched(consumed, received) && received <= arrived
      && (|received| < |consumed| ==> tearing)
      && (tearing ==> Closing())
      && (inCallback ==> turn > 0)
      && (freed ==> tearing && !inCallback && queue.Contents() == [])
      && (stuck ==> !tearing && !inCallback && queue.Contents() == [] && |received| < |arrived| && !arrived[|received|].Error?)
    }

    /** Neither torn down nor inside a callback. */
    ghost predicate Quiet()
      reads this, queue, queue.Nodes()`next
      ensures Quiet() ==> Valid() && |received| == |consumed|
    {
      Valid() && !freed && !tearing && !inCallback && !stuck
    }

    /** The state in which public functions may be called from the event loop: a
        callback's request to free the context is never left pending. */
    ghost predicate Idle()
      reads this, queue, queue.Nodes()`next
    {
      Quiet() && err == 0 && !freeing && Broke !in log && arrived == received + inbox
    }

    constructor (hasOnDisconnect: bool, script: Script)
      ensures Idle() && fresh(Repr()) && this.hasOnDisconnect == hasOnDisconnect && this.script == script
      ensures Seen() == START && inbox == []
    {
      queue := new Queue();
      disconnecting, freeing, inCallback, freed, stuck := false, false, false, false, false;
      err := 0;
      obuf, inbox := [], [];
      this.hasOnDisconnect := hasOnDisconnect;
      this.script := script;
      onDisconnectCalls := [];
      turn := 0;
      log, consumed, received, arrived, flushed := [], [], [], [], [];
      tearing := false;
    }

    /** How an act is noted: as one from outside, or of the callback that runs. */
    ghost function NoteOf(act: Act): Note
      reads `inCallback, `turn
    {
      if inCallback && turn > 0 then Ran(turn - 1, act) else Asked(act)
    }

    /** What the callback of the entry consumed last does. */
    ghost function Due(): seq<Act>
      requires consumed != []
      reads `consumed
    {
      ActsOf(consumed[|consumed| - 1], script, |consumed| - 1)
    }

    /** What user code cannot change: flags are only set. */
    twostate predicate Grown()
      reads this
    {
      && consumed == old(consumed) && received == old(received)
      && inbox == old(inbox) && arrived == old(arrived) && flushed == old(flushed)
      && tearing == old(tearing) && freed == old(freed) && stuck == old(stuck) && turn == old(turn)
      && (old(disconnecting) ==> disconnecting) && (old(freeing) ==> freeing)
      && onDisconnectCalls == old(onDisconnectCalls) && err == old(err)
    }

    /** Accept a command unless the context is closing. */
    method AsyncCommand(cb: Callback, cmd: bytes) returns (ok: bool)
      requires Valid() && !freed && !stuck
      modifies `log, `obuf, queue, queue.Nodes()
      ensures Valid() && fresh(Repr() - old(Repr()))
      ensures log == old(log) + [NoteOf(Command(cb, cmd))]
      ensures ok == !old(Closing())
      ensures queue.Contents() == old(queue.Contents()) + if ok then [cb] else []
      ensures obuf == old(obuf) + if ok then cmd else []
    {
      hide Callbacks, Matched, Queue.Valid, Queue.Contents, AcceptedOf, Booked, Told;
      ok := Append(NoteOf(Command(cb, cmd)), cmd);
      if ok {
        assert Callbacks(consumed) + (queue.Contents() + [cb]) == Callbacks(consumed) + queue.Contents() + [cb];
        queue.Push(cb);
      }
    }

    /** Append an accepted command to the output. */
    method Append(ghost n: Note, cmd: bytes) returns (ok: bool)
      requires Booked() && Told() && !freed && !n.Broke? && n.act.Command? && n.act.cmd == cmd
      modifies `log, `obuf
      ensures Booked() && Told() && ok == !Closing() && log == old(log) + [n]
      ensures obuf == old(obuf) + if ok then cmd else []
      ensures AcceptedOf(log) == AcceptedOf(old(log)) + if ok then [n.act.cb] else []
    {
      hide AcceptedOf, OutputOf, ClosedBy, FreedBy;
      LogSnoc(log, n);
      log := log + [n];
      if disconnecting || freeing { return false; }
      assert flushed + (obuf + cmd) == flushed + obuf + cmd;
      obuf := obuf + cmd;
      return true;
    }

    /** Run a callback. Inside it, user code performs the acts of its script. */
    method RunCallback(cb: Callback)
      requires Valid() && !freed && !stuck && !inCallback && consumed != [] && consumed[|consumed| - 1].cb == cb
      modifies Repr()
      ensures Valid() && fresh(Repr() - old(Repr())) && Grown() && !inCallback
      ensures log == old(log) + RanNotes(|consumed| - 1, Due())
      ensures freeing <==> old(freeing) || Free in Due()
      ensures old(Closing()) ==> queue.Contents() == old(queue.Contents())
      decreases 1, 0
    {
      hide Callbacks, Matched, Queue.Valid, Queue.Contents, Booked, Told, AcceptedOf, RanNotes;
      if cb.hasFn {
        inCallback := true;
        UserCode(script(turn - 1));
        inCallback := false;
      } else {
        NoNotes(turn - 1, log);
      }
    }

    lemma NoNotes(k: nat, log: seq<Note>)
      ensures log + RanNotes(k, []) == log
    {
    }

    method UserCode(acts: seq<Act>)
      requires Valid() && !freed && !stuck && inCallback && turn > 0
      modifies Repr()
      ensures Valid() && fresh(Repr() - old(Repr())) && Grown() && inCallback
      ensures log == old(log) + RanNotes(turn - 1, acts)
      ensures freeing <==> old(freeing) || Free in acts
      ensures old(Closing()) ==> queue.Contents() == old(queue.Contents())
      decreases 0, 5
    {
      hide Valid, Queue.Contents;
      ghost var ns := RanNotes(turn - 1, acts);
      for i := 0 to |acts|
        invariant Valid() && fresh(Repr() - old(Repr())) && Grown() && inCallback
        invariant log == old(log) + ns[..i]
        invariant freeing <==> old(freeing) || Free in acts[..i]
        invariant old(Closing()) ==> queue.Contents() == old(queue.Contents())
      {
        DoAct(acts[i]);
      }
    }

    /** One act of user code inside a callback. */
    method DoAct(act: Act)
      requires Valid() && !freed && !stuck && inCallback && turn > 0
      modifies Repr()
      ensures Valid() && fresh(Repr() - old(Repr())) && Grown() && inCallback
      ensures log == old(log) + [Ran(turn - 1, act)] && (freeing <==> old(freeing) || act.Free?)
      ensures old(Closing()) ==> queue.Contents() == old(queue.Contents())
      decreases 0, 4
    {
      hide Valid, Queue.Contents;
      match act {
        case Command(cb, cmd) => var ok := AsyncCommand(cb, cmd);
        case Disconnect => AsyncDisconnect();
        case Free => AsyncFree();
      }
    }

    /** Free the context now, or leave a note when a callback asks for it. */
    method AsyncFree()
      requires if inCallback then Valid() && !freed && !stuck else Idle()
      modifies Repr()
      ensures Valid() && fresh(Repr() - old(Repr())) && inCallback == old(inCallback) && freeing
      ensures old(inCallback) ==>
        && Grown() && log == old(log) + [NoteOf(Free)] && queue.Contents() == old(queue.Contents())
      ensures !old(inCallback) ==> Torn(script, old(Seen().(log := log + [Asked(Free)])), false, Seen())
      decreases if inCallback then 0 else 1, if inCallback then 3 else 4
    {
      hide Callbacks, Matched, Queue.Valid, Queue.Contents, AcceptedOf, OutputOf, ClosedBy, FreedBy, Torn;
      LogSnoc(log, NoteOf(Free));
      log := log + [NoteOf(Free)];
      freeing := true;
      if !inCallback {
        FreeContext();
      }
    }

    /** Stop accepting commands; disconnect now if nothing is outstanding and no
        callback is running. */
    method AsyncDisconnect()
      requires if inCallback then Valid() && !freed && !stuck else Idle()
      modifies Repr()
      ensures Valid() && fresh(Repr() - old(Repr())) && inCallback == old(inCallback) && disconnecting
      ensures old(inCallback) ==>
        && Grown() && log == old(log) + [NoteOf(Disconnect)] && queue.Contents() == old(queue.Contents())
        && freeing == old(freeing)
      ensures !old(inCallback) ==>
        var v := old(Seen().(log := log + [Asked(Disconnect)]));
        if old(queue.Contents()) == [] then Torn(script, v, false, Seen()) else Idle() && Seen() == v && inbox == old(inbox)
      decreases if inCallback then 0 else 1, if inCallback then 3 else 4
    {
      hide Callbacks, Matched, Queue.Valid, Queue.Contents, AcceptedOf, OutputOf, ClosedBy, FreedBy, Torn;
      LogSnoc(log, NoteOf(Disconnect));
      log := log + [NoteOf(Disconnect)];
      disconnecting := true;
      var empty := queue.IsEmpty();
      if !inCallback && empty {
        DisconnectContext();
      }
    }

    /** Take the oldest entry off the queue and into the history. */
    method ShiftEntry(ghost reply: Option<Reply>) returns (r: Shifted)
      requires queue.Valid() && turn == |consumed|
      modifies `consumed, `turn, queue
      ensures queue.Valid() && turn == |consumed| && queue.Nodes() <= old(queue.Nodes())
      ensures Callbacks(consumed) + queue.Contents() == old(Callbacks(consumed) + queue.Contents())
      ensures old(queue.Contents()) == [] ==> r == Nothing && queue.Contents() == [] && consumed == old(consumed)
      ensures old(queue.Contents()) != [] ==>
        && r == Got(old(queue.Contents())[0]) && queue.Contents() == old(queue.Contents())[1..]
        && consumed == old(consumed) + [Entry(r.cb, reply)]
    {
      hide Callbacks, Queue.Valid, Queue.Contents;
      ghost var waiting := queue.Contents();
      r := queue.Shift();
      if r.Got? {
        ConsumeFront(consumed, Entry(r.cb, reply), waiting);
        consumed := consumed + [Entry(r.cb, reply)];
        turn := turn + 1;
      }
    }

    /** Take the oldest entry off the queue; it will not get a reply. */
    method DropNext() returns (r: Shifted)
      requires Valid() && tearing && !freed && !inCallback
      modifies `consumed, `turn, queue
      ensures Valid() && Repr() <= old(Repr())
      ensures old(queue.Contents()) == [] ==> r == Nothing && queue.Contents() == [] && consumed == old(consumed)
      ensures old(queue.Contents()) != [] ==>
        && r == Got(old(queue.Contents())[0]) && queue.Contents() == old(queue.Contents())[1..]
        && consumed == old(consumed) + [Entry(r.cb, None)]
    {
      hide Callbacks, Matched, Queue.Valid, Queue.Contents, Booked, Told, AcceptedOf;
      r := ShiftEntry(None);
      if r.Got? { MatchNone(old(consumed), r.cb, received); }
      MatchSize(consumed, received);
    }

    /** What running callbacks does not change. */
    twostate predicate Kept()
      reads this
    {
      && arrived == old(arrived) && received == old(received) && flushed == old(flushed)
      && onDisconnectCalls == old(onDisconnectCalls) && err == old(err) && stuck == old(stuck)
      && (old(disconnecting) ==> disconnecting) && (old(freeing) ==> freeing)
    }

    /** Run every remaining callback once, in order and without a reply. */
    method DrainCallbacks()
      requires Valid() && !freed && tearing && !inCallback
      modifies Repr()
      ensures Valid() && fresh(Repr() - old(Repr())) && !freed && tearing && !inCallback
      ensures queue.Contents() == [] && old(consumed) <= consumed
      ensures log == old(log) + NotesOf(consumed, script, |old(consumed)|)
      ensures Kept()
      decreases 1, 1
    {
      hide Valid, NotesOf, RanNotes, ActsOf;
      TearingCloses();
      ghost var a, os := |consumed|, consumed;
      NoNotesOf(os, log);
      var r := DropNext();
      while r.Got?
        invariant Valid() && fresh(Repr() - old(Repr())) && !freed && tearing && !inCallback && Closing() && Kept()
        invariant old(consumed) <= os && log == old(log) + NotesOf(os, script, a)
        invariant r == Nothing ==> queue.Contents() == [] && consumed == os
        invariant r.Got? ==> consumed == os + [Entry(r.cb, None)]
        decreases r.Got?, |queue.Contents()|
      {
        NotesSnoc(os, Entry(r.cb, None), script, a);
        RunCallback(r.cb);
        os := consumed;
        r := DropNext();
      }
    }

    lemma NoNotesOf(os: seq<Entry>, log: seq<Note>)
      ensures log + NotesOf(os, script, |os|) == log
    {
    }

    lemma TearingCloses()
      requires Valid() && tearing
      ensures Closing() && !stuck
    {
    }

    /** Tear the context down: drain the callbacks, then tell the disconnect
        callback how it ended. */
    method FreeContext()
      requires Quiet() && Closing() && (err == 0 <==> Broke !in log)
      modifies Repr()
      ensures Valid() && freed && fresh(Repr() - old(Repr())) && !inCallback
      ensures Torn(script, old(Seen()), false, Seen())
      ensures (old(disconnecting) ==> disconnecting) && (old(freeing) ==> freeing)
      decreases 1, 2
    {
      hide Callbacks, Matched, Queue.Valid, Queue.Contents, Booked, Told, AcceptedOf, NotesOf, Torn, Waits;
      ghost var v := Seen();
      tearing := true;
      DrainCallbacks();
      NotesBooked(v.log, consumed, script, |v.consumed|, 0);
      CleanUp();
      NobodyWaits();
      TornFrom(script, v, Seen());
    }

    /** Tell the disconnect callback how it ended; nothing is used after this. */
    method CleanUp()
      requires Valid() && !freed && tearing && !inCallback && queue.Contents() == [] && (err == 0 <==> Broke !in log)
      modifies `onDisconnectCalls, `freed
      ensures Valid() && freed
    {
      hide Callbacks, Matched, Queue.Valid, Queue.Contents, AcceptedOf, OutputOf, ClosedBy, FreedBy;
      if hasOnDisconnect {
        onDisconnectCalls := onDisconnectCalls + [freeing || err == 0];
      }
      freed := true;
    }

    /** Disconnect. Without an error nothing may be outstanding, which the code
        asserts; with one, callbacks must not issue new commands. */
    method DisconnectContext()
      requires Quiet() && Broke !in log
      requires err == 0 ==> queue.Contents() == [] && disconnecting
      modifies Repr()
      ensures Valid() && freed && fresh(Repr() - old(Repr())) && disconnecting && !inCallback
      ensures Torn(script, old(Seen()), old(err) != 0, Seen())
      decreases 1, 3
    {
      hide Callbacks, Matched, Queue.Valid, Queue.Contents, AcceptedOf, OutputOf, ClosedBy, FreedBy, Torn;
      ghost var v := Seen();
      if err == 0 {
        var r := queue.Shift();
        assert r == Nothing;
      } else {
        LogSnoc(log, Broke);
        log := log + [Broke];
        disconnecting := true;
      }
      FreeContext();
      TornBroke(script, v, Seen());
    }

    /** Disconnect because of an error. */
    method Fail(code: int)
      requires Quiet() && Broke !in log && code != 0
      modifies Repr()
      ensures Valid() && freed && fresh(Repr() - old(Repr())) && Torn(script, old(Seen()), true, Seen())
    {
      hide Callbacks, Matched, Queue.Valid, Queue.Contents, Booked, Told, AcceptedOf, Torn;
      err := code;
      DisconnectContext();
    }

    /** The next reply and the entry it belongs to, if there is one. */
    method TakeAnswer() returns (r: Shifted, reply: Reply)
      requires Idle() && inbox != []
      modifies `inbox, `consumed, `received, `turn, queue
      ensures Quiet() && Repr() <= old(Repr()) && inbox == old(inbox)[1..] && reply == old(inbox)[0]
      ensures |old(received)| < |arrived| && arrived[|old(received)|] == reply
      ensures r.Got? <==> old(queue.Contents()) != []
      ensures r.Got? ==>
        && r.cb == old(queue.Contents())[0] && consumed == old(consumed) + [Entry(r.cb, Some(reply))]
        && received == old(received) + [reply] && arrived == received + inbox
      ensures r.Nothing? ==> queue.Contents() == [] && consumed == old(consumed) && received == old(received)
    {
      hide Callbacks, Matched, Queue.Valid, Queue.Contents, Booked, Told, AcceptedOf;
      reply := inbox[0];
      inbox := inbox[1..];
      r := ShiftEntry(Some(reply));
      if r.Got? {
        MatchFront(old(consumed), r.cb, received, reply);
        received := received + [reply];
      }
    }

    /** Hand the next reply to its callback: `u` is what can be seen after that. */
    method Answer() returns (ghost u: View, ghost asked: bool)
      requires Idle() && inbox != []
      modifies Repr()
      ensures Valid() && fresh(Repr() - old(Repr())) && Answered(script, old(Seen()), u, asked)
      ensures freed || stuck ==> Stops(script, u, asked, Seen())
      ensures !freed && !stuck ==> Idle() && !asked && Seen() == u && inbox == old(inbox)[1..]
    {
      hide Valid, Queue.Contents, NotesOf, RanNotes, ActsOf, Answered, Torn, Waits, Stops;
      ghost var v := Seen();
      var r, reply := TakeAnswer();
      if r.Nothing? {
        AnsweredNone(script, v);
        Unsolicited(reply);
        return v, false;
      }
      AnsweredOne(script, v, consumed[|consumed| - 1]);
      asked := Free in Due();
      u := Reply(r.cb);
      StopsFreeing(script, u, Seen());
    }

    /** A reply nobody waits for ends the connection if it is an error; otherwise
        the code's assertion fails. */
    method Unsolicited(reply: Reply)
      requires Quiet() && err == 0 && Broke !in log && queue.Contents() == []
      requires |received| < |arrived| && arrived[|received|] == reply
      modifies Repr()
      ensures Valid() && fresh(Repr() - old(Repr())) && (freed || stuck) && Stops(script, old(Seen()), false, Seen())
    {
      hide Callbacks, Matched, Queue.Valid, Queue.Contents, Booked, Told, AcceptedOf, Torn;
      NobodyWaits();
      if !reply.Error? {
        stuck := true;
        return;
      }
      Fail(ERR_OTHER);
    }

    lemma NobodyWaits()
      requires Valid()
      ensures Waits(Seen()) <==> queue.Contents() != []
    {
    }

    /** Run the callback that a reply belongs to, and free the context if it asked
        for that. */
    method Reply(cb: Callback) returns (ghost u: View)
      requires Quiet() && err == 0 && !freeing && Broke !in log && arrived == received + inbox
      requires consumed != [] && consumed[|consumed| - 1].cb == cb
      modifies Repr()
      ensures Valid() && fresh(Repr() - old(Repr()))
      ensures u == old(Seen().(log := log + RanNotes(|consumed| - 1, Due())))
      ensures if Free in old(Due()) then Torn(script, u, false, Seen()) else Idle() && Seen() == u && inbox == old(inbox)
    {
      hide Valid, Queue.Contents, RanNotes, Torn;
      RanNotesBooked(log, |consumed| - 1, Due(), 0);
      RunCallback(cb);
      u := Seen();
      if cb.hasFn && freeing {
        FreeContext();
      }
    }

    /** Hand every reply at hand to the callback that waits for it. */
    method ProcessCallbacks(broken: bool) returns (ghost u: View, ghost asked: bool)
      requires Idle()
      modifies Repr()
      ensures Valid() && fresh(Repr() - old(Repr())) && (freed || stuck || (Idle() && inbox == []))
      ensures Answered(script, old(Seen()), u, asked)
      ensures Stops(script, u, asked, Seen()) || (!asked && Settles(script, u, broken, Seen()))
    {
      hide Valid, Queue.Contents, Answered, Stops, Settles;
      ghost var v := Seen();
      AnsweredNone(script, v);
      while inbox != []
        invariant Idle() && fresh(Repr() - old(Repr())) && Answered(script, v, Seen(), false)
        decreases |inbox|
      {
        ghost var before := Seen();
        u, asked := Answer();
        AnsweredTrans(script, v, before, u, asked);
        if freed || stuck { return; }
      }
      u, asked := Seen(), false;
      EndOfReplies(broken);
    }

    /** No reply is at hand: report a broken stream, finish a disconnect that was
        waiting for the last reply, or wait. */
    method EndOfReplies(broken: bool)
      requires Idle() && inbox == []
      modifies Repr()
      ensures Valid() && fresh(Repr() - old(Repr())) && (freed || (Idle() && inbox == []))
      ensures Settles(script, old(Seen()), broken, Seen())
    {
      hide Callbacks, Matched, Queue.Valid, Queue.Contents, Told, AcceptedOf, OutputOf, ClosedBy, FreedBy, Torn, Waits;
      NobodyWaits();
      if broken {
        Fail(ERR_PROTOCOL);
        return;
      }
      var empty := queue.IsEmpty();
      if disconnecting && obuf == [] && empty {
        DisconnectContext();
      }
    }

    /** The socket is readable: replies arrive, perhaps followed by bytes that are
        not a reply, or reading fails. */
    method HandleRead(replies: seq<Reply>, broken: bool, failed: bool)
      requires Idle()
      modifies Repr()
      ensures Valid() && fresh(Repr() - old(Repr())) && (freed || stuck || (Idle() && inbox == []))
      ensures if failed then Torn(script, old(Seen()), true, Seen())
              else arrived == old(arrived) + replies && ReadStep(script, old(Seen()), broken, Seen())
    {
      hide Valid, Queue.Contents, Answered, Stops, Settles, Torn;
      ghost var v := Seen();
      if failed {
        Fail(ERR_IO);
      } else {
        Arrive(replies);
        ghost var u, asked := ProcessCallbacks(broken);
        StepArrived(script, v.(arrived := v.arrived + replies), u, asked, broken, Seen());
        ReadDone(script, v, u, asked, broken, Seen());
      }
    }

    method Arrive(replies: seq<Reply>)
      requires Idle()
      modifies `inbox, `arrived
      ensures Idle() && Seen() == old(Seen().(arrived := arrived + replies)) && inbox == old(inbox) + replies
    {
      hide Callbacks, Matched, Queue.Valid, Queue.Contents, Booked, Told, AcceptedOf;
      assert received + (inbox + replies) == arrived + replies;
      inbox := inbox + replies;
      arrived := arrived + replies;
    }

    /** The socket is writable: some of the output leaves, or writing fails. */
    method HandleWrite(n: nat, failed: bool)
      requires Idle()
      modifies Repr()
      ensures Valid() && fresh(Repr() - old(Repr())) && (freed || (Idle() && inbox == old(inbox)))
      ensures if failed then Torn(script, old(Seen()), true, Seen())
              else Step(script, old(Seen()), Writable(n), false, Seen())
    {
      hide Callbacks, Matched, Queue.Valid, Queue.Contents, Told, AcceptedOf, OutputOf, ClosedBy, FreedBy, Torn;
      if failed {
        Fail(ERR_IO);
      } else {
        var m := Min(n, |obuf|);
        Written(flushed, obuf, n);
        flushed := flushed + obuf[..m];
        obuf := obuf[m..];
      }
    }
  }

  /** Writing moves the front of the pending bytes behind those written. */
  lemma Written(flushed: bytes, pending: bytes, n: nat)
    ensures var m, all := Min(n, |pending|), flushed + pending;
      && flushed + pending[..m] + pending[m..] == all
      && flushed + pending[..m] == all[..Min(|flushed| + n, |all|)]
  {
  }

  lemma TornFrom(script: Script, v: View, w: View)
    requires w.freed && !w.stuck && w.handled == v.handled && w.arrived == v.arrived && w.flushed == v.flushed
    requires v.consumed <= w.consumed && !Waits(w) && w.log == v.log + NotesOf(w.consumed, script, |v.consumed|)
    ensures Torn(script, v, false, w)
  {
    hide NotesOf, Waits;
    assert v.log + [] == v.log;
  }

  /** A teardown after the error has been noted is one because of the error. */
  lemma TornBroke(script: Script, v: View, w: View)
    ensures Torn(script, v.(log := v.log + [Broke]), false, w) ==> Torn(script, v, true, w)
  {
    hide NotesOf, Waits;
    assert v.log + [Broke] + [] == v.log + [Broke];
  }

  lemma StopsFreeing(script: Script, u: View, w: View)
    ensures Torn(script, u, false, w) ==> w.freed && Stops(script, u, true, w)
  {
  }

  lemma StepArrived(script: Script, v: View, u: View, asked: bool, broken: bool, w: View)
    requires Answered(script, v, u, asked)
    requires Stops(script, u, asked, w) || (!asked && Settles(script, u, broken, w))
    ensures u.arrived == v.arrived == w.arrived
  {
  }
}
