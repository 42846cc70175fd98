/**
 What can be seen of an asynchronous context (async.c), and what each event may
 do to it: commands wait for their replies in order, callbacks act on the context
 that runs them, and teardown gives every waiting command its callback without a
 reply.
 */
module AsyncTrace {
  import opened Bytes
  import opened Wrappers
  import opened Resp
  import opened CallbackList

  /** A consumed queue entry and the reply its callback was given. */
  datatype Entry = Entry(cb: Callback, reply: Option<Reply>)

  /** What a user may do with a context. */
  datatype Act = Command(cb: Callback, cmd: bytes) | Disconnect | Free

  /** What happened to a context: an act from outside, an act of the callback of
      entry `k`, or an error that ends the connection. */
  datatype Note = Asked(act: Act) | Ran(k: nat, act: Act) | Broke

  /** What the event loop and the user may do from outside a callback. */
  datatype Event =
    | Readable(chunk: bytes)
    | ReadFailed
    | Writable(n: nat)
    | WriteFailed
    | User(act: Act)

  /** Nothing is accepted after this. */
  predicate Closes(n: Note) {
    n.Broke? || !n.act.Command?
  }

  predicate ClosedBy(log: seq<Note>) {
    log != [] && (ClosedBy(log[..|log| - 1]) || Closes(log[|log| - 1]))
  }

  predicate IsFree(n: Note) {
    !n.Broke? && n.act.Free?
  }

  /** Somebody asked for the context to be freed. */
  predicate FreedBy(log: seq<Note>) {
    log != [] && (FreedBy(log[..|log| - 1]) || IsFree(log[|log| - 1]))
  }

  /** The commands accepted: all those tried before the context was closing. */
  function AcceptedOf(log: seq<Note>): seq<Callback> {
    if log == [] then []
    else
      var before, n := log[..|log| - 1], log[|log| - 1];
      AcceptedOf(before) + if ClosedBy(before) || Closes(n) then [] else [n.act.cb]
  }

  /** The bytes of the commands accepted. */
  function OutputOf(log: seq<Note>): bytes {
    if log == [] then []
    else
      var before, n := log[..|log| - 1], log[|log| - 1];
      OutputOf(before) + if ClosedBy(before) || Closes(n) then [] else n.act.cmd
  }

  /** The acts from outside. */
  function AskedOf(log: seq<Note>): seq<Act> {
    if log == [] then []
    else AskedOf(log[..|log| - 1]) + if log[|log| - 1].Asked? then [log[|log| - 1].act] else []
  }

  /** The acts of the callback of entry `k`. */
  function RanOf(log: seq<Note>, k: nat): seq<Act> {
    if log == [] then []
    else
      var n := log[|log| - 1];
      RanOf(log[..|log| - 1], k) + if n.Ran? && n.k == k then [n.act] else []
  }

  /** One more note: an error, a disconnect or a free closes the context, and a command
      is accepted, with its bytes, only before that. */
  lemma LogSnoc(log: seq<Note>, n: Note)
    ensures var after, closes := log + [n], n.Broke? || !n.act.Command?;
      && (ClosedBy(after) <==> ClosedBy(log) || closes)
      && (FreedBy(after) <==> FreedBy(log) || (!n.Broke? && n.act.Free?))
      && AcceptedOf(after) == AcceptedOf(log) + (if ClosedBy(log) || closes then [] else [n.act.cb])
      && OutputOf(after) == OutputOf(log) + (if ClosedBy(log) || closes then [] else n.act.cmd)
      && AskedOf(after) == AskedOf(log) + (if n.Asked? then [n.act] else [])
  {
    assert (log + [n])[..|log|] == log;
  }

  /** A context is closed by any error, disconnect or free, and freed by any free. */
  lemma {:induction false} ClosedIff(log: seq<Note>)
    ensures ClosedBy(log) <==> exists i :: 0 <= i < |log| && (log[i].Broke? || !log[i].act.Command?)
    ensures FreedBy(log) <==> exists i :: 0 <= i < |log| && !log[i].Broke? && log[i].act.Free?
  {
    if log != [] {
      var n := |log| - 1;
      ClosedIff(log[..n]);
      LogSnoc(log[..n], log[n]);
      assert log[..n] + [log[n]] == log;
      assert forall i :: 0 <= i < n ==> log[..n][i] == log[i];
    }
  }

  lemma RanSnoc(log: seq<Note>, n: Note, k: nat)
    ensures RanOf(log + [n], k) == RanOf(log, k) + if n.Ran? && n.k == k then [n.act] else []
  {
    assert (log + [n])[..|log|] == log;
  }

  function Callbacks(os: seq<Entry>): (cs: seq<Callback>)
    ensures |cs| == |os|
  {
    seq(|os|, i requires 0 <= i < |os| => os[i].cb)
  }

  /** Consuming the front entry of the queue moves it into the history. */
  lemma ConsumeFront(os: seq<Entry>, o: Entry, queue: seq<Callback>)
    requires queue != [] && queue[0] == o.cb
    ensures Callbacks(os + [o]) + queue[1..] == Callbacks(os) + queue
  {
  }

  /** Entry `k` got reply `k`; entries without a reply got none. */
  ghost predicate Matched(consumed: seq<Entry>, received: seq<Reply>) {
    && |received| <= |consumed|
    && forall k :: 0 <= k < |consumed| ==>
         consumed[k].reply == if k < |received| then Some(received[k]) else None
  }

  lemma MatchSize(consumed: seq<Entry>, received: seq<Reply>)
    requires Matched(consumed, received)
    ensures |received| <= |consumed|
  {
  }

  /** The next reply goes to the next entry. */
  lemma MatchFront(os: seq<Entry>, cb: Callback, received: seq<Reply>, reply: Reply)
    requires Matched(os, received) && |os| == |received|
    ensures Matched(os + [Entry(cb, Some(reply))], received + [reply])
  {
  }

  lemma MatchNone(os: seq<Entry>, cb: Callback, received: seq<Reply>)
    requires Matched(os, received)
    ensures Matched(os + [Entry(cb, None)], received)
  {
  }

  /** What the callback of each entry does, by the number of the entry. */
  type Script = nat -> seq<Act>

  /** What the callback of a consumed entry does. */
  function ActsOf(o: Entry, script: Script, k: nat): seq<Act> {
    if o.cb.hasFn then script(k) else []
  }

  /** The notes of the callback of entry `k` doing `acts`. */
  function RanNotes(k: nat, acts: seq<Act>): (ns: seq<Note>)
    ensures |ns| == |acts|
  {
    seq(|acts|, i requires 0 <= i < |acts| => Ran(k, acts[i]))
  }

  /** The notes of the callbacks of the entries from `a` on, one after the other. */
  function NotesOf(os: seq<Entry>, script: Script, a: nat): seq<Note>
    requires a <= |os|
  {
    if a == |os| then []
    else
      var k := |os| - 1;
      NotesOf(os[..k], script, a) + RanNotes(k, ActsOf(os[k], script, k))
  }

  lemma NotesSnoc(os: seq<Entry>, o: Entry, script: Script, a: nat)
    requires a <= |os|
    ensures NotesOf(os + [o], script, a) == NotesOf(os, script, a) + RanNotes(|os|, ActsOf(o, script, |os|))
  {
    assert (os + [o])[..|os|] == os;
  }

  lemma {:induction false} NotesSplit(os: seq<Entry>, script: Script, a: nat, b: nat)
    requires a <= b <= |os|
    ensures NotesOf(os, script, a) == NotesOf(os[..b], script, a) + NotesOf(os, script, b)
  {
    hide RanNotes, ActsOf;
    if b == |os| {
      assert os[..b] == os;
    } else {
      var k := |os| - 1;
      assert os[..k][..b] == os[..b];
      NotesSplit(os[..k], script, a, b);
    }
  }

  /** What can be seen of a context: what happened to it, the entries consumed, how
      many of them with a reply, the replies that arrived, the bytes that left. */
  datatype View = View(
    log: seq<Note>,
    consumed: seq<Entry>,
    handled: nat,
    arrived: seq<Reply>,
    flushed: bytes,
    freed: bool,
    stuck: bool)

  const START := View([], [], 0, [], [], false, false)

  /** Nothing happens to this context any more. */
  predicate Ended(v: View) {
    v.freed || v.stuck
  }

  /** An accepted command has not had its callback. */
  predicate Waits(v: View) {
    |AcceptedOf(v.log)| > |v.consumed|
  }

  /** Nothing keeps a clean disconnect waiting any longer. */
  predicate Finished(v: View) {
    ClosedBy(v.log) && !Waits(v) && |v.flushed| >= |OutputOf(v.log)|
  }

  /** The entries consumed are the first commands accepted, and the k-th of them got the
      k-th reply if it was handled, or else none. */
  ghost predicate InOrder(v: View) {
    && Callbacks(v.consumed) <= AcceptedOf(v.log)
    && v.handled <= |v.arrived| && Matched(v.consumed, v.arrived[..v.handled])
    && v.flushed <= OutputOf(v.log)
  }

  /** Teardown, after an error if `broke`: every waiting entry's callback runs once,
      in order, and nothing else changes. */
  predicate Torn(script: Script, v: View, broke: bool, w: View) {
    && w.freed && !w.stuck && w.handled == v.handled && w.arrived == v.arrived && w.flushed == v.flushed
    && v.consumed <= w.consumed && !Waits(w)
    && w.log == v.log + (if broke then [Broke] else []) + NotesOf(w.consumed, script, |v.consumed|)
  }

  /** The next replies were handed to the next entries, whose callbacks acted; the
      last one, and no other, asked for the context to be freed if `freeing`. */
  ghost predicate Answered(script: Script, v: View, u: View, freeing: bool) {
    && v.consumed <= u.consumed && u.handled == |u.consumed| <= |v.arrived|
    && u == v.(log := v.log + NotesOf(u.consumed, script, |v.consumed|), consumed := u.consumed, handled := u.handled)
    && (freeing ==> |u.consumed| > |v.consumed|)
    && forall k :: |v.consumed| <= k < |u.consumed| ==>
         (Free in ActsOf(u.consumed[k], script, k) <==> freeing && k == |u.consumed| - 1)
  }

  /** Handling replies stops before the last one: a callback asked for the context to
      be freed, or nobody waits for the next reply. If that is an error it ends the
      connection; otherwise the code's assertion fails. */
  predicate Stops(script: Script, u: View, freeing: bool, w: View) {
    if freeing then Torn(script, u, false, w)
    else
      && u.handled < |u.arrived| && !Waits(u)
      && if u.arrived[u.handled].Error? then Torn(script, u, true, w) else w == u.(stuck := true)
  }

  /** What happens when every reply at hand has been handled: a broken stream ends
      the connection, and so does a disconnect that was waiting for this. */
  predicate Settles(script: Script, u: View, broken: bool, w: View) {
    && u.handled == |u.arrived|
    && if broken then Torn(script, u, true, w)
       else if Finished(u) then Torn(script, u, false, w)
       else w == u
  }

  /** The view between handling replies and what that led to. */
  function Between(script: Script, v: View, w: View): View
    requires |v.consumed| <= w.handled <= |w.consumed|
  {
    var os := w.consumed[..w.handled];
    v.(log := v.log + NotesOf(os, script, |v.consumed|), consumed := os, handled := w.handled, arrived := w.arrived)
  }

  /** The callback of the last reply handled asked for the context to be freed. */
  predicate AskedToFree(script: Script, v: View, w: View) {
    |v.consumed| < w.handled <= |w.consumed| && Free in ActsOf(w.consumed[w.handled - 1], script, w.handled - 1)
  }

  /** Bytes were read, and with them the replies now in `w.arrived`. */
  ghost predicate ReadStep(script: Script, v: View, broken: bool, w: View) {
    && v.arrived <= w.arrived && |v.consumed| <= w.handled <= |w.consumed|
    && var u, freeing := Between(script, v, w), AskedToFree(script, v, w);
       && Answered(script, v.(arrived := w.arrived), u, freeing)
       && (Stops(script, u, freeing, w) || (!freeing && Settles(script, u, broken, w)))
  }

  /** What one event does to a context that has not ended; `broken` if the bytes read
      so far are not all replies. */
  ghost predicate Step(script: Script, v: View, e: Event, broken: bool, w: View) {
    match e
    case Readable(_) => ReadStep(script, v, broken, w)
    case ReadFailed => Torn(script, v, true, w)
    case WriteFailed => Torn(script, v, true, w)
    case Writable(n) =>
      w == v.(flushed := OutputOf(v.log)[..Min(|v.flushed| + n, |OutputOf(v.log)|)])
    case User(act) =>
      var u := v.(log := v.log + [Asked(act)]);
      if act.Free? || (act.Disconnect? && !Waits(v)) then Torn(script, u, false, w) else w == u
  }

  /** Replies handled in two goes. */
  lemma AnsweredTrans(script: Script, v: View, u: View, w: View, freeing: bool)
    requires Answered(script, v, u, false) && Answered(script, u, w, freeing)
    ensures Answered(script, v, w, freeing)
  {
    hide NotesOf, ActsOf;
    var a, b := |v.consumed|, |u.consumed|;
    NotesSplit(w.consumed, script, a, b);
    assert w.consumed[..b] == u.consumed;
    assert v.log + NotesOf(u.consumed, script, a) + NotesOf(w.consumed, script, b) == v.log + NotesOf(w.consumed, script, a);
    forall k | a <= k < |w.consumed|
      ensures Free in ActsOf(w.consumed[k], script, k) <==> freeing && k == |w.consumed| - 1
    {
      if k < b { assert w.consumed[k] == u.consumed[k]; }
    }
  }

  lemma AnsweredNone(script: Script, v: View)
    requires v.handled == |v.consumed| <= |v.arrived|
    ensures Answered(script, v, v, false)
  {
    assert v.log + [] == v.log;
  }

  /** One reply was handed to one entry. */
  lemma AnsweredOne(script: Script, v: View, o: Entry)
    requires v.handled == |v.consumed| < |v.arrived|
    ensures var k := |v.consumed|;
      Answered(script, v,
        v.(log := v.log + RanNotes(k, ActsOf(o, script, k)), consumed := v.consumed + [o], handled := k + 1),
        Free in ActsOf(o, script, k))
  {
    hide RanNotes, ActsOf;
    NotesSnoc(v.consumed, o, script, |v.consumed|);
    assert [] + RanNotes(|v.consumed|, ActsOf(o, script, |v.consumed|)) == RanNotes(|v.consumed|, ActsOf(o, script, |v.consumed|));
  }

  /** Everything a read event did, put together. */
  lemma ReadDone(script: Script, v: View, u: View, freeing: bool, broken: bool, w: View)
    requires v.arrived <= u.arrived && Answered(script, v.(arrived := u.arrived), u, freeing)
    requires Stops(script, u, freeing, w) || (!freeing && Settles(script, u, broken, w))
    ensures ReadStep(script, v, broken, w)
  {
    hide NotesOf, ActsOf, Waits, Finished;
    assert w.handled == |u.consumed| && w.consumed[..w.handled] == u.consumed;
    assert Between(script, v, w) == u;
    assert AskedToFree(script, v, w) == freeing by {
      if w.handled > |v.consumed| { assert w.consumed[w.handled - 1] == u.consumed[w.handled - 1]; }
    }
  }

  /** Why a context is freed. */
  ghost predicate Cause(script: Script, v: View, e: Event, broken: bool, w: View) {
    match e
    case ReadFailed => true
    case WriteFailed => true
    case Writable(_) => false
    case User(act) => act.Free? || (act.Disconnect? && !Waits(v))
    case Readable(_) =>
      |v.consumed| <= w.handled <= |w.consumed| &&
      var u := Between(script, v, w);
      || AskedToFree(script, v, w)
      || (u.handled < |u.arrived| && u.arrived[u.handled].Error?)
      || (u.handled == |u.arrived| && (broken || Finished(u)))
  }

  /** An event frees a context for exactly these reasons. It gets a context stuck
      exactly in front of a reply that nobody waits for and that is no error. */
  lemma FreedIff(script: Script, v: View, e: Event, broken: bool, w: View)
    requires Step(script, v, e, broken, w) && !Ended(v)
    ensures w.freed <==> Cause(script, v, e, broken, w)
    ensures w.stuck <==>
      && e.Readable? && !AskedToFree(script, v, w)
      && w.handled < |w.arrived| && !w.arrived[w.handled].Error?
  {
    hide NotesOf, ActsOf, Waits, Finished;
  }

  /** A context between two events: every reply that arrived was handled. */
  ghost predicate AtRest(v: View) {
    !Ended(v) && v.handled == |v.consumed| == |v.arrived| && |v.flushed| <= |OutputOf(v.log)|
  }

  /** What a user's act does, in plain terms: a command is noted and nothing else happens;
      a free ends the context; a disconnect ends it exactly if every command accepted
      has had its callback. An ended context has given every command its callback. */
  lemma UserLaws(script: Script, v: View, act: Act, broken: bool, w: View)
    requires Step(script, v, User(act), broken, w) && AtRest(v)
    ensures act.Command? ==> w == v.(log := v.log + [Asked(act)])
    ensures w.freed <==> act.Free? || (act.Disconnect? && |AcceptedOf(v.log)| <= |v.consumed|)
    ensures !w.freed ==> w == v.(log := v.log + [Asked(act)])
    ensures w.freed ==> |AcceptedOf(w.log)| <= |w.consumed| && w.handled == v.handled
    ensures w.arrived == v.arrived && w.flushed == v.flushed && !w.stuck && v.log + [Asked(act)] <= w.log
  {
    hide NotesOf, AcceptedOf, OutputOf;
  }

  /** What a write event does: as many bytes of the commands accepted leave as the socket
      took, or all that were left. A failed read or write ends the context. */
  lemma SocketLaws(script: Script, v: View, e: Event, broken: bool, w: View)
    requires Step(script, v, e, broken, w) && AtRest(v) && (e.Writable? || e.WriteFailed? || e.ReadFailed?)
    ensures e.Writable? ==>
      var all := OutputOf(v.log);
      var m := if |v.flushed| + e.n < |all| then |v.flushed| + e.n else |all|;
      w == v.(flushed := w.flushed) && w.flushed == all[..m]
    ensures e.WriteFailed? || e.ReadFailed? ==>
      && w.freed && Broke in w.log && |AcceptedOf(w.log)| <= |w.consumed|
      && w.handled == v.handled && w.arrived == v.arrived && w.flushed == v.flushed
  {
    hide NotesOf, AcceptedOf, OutputOf;
    if !e.Writable? { assert (v.log + [Broke])[|v.log|] == Broke && v.log + [Broke] <= w.log; }
  }

  /** What a read event comes to. If the context goes on, every reply was handled, the
      bytes are all replies, and it is not closed with every command answered and
      every byte sent. If it ends without an error and without a callback asking for
      that, it is. */
  lemma ReadLaws(script: Script, v: View, e: Event, broken: bool, w: View)
    requires Step(script, v, e, broken, w) && AtRest(v) && e.Readable? && InOrder(w)
    ensures w.flushed == v.flushed && v.arrived <= w.arrived && v.consumed <= w.consumed && v.log <= w.log
    ensures w.freed ==> |AcceptedOf(w.log)| <= |w.consumed|
    ensures !Ended(w) ==>
      && w.handled == |w.consumed| == |w.arrived| && !broken
      && !(ClosedBy(w.log) && |AcceptedOf(w.log)| <= |w.consumed| && |w.flushed| >= |OutputOf(w.log)|)
    ensures w.stuck ==>
      && w.handled == |w.consumed| < |w.arrived| && !w.arrived[w.handled].Error? && |AcceptedOf(w.log)| <= |w.consumed|
    ensures forall k :: |v.consumed| <= k < w.handled && k < |w.consumed| && w.consumed[k].cb.hasFn && Free in script(k) ==>
      w.freed && k == w.handled - 1
    ensures w.freed ==>
      || (|v.consumed| < w.handled <= |w.consumed| && w.consumed[w.handled - 1].cb.hasFn && Free in script(w.handled - 1))
      || (w.handled < |w.arrived| && w.arrived[w.handled].Error? && Broke in w.log)
      || (w.handled == |w.arrived| && broken && Broke in w.log)
      || (w.handled == |w.arrived| == |w.consumed| && !broken
          && ClosedBy(w.log) && |AcceptedOf(w.log)| <= |w.consumed| && |w.flushed| >= |OutputOf(w.log)|)
  {
    hide AcceptedOf, OutputOf, ClosedBy, NotesOf, Answered, Torn;
    var u, freeing := Between(script, v, w), AskedToFree(script, v, w);
    AnsweredPlain(script, v.(arrived := w.arrived), u, freeing);
    if w.freed && !freeing {
      var broke := u.handled < |u.arrived| || broken;
      TornPlain(script, u, broke, w);
      if !broke { NothingDrained(script, u, w); }
    } else if freeing {
      TornPlain(script, u, false, w);
    } else {
      if Torn(script, u, true, w) || Torn(script, u, false, w) { TornFreed(script, u, w); }
    }
  }

  lemma AnsweredPlain(script: Script, v: View, u: View, freeing: bool)
    requires Answered(script, v, u, freeing)
    ensures v.consumed <= u.consumed && v.log <= u.log && u.handled == |u.consumed| && u.flushed == v.flushed
    ensures u.freed == v.freed && u.stuck == v.stuck && u.arrived == v.arrived
    ensures forall k :: |v.consumed| <= k < |u.consumed| && u.consumed[k].cb.hasFn && Free in script(k) ==>
      freeing && k == |u.consumed| - 1
  {
    forall k | |v.consumed| <= k < |u.consumed| && u.consumed[k].cb.hasFn && Free in script(k)
      ensures freeing && k == |u.consumed| - 1
    {
      assert Free in ActsOf(u.consumed[k], script, k);
    }
  }

  lemma TornPlain(script: Script, v: View, broke: bool, w: View)
    ensures Torn(script, v, broke, w) ==>
      && w.freed && !w.stuck && v.consumed <= w.consumed && v.log <= w.log && w.flushed == v.flushed && w.arrived == v.arrived
      && |AcceptedOf(w.log)| <= |w.consumed| && (broke ==> Broke in w.log)
  {
    hide AcceptedOf, NotesOf;
    if Torn(script, v, broke, w) && broke {
      assert (v.log + [Broke])[|v.log|] == Broke && v.log + [Broke] <= w.log;
    }
  }

  /** An act that a callback did is in the log. */
  lemma {:induction false} RanIn(log: seq<Note>, k: nat, act: Act)
    requires act in RanOf(log, k)
    ensures Ran(k, act) in log
  {
    var n := |log| - 1;
    if act in RanOf(log[..n], k) { RanIn(log[..n], k, act); }
  }

  /** A clean teardown runs no callback. */
  lemma NothingDrained(script: Script, u: View, w: View)
    requires Torn(script, u, false, w) && ClosedBy(u.log) && |AcceptedOf(u.log)| <= |u.consumed|
    requires |w.consumed| <= |AcceptedOf(w.log)|
    ensures w.consumed == u.consumed && w.log == u.log
  {
    hide AcceptedOf, OutputOf, ClosedBy, RanNotes, ActsOf;
    ClosedKeeps(u.log, NotesOf(w.consumed, script, |u.consumed|));
    assert u.log + [] == u.log;
  }

  /** Nothing is accepted by a closed context. */
  lemma {:induction false} ClosedKeeps(log: seq<Note>, ns: seq<Note>)
    requires ClosedBy(log)
    ensures ClosedBy(log + ns) && AcceptedOf(log + ns) == AcceptedOf(log) && OutputOf(log + ns) == OutputOf(log)
  {
    hide AcceptedOf, OutputOf, ClosedBy;
    if ns == [] {
      assert log + ns == log;
    } else {
      var k := |ns| - 1;
      ClosedKeeps(log, ns[..k]);
      LogSnoc(log + ns[..k], ns[k]);
      assert log + ns[..k] + [ns[k]] == log + ns;
    }
  }

  /** Every callback of a consumed entry has acted as its script says, and no other
      callback has. */
  ghost predicate Scripted(script: Script, v: View) {
    forall k: nat :: RanOf(v.log, k) == if k < |v.consumed| then ActsOf(v.consumed[k], script, k) else []
  }

  /** Notes of one callback in the books. */
  lemma {:induction false} RanNotesBooked(log: seq<Note>, k: nat, acts: seq<Act>, j: nat)
    ensures AskedOf(log + RanNotes(k, acts)) == AskedOf(log)
    ensures RanOf(log + RanNotes(k, acts), j) == RanOf(log, j) + if j == k then acts else []
    ensures Broke in log + RanNotes(k, acts) <==> Broke in log
  {
    hide AskedOf, RanOf;
    var ns := RanNotes(k, acts);
    assert log + ns[..0] == log;
    for i := 0 to |ns|
      invariant AskedOf(log + ns[..i]) == AskedOf(log)
      invariant RanOf(log + ns[..i], j) == RanOf(log, j) + if j == k then acts[..i] else []
    {
      LogSnoc(log + ns[..i], ns[i]);
      RanSnoc(log + ns[..i], ns[i], j);
      assert log + ns[..i] + [ns[i]] == log + ns[..i + 1];
    }
    assert ns[..|ns|] == ns && acts[..|acts|] == acts;
  }

  /** Notes of all callbacks from entry `a` on in the books. */
  lemma {:induction false} NotesBooked(log: seq<Note>, os: seq<Entry>, script: Script, a: nat, j: nat)
    requires a <= |os|
    ensures AskedOf(log + NotesOf(os, script, a)) == AskedOf(log)
    ensures RanOf(log + NotesOf(os, script, a), j) ==
            RanOf(log, j) + if a <= j < |os| then ActsOf(os[j], script, j) else []
    ensures Broke in log + NotesOf(os, script, a) <==> Broke in log
  {
    hide AskedOf, RanOf, RanNotes, ActsOf;
    if a == |os| {
      assert log + [] == log;
    } else {
      var k := |os| - 1;
      NotesBooked(log, os[..k], script, a, j);
      RanNotesBooked(log + NotesOf(os[..k], script, a), k, ActsOf(os[k], script, k), j);
      assert log + NotesOf(os, script, a) == log + NotesOf(os[..k], script, a) + RanNotes(k, ActsOf(os[k], script, k));
    }
  }

  /** The acts that an event adds to those from outside. */
  function ActOf(e: Event): seq<Act> {
    if e.User? then [e.act] else []
  }

  /** The event ends the connection by an error. */
  ghost predicate ErrorCause(script: Script, v: View, e: Event, broken: bool, w: View) {
    || e.ReadFailed? || e.WriteFailed?
    || (e.Readable? && !AskedToFree(script, v, w) && (w.handled < |w.arrived| || broken) && w.freed)
  }

  /** What is in the books after a teardown. */
  lemma TornBooked(script: Script, v: View, broke: bool, w: View)
    requires Torn(script, v, broke, w)
    ensures AskedOf(w.log) == AskedOf(v.log) && (Broke in w.log <==> broke || Broke in v.log)
    ensures Scripted(script, v) ==> Scripted(script, w)
  {
    hide AskedOf, RanOf, NotesOf, ActsOf, Waits;
    var log := v.log + if broke then [Broke] else [];
    LogSnoc(v.log, Broke);
    assert !broke ==> log == v.log;
    NotesBooked(log, w.consumed, script, |v.consumed|, 0);
    forall k: nat
      ensures RanOf(w.log, k) == RanOf(v.log, k) + if |v.consumed| <= k < |w.consumed| then ActsOf(w.consumed[k], script, k) else []
    {
      RanSnoc(v.log, Broke, k);
      NotesBooked(log, w.consumed, script, |v.consumed|, k);
    }
  }

  lemma AnsweredBooked(script: Script, v: View, u: View, freeing: bool)
    requires Answered(script, v, u, freeing)
    ensures AskedOf(u.log) == AskedOf(v.log) && (Broke in u.log <==> Broke in v.log)
    ensures Scripted(script, v) ==> Scripted(script, u)
  {
    hide AskedOf, RanOf, NotesOf, ActsOf;
    NotesBooked(v.log, u.consumed, script, |v.consumed|, 0);
    forall k: nat
      ensures RanOf(u.log, k) == RanOf(v.log, k) + if |v.consumed| <= k < |u.consumed| then ActsOf(u.consumed[k], script, k) else []
    {
      NotesBooked(v.log, u.consumed, script, |v.consumed|, k);
    }
  }

  /** What is in the books after an event: its own act if it has one, an error exactly
      for the reasons above, and the acts of exactly the callbacks that were due. */
  lemma StepBooked(script: Script, v: View, e: Event, broken: bool, w: View)
    requires Step(script, v, e, broken, w) && !Ended(v)
    ensures AskedOf(w.log) == AskedOf(v.log) + ActOf(e)
    ensures Broke in w.log <==> Broke in v.log || ErrorCause(script, v, e, broken, w)
    ensures ErrorCause(script, v, e, broken, w) ==> w.freed
    ensures Scripted(script, v) ==> Scripted(script, w)
  {
    hide AskedOf, RanOf, NotesOf, ActsOf, Waits, Finished, Scripted, Torn;
    if e.User? {
      UserBooked(script, v, e.act);
      if w != v.(log := v.log + [Asked(e.act)]) { TornBooked(script, v.(log := v.log + [Asked(e.act)]), false, w); }
    } else if e.Readable? {
      ReadBooked(script, v, broken, w);
    } else if e.Writable? {
      SameBooks(script, v, w);
    } else {
      TornBooked(script, v, true, w);
      TornFreed(script, v, w);
    }
  }

  lemma UserBooked(script: Script, v: View, act: Act)
    ensures var log := v.log + [Asked(act)];
      AskedOf(log) == AskedOf(v.log) + [act] && (Broke in log <==> Broke in v.log)
    ensures Scripted(script, v) ==> Scripted(script, v.(log := v.log + [Asked(act)]))
  {
    hide AskedOf, RanOf, ActsOf;
    LogSnoc(v.log, Asked(act));
    forall k: nat
      ensures RanOf(v.log + [Asked(act)], k) == RanOf(v.log, k)
    {
      RanSnoc(v.log, Asked(act), k);
    }
  }

  lemma SameBooks(script: Script, v: View, w: View)
    requires v.log == w.log && v.consumed == w.consumed
    ensures Scripted(script, v) ==> Scripted(script, w)
  {
    hide RanOf, ActsOf;
  }

  lemma ReadBooked(script: Script, v: View, broken: bool, w: View)
    requires ReadStep(script, v, broken, w) && !Ended(v)
    ensures AskedOf(w.log) == AskedOf(v.log)
    ensures Broke in w.log <==>
      Broke in v.log || (!AskedToFree(script, v, w) && (w.handled < |w.arrived| || broken) && w.freed)
    ensures Scripted(script, v) ==> Scripted(script, w)
  {
    hide AskedOf, RanOf, NotesOf, ActsOf, Waits, Finished, Scripted, Torn, Answered;
    var u, freeing := Between(script, v, w), AskedToFree(script, v, w);
    SameBooks(script, v, v.(arrived := w.arrived));
    AnsweredBooked(script, v.(arrived := w.arrived), u, freeing);
    AnsweredOpen(script, v.(arrived := w.arrived), u, freeing);
    if w.freed {
      var broke := !freeing && (w.handled < |w.arrived| || broken);
      assert Torn(script, u, broke, w);
      TornBooked(script, u, broke, w);
    } else {
      if Torn(script, u, true, w) || Torn(script, u, false, w) { TornFreed(script, u, w); }
      SameBooks(script, u, w);
    }
  }

  lemma AnsweredOpen(script: Script, v: View, u: View, freeing: bool)
    requires Answered(script, v, u, freeing) && !Ended(v)
    ensures !Ended(u)
  {
  }

  lemma TornFreed(script: Script, v: View, w: View)
    requires Torn(script, v, true, w) || Torn(script, v, false, w)
    ensures w.freed
  {
  }
}
