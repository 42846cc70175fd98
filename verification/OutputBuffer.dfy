/**
 The output buffer of a connection (hiredis.c): commands are appended to a
 dynamic string, and whatever the socket takes is removed from its front.
 */
module OutputBuffer {
  import opened Bytes
  import opened CTypes
  import opened Sds

  const ERR_IO: int := 1
  const ERR_OOM: int := 5

  /** What a write reports: an int. */
  type Count = n: nat | n <= INT_MAX

  /** What the socket does with a write: takes up to some bytes, asks to try
      again, or fails. */
  datatype Socket = Takes(n: Count) | TryAgain | Fails

  /** A connection: all bytes accepted, those written, those pending. */
  datatype Conn = Conn(appended: bytes, written: bytes, pending: bytes, err: int)

  datatype Step = Append(cmd: bytes) | Write(socket: Socket)

  datatype Verdict = Appended(ok: bool) | Wrote(ok: bool, done: bool)

  /** What is left of the pending bytes when `m` of them were written: the rest is
      cut out with int positions. */
  function AfterWrite(pending: bytes, m: nat): bytes {
    if m == 0 then pending
    else if m == AsInt(|pending|) then []
    else Slice(Kept(pending), m, -1)
  }

  /** Cutting keeps exactly the unwritten bytes, if and only if the buffer's length
      fits an int or there is nothing to cut. */
  lemma AfterWriteIff(pending: bytes, m: nat)
    requires m <= |pending| && m <= INT_MAX
    ensures AfterWrite(pending, m) == pending[m..] <==> m == 0 || |pending| <= INT_MAX
    ensures m > 0 && |pending| > INT_MAX ==> |AfterWrite(pending, m)| < |pending| - m
  {
    hide AsInt;
    AsIntBelow(|pending|);
  }

  /** What a step does to a connection, and what it reports. */
  function Next(c: Conn, s: Step): (Conn, Verdict) {
    match s
    case Append(cmd) =>
      if |c.pending| + |cmd| <= MAX_STRING then
        (c.(appended := c.appended + cmd, pending := c.pending + cmd), Appended(true))
      else (c.(err := ERR_OOM), Appended(false))
    case Write(socket) =>
      if c.err != 0 then (c, Wrote(false, false))
      else if c.pending == [] then (c, Wrote(true, true))
      else
        match socket
        case Fails => (c.(err := ERR_IO), Wrote(false, false))
        case TryAgain => (c, Wrote(true, false))
        case Takes(n) =>
          var m := Min(n, |c.pending|);
          var left := AfterWrite(c.pending, m);
          (c.(written := c.written + c.pending[..m], pending := left), Wrote(true, left == []))
  }

  /** Every byte accepted was written or is pending, in order. */
  predicate Accounted(c: Conn) {
    c.written + c.pending == c.appended
  }

  /** The step does not cut a buffer that no int can measure. */
  predicate Cuttable(c: Conn, s: Step) {
    s.Write? && s.socket.Takes? && s.socket.n > 0 && c.err == 0 ==> |c.pending| <= INT_MAX
  }

  /** Such a step keeps the account. */
  lemma NextAccounted(c: Conn, s: Step)
    requires Accounted(c) && Cuttable(c, s)
    ensures Accounted(Next(c, s).0)
    ensures Next(c, s).1.Wrote? && Next(c, s).1.ok ==>
              (Next(c, s).1.done <==> Next(c, s).0.written == Next(c, s).0.appended)
  {
    hide AfterWrite;
    match s
    case Append(cmd) =>
      assert c.written + (c.pending + cmd) == c.written + c.pending + cmd;
    case Write(socket) =>
      if socket.Takes? {
        var m := Min(socket.n, |c.pending|);
        AfterWriteIff(c.pending, m);
        assert c.written + c.pending == c.written + c.pending[..m] + c.pending[m..];
      }
  }

  /** Bytes accepted that are neither written nor pending. */
  function Missing(c: Conn): int {
    |c.appended| - |c.written| - |c.pending|
  }

  /** Any other step loses bytes, and lost bytes never come back. */
  lemma NextMissing(c: Conn, s: Step)
    ensures Missing(Next(c, s).0) >= Missing(c)
    ensures !Cuttable(c, s) ==> Missing(Next(c, s).0) > Missing(c)
  {
    hide AfterWrite;
    if s.Write? && s.socket.Takes? {
      AfterWriteIff(c.pending, Min(s.socket.n, |c.pending|));
    }
  }

  const FRESH: Conn := Conn([], [], [], 0)

  /** The connection after a run of steps. */
  function After(steps: seq<Step>): Conn {
    if steps == [] then FRESH else Next(After(steps[..|steps| - 1]), steps[|steps| - 1]).0
  }

  function Verdicts(steps: seq<Step>): (vs: seq<Verdict>)
    ensures |vs| == |steps|
  {
    if steps == [] then []
    else
      var before := steps[..|steps| - 1];
      Verdicts(before) + [Next(After(before), steps[|steps| - 1]).1]
  }

  /** No step of the run cuts a buffer that no int can measure. */
  ghost predicate Short(steps: seq<Step>) {
    forall i :: 0 <= i < |steps| ==> Cuttable(After(steps[..i]), steps[i])
  }

  /** In exactly these runs the accepted commands leave in order: what was written
      and what is pending are together what was accepted. */
  lemma {:induction false} Conserved(steps: seq<Step>)
    ensures Missing(After(steps)) >= 0 && After(steps).appended == Accepted(steps, Verdicts(steps))
    ensures Short(steps) ==> Accounted(After(steps))
    ensures !Short(steps) ==> Missing(After(steps)) > 0
  {
    hide Next, Accounted, Cuttable, Missing, Short;
    if steps == [] {
      AccountedFresh();
    } else {
      var n := |steps| - 1;
      var before := steps[..n];
      ShortStep(steps);
      Conserved(before);
      NextMissing(After(before), steps[n]);
      if Short(steps) { NextAccounted(After(before), steps[n]); }
      NextAppended(After(before), steps[n]);
      assert Verdicts(steps)[..n] == Verdicts(before);
    }
  }

  /** In such a run a write reports `done` exactly when everything accepted so far
      has been written. */
  lemma DoneExactly(steps: seq<Step>, i: nat)
    requires Short(steps) && i < |steps| && Verdicts(steps)[i].Wrote? && Verdicts(steps)[i].ok
    ensures Verdicts(steps)[i].done <==> After(steps[..i + 1]).written == After(steps[..i + 1]).appended
  {
    hide Next, Accounted, Cuttable, Missing, Short, After, Verdicts;
    ShortFront(steps, i);
    Conserved(steps[..i]);
    NextAccounted(After(steps[..i]), steps[i]);
    VerdictAt(steps, i);
  }

  lemma ShortFront(steps: seq<Step>, i: nat)
    requires Short(steps) && i < |steps|
    ensures Short(steps[..i]) && Cuttable(After(steps[..i]), steps[i])
  {
    hide After, Cuttable;
    var before := steps[..i];
    assert Cuttable(After(steps[..i]), steps[i]);
    forall j | 0 <= j < i
      ensures Cuttable(After(before[..j]), before[j])
    {
      assert before[..j] == steps[..j];
      assert Cuttable(After(steps[..j]), steps[j]);
    }
  }

  lemma {:induction false} VerdictAt(steps: seq<Step>, i: nat)
    requires i < |steps|
    ensures After(steps[..i + 1]) == Next(After(steps[..i]), steps[i]).0
    ensures Verdicts(steps)[i] == Next(After(steps[..i]), steps[i]).1
  {
    hide Next;
    var n := |steps| - 1;
    assert steps[..i + 1][..i] == steps[..i];
    if i < n {
      assert steps[..n][..i] == steps[..i];
      VerdictAt(steps[..n], i);
    }
  }

  lemma ShortStep(steps: seq<Step>)
    requires steps != []
    ensures var n := |steps| - 1;
      Short(steps) <==> Short(steps[..n]) && Cuttable(After(steps[..n]), steps[n])
  {
    hide After, Cuttable;
    var n := |steps| - 1;
    var before := steps[..n];
    assert forall i :: 0 <= i <= n ==> before[..i] == steps[..i];
    forall i | 0 <= i < n
      ensures Cuttable(After(steps[..i]), steps[i]) <==> Cuttable(After(before[..i]), before[i])
    {
    }
  }

  /** What each step of a run does to the bytes, in numbers. A write takes as many
      bytes as the socket reports, or all that are pending if these are fewer, and
      nothing if there was an error before; a command is accepted whole or not at all. */
  lemma StepBytes(steps: seq<Step>, i: nat)
    requires Short(steps) && i < |steps|
    ensures var c, d, s, v := After(steps[..i]), After(steps[..i + 1]), steps[i], Verdicts(steps)[i];
      var fits := s.Append? && |c.appended| - |c.written| + |s.cmd| <= MAX_STRING;
      var taken := if s.Write? && s.socket.Takes? && c.err == 0 then s.socket.n else 0;
      && d.appended == c.appended + (if fits then s.cmd else []) && d.written + d.pending == d.appended
      && |d.written| == (if |c.written| + taken < |c.appended| then |c.written| + taken else |c.appended|)
      && d.err == (if s.Append? && !fits then 5
                   else if s.Write? && c.err == 0 && c.written != c.appended && s.socket.Fails? then 1 else c.err)
      && (s.Append? ==> v == Appended(fits))
      && (s.Write? ==> v.Wrote? && (v.ok <==> c.err == 0 && (c.written == c.appended || !s.socket.Fails?)))
      && (s.Write? ==> (v.done <==> v.ok && d.written == d.appended))
  {
    hide Accounted, Cuttable, Missing, Short, After, Verdicts, AfterWrite;
    var c, s := After(steps[..i]), steps[i];
    ShortFront(steps, i);
    Conserved(steps[..i]);
    NextAccounted(c, s);
    VerdictAt(steps, i);
    var d := Next(c, s).0;
    Account(c);
    Account(d);
    assert |c.appended| == |c.written| + |c.pending| && |d.appended| == |d.written| + |d.pending|;
  }

  lemma AccountedFresh()
    ensures Accounted(FRESH) && Missing(FRESH) == 0 && Short([])
  {
  }

  lemma NextAppended(c: Conn, s: Step)
    ensures Next(c, s).0.appended == c.appended + if s.Append? && Next(c, s).1.ok then s.cmd else []
  {
  }

  /** The commands of a run that were accepted. */
  function Accepted(steps: seq<Step>, vs: seq<Verdict>): bytes
    requires |steps| == |vs|
  {
    if steps == [] then []
    else Accepted(steps[..|steps| - 1], vs[..|vs| - 1])
         + if steps[|steps| - 1].Append? && vs[|vs| - 1].ok then steps[|steps| - 1].cmd else []
  }

  class Output {
    var obuf: SdsString
    var err: int
    ghost var written: bytes
    ghost var appended: bytes

    ghost function Repr(): set<object>
      reads this, obuf
    {
      {this, obuf, obuf.mem}
    }

    ghost predicate Valid()
      reads this, obuf, obuf.mem
      ensures Valid() ==> obuf.Sound()
    {
      obuf.Valid()
    }

    ghost function State(): Conn
      requires obuf.Sound()
      reads this, obuf, obuf.mem
    {
      Conn(appended, written, obuf.Content(), err)
    }

    constructor ()
      ensures Valid() && fresh(Repr()) && State() == FRESH
    {
      obuf := new SdsString.NewLen([]);
      err := 0;
      written, appended := [], [];
    }

    /** Append a command; a buffer the allocator cannot serve is an error. */
    method AppendCommand(cmd: bytes) returns (ok: bool)
      requires Valid()
      modifies Repr()
      ensures Valid() && fresh(Repr() - old(Repr()))
      ensures (State(), Appended(ok)) == Next(old(State()), Append(cmd))
    {
      hide SdsString.Valid, SdsString.Content, SdsString.Sound;
      if obuf.Len() + |cmd| > MAX_STRING {
        err := ERR_OOM;
        return false;
      }
      obuf.CatLen(cmd);
      appended := appended + cmd;
      return true;
    }

    /** Offer the buffer to the socket. */
    method BufferWrite(socket: Socket) returns (ok: bool, done: bool)
      requires Valid()
      modifies Repr()
      ensures Valid() && fresh(Repr() - old(Repr()))
      ensures (State(), Wrote(ok, done)) == Next(old(State()), Write(socket))
    {
      hide SdsString.Valid, SdsString.Content, SdsString.Sound, AfterWrite;
      if err != 0 { return false, false; }
      if obuf.Len() > 0 {
        match socket {
          case Fails =>
            err := ERR_IO;
            return false, false;
          case TryAgain =>
          case Takes(n) =>
            Remove(Min(n, obuf.Len()));
        }
      }
      return true, obuf.Len() == 0;
    }

    /** `nwritten` bytes of the buffer were written. */
    method Remove(nwritten: Count)
      requires Valid() && nwritten <= obuf.Len()
      modifies Repr()
      ensures Valid() && fresh(Repr() - old(Repr())) && appended == old(appended) && err == old(err)
      ensures written == old(written) + old(obuf.Content())[..nwritten]
      ensures obuf.Content() == AfterWrite(old(obuf.Content()), nwritten)
    {
      hide SdsString.Valid, SdsString.Content, SdsString.Sound, Slice, Kept, AsInt;
      written := written + obuf.Content()[..nwritten];
      if nwritten > 0 {
        if nwritten == AsInt(obuf.Len()) {
          obuf := new SdsString.NewLen([]);
        } else {
          obuf.Range(nwritten, -1);
        }
      }
    }
  }

  /** Any run of appends and writes goes through the states described above. */
  method Run(steps: seq<Step>) returns (o: Output, vs: seq<Verdict>)
    ensures o.Valid() && o.State() == After(steps) && vs == Verdicts(steps)
    ensures o.written + o.obuf.Content() == Accepted(steps, vs) <==> Short(steps)
  {
    hide Output.Valid, Next, Accounted, Accepted, Missing, Short;
    o := new Output();
    vs := [];
    for i := 0 to |steps|
      invariant o.Valid() && fresh(o.Repr()) && o.State() == After(steps[..i]) && vs == Verdicts(steps[..i])
    {
      assert steps[..i + 1][..i] == steps[..i];
      match steps[i] {
        case Append(cmd) =>
          var ok := o.AppendCommand(cmd);
          vs := vs + [Appended(ok)];
        case Write(socket) =>
          var ok, done := o.BufferWrite(socket);
          vs := vs + [Wrote(ok, done)];
      }
    }
    assert steps[..|steps|] == steps;
    Conserved(steps);
    Account(After(steps));
  }

  lemma Account(c: Conn)
    ensures Accounted(c) <==> c.written + c.pending == c.appended
    ensures Missing(c) > 0 ==> !Accounted(c)
  {
  }
}
