/** The overlapped gather: workers claim chunks through an atomic counter, publish outputs in write-once
    slots and commit the finished prefix under a try-lock, in any interleaving. */
module Gather {
  import opened Common

  type Id = nat

  /** Chunks committed per lock holding. */
  const MAX_DRAIN: nat := 8

  /** Where a worker is; `last` marks the drain on its way out. */
  datatype Pc = Pull | Encode(chunk: nat) | TryLock(last: bool) | Drain(count: nat, last: bool) | Exited

  datatype State = State(
    counter: nat,
    outs: seq<Option<seq<Id>>>,
    encoded: seq<nat>,
    flat: seq<Id>,
    next: nat,
    offset: nat,
    overflowed: bool,
    lock: Option<nat>,
    workers: seq<Pc>)

  /** What is to be gathered: what each chunk encodes to, and the reservation, if it was granted. */
  datatype Job = Job(chunks: seq<seq<Id>>, reserved: bool, cap: nat)

  ghost predicate Init(job: Job, s: State) {
    && s.counter == 0 && s.next == 0 && s.offset == 0 && !s.overflowed && s.lock == None
    && |s.outs| == |s.encoded| == |job.chunks| && |s.flat| == job.cap
    && (forall i :: 0 <= i < |s.outs| ==> s.outs[i] == None && s.encoded[i] == 0)
    && |s.workers| > 0 && (forall w :: 0 <= w < |s.workers| ==> s.workers[w] == Pull)
  }

  function After(last: bool): Pc {
    if last then Exited else Pull
  }

  /** `fetch_add`, and what the worker does with the index. */
  function Claim(job: Job, s: State, w: nat): State
    requires w < |s.workers|
  {
    var pc := if s.counter < |job.chunks| then Encode(s.counter) else if job.reserved then TryLock(true) else Exited;
    s.(counter := s.counter + 1, workers := s.workers[w := pc])
  }

  /** Encode the claimed chunk and fill its slot, unless it is already filled. */
  function Publish(job: Job, s: State, w: nat, i: nat): State
    requires w < |s.workers| && i < |s.outs| && i < |s.encoded| && i < |job.chunks|
  {
    s.(outs := if s.outs[i] == None then s.outs[i := Some(job.chunks[i])] else s.outs,
       encoded := s.encoded[i := s.encoded[i] + 1],
       workers := s.workers[w := if job.reserved then TryLock(false) else Pull])
  }

  function Acquire(s: State, w: nat, last: bool): State
    requires w < |s.workers|
  {
    if s.lock == None then s.(lock := Some(w), workers := s.workers[w := Drain(0, last)])
    else s.(workers := s.workers[w := After(last)])
  }

  /** One round of the commit loop: stop, give up for good, or copy one chunk. */
  function DrainOne(job: Job, s: State, w: nat, count: nat, last: bool): State
    requires w < |s.workers|
  {
    var stop := s.(lock := None, workers := s.workers[w := After(last)]);
    if count >= MAX_DRAIN || s.overflowed || s.next >= |s.outs| || s.outs[s.next] == None then stop
    else
      var ids := s.outs[s.next].value;
      if job.cap < s.offset + |ids| then stop.(overflowed := true)
      else
        s.(flat := if s.offset + |ids| <= |s.flat| then s.flat[..s.offset] + ids + s.flat[s.offset + |ids|..] else s.flat,
           offset := s.offset + |ids|, next := s.next + 1, workers := s.workers[w := Drain(count + 1, last)])
  }

  /** The step worker `w` takes when it is scheduled. */
  function StepOf(job: Job, s: State, w: nat): State
    requires w < |s.workers|
  {
    match s.workers[w]
    case Pull => Claim(job, s, w)
    case Encode(i) => if i < |s.outs| && i < |s.encoded| && i < |job.chunks| then Publish(job, s, w, i) else s
    case TryLock(last) => Acquire(s, w, last)
    case Drain(count, last) => DrainOne(job, s, w, count, last)
    case Exited => s
  }

  ghost predicate Step(job: Job, s: State, s': State) {
    exists w: nat :: w < |s.workers| && !s.workers[w].Exited? && s' == StepOf(job, s, w)
  }

  /** A run from an initial state, any worker stepping at any time. */
  ghost predicate Run(job: Job, states: seq<State>) {
    && |states| > 0 && Init(job, states[0])
    && forall k :: 0 <= k < |states| - 1 ==> Step(job, states[k], states[k + 1])
  }

  // ---------------------------------------------------------------------------
  // The invariant
  // ---------------------------------------------------------------------------

  /** Every index below the counter is filled or being encoded by exactly one worker; none above is touched. */
  ghost predicate Claims(job: Job, s: State) {
    && |s.outs| == |s.encoded| == |job.chunks|
    && (forall i :: 0 <= i < |s.outs| ==> s.encoded[i] == if s.outs[i].Some? then 1 else 0)
    && (forall i :: 0 <= i < |s.outs| && s.outs[i].Some? ==> i < s.counter && s.outs[i].value == job.chunks[i])
    && (forall i :: 0 <= i < |s.outs| && i < s.counter && s.outs[i] == None ==> Encode(i) in s.workers)
    && (forall w :: 0 <= w < |s.workers| && s.workers[w].Encode? ==>
          s.workers[w].chunk < |s.outs| && s.workers[w].chunk < s.counter && s.outs[s.workers[w].chunk] == None)
    && (forall v, w :: 0 <= v < w < |s.workers| && s.workers[v].Encode? ==> s.workers[v] != s.workers[w])
  }

  /** The lock is held by the one worker that drains. */
  ghost predicate Locking(s: State) {
    && (forall w :: 0 <= w < |s.workers| && s.workers[w].Drain? ==> s.lock == Some(w))
  }

  /** A worker leaves only once every index has been handed out. */
  ghost predicate Leaving(job: Job, s: State) {
    forall w :: 0 <= w < |s.workers| && (s.workers[w].Exited? || (s.workers[w].TryLock? && s.workers[w].last) || (s.workers[w].Drain? && s.workers[w].last))
      ==> s.counter >= |job.chunks|
  }

  function Total(chunks: seq<seq<Id>>): nat {
    |Concat(chunks)|
  }

  /** The committed prefix of the flat buffer is the concatenation of the first `next` chunks, within the reservation. */
  ghost predicate Committed(job: Job, s: State) {
    && |s.flat| == job.cap && s.next <= |job.chunks| && |s.outs| == |job.chunks|
    && (forall i :: 0 <= i < s.next ==> s.outs[i].Some?)
    && s.offset == Total(job.chunks[..s.next]) && s.offset <= job.cap
    && s.flat[..s.offset] == Concat(job.chunks[..s.next])
    && (s.overflowed ==> s.next < |job.chunks| && s.offset + |job.chunks[s.next]| > job.cap)
  }

  /** Without a reservation nothing is committed and no worker looks for the lock; with one, every worker that leaves has. */
  ghost predicate Reserving(job: Job, s: State) {
    && (!job.reserved ==> s.next == 0 && !s.overflowed)
    && (forall w :: 0 <= w < |s.workers| && !job.reserved ==> !s.workers[w].TryLock? && !s.workers[w].Drain?)
  }

  ghost predicate Inv(job: Job, s: State) {
    && Reserving(job, s) && |s.workers| > 0 && Claims(job, s) && Locking(s) && Leaving(job, s) && Committed(job, s)
  }

  lemma InitInv(job: Job, s: State)
    requires Init(job, s)
    ensures Inv(job, s)
  {
    assert job.chunks[..0] == [];
  }

  lemma ClaimClaims(job: Job, s: State, w: nat)
    requires Claims(job, s) && w < |s.workers| && s.workers[w] == Pull
    ensures Claims(job, Claim(job, s, w))
  {
    var s' := Claim(job, s, w);
    forall i | 0 <= i < |s'.outs| && i < s'.counter && s'.outs[i] == None ensures Encode(i) in s'.workers {
      if i < s.counter {
        var v :| 0 <= v < |s.workers| && s.workers[v] == Encode(i);
        assert s'.workers[v] == Encode(i);
      } else {
        assert s'.workers[w] == Encode(i);
      }
    }
  }

  lemma PublishClaims(job: Job, s: State, w: nat, i: nat)
    requires Claims(job, s) && w < |s.workers| && s.workers[w] == Encode(i)
    ensures i < |s.outs| && i < |s.encoded| && i < |job.chunks| && s.outs[i] == None
    ensures Claims(job, Publish(job, s, w, i))
  {
    var s' := Publish(job, s, w, i);
    forall k | 0 <= k < |s'.outs| && k < s'.counter && s'.outs[k] == None ensures Encode(k) in s'.workers {
      var v :| 0 <= v < |s.workers| && s.workers[v] == Encode(k);
      assert s'.workers[v] == Encode(k);
    }
  }

  /** A step that leaves the counter and the slots alone, and no worker encoding anything new. */
  lemma OtherClaims(job: Job, s: State, s': State, w: nat)
    requires Claims(job, s) && w < |s.workers| && !s.workers[w].Encode?
    requires s'.counter == s.counter && s'.outs == s.outs && s'.encoded == s.encoded
    requires |s'.workers| == |s.workers| && s'.workers == s.workers[w := s'.workers[w]] && !s'.workers[w].Encode?
    ensures Claims(job, s')
  {
    forall i | 0 <= i < |s'.outs| && i < s'.counter && s'.outs[i] == None ensures Encode(i) in s'.workers {
      var v :| 0 <= v < |s.workers| && s.workers[v] == Encode(i);
      assert s'.workers[v] == Encode(i);
    }
  }

  lemma CommitOne(job: Job, s: State, w: nat, count: nat, last: bool)
    requires Claims(job, s) && Committed(job, s) && w < |s.workers|
    ensures Committed(job, DrainOne(job, s, w, count, last))
  {
    if count < MAX_DRAIN && !s.overflowed && s.next < |s.outs| && s.outs[s.next].Some? {
      hide Concat, Claims;
      var ids := job.chunks[s.next];
      NextTotal(job, s.next);
    }
  }

  lemma NextTotal(job: Job, k: nat)
    requires k < |job.chunks|
    ensures Concat(job.chunks[..k + 1]) == Concat(job.chunks[..k]) + job.chunks[k]
  {
    assert job.chunks[..k + 1] == job.chunks[..k] + [job.chunks[k]];
    ConcatSnoc(job.chunks[..k], job.chunks[k]);
  }

  lemma ClaimInv(job: Job, s: State, w: nat)
    requires Inv(job, s) && w < |s.workers| && s.workers[w] == Pull
    ensures Inv(job, Claim(job, s, w))
  {
    hide Claims, Committed;
    ClaimClaims(job, s, w);
    SameCommitted(job, s, Claim(job, s, w));
  }

  lemma PublishInv(job: Job, s: State, w: nat, i: nat)
    requires Inv(job, s) && w < |s.workers| && s.workers[w] == Encode(i)
    ensures i < |s.outs| && i < |s.encoded| && i < |job.chunks| && Inv(job, Publish(job, s, w, i))
  {
    hide Claims, Committed;
    PublishClaims(job, s, w, i);
    SameCommitted(job, s, Publish(job, s, w, i));
  }

  lemma AcquireInv(job: Job, s: State, w: nat, last: bool)
    requires Inv(job, s) && w < |s.workers| && s.workers[w] == TryLock(last)
    ensures Inv(job, Acquire(s, w, last))
  {
    hide Claims, Committed;
    OtherClaims(job, s, Acquire(s, w, last), w);
    SameCommitted(job, s, Acquire(s, w, last));
  }

  lemma DrainInv(job: Job, s: State, w: nat, count: nat, last: bool)
    requires Inv(job, s) && w < |s.workers| && s.workers[w] == Drain(count, last)
    ensures Inv(job, DrainOne(job, s, w, count, last))
  {
    hide Claims, Committed;
    CommitOne(job, s, w, count, last);
    OtherClaims(job, s, DrainOne(job, s, w, count, last), w);
  }

  /** `n` steps of one worker in a row. */
  function Steps(job: Job, s: State, w: nat, n: nat): (s': State)
    requires w < |s.workers|
    ensures |s'.workers| == |s.workers|
  {
    if n == 0 then s else StepOf(job, Steps(job, s, w, n - 1), w)
  }

  /** A free lock is taken, and the holder then commits every published chunk of the prefix that fits, as many as it may. */
  lemma {:induction false} HolderCommits(job: Job, s: State, w: nat, last: bool, n: nat)
    requires w < |s.workers| && s.workers[w] == TryLock(last) && s.lock == None && Claims(job, s) && Committed(job, s)
    requires n <= MAX_DRAIN && !s.overflowed && s.next + n <= |s.outs| == |job.chunks| && Total(job.chunks[..s.next + n]) <= job.cap
    requires forall i :: s.next <= i < s.next + n ==> s.outs[i].Some?
    ensures var s' := Steps(job, s, w, n + 1);
      && s'.workers[w] == Drain(n, last) && s'.lock == Some(w) && s'.outs == s.outs && !s'.overflowed
      && s'.next == s.next + n && s'.offset <= |s'.flat| && s'.flat[..s'.offset] == Concat(job.chunks[..s.next + n])
      && Claims(job, s') && Committed(job, s')
    decreases n
  {
    hide Claims, Committed, Concat, DrainOne;
    if n == 0 {
      assert Steps(job, s, w, 1) == Acquire(s, w, last);
      OtherClaims(job, s, Acquire(s, w, last), w);
      SameCommitted(job, s, Acquire(s, w, last));
      CommittedPrefix(job, Acquire(s, w, last));
    } else {
      TotalGrows(job, s.next + n - 1, s.next + n);
      HolderCommits(job, s, w, last, n - 1);
      var before := Steps(job, s, w, n);
      DrainsOne(job, before, w, n - 1, last);
      OtherClaims(job, before, DrainOne(job, before, w, n - 1, last), w);
    }
  }

  lemma CommittedPrefix(job: Job, s: State)
    requires Committed(job, s)
    ensures s.next <= |job.chunks| && s.offset <= |s.flat| && s.flat[..s.offset] == Concat(job.chunks[..s.next])
  {
  }

  lemma TotalGrows(job: Job, i: nat, j: nat)
    requires i <= j <= |job.chunks|
    ensures Total(job.chunks[..i]) <= Total(job.chunks[..j])
  {
    assert job.chunks[..j][..i] == job.chunks[..i];
    ConcatPrefix(job.chunks[..j], i);
  }

  /** A step of the holder with a published chunk that fits commits it. */
  lemma DrainsOne(job: Job, s: State, w: nat, count: nat, last: bool)
    requires w < |s.workers| && Claims(job, s) && Committed(job, s)
    requires count < MAX_DRAIN && !s.overflowed && s.next < |s.outs| == |job.chunks| && s.outs[s.next].Some? && Total(job.chunks[..s.next + 1]) <= job.cap
    ensures var s' := DrainOne(job, s, w, count, last);
      && s'.workers == s.workers[w := Drain(count + 1, last)] && s'.lock == s.lock && s'.outs == s.outs && s'.counter == s.counter
      && s'.encoded == s.encoded && !s'.overflowed && s'.next == s.next + 1 && Committed(job, s')
      && s'.next <= |job.chunks| && s'.offset <= |s'.flat| && s'.flat[..s'.offset] == Concat(job.chunks[..s'.next])
  {
    hide Concat;
    NextTotal(job, s.next);
    CommitOne(job, s, w, count, last);
  }

  /** With a reservation a worker that has published a chunk, or finds none to claim, tries the lock; without one, it goes
      on or leaves. */
  lemma TriesTheLock(job: Job, s: State, w: nat)
    requires Claims(job, s) && w < |s.workers|
    ensures s.workers[w].Encode? ==>
      StepOf(job, s, w).workers[w] == if job.reserved then TryLock(false) else Pull
    ensures s.workers[w].Pull? && s.counter >= |job.chunks| ==>
      StepOf(job, s, w).workers[w] == if job.reserved then TryLock(true) else Exited
    ensures s.workers[w].Pull? && s.counter < |job.chunks| ==> StepOf(job, s, w).workers[w] == Encode(s.counter)
  {
  }

  /** A published chunk that does not fit ends committing for good, and the lock is given back. */
  lemma TooLongStops(job: Job, s: State, w: nat, count: nat, last: bool)
    requires w < |s.workers| && s.workers[w] == Drain(count, last) && Claims(job, s) && Committed(job, s)
    requires count < MAX_DRAIN && s.next < |s.outs| && s.outs[s.next].Some? && Total(job.chunks[..s.next + 1]) > job.cap
    ensures var s' := StepOf(job, s, w);
      s'.overflowed && s'.lock == None && s'.next == s.next && s'.flat == s.flat && s'.workers[w] == After(last)
    ensures forall v: nat, k: nat, l: bool :: v < |s.workers| ==> DrainOne(job, StepOf(job, s, w), v, k, l).next == s.next
  {
    hide Concat;
    NextTotal(job, s.next);
  }

  /** Filling slots commits nothing and uncommits nothing. */
  lemma SameCommitted(job: Job, s: State, s': State)
    requires Committed(job, s) && |s'.outs| == |s.outs|
    requires s'.flat == s.flat && s'.next == s.next && s'.offset == s.offset && s'.overflowed == s.overflowed
    requires forall i :: 0 <= i < |s.outs| && s.outs[i].Some? ==> s'.outs[i].Some?
    ensures Committed(job, s')
  {
  }

  /** Every step of any worker keeps the invariant. */
  lemma StepInv(job: Job, s: State, w: nat)
    requires Inv(job, s) && w < |s.workers|
    ensures Inv(job, StepOf(job, s, w))
  {
    hide Inv, Claim, Publish, Acquire, DrainOne;
    match s.workers[w]
    case Pull => ClaimInv(job, s, w);
    case Encode(i) => PublishInv(job, s, w, i);
    case TryLock(last) => AcquireInv(job, s, w, last);
    case Drain(count, last) => DrainInv(job, s, w, count, last);
    case Exited =>
  }

  /** The invariant holds throughout every run. */
  lemma {:induction false} RunInv(job: Job, states: seq<State>, k: nat)
    requires Run(job, states) && k < |states|
    ensures Inv(job, states[k])
  {
    hide Init, Inv, StepOf;
    if k == 0 {
      InitInv(job, states[0]);
    } else {
      RunInv(job, states, k - 1);
      assert Step(job, states[k - 1], states[k]);
      var w: nat :| w < |states[k - 1].workers| && !states[k - 1].workers[w].Exited? && states[k] == StepOf(job, states[k - 1], w);
      StepInv(job, states[k - 1], w);
    }
  }

  // ---------------------------------------------------------------------------
  // Termination
  // ---------------------------------------------------------------------------

  function Rank(pc: Pc): nat {
    match pc
    case Exited => 0
    case Drain(count, last) => (if last then 1 else 12) + (if count < MAX_DRAIN then MAX_DRAIN - count else 0)
    case TryLock(last) => if last then 10 else 21
    case Pull => 11
    case Encode(_) => 22
  }

  function Ranks(workers: seq<Pc>): nat {
    if workers == [] then 0 else Rank(workers[0]) + Ranks(workers[1..])
  }

  /** What every step decreases: chunks not handed out, and how far each worker is from leaving. */
  function Measure(job: Job, s: State): nat {
    12 * (if s.counter < |job.chunks| then |job.chunks| - s.counter else 0) + Ranks(s.workers)
  }

  lemma {:induction false} RanksUpdate(workers: seq<Pc>, w: nat, pc: Pc)
    requires w < |workers|
    ensures Ranks(workers[w := pc]) + Rank(workers[w]) == Ranks(workers) + Rank(pc)
  {
    if w == 0 {
      assert workers[w := pc][1..] == workers[1..];
    } else {
      RanksUpdate(workers[1..], w - 1, pc);
      assert workers[w := pc][1..] == workers[1..][w - 1 := pc];
    }
  }

  lemma StepDecreases(job: Job, s: State, w: nat)
    requires Inv(job, s) && w < |s.workers| && !s.workers[w].Exited?
    ensures Measure(job, StepOf(job, s, w)) < Measure(job, s)
  {
    hide Inv, Ranks;
    var s' := StepOf(job, s, w);
    if s.workers[w].Encode? {
      EncodeInRange(job, s, w);
    }
    RanksUpdate(s.workers, w, s'.workers[w]);
    assert s'.workers == s.workers[w := s'.workers[w]];
  }

  lemma EncodeInRange(job: Job, s: State, w: nat)
    requires Inv(job, s) && w < |s.workers| && s.workers[w].Encode?
    ensures s.workers[w].chunk < |s.outs| == |s.encoded| == |job.chunks|
  {
  }

  /** No run is longer than its initial measure. */
  lemma {:induction false} RunsTerminate(job: Job, states: seq<State>, k: nat)
    requires Run(job, states) && k < |states|
    ensures k + Measure(job, states[k]) <= Measure(job, states[0])
  {
    hide Init, Inv, StepOf, Measure;
    if k > 0 {
      RunsTerminate(job, states, k - 1);
      RunInv(job, states, k - 1);
      assert Step(job, states[k - 1], states[k]);
      var w: nat :| w < |states[k - 1].workers| && !states[k - 1].workers[w].Exited? && states[k] == StepOf(job, states[k - 1], w);
      StepDecreases(job, states[k - 1], w);
    }
  }

  ghost predicate Done(s: State) {
    forall w :: 0 <= w < |s.workers| ==> s.workers[w].Exited?
  }

  /** Every run can go on until every worker has left, and then has taken no more steps than its initial measure. */
  lemma {:induction false} RunsFinish(job: Job, states: seq<State>) returns (finished: seq<State>)
    requires Run(job, states)
    ensures Run(job, finished) && states <= finished && Done(finished[|finished| - 1])
    ensures |finished| <= Measure(job, states[0]) + 1
    decreases Measure(job, states[|states| - 1])
  {
    hide Init, Inv, StepOf, Measure, Claims, Committed;
    var k := |states| - 1;
    if Done(states[k]) {
      RunsTerminate(job, states, k);
      return states;
    }
    var w: nat :| w < |states[k].workers| && !states[k].workers[w].Exited?;
    RunInv(job, states, k);
    StepDecreases(job, states[k], w);
    assert Step(job, states[k], StepOf(job, states[k], w));
    var longer := states + [StepOf(job, states[k], w)];
    RunSnoc(job, states, longer[k + 1]);
    finished := RunsFinish(job, longer);
  }

  lemma RunSnoc(job: Job, states: seq<State>, s: State)
    requires Run(job, states) && Step(job, states[|states| - 1], s)
    ensures Run(job, states + [s])
  {
    hide Init, Step;
  }

  // ---------------------------------------------------------------------------
  // The result
  // ---------------------------------------------------------------------------

  /** When every worker has left, every chunk has been encoded exactly once and published. */
  lemma AllEncodedOnce(job: Job, s: State)
    requires Inv(job, s) && Done(s)
    ensures |s.outs| == |s.encoded| == |job.chunks|
    ensures forall i :: 0 <= i < |job.chunks| ==> s.encoded[i] == 1 && s.outs[i] == Some(job.chunks[i])
  {
    assert s.workers[0].Exited?;
    forall i | 0 <= i < |s.outs| ensures s.outs[i].Some? {
      assert Encode(i) !in s.workers;
    }
  }

  lemma ConcatPrefix(chunks: seq<seq<Id>>, k: nat)
    requires k <= |chunks|
    ensures Concat(chunks) == Concat(chunks[..k]) + Concat(chunks[k..])
  {
    assert chunks == chunks[..k] + chunks[k..];
    ConcatPlus(chunks[..k], chunks[k..]);
  }

  /** Committing is given up only when the output is longer than the reservation. */
  lemma OverflowMeansTooLong(job: Job, s: State)
    requires Inv(job, s) && s.overflowed
    ensures Total(job.chunks) > job.cap
  {
    ConcatPrefix(job.chunks, s.next);
  }

  /** `finish`: copy the uncommitted suffix behind the committed prefix; None when the bound was overrun. */
  method Finish(flat: array<Id>, chunks: seq<seq<Id>>, next: nat, offset: nat, overflowed: bool, total: nat) returns (r: Option<seq<Id>>)
    requires next <= |chunks| && offset == Total(chunks[..next]) && total == Total(chunks)
    requires offset <= flat.Length && flat[..offset] == Concat(chunks[..next])
    modifies flat
    ensures r == if overflowed || total > flat.Length then None else Some(Concat(chunks))
  {
    if overflowed || total > flat.Length {
      return None;
    }
    hide Concat;
    var at: nat, i: nat := offset, next;
    while i < |chunks|
      invariant next <= i <= |chunks| && 0 <= at <= flat.Length
      invariant at == |Concat(chunks[..i])| && flat[..at] == Concat(chunks[..i])
    {
      CopyFits(chunks, i);
      CopyInto(flat, at, chunks[i]);
      at := at + |chunks[i]|;
      i := i + 1;
    }
    assert chunks[..i] == chunks;
    return Some(flat[..total]);
  }

  lemma CopyFits(chunks: seq<seq<Id>>, i: nat)
    requires i < |chunks|
    ensures Concat(chunks[..i + 1]) == Concat(chunks[..i]) + chunks[i]
    ensures |Concat(chunks[..i])| + |chunks[i]| <= |Concat(chunks)|
  {
    assert chunks[..i + 1] == chunks[..i] + [chunks[i]];
    ConcatSnoc(chunks[..i], chunks[i]);
    ConcatPrefix(chunks, i + 1);
  }

  method CopyInto(flat: array<Id>, at: nat, ids: seq<Id>)
    requires at + |ids| <= flat.Length
    modifies flat
    ensures flat[..at + |ids|] == old(flat[..at]) + ids
  {
    for k := 0 to |ids|
      invariant flat[..at] == old(flat[..at])
      invariant forall j :: 0 <= j < k ==> flat[at + j] == ids[j]
    {
      flat[at + k] := ids[k];
    }
  }

  /** `gather_flat`: all chunks copied into one fresh buffer. */
  method GatherFlat(chunks: seq<seq<Id>>) returns (flat: array<Id>)
    ensures fresh(flat) && flat[..] == Concat(chunks)
  {
    flat := new Id[|Concat(chunks)|];
    var at := 0;
    for i := 0 to |chunks|
      invariant at == |Concat(chunks[..i])| <= flat.Length
      invariant flat[..at] == Concat(chunks[..i])
    {
      CopyFits(chunks, i);
      CopyInto(flat, at, chunks[i]);
      at := at + |chunks[i]|;
    }
    assert chunks[..|chunks|] == chunks;
    assert flat[..] == flat[..at];
  }

  /** The end of every run: the committed buffer finished, or the plain gather; in order either way. */
  method Collect(job: Job, s: State) returns (ids: seq<Id>)
    requires Inv(job, s) && Done(s)
    ensures ids == Concat(job.chunks)
  {
    AllEncodedOnce(job, s);
    var outs := seq(|s.outs|, i requires 0 <= i < |s.outs| => s.outs[i].value);
    assert outs == job.chunks;
    var total := |Concat(outs)|;
    if job.reserved {
      var flat := new Id[|s.flat|](i requires 0 <= i < |s.flat| => s.flat[i]);
      assert flat[..] == s.flat;
      assert flat[..s.offset] == s.flat[..s.offset];
      var finished := Finish(flat, outs, s.next, s.offset, s.overflowed, total);
      if finished.Some? {
        return finished.value;
      }
    }
    var gathered := GatherFlat(outs);
    ids := gathered[..];
  }
}
