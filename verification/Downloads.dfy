/** Concurrent downloads into the attachment store.

    Each download reserves, streams its attachment chunk by chunk, and commits what it has written. Its chunks
    interleave freely with the locked sections of every other download, lookup and sweep; each event here is one chunk
    of one download with the at most one locked section it takes. */
module Downloads {
  import opened Prelude
  import opened MapSums
  import opened Attachments

  // A download may still commit, having `written` so many bytes, or has failed and can only drop its reservation.
  datatype Phase = Streaming(written: nat) | Failing

  datatype State<G> = State(world: World<G>, phases: map<G, Phase>)

  datatype Event<G> =
    | Begin(guard: G, bytes: nat, admitted: bool)
    | Receive(guard: G, len: nat, stored: bool)
    | Fail(guard: G)                     // the request, the file or the stream fails
    | Finish(guard: G, uuid: Uuid, attachmentId: nat, now: int)
    | Disarmed(guard: G)
    | Dropped(guard: G)                  // after a failure, or with the whole download cancelled
    | LookedUp(uuid: Uuid, now: int, found: Option<StoredFile>)
    | Swept(expired: set<Uuid>)

  ghost predicate Extends<G>(maxDownload: nat, s: State<G>, g: G, len: nat)
    requires g in s.phases && s.phases[g].Streaming? && g in s.world.live
  {
    s.world.live[g] < SatAdd(s.phases[g].written, len) <= maxDownload
  }

  // The locked section of an event, if it takes one.
  ghost function Section<G>(limits: Limits, maxDownload: nat, s: State<G>, e: Event<G>): Option<Action<G>>
    requires Enabled(s, e)
  {
    match e
    case Begin(g, bytes, admitted) => Some(Reserve(g, bytes, admitted))
    case Receive(g, len, _) =>
      if Extends(maxDownload, s, g, len) then
        var deficit := SatSub(SatAdd(s.phases[g].written, len), s.world.live[g]);
        Some(Extend(g, deficit, Admits(limits, Committed(s.world.entries), s.world.inFlight, deficit)))
      else None
    case Fail(_) => None
    case Finish(g, uuid, attachmentId, now) =>
      Some(CommitLocked(g, uuid, StoredFile(attachmentId, s.phases[g].written, now)))
    case Disarmed(g) => Some(Disarm(g))
    case Dropped(g) => Some(Drop(g))
    case LookedUp(uuid, now, found) => Some(Get(uuid, now, found))
    case Swept(expired) => Some(Sweep(expired))
  }

  ghost predicate Enabled<G>(s: State<G>, e: Event<G>) {
    e.Receive? || e.Fail? || e.Finish? ==>
      e.guard in s.phases && s.phases[e.guard].Streaming? && e.guard in s.world.live
  }

  // A chunk is counted, checked against the download cap, covered by the reservation, and written to disk.
  ghost function Received<G>(limits: Limits, maxDownload: nat, s: State<G>, g: G, len: nat, stored: bool): Phase
    requires g in s.phases && s.phases[g].Streaming? && g in s.world.live
  {
    var total := SatAdd(s.phases[g].written, len);
    var section := Section(limits, maxDownload, s, Receive(g, len, stored));
    var refused := section.Some? && !section.value.admitted;
    if total > maxDownload || refused || !stored then Failing else Streaming(total)
  }

  ghost predicate Happens<G>(limits: Limits, maxDownload: nat, s: State<G>, e: Event<G>, s': State<G>) {
    && Enabled(s, e)
    && (match Section(limits, maxDownload, s, e)
        case None => s'.world == s.world
        case Some(a) => Step(limits, s.world, a, s'.world))
    && s'.phases ==
       match e
       case Begin(g, _, admitted) => if admitted then s.phases[g := Streaming(0)] else s.phases
       case Receive(g, len, stored) => s.phases[g := Received(limits, maxDownload, s, g, len, stored)]
       case Fail(g) => s.phases[g := Failing]
       case Finish(g, _, _, _) => s.phases - {g}
       case Dropped(g) => s.phases - {g}
       case _ => s.phases
  }

  // Every download under way holds a reservation that covers what it has written.
  ghost predicate Written<G>(maxDownload: nat, s: State<G>) {
    && s.phases.Keys == s.world.live.Keys
    && forall g :: g in s.phases && s.phases[g].Streaming? ==> s.phases[g].written <= Min(s.world.live[g], maxDownload)
  }

  ghost predicate SmallFiles(maxDownload: nat, entries: map<Uuid, StoredFile>) {
    forall u :: u in entries ==> entries[u].size <= maxDownload
  }

  ghost predicate Inv<G>(limits: Limits, maxDownload: nat, s: State<G>) {
    Written(maxDownload, s) && SmallFiles(maxDownload, s.world.entries) && Sound(limits, s.world)
  }

  // So every commit is covered, and what one download does cannot break another.
  lemma EventIsCovered<G>(limits: Limits, maxDownload: nat, s: State<G>, e: Event<G>)
    requires Written(maxDownload, s) && Enabled(s, e) && Section(limits, maxDownload, s, e).Some?
    ensures Covered(s.world, Section(limits, maxDownload, s, e).value)
  {}

  lemma EventKeepsInv<G>(limits: Limits, maxDownload: nat, s: State<G>, e: Event<G>, s': State<G>)
    requires limits.maxStoreBytes < U64_MAX
    requires Inv(limits, maxDownload, s) && Happens(limits, maxDownload, s, e, s')
    ensures Inv(limits, maxDownload, s')
  {
    var section := Section(limits, maxDownload, s, e);
    if section.Some? {
      EventIsCovered(limits, maxDownload, s, e);
      StepConserves(limits, s.world, section.value, s'.world);
      StepKeepsCap(limits, s.world, section.value, s'.world);
    }
  }

  // A chunk lets its download go on exactly when it is stored and the bytes so far fit the download cap and, beyond
  // the reservation, the store; the reservation then covers them. Any other chunk ends in failure.
  lemma ChunkIsTakenIff<G>(limits: Limits, maxDownload: nat, s: State<G>, e: Event<G>, s': State<G>)
    requires limits.maxStoreBytes < U64_MAX && Inv(limits, maxDownload, s)
    requires e.Receive? && Happens(limits, maxDownload, s, e, s')
    ensures var held, total := s.world.live[e.guard], s.phases[e.guard].written + e.len;
            var more := Max(0, total - held);
            && (s'.phases[e.guard] == Streaming(total) <==>
                  && e.stored && total <= Min(maxDownload, U64_MAX)
                  && (total > held ==> Committed(s.world.entries) + s.world.inFlight + more <= limits.maxStoreBytes))
            && (s'.phases[e.guard] == Streaming(total) ==>
                  s'.world.live[e.guard] == held + more && s'.world.inFlight == s.world.inFlight + more)
            && (s'.phases[e.guard] == Streaming(total) || s'.phases[e.guard] == Failing)
            && s'.world.entries == s.world.entries
  {
    TotalWithout(s.world.live, e.guard);
    var section := Section(limits, maxDownload, s, e);
    if section.Some? { StepConserves(limits, s.world, section.value, s'.world); }
  }

  // A commit registers exactly the bytes written, and gives the whole reservation back.
  lemma CommitIsExact<G>(limits: Limits, maxDownload: nat, s: State<G>, e: Event<G>, s': State<G>)
    requires limits.maxStoreBytes < U64_MAX && Inv(limits, maxDownload, s)
    requires e.Finish? && Happens(limits, maxDownload, s, e, s')
    ensures var file := StoredFile(e.attachmentId, s.phases[e.guard].written, e.now);
            && s'.world.entries == s.world.entries[e.uuid := file]
            && s'.world.inFlight == s.world.inFlight - s.world.live[e.guard]
            && e.guard !in s'.phases && e.guard !in s'.world.live
  {
    StepConserves(limits, s.world, Section(limits, maxDownload, s, e).value, s'.world);
  }

  datatype Run<G> = Run(events: seq<Event<G>>, states: seq<State<G>>)

  ghost predicate ValidRun<G>(limits: Limits, maxDownload: nat, r: Run<G>) {
    && |r.states| == |r.events| + 1
    && r.states[0] == State(World(map[], 0, map[], {}), map[])
    && forall n :: 0 <= n < |r.events| ==> HappensAt(limits, maxDownload, r, n)
  }

  ghost predicate HappensAt<G>(limits: Limits, maxDownload: nat, r: Run<G>, n: nat)
    requires n < |r.events| && |r.states| == |r.events| + 1
  {
    Happens(limits, maxDownload, r.states[n], r.events[n], r.states[n + 1])
  }

  // However downloads interleave, committed and reserved bytes stay within the store's cap, each download stays within
  // its reservation, and no file is larger than the download cap: nothing is assumed of the sizes committed.
  lemma {:induction false} DownloadsStayWithinCap<G>(limits: Limits, maxDownload: nat, r: Run<G>, n: nat)
    requires limits.maxStoreBytes < U64_MAX && ValidRun(limits, maxDownload, r) && n <= |r.events|
    ensures Inv(limits, maxDownload, r.states[n])
  {
    if n == 0 {
      assert Sizes(r.states[0].world.entries) == map[];
    } else {
      DownloadsStayWithinCap(limits, maxDownload, r, n - 1);
      assert HappensAt(limits, maxDownload, r, n - 1);
      EventKeepsInv(limits, maxDownload, r.states[n - 1], r.events[n - 1], r.states[n]);
    }
  }
}
