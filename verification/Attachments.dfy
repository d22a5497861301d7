/** Quota accounting of the local attachment store.

    Downloads hold reservations (`QuotaGuard`) against a byte cap shared with the committed files. Every
    operation takes the store's one lock for a short section; `Step` is the effect of one such section, so a
    sequence of steps is one interleaving of any number of downloads, lookups and sweeps. */
module Attachments {
  import opened Prelude
  import opened MapSums

  type Uuid = nat

  datatype StoredFile = StoredFile(attachmentId: nat, size: nat, createdAt: int)

  ghost function Sizes(entries: map<Uuid, StoredFile>): map<Uuid, nat> {
    map u | u in entries :: entries[u].size
  }

  ghost function Committed(entries: map<Uuid, StoredFile>): nat { Total(Sizes(entries)) }

  // `live` maps each reservation still counted in `inFlight` to its bytes; `committing` holds the guards whose
  // bytes `commit` has released under the lock but which are not disarmed yet.
  datatype World<G> = World(entries: map<Uuid, StoredFile>, inFlight: nat, live: map<G, nat>, committing: set<G>)

  datatype Limits = Limits(maxStoreBytes: nat, expiresAfter: nat)

  datatype Action<G> =
    | Reserve(guard: G, bytes: nat, admitted: bool)
    | Extend(guard: G, additional: nat, admitted: bool)
    | CommitLocked(guard: G, uuid: Uuid, file: StoredFile)
    | Disarm(guard: G)
    | Drop(guard: G)
    | Get(uuid: Uuid, now: int, found: Option<StoredFile>)
    | Sweep(expired: set<Uuid>)

  // The admission test of `try_reserve` and `extend`, in saturating arithmetic.
  predicate Admits(limits: Limits, committed: nat, inFlight: nat, bytes: nat) {
    SatAdd(SatAdd(committed, inFlight), bytes) <= limits.maxStoreBytes
  }

  predicate Expired(limits: Limits, file: StoredFile, now: int) {
    now - file.createdAt >= limits.expiresAfter
  }

  ghost predicate Step<G>(limits: Limits, w: World<G>, a: Action<G>, w': World<G>) {
    match a
    case Reserve(g, bytes, admitted) =>
      && g !in w.live && g !in w.committing
      && admitted == Admits(limits, Committed(w.entries), w.inFlight, bytes)
      && w' == if admitted then w.(inFlight := SatAdd(w.inFlight, bytes), live := w.live[g := bytes]) else w
    case Extend(g, additional, admitted) =>
      && g in w.live
      && admitted == Admits(limits, Committed(w.entries), w.inFlight, additional)
      && w' == if admitted
               then w.(inFlight := SatAdd(w.inFlight, additional), live := w.live[g := SatAdd(w.live[g], additional)])
               else w
    case CommitLocked(g, uuid, file) =>
      && g in w.live
      && w' == World(w.entries[uuid := file], SatSub(w.inFlight, w.live[g]), w.live - {g}, w.committing + {g})
    case Disarm(g) =>
      g in w.committing && w' == w.(committing := w.committing - {g})
    case Drop(g) =>
      // A guard being committed is disarmed before it is dropped.
      && g !in w.committing
      && w' == if g in w.live then w.(inFlight := SatSub(w.inFlight, w.live[g]), live := w.live - {g}) else w
    case Get(uuid, now, found) =>
      if uuid in w.entries && Expired(limits, w.entries[uuid], now)
      then found == None && w' == w.(entries := w.entries - {uuid})
      else found == (if uuid in w.entries then Some(w.entries[uuid]) else None) && w' == w
    case Sweep(expired) =>
      w' == w.(entries := w.entries - expired)
  }

  /* ---------- Invariants ---------- */

  // Every byte in flight belongs to exactly one live reservation, and no more are in flight than fit.
  ghost predicate Conserved<G>(limits: Limits, w: World<G>) {
    w.inFlight == Total(w.live) <= limits.maxStoreBytes
  }

  ghost predicate WithinCap<G>(limits: Limits, w: World<G>) {
    Committed(w.entries) + w.inFlight <= limits.maxStoreBytes
  }

  // A commit registers no more bytes than the reservation holds: what the download loop guarantees.
  ghost predicate Covered<G>(w: World<G>, a: Action<G>) {
    a.CommitLocked? && a.guard in w.live ==> a.file.size <= w.live[a.guard]
  }

  lemma CommitEntry(entries: map<Uuid, StoredFile>, uuid: Uuid, file: StoredFile)
    ensures Committed(entries[uuid := file]) <= Committed(entries) + file.size
  {
    assert Sizes(entries[uuid := file]) == Sizes(entries)[uuid := file.size];
    TotalSet(Sizes(entries), uuid, file.size);
  }

  lemma RemoveEntries(entries: map<Uuid, StoredFile>, gone: set<Uuid>)
    ensures Committed(entries - gone) <= Committed(entries)
  {
    assert Sizes(entries - gone) == Sizes(entries) - gone;
    TotalOfPart(Sizes(entries), gone);
  }

  // One locked section keeps the books, and no saturating operation in it saturates.
  lemma StepConserves<G>(limits: Limits, w: World<G>, a: Action<G>, w': World<G>)
    requires limits.maxStoreBytes < U64_MAX
    requires Conserved(limits, w) && Step(limits, w, a, w')
    ensures Conserved(limits, w')
    ensures a.Reserve? && a.admitted ==> w'.inFlight == w.inFlight + a.bytes
    ensures a.Extend? && a.admitted ==>
              w'.inFlight == w.inFlight + a.additional && w'.live[a.guard] == w.live[a.guard] + a.additional
    ensures (a.CommitLocked? || a.Drop?) && a.guard in w.live ==> w'.inFlight == w.inFlight - w.live[a.guard]
    ensures (a.Reserve? && a.admitted) || (a.Extend? && a.admitted) ==>
              Committed(w.entries) + w'.inFlight <= limits.maxStoreBytes
  {
    match a
    case Reserve(g, bytes, _) => TotalSet(w.live, g, bytes);
    case Extend(g, additional, _) => TotalSet(w.live, g, SatAdd(w.live[g], additional));
    case CommitLocked(g, _, _) => TotalSet(w.live, g, 0);
    case Drop(g) => TotalSet(w.live, g, 0);
    case _ =>
  }

  lemma StepKeepsCap<G>(limits: Limits, w: World<G>, a: Action<G>, w': World<G>)
    requires limits.maxStoreBytes < U64_MAX
    requires Conserved(limits, w) && WithinCap(limits, w) && Step(limits, w, a, w') && Covered(w, a)
    ensures WithinCap(limits, w')
  {
    StepConserves(limits, w, a, w');
    match a
    case CommitLocked(g, uuid, file) => CommitEntry(w.entries, uuid, file);
    case Get(uuid, _, _) => RemoveEntries(w.entries, {uuid});
    case Sweep(expired) => RemoveEntries(w.entries, expired);
    case _ =>
  }

  ghost predicate Sound<G>(limits: Limits, w: World<G>) {
    Conserved(limits, w) && WithinCap(limits, w)
  }

  lemma StepKeepsSound<G>(limits: Limits, w: World<G>, a: Action<G>, w': World<G>)
    requires Step(limits, w, a, w') && Covered(w, a)
    ensures limits.maxStoreBytes < U64_MAX && Sound(limits, w) ==> Sound(limits, w')
  {
    if limits.maxStoreBytes < U64_MAX && Sound(limits, w) {
      StepConserves(limits, w, a, w');
      StepKeepsCap(limits, w, a, w');
    }
  }

  // The saturating test is the exact one for every input if, and only if, the cap is below `u64::MAX`.
  lemma AdmissionIsExactIff(limits: Limits)
    requires limits.maxStoreBytes <= U64_MAX
    ensures limits.maxStoreBytes < U64_MAX <==>
            forall c: nat, i: nat, b: nat :: Admits(limits, c, i, b) <==> c + i + b <= limits.maxStoreBytes
  {
    if limits.maxStoreBytes == U64_MAX {
      assert Admits(limits, U64_MAX, 0, 1);
    }
  }

  /* ---------- Every interleaving ---------- */

  datatype Run<G> = Run(actions: seq<Action<G>>, worlds: seq<World<G>>)

  ghost predicate ValidRun<G>(limits: Limits, r: Run<G>) {
    && |r.worlds| == |r.actions| + 1
    && r.worlds[0] == World(map[], 0, map[], {})
    && forall n :: 0 <= n < |r.actions| ==> StepAt(limits, r, n)
  }

  ghost predicate StepAt<G>(limits: Limits, r: Run<G>, n: nat)
    requires n < |r.actions| && |r.worlds| == |r.actions| + 1
  {
    Step(limits, r.worlds[n], r.actions[n], r.worlds[n + 1])
  }

  // Whatever sizes are committed, the bytes in flight are those of the live reservations.
  lemma {:induction false} InFlightIsConserved<G>(limits: Limits, r: Run<G>, n: nat)
    requires limits.maxStoreBytes < U64_MAX && ValidRun(limits, r) && n <= |r.actions|
    ensures Conserved(limits, r.worlds[n])
  {
    if n != 0 {
      InFlightIsConserved(limits, r, n - 1);
      assert StepAt(limits, r, n - 1);
      StepConserves(limits, r.worlds[n - 1], r.actions[n - 1], r.worlds[n]);
    }
  }

  // While every commit is covered by its reservation, committed and in-flight bytes together stay within the cap.
  lemma {:induction false} CapIsNeverExceeded<G>(limits: Limits, r: Run<G>, n: nat)
    requires limits.maxStoreBytes < U64_MAX && ValidRun(limits, r) && n <= |r.actions|
    requires forall m :: 0 <= m < n ==> Covered(r.worlds[m], r.actions[m])
    ensures WithinCap(limits, r.worlds[n])
  {
    if n == 0 {
      assert Sizes(r.worlds[0].entries) == map[];
    } else {
      CapIsNeverExceeded(limits, r, n - 1);
      InFlightIsConserved(limits, r, n - 1);
      assert StepAt(limits, r, n - 1);
      StepKeepsCap(limits, r.worlds[n - 1], r.actions[n - 1], r.worlds[n]);
    }
  }

  /* ---------- What lookups answer ---------- */

  // A lookup answers the entry exactly while its lifetime lasts.
  lemma LookupAnswersIff<G>(limits: Limits, w: World<G>, a: Action<G>, w': World<G>)
    requires a.Get? && Step(limits, w, a, w')
    ensures var live := a.uuid in w.entries && a.now - w.entries[a.uuid].createdAt < limits.expiresAfter;
            a.found == if live then Some(w.entries[a.uuid]) else None
  {}

  // An entry changes only by a commit of its uuid, a lookup of it after its lifetime, or a sweep that names it.
  ghost predicate Touches<G>(limits: Limits, uuid: Uuid, file: StoredFile, a: Action<G>) {
    || (a.CommitLocked? && a.uuid == uuid)
    || (a.Get? && a.uuid == uuid && a.now - file.createdAt >= limits.expiresAfter)
    || (a.Sweep? && uuid in a.expired)
  }

  lemma {:induction false} EntryStays<G>(limits: Limits, r: Run<G>, uuid: Uuid, i: nat, j: nat)
    requires ValidRun(limits, r) && i <= j <= |r.actions| && uuid in r.worlds[i].entries
    requires forall m :: i <= m < j ==> !Touches(limits, uuid, r.worlds[i].entries[uuid], r.actions[m])
    ensures uuid in r.worlds[j].entries && r.worlds[j].entries[uuid] == r.worlds[i].entries[uuid]
    decreases j
  {
    if i < j {
      EntryStays(limits, r, uuid, i, j - 1);
      assert StepAt(limits, r, j - 1);
      assert !Touches(limits, uuid, r.worlds[i].entries[uuid], r.actions[j - 1]);
    }
  }

  // A committed file is found by every later lookup within its lifetime, whatever happens to other files.
  lemma CommittedFileIsFound<G>(limits: Limits, r: Run<G>, i: nat, j: nat)
    requires ValidRun(limits, r) && i < j < |r.actions| && r.actions[i].CommitLocked? && r.actions[j].Get?
    requires var c, g := r.actions[i], r.actions[j];
             && g.uuid == c.uuid && g.now - c.file.createdAt < limits.expiresAfter
             && forall m :: i < m < j ==> !Touches(limits, c.uuid, c.file, r.actions[m])
    ensures r.actions[j].found == Some(r.actions[i].file)
  {
    assert StepAt(limits, r, i) && StepAt(limits, r, j);
    EntryStays(limits, r, r.actions[i].uuid, i + 1, j);
  }

  // A commit, a lookup and a sweep leave every entry they do not touch; nothing else changes entries at all.
  lemma OthersStay<G>(limits: Limits, w: World<G>, a: Action<G>, w': World<G>, uuid: Uuid)
    requires Step(limits, w, a, w')
    ensures uuid in w.entries && !Touches(limits, uuid, w.entries[uuid], a) ==>
              uuid in w'.entries && w'.entries[uuid] == w.entries[uuid]
    ensures a.Sweep? && uuid in a.expired ==> uuid !in w'.entries
    ensures uuid in w'.entries && uuid !in w.entries ==> a.CommitLocked? && a.uuid == uuid && w'.entries[uuid] == a.file
  {}

  /* ---------- A cap of `u64::MAX` ---------- */

  ghost predicate AlwaysConserved<G(!new)>(limits: Limits) {
    forall r: Run<G>, n: nat :: ValidRun(limits, r) && n <= |r.actions| ==> Conserved(limits, r.worlds[n])
  }

  ghost predicate AlwaysWithinCap<G(!new)>(limits: Limits) {
    forall r: Run<G>, n: nat ::
      ValidRun(limits, r) && n <= |r.actions| && AllCovered(r, n) ==> WithinCap(limits, r.worlds[n])
  }

  ghost predicate AllCovered<G>(r: Run<G>, n: nat)
    requires n <= |r.actions| < |r.worlds|
  {
    forall m :: 0 <= m < n ==> Covered(r.worlds[m], r.actions[m])
  }

  // Two guards fill the store and one byte more, then commit what they reserved.
  ghost function Overfull<G>(g: G, h: G): Run<G> {
    var full, one := StoredFile(0, U64_MAX, 0), StoredFile(0, 1, 0);
    Run([Reserve(g, U64_MAX, true), Reserve(h, 1, true), CommitLocked(g, 0, full), CommitLocked(h, 1, one)],
        [World(map[], 0, map[], {}),
         World(map[], U64_MAX, map[g := U64_MAX], {}),
         World(map[], U64_MAX, map[g := U64_MAX][h := 1], {}),
         World(map[0 := full], 0, map[g := U64_MAX][h := 1] - {g}, {g}),
         World(map[0 := full][1 := one], 0, map[g := U64_MAX][h := 1] - {g} - {h}, {g} + {h})])
  }

  lemma OverfullIsRun<G>(limits: Limits, g: G, h: G)
    requires g != h && limits.maxStoreBytes == U64_MAX
    ensures ValidRun(limits, Overfull(g, h)) && AllCovered(Overfull(g, h), 4)
  {
    var r := Overfull(g, h);
    assert StepAt(limits, r, 0) && StepAt(limits, r, 1) && StepAt(limits, r, 2) && StepAt(limits, r, 3);
  }

  lemma OverfullOverflows<G>(g: G, h: G)
    requires g != h
    ensures Total(Overfull(g, h).worlds[2].live) == U64_MAX + 1
    ensures Committed(Overfull(g, h).worlds[4].entries) == U64_MAX + 1
  {
    TwoSum(g, U64_MAX, h, 1);
    TwoSum<Uuid>(0, U64_MAX, 1, 1);
    var sizes: map<Uuid, nat> := map[0 := U64_MAX][1 := 1];
    assert Sizes(Overfull(g, h).worlds[4].entries) == sizes;
  }

  lemma TwoSum<K>(k: K, x: nat, l: K, y: nat)
    requires k != l
    ensures Total(map[k := x][l := y]) == x + y
  {
    var none: map<K, nat> := map[];
    TotalSet(map[k := x], l, y);
    TotalSet(none, k, x);
    assert none[k := x] == map[k := x] && map[k := x] - {l} == map[k := x] && none - {k} == none;
  }

  // The books balance and the cap holds in every reachable state, for covered commits, if and only if the cap is
  // below `u64::MAX`.
  lemma BooksBalanceIff<G(!new)>(limits: Limits, g: G, h: G)
    requires limits.maxStoreBytes <= U64_MAX && g != h
    ensures AlwaysConserved<G>(limits) <==> limits.maxStoreBytes < U64_MAX
    ensures AlwaysWithinCap<G>(limits) <==> limits.maxStoreBytes < U64_MAX
  {
    if limits.maxStoreBytes < U64_MAX {
      forall r: Run<G>, n: nat | ValidRun(limits, r) && n <= |r.actions|
        ensures Conserved(limits, r.worlds[n]) && (AllCovered(r, n) ==> WithinCap(limits, r.worlds[n]))
      {
        InFlightIsConserved(limits, r, n);
        if AllCovered(r, n) { CapIsNeverExceeded(limits, r, n); }
      }
    } else {
      OverfullIsRun(limits, g, h);
      OverfullOverflows(g, h);
      assert !Conserved(limits, Overfull(g, h).worlds[2]);
      assert !WithinCap(limits, Overfull(g, h).worlds[4]);
    }
  }

  /* ---------- Reservations are released once ---------- */

  // Successful reservations and releases of one guard, counted over the first `n` steps.
  ghost function Reserved<G>(r: Run<G>, g: G, n: nat): nat
    requires n <= |r.actions|
  {
    if n == 0 then 0
    else
      var a := r.actions[n - 1];
      Reserved(r, g, n - 1) + if a.Reserve? && a.admitted && a.guard == g then 1 else 0
  }

  // A step that gives bytes of `g` back: its commit, or the drop of a guard still armed.
  ghost function Released<G>(r: Run<G>, g: G, n: nat): nat
    requires n <= |r.actions| && |r.worlds| == |r.actions| + 1
  {
    if n == 0 then 0
    else
      var w, w' := r.worlds[n - 1], r.worlds[n];
      Released(r, g, n - 1) + if g in w.live && g !in w'.live then 1 else 0
  }

  // Each reservation is live until it is released, and is released exactly once: never twice, and by nothing
  // but its own commit or drop.
  lemma {:induction false} ReleasedExactlyOnce<G>(limits: Limits, r: Run<G>, g: G, n: nat)
    requires ValidRun(limits, r) && n <= |r.actions|
    ensures Reserved(r, g, n) == Released(r, g, n) + if g in r.worlds[n].live then 1 else 0
    ensures n > 0 && g in r.worlds[n - 1].live && g !in r.worlds[n].live ==>
              (r.actions[n - 1].CommitLocked? || r.actions[n - 1].Drop?) && r.actions[n - 1].guard == g
  {
    if n != 0 {
      ReleasedExactlyOnce(limits, r, g, n - 1);
      assert StepAt(limits, r, n - 1);
    }
  }
}
