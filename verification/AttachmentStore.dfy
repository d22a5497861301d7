// The attachment store and its guards as objects: every method is one or more steps of `Attachments.World`.
module AttachmentStore {
  import opened Prelude
  import opened MapSums
  import opened Attachments

  class AttachmentStore {
    const limits: Limits
    const maxDownloadBytes: nat
    var entries: map<Uuid, StoredFile>
    var inFlight: nat
    ghost var live: map<QuotaGuard, nat>
    ghost var committing: set<QuotaGuard>

    ghost predicate Valid()
      reads this, live.Keys
    {
      && live.Keys !! committing
      && forall g :: g in live ==> g.store == this && g.armed && g.bytes == live[g]
    }

    ghost function World(): World<QuotaGuard>
      reads this
    {
      Attachments.World(entries, inFlight, live, committing)
    }

    constructor (limits: Limits, maxDownloadBytes: nat)
      ensures Valid() && this.limits == limits && this.maxDownloadBytes == maxDownloadBytes
      ensures World() == Attachments.World(map[], 0, map[], {})
    {
      this.limits, this.maxDownloadBytes := limits, maxDownloadBytes;
      entries, inFlight, live, committing := map[], 0, map[], {};
    }

    method CommittedLocked() returns (total: nat)
      ensures total == Committed(entries)
    {
      total := 0;
      var left := entries.Keys;
      assert Sizes(entries) - left == map[];
      while left != {}
        invariant left <= entries.Keys
        invariant total == Total(Sizes(entries) - left)
        decreases |left|
      {
        var u :| u in left;
        ghost var seen := Sizes(entries) - left;
        assert Sizes(entries) - (left - {u}) == seen[u := entries[u].size];
        TotalSet(seen, u, entries[u].size);
        assert seen - {u} == seen;
        total := total + entries[u].size;
        left := left - {u};
      }
      assert Sizes(entries) - left == Sizes(entries);
    }

    method TryReserve(bytes: nat) returns (guard: QuotaGuard?)
      requires Valid()
      modifies this
      ensures Valid() && entries == old(entries)
      ensures guard == null ==> !Admits(limits, Committed(entries), old(inFlight), bytes) && World() == old(World())
      ensures guard != null ==> fresh(guard) && guard in live && guard.bytes == bytes && guard.store == this
                                && Step(limits, old(World()), Reserve(guard, bytes, true), World())
    {
      var committed := CommittedLocked();
      var projected := SatAdd(SatAdd(committed, inFlight), bytes);
      if projected > limits.maxStoreBytes { return null; }
      inFlight := SatAdd(inFlight, bytes);
      guard := new QuotaGuard(this, bytes);
      live := live[guard := bytes];
    }

    // `commit`: registers the file and releases the whole reservation under one lock, then disarms the guard.
    method Commit(guard: QuotaGuard, uuid: Uuid, attachmentId: nat, size: nat, now: int)
      returns (stored: StoredFile, ghost locked: World<QuotaGuard>)
      requires Valid() && guard in live
      modifies this, guard
      ensures Valid() && stored == StoredFile(attachmentId, size, now)
      ensures Step(limits, old(World()), CommitLocked(guard, uuid, stored), locked)
      ensures Step(limits, locked, Disarm(guard), World())
    {
      stored := StoredFile(attachmentId, size, now);
      entries := entries[uuid := stored];
      inFlight := SatSub(inFlight, guard.bytes);
      live, committing := live - {guard}, committing + {guard};
      locked := World();
      guard.Disarm();
      committing := committing - {guard};
    }

    method Lookup(uuid: Uuid, now: int) returns (found: Option<StoredFile>)
      requires Valid()
      modifies this
      ensures Valid() && Step(limits, old(World()), Get(uuid, now, found), World())
      ensures found.Some? ==> now - found.value.createdAt < limits.expiresAfter
    {
      var expired := uuid in entries && now - entries[uuid].createdAt >= limits.expiresAfter;
      if !expired {
        return if uuid in entries then Some(entries[uuid]) else None;
      }
      entries := entries - {uuid};
      found := None;
    }

    // The map side of `sweep_expired`: `uuids` names the directories the walk found stale and removed.
    method SweepExpired(uuids: seq<Uuid>)
      requires Valid()
      modifies this
      ensures Valid() && Step(limits, old(World()), Sweep(set u | u in uuids), World())
    {
      var i := 0;
      while i < |uuids|
        invariant 0 <= i <= |uuids| && Valid()
        invariant World() == old(World()).(entries := old(entries) - set u | u in uuids[..i])
      {
        assert uuids[..i + 1] == uuids[..i] + [uuids[i]];
        entries := entries - {uuids[i]};
        i := i + 1;
      }
      assert uuids[..i] == uuids;
    }

    // The most bytes a reservation could be grown to now.
    ghost function Room(guard: QuotaGuard): int
      reads this, guard
    {
      guard.bytes + limits.maxStoreBytes - Committed(entries) - inFlight
    }

    // One item of the stream: counts it, enforces the download cap, and grows the reservation to cover it.
    method Receive(guard: QuotaGuard, event: StreamEvent, written: nat) returns (result: Result<nat, DownloadError>)
      requires Valid() && guard in live && written <= guard.bytes
      modifies this, guard
      ensures Valid() && guard in live
      ensures entries == old(entries) && committing == old(committing) && live - {guard} == old(live) - {guard}
      ensures result.Ok? ==> event.Chunk? && event.stored
                             && result.value == SatAdd(written, event.len) <= Min(guard.bytes, maxDownloadBytes)
      ensures limits.maxStoreBytes < U64_MAX && Sound(limits, old(World())) ==>
                && Sound(limits, World()) && Room(guard) == old(Room(guard))
                && (result.Ok? <==> Takes(event, written, maxDownloadBytes, old(Room(guard))))
                && (result.Err? ==> Because(result.error, event, written, maxDownloadBytes, old(Room(guard))))
    {
      if event.Failed? { return Err(StreamFailed); }
      var total := SatAdd(written, event.len);
      if total > maxDownloadBytes { return Err(TooLarge); }
      if total > guard.bytes {
        var deficit := SatSub(total, guard.bytes);
        ghost var before := World();
        var extended := guard.Extend(deficit);
        StepKeepsSound(limits, before, Extend(guard, deficit, extended), World());
        if !extended { return Err(StoreFull); }
        assert guard.bytes >= total;
      }
      if !event.stored { return Err(WriteFailed); }
      result := Ok(total);
    }

    // The loop over the stream: the bytes written, or the first failure.
    method Stream(guard: QuotaGuard, events: seq<StreamEvent>) returns (result: Result<nat, DownloadError>)
      requires Valid() && guard in live
      modifies this, guard
      ensures Valid() && guard in live && live - {guard} == old(live) - {guard}
      ensures entries == old(entries) && committing == old(committing)
      ensures result.Ok? ==> result.value == Written(events) <= guard.bytes
                             && (|events| > 0 ==> result.value <= maxDownloadBytes)
                             && forall m :: 0 <= m < |events| ==> events[m].Chunk? && events[m].stored
      ensures limits.maxStoreBytes < U64_MAX && Sound(limits, old(World())) ==>
                && Sound(limits, World())
                && (result.Ok? <==> Taken(events, |events|, maxDownloadBytes, old(Room(guard))))
                && (result.Err? ==> exists i :: FailsAt(result.error, events, i, maxDownloadBytes, old(Room(guard))))
    {
      ghost var room := Room(guard);
      ghost var sound := limits.maxStoreBytes < U64_MAX && Sound(limits, World());
      var written, i := 0, 0;
      while i < |events|
        invariant 0 <= i <= |events|
        invariant Valid() && guard in live && live - {guard} == old(live) - {guard}
        invariant entries == old(entries) && committing == old(committing)
        invariant written == Written(events[..i]) <= guard.bytes
        invariant i > 0 ==> written <= maxDownloadBytes
        invariant forall m :: 0 <= m < i ==> events[m].Chunk? && events[m].stored
        invariant sound ==> Sound(limits, World()) && Room(guard) == room
        invariant sound ==> Taken(events, i, maxDownloadBytes, room)
      {
        WrittenNext(events, i);
        var received := Receive(guard, events[i], written);
        if received.Err? {
          assert sound ==> FailsAt(received.error, events, i, maxDownloadBytes, room);
          return Err(received.error);
        }
        if sound { TakenNext(events, i, maxDownloadBytes, room); }
        written := received.value;
        i := i + 1;
      }
      assert events[..i] == events;
      result := Ok(written);
    }

    /** `download_and_commit`: streams chunks under the download cap, growing the reservation when the stream
        outruns it, and commits what was written. On any failure the reservation is dropped. `opening` is the
        failure of the request or of the file's creation, if there is one. `Downloads` interleaves many of these. */
    method DownloadAndCommit(guard: QuotaGuard, opening: Option<DownloadError>, events: seq<StreamEvent>, uuid: Uuid,
                             attachmentId: nat, now: int)
      returns (result: Result<StoredFile, DownloadError>)
      requires Valid() && guard in live
      modifies this, guard
      ensures Valid() && guard !in committing && live == old(live) - {guard}
      ensures opening.Some? ==> result == Err(opening.value)
      ensures result.Ok? ==> result.value == StoredFile(attachmentId, Written(events), now)
                             && (|events| > 0 ==> Written(events) <= maxDownloadBytes)
                             && (forall m :: 0 <= m < |events| ==> events[m].Chunk? && events[m].stored)
                             && entries == old(entries)[uuid := result.value]
      ensures result.Err? ==> entries == old(entries)
      ensures limits.maxStoreBytes < U64_MAX && Sound(limits, old(World())) ==>
                && Sound(limits, World())
                && (result.Ok? <==> opening.None? && Taken(events, |events|, maxDownloadBytes, old(Room(guard))))
                && (opening.None? && result.Err? ==>
                      exists i :: FailsAt(result.error, events, i, maxDownloadBytes, old(Room(guard))))
    {
      if opening.Some? {
        Release(guard);
        return Err(opening.value);
      }
      var streamed := Stream(guard, events);
      if streamed.Err? {
        Release(guard);
        return Err(streamed.error);
      }
      ghost var before := World();
      var file, locked := Commit(guard, uuid, attachmentId, streamed.value, now);
      if limits.maxStoreBytes < U64_MAX && Sound(limits, before) {
        StepKeepsSound(limits, before, CommitLocked(guard, uuid, file), locked);
        StepKeepsSound(limits, locked, Disarm(guard), World());
      }
      result := Ok(file);
    }

    // The reservation going out of scope.
    method Release(guard: QuotaGuard)
      requires Valid() && guard in live
      modifies this, guard
      ensures Valid() && Step(limits, old(World()), Drop(guard), World())
      ensures limits.maxStoreBytes < U64_MAX && Sound(limits, old(World())) ==> Sound(limits, World())
    {
      ghost var before := World();
      guard.Drop();
      StepKeepsSound(limits, before, Drop(guard), World());
    }
  }

  datatype StreamEvent = Chunk(len: nat, stored: bool) | Failed

  datatype DownloadError = RequestFailed | CreateFailed | StreamFailed | TooLarge | StoreFull | WriteFailed

  // A chunk is taken when it is stored and the bytes so far fit the download cap and the room in the store.
  ghost predicate Takes(event: StreamEvent, written: nat, maxDownload: nat, room: int) {
    event.Chunk? && event.stored && SatAdd(written, event.len) <= maxDownload && FitsRoom(written, event, room)
  }

  // The reservation covers what was written before, so only a chunk that outgrows it can lack room.
  ghost predicate FitsRoom(written: nat, event: StreamEvent, room: int) {
    event.Chunk? ==> SatAdd(written, event.len) <= room
  }

  // The first `n` chunks are taken.
  ghost predicate Taken(events: seq<StreamEvent>, n: nat, maxDownload: nat, room: int)
    requires n <= |events|
  {
    forall i :: 0 <= i < n ==> Takes(events[i], Written(events[..i]), maxDownload, room)
  }

  // Why a chunk is refused, in the order the causes are looked for.
  ghost predicate Because(error: DownloadError, event: StreamEvent, written: nat, maxDownload: nat, room: int) {
    match error
    case RequestFailed => false
    case CreateFailed => false
    case StreamFailed => event.Failed?
    case TooLarge => event.Chunk? && SatAdd(written, event.len) > maxDownload
    case StoreFull => event.Chunk? && SatAdd(written, event.len) <= maxDownload && !FitsRoom(written, event, room)
    case WriteFailed =>
      && event.Chunk? && SatAdd(written, event.len) <= maxDownload && FitsRoom(written, event, room)
      && !event.stored
  }

  // The first chunk not taken, and why.
  ghost predicate FailsAt(error: DownloadError, events: seq<StreamEvent>, i: int, maxDownload: nat, room: int) {
    && 0 <= i < |events| && Taken(events, i, maxDownload, room)
    && Because(error, events[i], Written(events[..i]), maxDownload, room)
  }

  // Bytes received, counted as the code counts them.
  function Written(events: seq<StreamEvent>): nat {
    if events == [] then 0
    else SatAdd(Written(events[..|events| - 1]), if events[|events| - 1].Chunk? then events[|events| - 1].len else 0)
  }

  function TotalLength(events: seq<StreamEvent>): nat {
    if events == [] then 0 else (if events[0].Chunk? then events[0].len else 0) + TotalLength(events[1..])
  }

  lemma {:induction false} LengthOfLast(events: seq<StreamEvent>)
    requires events != []
    ensures var last := events[|events| - 1];
            TotalLength(events) == TotalLength(events[..|events| - 1]) + if last.Chunk? then last.len else 0
  {
    if |events| > 1 {
      LengthOfLast(events[1..]);
      assert events[..|events| - 1][1..] == events[1..][..|events| - 2];
    }
  }

  // The count is the sum of the chunks' lengths, unless that is beyond 64 bits.
  lemma {:induction false} WrittenIsTotal(events: seq<StreamEvent>)
    ensures Written(events) == Min(TotalLength(events), U64_MAX)
  {
    if events != [] {
      WrittenIsTotal(events[..|events| - 1]);
      LengthOfLast(events);
    }
  }

  lemma WrittenNext(events: seq<StreamEvent>, i: nat)
    requires i < |events|
    ensures Written(events[..i + 1]) == SatAdd(Written(events[..i]), if events[i].Chunk? then events[i].len else 0)
  {
    assert events[..i + 1][..i] == events[..i];
  }

  lemma TakenNext(events: seq<StreamEvent>, i: nat, maxDownload: nat, room: int)
    requires i < |events| && Taken(events, i, maxDownload, room)
    requires Takes(events[i], Written(events[..i]), maxDownload, room)
    ensures Taken(events, i + 1, maxDownload, room)
  {}

  class QuotaGuard {
    const store: AttachmentStore
    var bytes: nat
    var armed: bool

    constructor (store: AttachmentStore, bytes: nat)
      ensures this.store == store && this.bytes == bytes && armed
    {
      this.store, this.bytes, armed := store, bytes, true;
    }

    method Extend(additional: nat) returns (admitted: bool)
      requires store.Valid() && this in store.live
      modifies store, this
      ensures store.Valid()
      ensures Step(store.limits, old(store.World()), Attachments.Extend(this, additional, admitted), store.World())
    {
      var committed := store.CommittedLocked();
      var projected := SatAdd(SatAdd(committed, store.inFlight), additional);
      if projected > store.limits.maxStoreBytes { return false; }
      store.inFlight := SatAdd(store.inFlight, additional);
      bytes := SatAdd(bytes, additional);
      store.live := store.live[this := bytes];
      admitted := true;
    }

    method Disarm()
      modifies this`armed
      ensures !armed
    {
      armed := false;
    }

    method Drop()
      requires store.Valid() && this !in store.committing && (armed <==> this in store.live)
      modifies store, this
      ensures store.Valid() && Step(store.limits, old(store.World()), Attachments.Drop(this), store.World())
    {
      if !armed { return; }
      store.inFlight := SatSub(store.inFlight, bytes);
      store.live := store.live - {this};
    }
  }
}
