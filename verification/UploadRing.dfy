/**
 The upload cache of components/solar_logger/solar_logger.c: a ring of slots with a write index, an
 upload index, an overflow flag and an `uploaded` bit per slot.
 */
module UploadRing {
  import opened Fifo

  const CAPACITY: int := 12352
  const CHUNK: int := 30

  /** A cached measurement: its time stamp, and its other fields, which nothing here looks at. */
  datatype Record = Record(ts: int, fields: seq<int>)

  datatype Slot = Slot(record: Record, uploaded: bool)

  /** How one round of the upload loop ends. */
  datatype Round = AllUploaded | More | Complete

  /** A pointer to a line of text that stands for a record. */
  datatype Line = Uninitialised | Freed | Allocated(record: Record)

  datatype Info = Info(numOfCachedValues: int, oldestTsIndex: int, oldestTs: int, newestTs: int)

  /** The data base: what it has stored, and sends that may fail. */
  class Database {
    var stored: seq<Record>
    ghost var failures: nat

    constructor ()
      ensures stored == [] && failures == 0
    {
      stored, failures := [], 0;
    }

    method Send(records: seq<Record>) returns (ok: bool)
      modifies this
      ensures stored == if ok then old(stored) + records else old(stored)
      ensures failures == if ok then old(failures) else old(failures) + 1
    {
      ok := *;
      if ok {
        stored := stored + records;
      } else {
        failures := failures + 1;
      }
    }
  }

  // ----- positions in the ring

  /** How many slots `k` lies behind `u`, going round. */
  function Distance(u: int, k: int): int {
    if k >= u then k - u else k - u + CAPACITY
  }

  function Next(k: int): int {
    if k + 1 >= CAPACITY then 0 else k + 1
  }

  class SolarLogger {
    var cache_index: int
    var cache_overflow: bool
    var upload_index: int
    var cached_values: array<Slot>
    var cached_values_info: Info
    var send_live_mode: bool
    var cached_values_local: int

    /** The abstract state, see module `Fifo`. */
    ghost var log: Log<Record>

    /** The number of the record in slot 0 in the present round. */
    ghost function Round(): int
      reads this`cache_index, this`log
    {
      |log.appended| - cache_index
    }

    /** The number of the record that slot `k` holds. */
    ghost function Number(k: int): int
      reads this`cache_index, this`log
    {
      if k < cache_index then Round() + k else Round() - CAPACITY + k
    }

    ghost predicate Written(k: int)
      reads this`cache_index, this`log
    {
      0 <= k < CAPACITY && 0 <= Number(k)
    }

    ghost predicate Valid()
      reads this`cached_values, this`cache_index, this`upload_index, this`cache_overflow, this`cached_values_info, this`log
      reads cached_values
    {
      && Indices() && Slots()
      && log.head <= |log.appended| <= log.head + CAPACITY && Sound(log, CAPACITY)
      && upload_index == Position(log.head)
      && InfoValid()
    }

    /** The slot of a record that is still in the ring. */
    ghost function Position(number: int): int
      reads this`cache_index, this`log
    {
      if number >= Round() then number - Round() else number - Round() + CAPACITY
    }

    ghost predicate Indices()
      reads this`cached_values, this`cache_index, this`upload_index, this`cache_overflow, this`log
    {
      && cached_values.Length == CAPACITY
      && 0 <= cache_index < CAPACITY && 0 <= upload_index < CAPACITY
      && (if cache_overflow then Round() >= CAPACITY else Round() == 0)
    }

    /** Each written slot holds its record, and its flag says whether that is still pending. */
    ghost predicate Slots()
      requires Indices()
      reads this`cached_values, this`cache_index, this`upload_index, this`cache_overflow, this`log, cached_values
    {
      forall k :: Written(k) ==> cached_values[k] == Slot(log.appended[Number(k)], Number(k) < log.head)
    }

    /** The metadata describes the records that the ring still holds. */
    ghost predicate InfoValid()
      reads this`cache_index, this`cache_overflow, this`cached_values_info, this`log
    {
      var t := |log.appended|;
      var held := if t < CAPACITY then t else CAPACITY;
      t > 0 ==>
        cached_values_info == Info(held, if cache_overflow then cache_index else 0,
                                   log.appended[t - held].ts, log.appended[t - 1].ts)
    }

    /**
     The slots not yet uploaded, among those written, are the circular range that starts at the
     upload index: none when nothing is pending, all when the ring is full.
     */
    lemma PendingRange(k: int)
      requires Valid() && Written(k)
      ensures !cached_values[k].uploaded <==> Distance(upload_index, k) < |log.appended| - log.head
      ensures !cached_values[k].uploaded ==> Number(k) == log.head + Distance(upload_index, k)
    {
    }

    /** What the metadata says of the records that the ring still holds. */
    lemma InfoDescribes()
      requires Valid() && log.appended != []
      ensures var t, held := |log.appended|, cached_values_info.numOfCachedValues;
        && held == (if t < 12352 then t else 12352)
        && cached_values_info.newestTs == log.appended[t - 1].ts
        && cached_values_info.oldestTs == log.appended[t - held].ts
        && 0 <= cached_values_info.oldestTsIndex < 12352
        && cached_values[cached_values_info.oldestTsIndex].record == log.appended[t - held]
    {
      assert Written(cached_values_info.oldestTsIndex);
    }

    /** Between two calls the counter of `solar_logger_post_data` is below the chunk size. */
    ghost predicate Ready()
      reads this, cached_values
    {
      Valid() && 0 <= cached_values_local < CHUNK
    }

    /** The state behind `solar_logger_init` when nothing was cached before. */
    constructor ()
      ensures Ready() && log == Empty() && fresh(cached_values)
    {
      cached_values := new Slot[CAPACITY];
      cache_index, cache_overflow, upload_index := 0, false, 0;
      send_live_mode, cached_values_local := false, 0;
      cached_values_info := Info(0, 0, 0, 0);
      log := Empty();
    }
  
    /** `solar_logger_init` and `solar_logger_deinit`, called in turn. */
    method Reinit()
      modifies this
      ensures Ready() && log == Empty() && fresh(cached_values)
    {
      cached_values := new Slot[CAPACITY];
      cache_index, cache_overflow, upload_index := 0, false, 0;
      send_live_mode, cached_values_local := false, 0;
      cached_values_info := cached_values_info.(numOfCachedValues := 0);
      log := Empty();
    }

    /** `update_cached_values`: a record is cached, over the oldest one when the ring is full. */
    method UpdateCachedValues(fields: seq<int>, ts: int)
      requires Valid()
      modifies this`cache_index, this`cache_overflow, this`upload_index, this`cached_values_info, this`log, cached_values
      ensures Valid()
      ensures log == Append(old(log), Record(ts % 0x1_0000_0000, fields), CAPACITY)
      ensures cache_index == Next(old(cache_index))
      ensures upload_index == if |old(Pending(log))| == CAPACITY then Next(old(upload_index)) else old(upload_index)
    {
      hide Sound, InfoValid, Slots;
      var r := Record(ts % 0x1_0000_0000, fields);
      ghost var was := log;
      Store(r);
      if cache_overflow {
        cached_values_info := cached_values_info.(numOfCachedValues := CAPACITY, oldestTsIndex := cache_index);
        MoveUploadIndex(cached_values_info.oldestTsIndex, was, r);
      }
      DropOldest(was, r);
      UpdateInfo();
      AppendSound(was, r, CAPACITY);
    }

    /** The record that a full ring gives up is the one that was overwritten. */
    ghost method DropOldest(was: Log<Record>, r: Record)
      requires Indices() && Slots()
      requires log == was.(appended := was.appended + [r]) && was.head <= |was.appended| <= was.head + CAPACITY
      modifies this`log
      ensures log == Append(was, r, CAPACITY) && Indices() && Slots()
    {
      log := Append(was, r, CAPACITY);
    }

    /** Writes the slot at the write index and advances the index. */
    method Store(r: Record)
      requires Indices() && Slots() && log.head <= |log.appended|
      modifies this`cache_index, this`cache_overflow, this`log, cached_values
      ensures Indices() && Slots()
      ensures log == old(log).(appended := old(log.appended) + [r])
      ensures cache_index == Next(old(cache_index))
      ensures forall n :: |log.appended| - CAPACITY <= n < |log.appended| ==> Position(n) == old(Position(n))
    {
      cached_values[cache_index] := Slot(r, false);
      cache_index := cache_index + 1;
      if cache_index >= CAPACITY {
        cache_index := 0;
        cache_overflow := true;
      }
      log := log.(appended := log.appended + [r]);
    }

    /** The oldest record has been overwritten: the upload index moves on if it was still pending. */
    method MoveUploadIndex(oldest: int, ghost was: Log<Record>, ghost r: Record)
      requires Indices() && Slots() && cache_overflow && oldest == cache_index
      requires log == was.(appended := was.appended + [r]) && was.head <= |was.appended| <= was.head + CAPACITY
      requires upload_index == if |was.appended| - was.head == CAPACITY
                               then (if cache_index == 0 then CAPACITY - 1 else cache_index - 1)
                               else Position(was.head)
      modifies this`upload_index
      ensures Indices() && Slots()
      ensures upload_index == Position(Append(was, r, CAPACITY).head)
      ensures upload_index == if |was.appended| - was.head == CAPACITY then Next(old(upload_index)) else old(upload_index)
    {
      if (oldest > upload_index && !cached_values[oldest].uploaded)
         || (oldest == 0 && upload_index == CAPACITY - 1 && !cached_values[oldest].uploaded) {
        upload_index := oldest;
      }
    }

    method UpdateInfo()
      requires Indices() && Slots()
      requires cache_overflow ==> cached_values_info.numOfCachedValues == CAPACITY && cached_values_info.oldestTsIndex == cache_index
      modifies this`cached_values_info
      ensures InfoValid()
    {
      if cache_overflow {
        if cache_index == 0 {
          cached_values_info := cached_values_info.(newestTs := cached_values[CAPACITY - 1].record.ts,
                                                    oldestTs := cached_values[0].record.ts);
        } else {
          cached_values_info := cached_values_info.(newestTs := cached_values[cache_index - 1].record.ts,
                                                    oldestTs := cached_values[cache_index].record.ts);
        }
      } else {
        cached_values_info := cached_values_info.(numOfCachedValues := cache_index);
        if cache_index != 0 {
          cached_values_info := cached_values_info.(oldestTs := cached_values[0].record.ts,
                                                    newestTs := cached_values[cache_index - 1].record.ts);
        } else {
          cached_values_info := cached_values_info.(oldestTs := 0, newestTs := 0);
        }
        cached_values_info := cached_values_info.(oldestTsIndex := 0);
      }
    }
  
    // ----- uploading

    /** The database holds what was there before and the delivered records, in order. */
    ghost predicate InStep(db: Database, before: seq<Record>)
      reads this`log, db
    {
      Sound(log, CAPACITY) && SoundNumbers(log) && db.stored == before + Delivered(log)
    }

    /** Sets the flags of a chunk that was sent. */
    method MarkUploaded(count: int)
      requires Indices() && 0 <= count <= CAPACITY
      modifies cached_values
      ensures forall k :: 0 <= k < CAPACITY ==>
        cached_values[k] == if Distance(upload_index, k) < count then old(cached_values[k]).(uploaded := true) else old(cached_values[k])
    {
      for i := 0 to count
        invariant forall k :: 0 <= k < CAPACITY ==>
          cached_values[k] == if Distance(upload_index, k) < i then old(cached_values[k]).(uploaded := true) else old(cached_values[k])
      {
        if upload_index + i < CAPACITY {
          cached_values[upload_index + i] := cached_values[upload_index + i].(uploaded := true);
        } else {
          cached_values[upload_index + i - CAPACITY] := cached_values[upload_index + i - CAPACITY].(uploaded := true);
        }
      }
    }

    /** What happens to the cache when a chunk was sent. */
    method ChunkSent(count: int)
      requires Valid() && 0 < count <= |log.appended| - log.head
      modifies this`upload_index, this`log, cached_values
      ensures Valid() && log == Deliver(old(log), count)
    {
      hide Sound;
      ghost var was := log;
      MarkUploaded(count);
      upload_index := upload_index + count;
      if upload_index >= CAPACITY {
        upload_index := upload_index - CAPACITY;
      }
      log := Deliver(log, count);
      DeliverSound(was, count, CAPACITY);
    }
  
    /** The slot of the newest record. */
    ghost function Newest(): int
      reads this`cache_index
    {
      if cache_index == 0 then CAPACITY - 1 else cache_index - 1
    }

    /**
     One round of the upload loop up to the send: writes the line of the `cnt`-th pending record and
     tells whether the chunk is complete.  Something is pending, so the test for "all uploaded" at
     the head of the loop never succeeds.
     */
    method NextLine(lines: array<Line>, cnt: int) returns (round: Round)
      requires Valid() && 0 <= cnt < CHUNK && cnt < |log.appended| - log.head && Filled(lines[..], cnt)
      modifies lines
      ensures round != AllUploaded
      ensures round == More ==> cnt + 1 < CHUNK && cnt + 1 < |log.appended| - log.head && Filled(lines[..], cnt + 1)
      ensures round == Complete ==>
        && (cnt + 1 == CHUNK || cnt + 1 == |log.appended| - log.head)
        && Concatenated(lines[..]) == log.appended[log.head..log.head + cnt + 1]
        && forall k :: 0 <= k < lines.Length ==> lines[k] != Uninitialised
    {
      hide Sound, InfoValid, Slots, Indices, Concatenated, Filled;
      PendingSlot(cnt);
      CountInLines(lines[..], cnt);
      var slot := upload_index + cnt;
      if slot >= CAPACITY {
        slot := slot - CAPACITY;
      }
      if upload_index == cache_index {
        if cached_values[slot].uploaded {
          return AllUploaded;
        }
      }
      ghost var was := lines[..];
      lines[cnt] := Allocated(cached_values[slot].record);
      MoreFilled(was, lines[..], cnt);
      var newest := if cache_index == 0 then CAPACITY - 1 else cache_index - 1;
      if cnt == CHUNK - 1 || slot == newest {
        if slot == newest && cnt != CHUNK - 1 {
          ghost var now := lines[..];
          for x := cnt + 1 to CHUNK
            invariant lines[..cnt + 1] == now[..cnt + 1]
            invariant forall k :: cnt < k < x ==> lines[k] == Freed
          {
            lines[x] := Freed;
          }
          StillFilled(now, lines[..], cnt + 1);
        }
        LinesOfChunk(lines[..], cnt + 1);
        return Complete;
      }
      return More;
    }

    /** Sends a complete chunk; the cache changes only when that succeeds. */
    method SendChunk(db: Database, lines: array<Line>, count: int, ghost before: seq<Record>) returns (ok: bool)
      requires Valid() && InStep(db, before) && 0 < count <= |log.appended| - log.head
      requires Concatenated(lines[..]) == log.appended[log.head..log.head + count]
      modifies this`upload_index, this`log, cached_values, db
      ensures Valid() && InStep(db, before)
      ensures log == if ok then Deliver(old(log), count) else old(log)
      ensures db.failures == if ok then old(db.failures) else old(db.failures) + 1
    {
      hide Slots, InfoValid;
      DeliverDelivers(log, count, CAPACITY);
      DeliverSound(log, count, CAPACITY);
      ok := db.Send(Concatenated(lines[..]));
      if ok {
        ChunkSent(count);
      }
    }

    /** The indices tell an empty ring from one that is not, except when it is full. */
    lemma Drained()
      requires Valid()
      ensures log.head <= |log.appended| <= log.head + CAPACITY
      ensures |log.appended| - log.head < CAPACITY ==> (upload_index == cache_index <==> log.head == |log.appended|)
    {
      hide Slots, InfoValid;
    }

    /**
     Why an upload ended: a send failed, or the time was up behind a chunk that was sent, which is
     remembered for the next call, or else every pending record was sent.
     */
    ghost predicate Ended(failures: nat, db: Database, chunks: seq<nat>)
      reads this`log, this`send_live_mode, db
    {
      && failures <= db.failures <= failures + 1
      && (send_live_mode ==> log.head < |log.appended| && db.failures == failures)
      && (log.head < |log.appended| ==> send_live_mode || db.failures > failures)
      && (chunks == [] ==> db.failures > failures)
    }

    /**
     The upload loop of `solar_logger_post_data`: chunks of up to 30 records, oldest first, until all
     are sent, a send fails, or the time is up.
     */
    method Upload(db: Database, ghost before: seq<Record>) returns (ghost chunks: seq<nat>)
      requires Valid() && |log.appended| > log.head && InStep(db, before)
      modifies this`upload_index, this`log, this`send_live_mode, this`cached_values_local, cached_values, db
      ensures Valid() && InStep(db, before) && cached_values_local == 0
      ensures Runs(old(log), Sends(chunks), log, CAPACITY) && log.appended == old(log.appended)
      ensures forall n <- chunks :: 0 < n <= CHUNK
      ensures log.head < |log.appended| ==> forall n <- chunks :: n == CHUNK
      ensures Ended(old(db.failures), db, chunks)
    {
      hide Valid, Indices, Slots, InfoValid, Sound, Runs, Sends, InStep, Concatenated;
      send_live_mode := false;
      var lines := new Line[CHUNK](_ => Uninitialised);
      var cnt := 0;
      chunks := [];
      NoSends(log);
      while true
        invariant Valid() && InStep(db, before) && log.appended == old(log.appended)
        invariant 0 <= cnt < CHUNK && cnt < |log.appended| - log.head
        invariant Filled(lines[..], cnt)
        invariant Runs(old(log), Sends(chunks), log, CAPACITY)
        invariant forall n <- chunks :: n == CHUNK
        invariant !send_live_mode && db.failures == old(db.failures)
        modifies this`upload_index, this`log, this`send_live_mode, cached_values, db, lines
        decreases |log.appended| - log.head, CHUNK - cnt
      {
        var round := NextLine(lines, cnt);
        if round == AllUploaded {
          break;
        }
        if round == Complete {
          ghost var was := log;
          Drained();
          var ok := SendChunk(db, lines, cnt + 1, before);
          if !ok {
            break;
          }
          Drained();
          RunsSend(old(log), chunks, was, cnt + 1);
          chunks := chunks + [cnt + 1];
          cnt := 0;
          if upload_index == cache_index {
            break;
          }
          var timeout := *;
          if timeout {
            send_live_mode := true;
            break;
          }
          FreeLines(lines);
        } else {
          cnt := cnt + 1;
        }
      }
      FreeLines(lines);
      cached_values_local := 0;
    }

    /**
     `solar_logger_post_data`: the record is appended; when it is time, pending records are sent.
     `now` is what `time` returns, -1 when the clock cannot be read.  The call is a run of the
     bounded queue, and the database stays in step with it.
     */
    method PostData(db: Database, fields: seq<int>, now: int, force: bool, ghost before: seq<Record>)
      returns (ghost run: seq<Event<Record>>)
      requires Ready() && InStep(db, before)
      modifies this, cached_values, db
      ensures cached_values == old(cached_values) && Ready() && InStep(db, before)
      ensures Runs(old(log), run, log, CAPACITY)
      ensures now == -1 ==> run == [] && log == old(log) && db.failures == old(db.failures)
      ensures now != -1 ==> exists chunks: seq<nat> ::
        && run == [Appended(Record(now % 0x1_0000_0000, fields))] + Sends(chunks)
        && (forall n <- chunks :: 0 < n <= CHUNK)
        && (log.head < |log.appended| ==> forall n <- chunks :: n == CHUNK)
        && if force || old(send_live_mode) || old(cached_values_local) + 1 >= CHUNK
           then Ended(old(db.failures), db, chunks) && cached_values_local == 0
           else chunks == [] && cached_values_local == old(cached_values_local) + 1 && !send_live_mode
    {
      run := [];
      if now != -1 {
        hide InStep, Sound, Slots, InfoValid;
        ghost var chunks: seq<nat> := [];
        AppendInStep(db, before, Record(now % 0x1_0000_0000, fields));
        UpdateCachedValues(fields, now);
        var sending := force || send_live_mode;
        cached_values_local := cached_values_local + 1;
        NoSends(log);
        label appended:
        if sending || cached_values_local >= CHUNK {
          chunks := Upload(db, before);
        }
        run := [Appended(Record(now % 0x1_0000_0000, fields))] + Sends(chunks);
        assert run[1..] == Sends(chunks);
        assert Step(old(log), run[0], CAPACITY) == old@appended(log);
      }
    }

    lemma AppendInStep(db: Database, before: seq<Record>, r: Record)
      requires InStep(db, before)
      ensures var next := Append(log, r, CAPACITY);
        Sound(next, CAPACITY) && SoundNumbers(next) && db.stored == before + Delivered(next)
    {
      AppendSound(log, r, CAPACITY);
      AppendDelivers(log, r, CAPACITY);
    }

    /** The slot of the `cnt`-th pending record, counted from 0. */
    lemma PendingSlot(cnt: int)
      requires Valid() && 0 <= cnt < |log.appended| - log.head
      ensures var slot := if upload_index + cnt >= CAPACITY then upload_index + cnt - CAPACITY else upload_index + cnt;
        && 0 <= slot < cached_values.Length && 0 <= cache_index < CAPACITY
        && Written(slot) && Number(slot) == log.head + cnt
        && cached_values[slot] == Slot(log.appended[log.head + cnt], false)
        && (slot == Newest() <==> cnt == |log.appended| - log.head - 1)
    {
      hide Sound, InfoValid;
    }

    /** The first `cnt` lines are allocated and stand for the oldest pending records. */
    ghost predicate Filled(lines: seq<Line>, cnt: int)
      reads this`log
    {
      && |lines| == CHUNK && 0 <= cnt <= CHUNK && log.head + cnt <= |log.appended|
      && (forall k :: 0 <= k < cnt ==> lines[k] == Allocated(log.appended[log.head + k]))
      && (forall k :: cnt <= k < CHUNK ==> !lines[k].Allocated?)
    }

    lemma CountInLines(lines: seq<Line>, cnt: int)
      requires Filled(lines, cnt)
      ensures |lines| == CHUNK && 0 <= cnt <= CHUNK && log.head + cnt <= |log.appended|
    {
    }

    lemma MoreFilled(before: seq<Line>, lines: seq<Line>, cnt: int)
      requires Filled(before, cnt) && cnt < CHUNK && log.head + cnt < |log.appended|
      requires lines == before[cnt := Allocated(log.appended[log.head + cnt])]
      ensures Filled(lines, cnt + 1)
    {
    }

    /** Freeing the lines behind the chunk leaves the chunk alone. */
    lemma StillFilled(before: seq<Line>, lines: seq<Line>, cnt: int)
      requires Filled(before, cnt) && |lines| == CHUNK && lines[..cnt] == before[..cnt]
      requires forall k :: cnt <= k < CHUNK ==> lines[k] == Freed
      ensures Filled(lines, cnt)
    {
      forall k | 0 <= k < cnt ensures lines[k] == before[k] {
        assert lines[..cnt][k] == before[..cnt][k];
      }
    }

    lemma LinesOfChunk(lines: seq<Line>, cnt: int)
      requires Filled(lines, cnt)
      ensures Concatenated(lines) == log.appended[log.head..log.head + cnt]
      ensures forall k :: 0 <= k < cnt ==> lines[k] != Uninitialised
    {
      ConcatenatedChunk(lines, log.appended[log.head..log.head + cnt]);
    }
  }

  lemma NoSends(s: Log<Record>)
    ensures Runs(s, Sends([]), s, CAPACITY)
  {
  }

  lemma RunsSend(s: Log<Record>, chunks: seq<nat>, t: Log<Record>, n: nat)
    requires Runs(s, Sends(chunks), t, CAPACITY) && t.head + n <= |t.appended|
    ensures Runs(s, Sends(chunks + [n]), Deliver(t, n), CAPACITY)
  {
    assert Sends(chunks + [n]) == Sends(chunks) + [Sent(n)];
    var more: seq<Event<Record>> := [Sent(n)];
    assert more[1..] == [];
    assert Runs(Step(t, more[0], CAPACITY), more[1..], Deliver(t, n), CAPACITY);
    RunsCompose(s, Sends(chunks), t, more, Deliver(t, n), CAPACITY);
  }

  function Sends(chunks: seq<nat>): seq<Event<Record>> {
    seq(|chunks|, i requires 0 <= i < |chunks| => Sent(chunks[i]))
  }

  ghost predicate SoundNumbers(log: Log<Record>) {
    forall i :: 0 <= i < |log.delivered| ==> log.delivered[i] < |log.appended|
  }

  /** The records of the lines, one behind the other. */
  function Concatenated(lines: seq<Line>): seq<Record> {
    if lines == [] then []
    else if lines[0].Allocated? then [lines[0].record] + Concatenated(lines[1..])
    else Concatenated(lines[1..])
  }

  lemma {:induction false} ConcatenatedChunk(lines: seq<Line>, records: seq<Record>)
    requires |records| <= |lines|
    requires forall k :: 0 <= k < |records| ==> lines[k] == Allocated(records[k])
    requires forall k :: |records| <= k < |lines| ==> !lines[k].Allocated?
    ensures Concatenated(lines) == records
    decreases |lines|
  {
    if lines != [] {
      if records == [] {
        ConcatenatedChunk(lines[1..], []);
      } else {
        ConcatenatedChunk(lines[1..], records[1..]);
      }
    }
  }

  /** `FREE_MEM` on every entry; an entry that was never written must not be read. */
  method FreeLines(lines: array<Line>)
    requires forall k :: 0 <= k < lines.Length ==> lines[k] != Uninitialised
    modifies lines
    ensures forall k :: 0 <= k < lines.Length ==> lines[k] == Freed
  {
    for i := 0 to lines.Length
      invariant forall k :: 0 <= k < i ==> lines[k] == Freed
      invariant forall k :: i <= k < lines.Length ==> lines[k] != Uninitialised
    {
      lines[i] := Freed;
    }
  }
}
