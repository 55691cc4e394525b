/**
 The cache of polled registers (components/modbus_tcp_poll/modbus_tcp_poll.c:24-160, 228-256): a
 block keeps its last good response through four failed polls, and is zeroed by the fifth.
 */
module PollCache {
  import opened Bytes
  import opened ByteOrder
  import opened ModbusFrames

  const MAX_NUM_FAILED_REQ: nat := 5

  // ----- what a block holds after a history of polls

  datatype Outcome = Good(data: Text) | Failed

  datatype Option<T> = None | Some(value: T)

  /** The failed polls since the last good one. */
  function FailuresSince(history: seq<Outcome>): (n: nat)
    ensures n <= |history|
  {
    if history == [] || history[|history| - 1].Good? then 0 else 1 + FailuresSince(history[..|history| - 1])
  }

  function LastGood(history: seq<Outcome>): Option<Text> {
    if history == [] then None
    else match history[|history| - 1]
      case Good(data) => Some(data)
      case Failed => LastGood(history[..|history| - 1])
  }

  function Zeros(n: nat): (t: Text)
    ensures |t| == n
  {
    seq(n, _ => NUL)
  }

  /** What is cached of a block of `n` bytes. */
  function Cached(history: seq<Outcome>, n: nat): Option<Text> {
    if FailuresSince(history) >= MAX_NUM_FAILED_REQ then Some(Zeros(n)) else LastGood(history)
  }

  function Failures(k: nat): (h: seq<Outcome>)
    ensures |h| == k
  {
    seq(k, _ => Failed)
  }

  lemma {:induction false} FailuresAfter(h: seq<Outcome>, k: nat)
    ensures FailuresSince(h + Failures(k)) == FailuresSince(h) + k
    ensures LastGood(h + Failures(k)) == LastGood(h)
    decreases k
  {
    var all := h + Failures(k);
    if k == 0 {
      assert all == h;
    } else {
      assert all[..|all| - 1] == h + Failures(k - 1);
      FailuresAfter(h, k - 1);
    }
  }

  /** A good response stays cached through four failures, whatever came before it; then come zeros. */
  lemma CachedAfterGood(before: seq<Outcome>, data: Text, k: nat)
    ensures Cached(before + [Good(data)] + Failures(k), |data|) == if k < 5 then Some(data) else Some(Zeros(|data|))
  {
    var h := before + [Good(data)];
    assert h[|h| - 1] == Good(data);
    FailuresAfter(h, k);
  }

  /** Without any good response there is nothing cached until the fifth failure. */
  lemma CachedWithoutGood(n: nat, k: nat)
    ensures Cached(Failures(k), n) == if k < 5 then None else Some(Zeros(n))
  {
    FailuresAfter([], k);
    assert [] + Failures(k) == Failures(k);
  }

  /** Every history is of one of these two forms. */
  lemma {:induction false} EveryHistory(history: seq<Outcome>)
    ensures history == Failures(|history|) ||
      exists before: seq<Outcome>, data: Text, k: nat :: history == before + [Good(data)] + Failures(k)
    decreases |history|
  {
    if history != [] {
      var front, last := history[..|history| - 1], history[|history| - 1];
      if last.Good? {
        assert history == front + [Good(last.data)] + Failures(0);
      } else {
        EveryHistory(front);
        if front == Failures(|front|) {
          assert history == Failures(|history|);
        } else {
          var before: seq<Outcome>, data: Text, k: nat :| front == before + [Good(data)] + Failures(k);
          assert history == before + [Good(data)] + Failures(k + 1);
        }
      }
    }
  }

  /** One more poll: what the retry branch must leave in the cache. */
  lemma OneMorePoll(history: seq<Outcome>, outcome: Outcome, n: nat)
    ensures var more := history + [outcome];
      && FailuresSince(more) == (if outcome.Good? then 0 else FailuresSince(history) + 1)
      && Cached(more, n) == (
           if outcome.Good? then Some(outcome.data)
           else if FailuresSince(history) < 4 then Cached(history, n)
           else Some(Zeros(n)))
      && (FailuresSince(history) > 4 ==> Cached(history, n) == Some(Zeros(n)))
  {
    var more := history + [outcome];
    assert more[..|more| - 1] == history;
  }

  // ----- the state of a polling client

  class PollRegister {
    const address: nat
    const length: nat
    const functionCode: nat
    var numFailedRequests: nat

    constructor (address: nat, length: nat, functionCode: nat)
      ensures this.address == address && this.length == length && this.functionCode == functionCode
      ensures numFailedRequests == 0
    {
      this.address, this.length, this.functionCode, this.numFailedRequests := address, length, functionCode, 0;
    }
  }

  class PollData {
    const address: nat
    var data: array?<Byte>
    var length: nat

    constructor (address: nat)
      ensures this.address == address && data == null && length == 0
    {
      this.address, this.data, this.length := address, null, 0;
    }
  }

  class PollingClient {
    const registers: seq<PollRegister>
    const pollData: seq<PollData>
    ghost var history: seq<seq<Outcome>>

    /** Starts a client that has not polled anything yet. */
    constructor (registers: seq<PollRegister>)
      requires forall i :: 0 <= i < |registers| ==> registers[i].numFailedRequests == 0
      requires forall i :: 0 <= i < |registers| ==> registers[i].length <= 123
      requires forall i :: 0 <= i < |registers| ==> registers[i].address + 2 * registers[i].length < 0x10000
      requires forall i, j :: 0 <= i < j < |registers| ==> registers[i].address != registers[j].address
      ensures Valid() && this.registers == registers && history == seq(|registers|, _ => [])
    {
      var blocks: seq<PollData> := [];
      for i := 0 to |registers|
        invariant |blocks| == i
        invariant forall j :: 0 <= j < i ==>
          && fresh(blocks[j]) && blocks[j].address == registers[j].address
          && blocks[j].data == null && blocks[j].length == 0
        invariant forall j, k :: 0 <= j < k < i ==> blocks[j] != blocks[k]
      {
        var block := new PollData(registers[i].address);
        blocks := blocks + [block];
      }
      this.registers, this.pollData := registers, blocks;
      this.history := seq(|registers|, _ => []);
    }

    /** The table of blocks: no address twice, and small enough for 16-bit arithmetic. */
    ghost predicate Table() {
      && |registers| == |pollData|
      && (forall i :: 0 <= i < |registers| ==> pollData[i].address == registers[i].address)
      && (forall i :: 0 <= i < |registers| ==> registers[i].length <= 123)
      && (forall i :: 0 <= i < |registers| ==> registers[i].address + 2 * registers[i].length < 0x10000)
      && (forall i, j :: 0 <= i < j < |registers| ==> registers[i].address != registers[j].address)
      && (forall i, j :: 0 <= i < j < |registers| ==> pollData[i] != pollData[j])
    }

    /** The buffers that hold cached data. */
    ghost function Buffers(): set<array<Byte>>
      reads pollData
    {
      set p | p in pollData && p.data != null :: p.data
    }

    ghost predicate Valid()
      reads this, registers, pollData, Buffers()
    {
      && Table() && |history| == |registers|
      && forall i :: 0 <= i < |registers| ==> BlockValid(registers[i], pollData[i], history[i])
    }

    /** The entry that the loops over `registers` stop at for an address. */
    ghost function EntryOf(address: nat, from: nat): (k: nat)
      requires from <= |registers|
      ensures from <= k <= |registers|
      ensures forall i :: from <= i < k ==> registers[i].address != address
      ensures k < |registers| ==> registers[k].address == address
      decreases |registers| - from
    {
      if from == |registers| || registers[from].address == address then from else EntryOf(address, from + 1)
    }

    lemma EntryAt(i: nat)
      requires Table() && i < |registers|
      ensures EntryOf(registers[i].address, 0) == i
    {
      var k := EntryOf(registers[i].address, 0);
      assert k <= i;
    }

    /** Replaces the cached data of the block at `address`. */
    method SavePollData(address: nat, data: array<Byte>, length: nat)
      requires Table() && length <= data.Length
      modifies if EntryOf(address, 0) < |pollData| then {pollData[EntryOf(address, 0)]} else {}
      ensures var k := EntryOf(address, 0);
        k < |pollData| ==>
          && pollData[k].data != null && fresh(pollData[k].data) && pollData[k].length == length
          && pollData[k].data[..] == data[..length]
    {
      ghost var k := EntryOf(address, 0);
      var i := 0;
      while i < |registers|
        invariant i <= k
      {
        if registers[i].address == address {
          var copy := new Byte[length];
          for x := 0 to length
            invariant forall y :: 0 <= y < x ==> copy[y] == data[y]
            modifies copy
          {
            copy[x] := data[x];
          }
          pollData[i].data := copy;
          pollData[i].length := length;
          break;
        }
        i := i + 1;
      }
    }

    /** What a poll of entry `i` counts as. */
    ghost function OutcomeOf(i: nat, sent: bool, reply: Text): Outcome
      requires i < |registers| && registers[i].length < 256
    {
      var n := registers[i].length;
      if sent && Accepts(Received(reply), n) then Good(Payload(reply, n)) else Failed
    }

    /** A device that answers with all registers makes a good poll; an exception or silence a failed one. */
    lemma PollOutcomes(i: nat, message: Text, data: Text)
      requires i < |registers| && registers[i].length <= 123
      requires Decode(message).Query? && |data| == 2 * registers[i].length
      ensures OutcomeOf(i, true, SuccessFrame(message, data)) == Good(data)
      ensures OutcomeOf(i, true, ExceptionFrame(message)) == Failed
      ensures forall reply :: OutcomeOf(i, false, reply) == Failed
    {
      hide SuccessFrame, ExceptionFrame, Accepts, Received, Payload;
      SuccessIsAccepted(message, data, registers[i].length);
      ExceptionIsRejected(message, registers[i].length);
    }

    /** The body of the polling loop for entry `i`; `sent` and `reply` are what the network does. */
    method PollBlock(i: nat, sent: bool, reply: Text)
      requires Table() && i < |registers| && |history| == |registers|
      requires BlockValid(registers[i], pollData[i], history[i])
      modifies registers[i], pollData[i]
      ensures BlockValid(registers[i], pollData[i], history[i] + [OutcomeOf(i, sent, reply)])
      ensures pollData[i].data != null ==> pollData[i].data == old(pollData[i].data) || fresh(pollData[i].data)
    {
      hide Cached, FailuresSince;
      var register := registers[i];
      EntryAt(i);
      OneMorePoll(history[i], OutcomeOf(i, sent, reply), 2 * register.length);
      var buf := new Byte[register.length * 2 + 9](_ => NUL);
      var ok := ReadRaw(sent, reply, register.length, buf);
      if ok {
        register.numFailedRequests := 0;
        assert buf[..register.length * 2] == Payload(reply, register.length);
        SavePollData(register.address, buf, register.length * 2);
      } else if register.numFailedRequests < MAX_NUM_FAILED_REQ - 1 {
        register.numFailedRequests := (register.numFailedRequests + 1) % 256;
      } else {
        register.numFailedRequests := (register.numFailedRequests + 1) % 256;
        forall x | 0 <= x < register.length * 2 {
          buf[x] := NUL;
        }
        assert buf[..register.length * 2] == Zeros(register.length * 2);
        SavePollData(register.address, buf, register.length * 2);
      }
    }

    /** One poll of one entry: its history grows by the outcome, and the cache follows it. */
    method PollEntry(i: nat, sent: bool, reply: Text)
      requires Valid() && i < |registers|
      modifies this`history, registers[i], pollData[i]
      ensures Valid()
      ensures history == old(history)[i := old(history[i]) + [OutcomeOf(i, sent, reply)]]
    {
      hide BlockValid;
      PollBlock(i, sent, reply);
      history := history[i := history[i] + [OutcomeOf(i, sent, reply)]];
    }

    /** One round of the polling loop over all entries. */
    method PollAll(sent: seq<bool>, replies: seq<Text>)
      requires Valid() && |sent| == |replies| == |registers|
      modifies this`history, registers, pollData
      ensures Valid()
      ensures forall i :: 0 <= i < |registers| ==>
        history[i] == old(history[i]) + [OutcomeOf(i, sent[i], replies[i])]
    {
      for i := 0 to |registers|
        invariant Valid()
        invariant forall j :: 0 <= j < |registers| ==>
          history[j] == if j < i then old(history[j]) + [OutcomeOf(j, sent[j], replies[j])] else old(history[j])
      {
        PollEntry(i, sent[i], replies[i]);
      }
    }

    // ----- reading the cache

    /** What is cached of block `i`. */
    ghost function CachedAt(i: nat): Option<Text>
      requires i < |registers| == |history|
      reads this
    {
      Cached(history[i], 2 * registers[i].length)
    }

    ghost predicate Covers(i: nat, address: nat, length: nat)
      requires i < |registers|
    {
      registers[i].address <= address && address + length <= registers[i].address + registers[i].length
    }

    /** The first block, from `from` on, that has all the registers asked for. */
    ghost function BlockAt(address: nat, length: nat, from: nat): (k: nat)
      requires from <= |registers|
      ensures from <= k <= |registers|
      ensures k < |registers| ==> Covers(k, address, length)
      ensures forall i :: from <= i < k ==> !Covers(i, address, length)
      decreases |registers| - from
    {
      if from == |registers| || Covers(from, address, length) then from else BlockAt(address, length, from + 1)
    }

    /** The bytes of the registers asked for, in a block that covers them. */
    ghost function Slice(i: nat, address: nat, length: nat): (t: Text)
      requires i < |registers| == |history| && Covers(i, address, length)
      requires CachedAt(i).Some? && |CachedAt(i).value| == 2 * registers[i].length
      reads this
      ensures |t| == 2 * length
    {
      var off := 2 * (address - registers[i].address);
      CachedAt(i).value[off..off + 2 * length]
    }

    /** What the cache has for a request: the first block that covers it counts. */
    ghost function Answer(address: nat, length: nat): (t: Option<Text>)
      requires Valid()
      reads this, registers, pollData, Buffers()
      ensures t.Some? ==> |t.value| == 2 * length
    {
      var i := BlockAt(address, length, 0);
      if i == |registers| || CachedAt(i).None? then None else
        BlockHas(i);
        Some(Slice(i, address, length))
    }

    lemma AnswerOfBlock(i: nat, address: nat, length: nat)
      requires Valid() && i == BlockAt(address, length, 0)
      ensures Answer(address, length) ==
        if i == |registers| || pollData[i].data == null then None
        else
          var off := 2 * (address - registers[i].address);
          Some(pollData[i].data[off..off + 2 * length])
    {
      if i < |registers| {
        BlockHas(i);
      }
    }

    lemma BlockHas(i: nat)
      requires Valid() && i < |registers|
      ensures pollData[i].data == null <==> CachedAt(i).None?
      ensures pollData[i].data != null ==>
        pollData[i].data[..] == CachedAt(i).value && pollData[i].length == pollData[i].data.Length == 2 * registers[i].length
      ensures pollData[i].data == null ==> pollData[i].length == 0
    {
      assert BlockValid(registers[i], pollData[i], history[i]);
    }

    /**
     A request from a register of block `k` on, up to at most its last register, is answered from that
     block, if no block in front of it has all the registers too.
     */
    lemma BlockAnswers(k: nat, address: nat, length: nat)
      requires Valid() && k < |registers|
      requires registers[k].address <= address && address + length <= registers[k].address + registers[k].length
      requires forall i :: 0 <= i < k ==>
        !(registers[i].address <= address && address + length <= registers[i].address + registers[i].length)
      ensures match Cached(history[k], 2 * registers[k].length)
        case None => Answer(address, length) == None
        case Some(t) =>
          var from := 2 * (address - registers[k].address);
          from + 2 * length <= |t| && Answer(address, length) == Some(t[from..from + 2 * length])
    {
      hide BlockValid, Cached, BlockAt;
      FirstCovering(k, address, length);
      BlockHas(k);
    }

    lemma FirstCovering(k: nat, address: nat, length: nat)
      requires k < |registers|
      requires registers[k].address <= address && address + length <= registers[k].address + registers[k].length
      requires forall i :: 0 <= i < k ==>
        !(registers[i].address <= address && address + length <= registers[i].address + registers[i].length)
      ensures BlockAt(address, length, 0) == k
    {
      var r := BlockAt(address, length, 0);
      assert Covers(k, address, length);
    }

    /** A request that goes beyond every block is not answered. */
    lemma NoBlockAnswers(address: nat, length: nat)
      requires Valid()
      requires forall i :: 0 <= i < |registers| ==>
        !(registers[i].address <= address && address + length <= registers[i].address + registers[i].length)
      ensures Answer(address, length) == None
    {
      var r := BlockAt(address, length, 0);
    }

    /**
     Reads registers for a caller: reversed as a whole, or with the bytes of each exchanged; zeros
     when no block has them all, or nothing is cached of it.
     */
    method GetPollData(address: nat, length: nat, bigEndian: bool, data: array<Byte>)
      requires Valid() && address < 0x10000 && length < 0x10000
      requires data.Length >= 2 * length && data !in Buffers()
      modifies data
      ensures Valid()
      ensures data[2 * length..] == old(data[2 * length..])
      ensures data[..2 * length] ==
        match old(Answer(address, length))
        case None => Zeros(2 * length)
        case Some(t) => if bigEndian then Reverse(t) else SwapPairs(t)
    {
      hide Reverse, SwapPairs, BlockValid, Cached, Answer, BlockAt, Zeros, Valid;
      IsTable();
      ghost var k := BlockAt(address, length, 0);
      AnswerOfBlock(k, address, length);
      if k < |registers| {
        BlockHas(k);
        assert pollData[k].data != null ==> pollData[k].data in Buffers();
      }
      var i := FindBlock(address, length);
      if i < |registers| {
        var source := pollData[i].data;
        if source == null {
          i := |registers|;
        } else {
          CopyOut(source, (address - registers[i].address) * 2 % 0x10000, length, bigEndian, data);
        }
      }
      if i == |registers| {
        ClearOut(length, data);
      }
    }

    lemma IsTable()
      requires Valid()
      ensures Table()
    {
    }

    /** The search that the lookups of whole blocks begin with. */
    method FindBlock(address: nat, length: nat) returns (i: nat)
      requires Table() && address < 0x10000 && length < 0x10000
      ensures i == BlockAt(address, length, 0)
    {
      i := 0;
      while i < |registers|
        invariant i <= |registers| && BlockAt(address, length, 0) == BlockAt(address, length, i)
      {
        var start := registers[i].address;
        var end := (start + registers[i].length) % 0x10000;
        if address >= start && address + length <= end {
          break;
        }
        i := i + 1;
      }
    }

    // ----- raw reads

    /**
     The raw lookup takes the length of the cached data, which is in bytes, for a number of
     registers: the window of a block is twice the block, and empty while nothing is cached.
     */
    ghost predicate InWindow(i: nat, address: nat, length: nat)
      requires Valid() && i < |registers|
      reads this, registers, pollData, Buffers()
    {
      var window := if CachedAt(i).Some? then 2 * registers[i].length else 0;
      registers[i].address <= address && address + length <= registers[i].address + window
    }

    /** The block that the raw lookup takes: the first whose window has the registers. */
    ghost function RawBlockAt(address: nat, length: nat, from: nat): (k: nat)
      requires Valid() && from <= |registers|
      reads this, registers, pollData, Buffers()
      ensures from <= k <= |registers|
      ensures k < |registers| ==> InWindow(k, address, length)
      ensures forall i :: from <= i < k ==> !InWindow(i, address, length)
      decreases |registers| - from
    {
      if from == |registers| || InWindow(from, address, length) then from else RawBlockAt(address, length, from + 1)
    }

    /** The request fits into the block that the lookup takes, so that only cached bytes are read. */
    ghost predicate Answerable(address: nat, length: nat)
      requires Valid()
      reads this, registers, pollData, Buffers()
    {
      var i := RawBlockAt(address, length, 0);
      i < |registers| ==> Covers(i, address, length)
    }

    ghost function RawAnswer(address: nat, length: nat): (t: Option<Text>)
      requires Valid() && Answerable(address, length)
      reads this, registers, pollData, Buffers()
      ensures t.Some? ==> |t.value| == 2 * length
    {
      var i := RawBlockAt(address, length, 0);
      if i == |registers| || CachedAt(i).None? then None else
        BlockHas(i);
        Some(Slice(i, address, length))
    }

    lemma RawAnswerOfBlock(i: nat, address: nat, length: nat)
      requires Valid() && Answerable(address, length) && i == RawBlockAt(address, length, 0)
      ensures i < |registers| && pollData[i].data != null ==> address + length <= registers[i].address + registers[i].length
      ensures RawAnswer(address, length) ==
        if i == |registers| || pollData[i].data == null then None
        else
          var off := 2 * (address - registers[i].address);
          Some(pollData[i].data[off..off + 2 * length])
    {
      if i < |registers| {
        BlockHas(i);
      }
    }

    lemma WindowOf(i: nat, address: nat, length: nat)
      requires Valid() && i < |registers|
      ensures InWindow(i, address, length) <==>
        registers[i].address <= address && address + length <= registers[i].address + pollData[i].length
      ensures registers[i].address + pollData[i].length < 0x10000
    {
      BlockHas(i);
    }

    method FindWindow(address: nat, length: nat) returns (i: nat)
      requires Valid() && address < 0x10000 && length < 0x10000
      ensures i == old(RawBlockAt(address, length, 0))
    {
      hide InWindow, BlockValid, Cached;
      ghost var k := RawBlockAt(address, length, 0);
      forall j | 0 <= j < |registers|
        ensures InWindow(j, address, length) <==>
          registers[j].address <= address && address + length <= registers[j].address + pollData[j].length
        ensures registers[j].address + pollData[j].length < 0x10000
      {
        WindowOf(j, address, length);
      }
      i := 0;
      while i < |registers|
        invariant i <= k
      {
        var start := pollData[i].address;
        var end := (start + pollData[i].length) % 0x10000;
        if address >= start && address + length <= end {
          break;
        }
        i := i + 1;
      }
    }

    /** A copy of the registers as they came, or NULL. */
    method GetPollDataRaw(address: nat, length: nat) returns (data: array?<Byte>, outLength: nat)
      requires Valid() && address < 0x10000 && length < 0x10000 && Answerable(address, length)
      ensures data == null <==> old(RawAnswer(address, length)).None?
      ensures data != null ==>
        fresh(data) && data[..] == old(RawAnswer(address, length)).value && data.Length == outLength == 2 * length < 0x10000
    {
      hide BlockValid, Cached, InWindow, Answerable, RawAnswer, RawBlockAt;
      ghost var k := RawBlockAt(address, length, 0);
      RawAnswerOfBlock(k, address, length);
      if k < |registers| {
        WindowStart(k, address, length);
        BlockHas(k);
      }
      var i := FindWindow(address, length);
      data, outLength := null, 0;
      if i < |registers| && pollData[i].data != null {
        data := CopySlice(pollData[i].data, (address - pollData[i].address) * 2 % 0x10000, length * 2);
        outLength := length * 2 % 0x10000;
      }
    }

    lemma WindowStart(i: nat, address: nat, length: nat)
      requires Valid() && i == RawBlockAt(address, length, 0) < |registers|
      ensures registers[i].address <= address
    {
    }

    /** The same for raw requests, whose windows count the bytes of cached data as registers. */
    lemma RawBlockAnswers(k: nat, address: nat, length: nat)
      requires Valid() && k < |registers| && Cached(history[k], 2 * registers[k].length).Some?
      requires registers[k].address <= address && address + length <= registers[k].address + registers[k].length
      requires forall i :: 0 <= i < k ==>
        !(registers[i].address <= address && address + length <= registers[i].address + pollData[i].length)
      ensures Answerable(address, length)
      ensures var t, from := Cached(history[k], 2 * registers[k].length).value, 2 * (address - registers[k].address);
        from + 2 * length <= |t| && RawAnswer(address, length) == Some(t[from..from + 2 * length])
    {
      hide BlockValid, Cached, InWindow;
      var r := RawBlockAt(address, length, 0);
      WindowOf(k, address, length);
      BlockHas(k);
      if r < k {
        WindowOf(r, address, length);
      }
    }

    /**
     A request for registers of a cached block is answered from that block if and only if no
     earlier block has it in its window.
     */
    lemma RawAnswersFromBlock(k: nat, address: nat, length: nat)
      requires Valid() && k < |registers| && Covers(k, address, length) && CachedAt(k).Some?
      ensures RawBlockAt(address, length, 0) == k <==> forall i :: 0 <= i < k ==> !InWindow(i, address, length)
    {
      var r := RawBlockAt(address, length, 0);
      assert InWindow(k, address, length);
    }
  }

  // ----- the blocks of the Huawei inverter

  /** Address and length of the blocks that are polled. */
  const HUAWEI_BLOCKS: seq<(nat, nat)> :=
    [(30000, 25), (30073, 4), (32016, 100), (37000, 62), (37100, 38), (37700, 88), (47000, 1), (47086, 4)]

  ghost predicate HuaweiClient(client: PollingClient)
    reads client, client.registers, client.pollData, client.Buffers()
  {
    && client.Valid() && |client.registers| == |HUAWEI_BLOCKS|
    && forall i :: 0 <= i < |HUAWEI_BLOCKS| ==>
         (client.registers[i].address, client.registers[i].length) == HUAWEI_BLOCKS[i]
  }

  /**
   Raw requests to the Huawei blocks are answered from the block that covers them, except for
   those that end at or before register 37123 in the block of the energy meter: the doubled window
   of the battery block in front of it catches these.
   */
  lemma HuaweiRawAnswers(client: PollingClient, k: nat, address: nat, length: nat)
    requires HuaweiClient(client) && k < |HUAWEI_BLOCKS| && client.Covers(k, address, length) && length > 0
    requires forall i :: 0 <= i < |HUAWEI_BLOCKS| ==> client.CachedAt(i).Some?
    ensures client.RawBlockAt(address, length, 0) == k <==> k != 4 || address + length > 37124
  {
    client.RawAnswersFromBlock(k, address, length);
    forall i | 0 <= i < k ensures client.InWindow(i, address, length) <==> i == 3 && k == 4 && address + length <= 37124 {
      assert (client.registers[i].address, client.registers[i].length) == HUAWEI_BLOCKS[i];
      assert (client.registers[k].address, client.registers[k].length) == HUAWEI_BLOCKS[k];
    }
    if k == 4 {
      assert client.InWindow(3, address, length) <==> address + length <= 37124;
    }
  }

  /** No two Huawei blocks share a register, so each request inside one of them is answered from it. */
  lemma HuaweiAnswers(client: PollingClient, k: nat, address: nat, length: nat, t: Text)
    requires HuaweiClient(client) && k < |HUAWEI_BLOCKS| && length > 0
    requires HUAWEI_BLOCKS[k].0 <= address && address + length <= HUAWEI_BLOCKS[k].0 + HUAWEI_BLOCKS[k].1
    requires Cached(client.history[k], 2 * HUAWEI_BLOCKS[k].1) == Some(t)
    ensures var from := 2 * (address - HUAWEI_BLOCKS[k].0);
      from + 2 * length <= |t| && client.Answer(address, length) == Some(t[from..from + 2 * length])
  {
    hide Cached;
    assert (client.registers[k].address, client.registers[k].length) == HUAWEI_BLOCKS[k];
    forall i | 0 <= i < k
      ensures !(client.registers[i].address <= address && address + length <= client.registers[i].address + client.registers[i].length)
    {
      assert (client.registers[i].address, client.registers[i].length) == HUAWEI_BLOCKS[i];
    }
    client.BlockAnswers(k, address, length);
  }

  method CopySlice(source: array<Byte>, offset: nat, size: nat) returns (copy: array<Byte>)
    requires offset + size <= source.Length
    ensures fresh(copy) && copy[..] == source[offset..offset + size]
  {
    copy := new Byte[size];
    for x := 0 to size
      invariant forall y :: 0 <= y < x ==> copy[y] == source[offset + y]
      modifies copy
    {
      copy[x] := source[offset + x];
    }
  }

  /** `memset(data, 0, length * 2)` */
  method ClearOut(length: nat, data: array<Byte>)
    requires 2 * length <= data.Length
    modifies data
    ensures data[..2 * length] == Zeros(2 * length) && data[2 * length..] == old(data[2 * length..])
  {
    forall x | 0 <= x < length * 2 {
      data[x] := NUL;
    }
    assert data[..2 * length] == Zeros(2 * length);
  }

  /** The two ways in which registers are copied to a caller. */
  method CopyOut(source: array<Byte>, offset: nat, length: nat, bigEndian: bool, data: array<Byte>)
    requires offset + 2 * length <= source.Length && 2 * length <= data.Length && source != data
    requires length <= 127
    modifies data
    ensures data[2 * length..] == old(data[2 * length..])
    ensures var slice := source[offset..offset + 2 * length];
      data[..2 * length] == if bigEndian then Reverse(slice) else SwapPairs(slice)
  {
    hide Reverse, SwapPairs;
    if bigEndian {
      MemcpyReverse(data, source, offset, length * 2);
    } else {
      CopySwapped(source, offset, length, data);
    }
  }

  /** A block holds what its history says; the counter is that of the failures, in 8 bits. */
  ghost predicate BlockValid(register: PollRegister, block: PollData, history: seq<Outcome>)
    reads register, block, if block.data == null then {} else {block.data}
  {
    && register.numFailedRequests == FailuresSince(history) % 256
    && match Cached(history, 2 * register.length) {
         case None => block.data == null && block.length == 0
         case Some(t) => block.data != null && block.data[..] == t && block.length == |t| == 2 * register.length
       }
  }
}
