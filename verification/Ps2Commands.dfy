/**
 The command queue of kernel/dev/ps2kbd.c, with a port that always accepts a byte
 and requests that are not interrupted.

 Commands are numbered in the order of their requests; `heap` holds their contexts.
 */
module Ps2Commands {

  const MAX_RESEND_COUNT: nat := 3

  datatype CmdState = Queued | WaitingResponse | Success | Failed

  /** struct cmd_context; `sends` and `frees` count what happened to it */
  datatype Command = Command(
    state: CmdState, cmdByte: nat, noRetry: bool, isAsync: bool, needData: bool,
    resendCount: nat, response: nat, sends: nat, frees: nat)

  /** n times the command id */
  ghost function Times(id: nat, n: nat): seq<nat>
  {
    seq(n, _ => id)
  }

  /** What is on the wire when the first n commands have been sent as often as they say. */
  ghost function Wire(heap: seq<Command>, n: nat): seq<nat>
    requires n <= |heap|
  {
    if n == 0 then [] else Wire(heap, n - 1) + Times(n - 1, heap[n - 1].sends)
  }

  lemma {:induction false} WireSame(h: seq<Command>, h': seq<Command>, n: nat)
    requires n <= |h| && n <= |h'| && forall i :: 0 <= i < n ==> h[i].sends == h'[i].sends
    ensures Wire(h, n) == Wire(h', n)
  {
    if n > 0 {
      WireSame(h, h', n - 1);
    }
  }

  lemma WireNext(h: seq<Command>, n: nat)
    requires n < |h|
    ensures Wire(h, n + 1) == Wire(h, n) + Times(n, h[n].sends)
    ensures h[n].sends == 1 ==> Times(n, h[n].sends) == [n]
  {}

  lemma TimesMore(id: nat, n: nat)
    ensures Times(id, n + 1) == Times(id, n) + [id]
  {}

  /** Commands appear on the wire in request order. */
  lemma {:induction false} WireInOrder(heap: seq<Command>, n: nat, i: nat, j: nat)
    requires n <= |heap| && i < j < |Wire(heap, n)|
    ensures Wire(heap, n)[i] <= Wire(heap, n)[j] < n
  {
    var low := Wire(heap, n - 1);
    if j < |low| {
      WireInOrder(heap, n - 1, i, j);
    } else if i < |low| {
      WireBound(heap, n - 1, i);
    }
  }

  lemma {:induction false} WireBound(heap: seq<Command>, n: nat, i: nat)
    requires n <= |heap| && i < |Wire(heap, n)|
    ensures Wire(heap, n)[i] < n
  {
    if i < |Wire(heap, n - 1)| {
      WireBound(heap, n - 1, i);
    }
  }

  /** Each command is on the wire exactly as often as it was sent. */
  lemma {:induction false} WireCounts(heap: seq<Command>, n: nat, id: nat)
    requires n <= |heap|
    ensures multiset(Wire(heap, n))[id] == if id < n then heap[id].sends else 0
  {
    if n > 0 {
      WireCounts(heap, n - 1, id);
      TimesCounts(n - 1, heap[n - 1].sends, id);
    }
  }

  lemma {:induction false} TimesCounts(x: nat, n: nat, id: nat)
    ensures multiset(Times(x, n))[id] == if id == x then n else 0
  {
    if n > 0 {
      TimesCounts(x, n - 1, id);
      assert Times(x, n) == Times(x, n - 1) + [x];
    }
  }

  /** What command id looks like when `done` commands are finished. */
  ghost predicate InPlace(c: Command, id: nat, done: int)
  {
    if id < done then
      && (c.state == Success || c.state == Failed)
      && 1 <= c.sends <= 1 + MAX_RESEND_COUNT && (c.noRetry ==> c.sends == 1)
      && c.frees <= 1 && (c.isAsync ==> c.frees == 1)
    else
      && c.state == (if id == done then WaitingResponse else Queued)
      && c.sends == (if id == done then 1 else 0) + (MAX_RESEND_COUNT - c.resendCount)
      && c.resendCount <= MAX_RESEND_COUNT && (id != done || c.noRetry ==> c.resendCount == MAX_RESEND_COUNT)
      && c.frees == 0 && !(c.isAsync && c.needData)
  }

  /** What was asked for does not change. */
  ghost predicate SameRequest(c: Command, d: Command)
  {
    c.needData == d.needData && c.cmdByte == d.cmdByte && c.noRetry == d.noRetry && c.isAsync == d.isAsync
  }

  /** The requests stay, and nothing is written to the first `done` commands, which are finished. */
  ghost predicate SameRequests(was: seq<Command>, now: seq<Command>, done: int)
  {
    && |was| <= |now|
    && (forall i :: 0 <= i < |was| ==> SameRequest(now[i], was[i]))
    && (forall i :: 0 <= i < |was| && i < done ==> now[i] == was[i])
  }

  lemma SameRequestsUpdate(was: seq<Command>, now: seq<Command>, done: int, id: nat, c: Command)
    requires SameRequests(was, now, done) && done <= id < |now| && SameRequest(c, now[id])
    ensures SameRequests(was, now[id := c], done)
  {}

  lemma SameRequestsSelf(was: seq<Command>, done: int)
    ensures SameRequests(was, was, done)
  {}

  class Keyboard {
    var heap: seq<Command>
    /** cmd_queue, front first: the oldest command is at the back */
    var queue: seq<nat>
    /** the input state is INPUTSTATE_WAITING_RESPONSEDATA */
    var wantsData: bool
    /** the commands sent over the port, oldest first */
    ghost var wire: seq<nat>

    /** How many commands are finished: the queue holds the others, newest first. */
    ghost function Done(): int
      reads this`heap, this`queue
    {
      |heap| - |queue|
    }

    /** The number of commands that have been sent. */
    ghost function Started(): int
      reads this`heap, this`queue
    {
      if queue == [] then |heap| else Done() + 1
    }

    ghost predicate Valid()
      reads this
    {
      && 0 <= Done() && (forall i :: 0 <= i < |queue| ==> queue[i] == |heap| - 1 - i)
      && (forall id :: 0 <= id < |heap| ==> InPlace(heap[id], id, Done()))
      && wire == Wire(heap, Started())
    }

    /** The oldest command is at the back of the queue and the only one under way. */
    lemma Oldest()
      requires Valid() && queue != []
      ensures 0 <= Done() < |heap| && queue[|queue| - 1] == Done() && heap[Done()].state == WaitingResponse
      ensures InPlace(heap[Done()], Done(), Done()) && wire == Wire(heap, Done()) + Times(Done(), heap[Done()].sends)
    {}

    /** Response data is expected only while the oldest command has asked for some. */
    ghost predicate Matches()
      requires 0 <= Done()
      reads this
    {
      wantsData ==> queue != [] && heap[Done()].needData
    }

    /** The byte ends the oldest command without being its response data. */
    ghost predicate EndsWithoutData(byte: nat)
      requires 0 <= Done()
      reads this
    {
      && queue != []
      && ((byte == 0xfe && (heap[Done()].resendCount == 0 || heap[Done()].noRetry)) || (byte == 0xee && heap[Done()].cmdByte == 0xee))
    }

    /** The command after the oldest one asks for response data. */
    ghost predicate NextAsks()
      requires 0 <= Done()
      reads this
    {
      |queue| > 1 && heap[Done() + 1].needData
    }

    constructor ()
      ensures Valid() && heap == [] && queue == [] && !wantsData
    {
      heap, queue, wantsData, wire := [], [], false, [];
    }

    /** Transmits the byte of a command. */
    method Send(id: nat)
      requires id < |heap|
      modifies this`heap, this`wire
      ensures heap == old(heap)[id := old(heap)[id].(sends := old(heap)[id].sends + 1)] && wire == old(wire) + [id]
    {
      heap := heap[id := heap[id].(sends := heap[id].sends + 1)];
      wire := wire + [id];
    }

    /** The first half of request_cmd: enqueue, and send if nothing is under way. */
    method Request(cmdByte: nat, noRetry: bool, isAsync: bool, needData: bool) returns (id: nat)
      requires Valid() && !(isAsync && needData)
      modifies this`heap, this`queue, this`wire
      ensures Valid() && id == |old(heap)| && |heap| == id + 1 && queue == [id] + old(queue)
      ensures forall i :: 0 <= i < id ==> heap[i] == old(heap)[i]
      ensures wire == old(wire) + if old(queue) == [] then [id] else []
      ensures heap[id].cmdByte == cmdByte && heap[id].noRetry == noRetry && heap[id].isAsync == isAsync && heap[id].needData == needData
    {
      hide Wire, Times;
      var isQueueEmpty := queue == [];
      var state := if isQueueEmpty then WaitingResponse else Queued;
      id := |heap|;
      WireSame(heap, heap + [Command(state, cmdByte, noRetry, isAsync, needData, MAX_RESEND_COUNT, 0, 0, 0)], Started());
      heap := heap + [Command(state, cmdByte, noRetry, isAsync, needData, MAX_RESEND_COUNT, 0, 0, 0)];
      queue := [id] + queue;
      if isQueueEmpty {
        ghost var before := heap;
        Send(id);
        WireSame(before, heap, id);
        WireNext(heap, id);
      }
    }

    /** cmd_finished: the oldest command leaves the queue and the next one is sent. */
    method CmdFinished(final: CmdState)
      requires Valid() && queue != [] && (final == Success || final == Failed)
      modifies this`heap, this`queue, this`wire
      ensures Valid() && queue == old(queue)[..|old(queue)| - 1] && |heap| == |old(heap)|
      ensures heap[old(Done())].state == final && heap[old(Done())].response == old(heap)[old(Done())].response
      ensures SameRequests(old(heap), heap, old(Done()))
      ensures wire == old(wire) + if |old(queue)| > 1 then [old(Done()) + 1] else []
    {
      hide Wire, Times, SameRequests;
      Oldest();
      ghost var was := heap;
      var id := queue[|queue| - 1];
      queue := queue[..|queue| - 1];
      var c := heap[id].(state := final);
      if c.isAsync {
        c := c.(frees := c.frees + 1);
      }
      SameRequestsSelf(was, id);
      SameRequestsUpdate(was, heap, id, id, c);
      heap := heap[id := c];
      WireSame(was, heap, id + 1);
      WireNext(was, id);
      if queue == [] {
        return;
      }
      SendNext(was, id);
    }

    /** The second half of cmd_finished: the command at the back of the queue is sent for the first time. */
    method SendNext(ghost was: seq<Command>, ghost id: nat)
      requires queue != [] && Done() == id + 1 && (forall i :: 0 <= i < |queue| ==> queue[i] == |heap| - 1 - i)
      requires forall i :: 0 <= i < |heap| ==> InPlace(heap[i], i, if i <= id then id + 1 else id)
      requires wire == Wire(heap, id + 1) && SameRequests(was, heap, id)
      modifies this`heap, this`wire
      ensures Valid() && |heap| == |old(heap)| && SameRequests(was, heap, id) && heap[id] == old(heap)[id]
      ensures wire == old(wire) + [id + 1]
    {
      hide Wire, Times, SameRequests;
      ghost var before := heap;
      var next := queue[|queue| - 1];
      assert next == id + 1;
      SameRequestsUpdate(was, heap, id, next, heap[next].(state := WaitingResponse));
      heap := heap[next := heap[next].(state := WaitingResponse)];
      SameRequestsUpdate(was, heap, id, next, heap[next].(sends := heap[next].sends + 1));
      Send(next);
      WireSame(before, heap, id + 1);
      WireNext(heap, next);
    }

    /** ack_received */
    method AckReceived()
      requires Valid()
      modifies this`heap, this`queue, this`wire, this`wantsData
      ensures Valid() && |heap| == |old(heap)|
      ensures SameRequests(old(heap), heap, old(Done())) && (old(Matches()) ==> Matches())
      ensures old(queue) == [] || old(heap[Done()].needData) ==> queue == old(queue) && heap == old(heap) && wire == old(wire)
      ensures wantsData == (old(wantsData) || (old(queue) != [] && old(heap[Done()].needData)))
      ensures old(queue) != [] && !old(heap[Done()].needData) ==> queue == old(queue)[..|old(queue)| - 1] && heap[old(Done())].state == Success
    {
      if queue == [] {
        return;
      }
      Oldest();
      var cmd := heap[queue[|queue| - 1]];
      if cmd.state == WaitingResponse {
        if cmd.needData {
          wantsData := true;
        } else {
          CmdFinished(Success);
        }
      }
    }

    /** resend_received: retried while retries remain, then failed. */
    method ResendReceived()
      requires Valid()
      modifies this`heap, this`queue, this`wire
      ensures Valid() && |heap| == |old(heap)|
      ensures SameRequests(old(heap), heap, old(Done()))
      ensures old(queue) == [] ==> queue == [] && heap == old(heap)
      ensures old(queue) != [] ==>
                var id, c := old(Done()), old(heap[Done()]);
                if 0 < c.resendCount && !c.noRetry
                then queue == old(queue) && wire == old(wire) + [id] && heap[id].sends == c.sends + 1
                else queue == old(queue)[..|old(queue)| - 1] && heap[id].state == Failed
    {
      hide Wire, Times, SameRequests;
      SameRequestsSelf(heap, Done());
      if queue == [] {
        return;
      }
      Oldest();
      var id := queue[|queue| - 1];
      var cmd := heap[id];
      if cmd.state == WaitingResponse {
        if 0 < cmd.resendCount && !cmd.noRetry {
          ghost var before := heap;
          SameRequestsSelf(before, id);
          SameRequestsUpdate(before, before, id, id, cmd.(resendCount := cmd.resendCount - 1));
          heap := heap[id := cmd.(resendCount := cmd.resendCount - 1)];
          SameRequestsUpdate(before, heap, id, id, heap[id].(sends := heap[id].sends + 1));
          Send(id);
          WireSame(before, heap, id);
          WireNext(heap, id);
          TimesMore(id, cmd.sends);
        } else {
          CmdFinished(Failed);
        }
      }
    }

    /** echo_received */
    method EchoReceived()
      requires Valid()
      modifies this`heap, this`queue, this`wire
      ensures Valid() && |heap| == |old(heap)|
      ensures SameRequests(old(heap), heap, old(Done()))
      ensures if old(queue) != [] && old(heap[Done()].cmdByte) == 0xee
              then queue == old(queue)[..|old(queue)| - 1] && heap[old(Done())].state == Success
              else queue == old(queue) && heap == old(heap)
    {
      if queue == [] {
        return;
      }
      Oldest();
      var cmd := heap[queue[|queue| - 1]];
      if cmd.state == WaitingResponse && cmd.cmdByte == 0xee {
        CmdFinished(Success);
      }
    }

    /** response_byte_received: the byte goes to the oldest command. */
    method ResponseByteReceived(byte: nat)
      requires Valid()
      modifies this`heap, this`queue, this`wire, this`wantsData
      ensures Valid() && |heap| == |old(heap)|
      ensures SameRequests(old(heap), heap, old(Done()))
      ensures old(queue) == [] ==> queue == [] && heap == old(heap) && wantsData == old(wantsData)
      ensures old(queue) != [] ==>
                queue == old(queue)[..|old(queue)| - 1] && !wantsData
                && heap[old(Done())].state == Success && heap[old(Done())].response == byte
    {
      hide Wire, Times;
      if queue == [] {
        return;
      }
      Oldest();
      var id := queue[|queue| - 1];
      if heap[id].state == WaitingResponse {
        WireSame(heap, heap[id := heap[id].(response := byte)], id + 1);
        heap := heap[id := heap[id].(response := byte)];
        CmdFinished(Success);
      }
      wantsData := false;
    }

    /**
     ps2_op_bytereceived, as far as commands go: whatever byte arrives, at most the
     oldest command ends.
     */
    method ByteReceived(byte: nat)
      requires Valid()
      modifies this`heap, this`queue, this`wire, this`wantsData
      ensures Valid() && |heap| == |old(heap)| && SameRequests(old(heap), heap, old(Done()))
      ensures queue == old(queue) || (old(queue) != [] && queue == old(queue)[..|old(queue)| - 1])
      // an acknowledgement makes a command that needs data wait for it, and ends any other one
      ensures byte == 0xfa ==>
                && wantsData == (old(wantsData) || (old(queue) != [] && old(heap[Done()].needData)))
                && (if old(queue) == [] || old(heap[Done()].needData) then queue == old(queue) && heap == old(heap) && wire == old(wire)
                    else queue == old(queue)[..|old(queue)| - 1] && heap[old(Done())].state == Success)
      // a request to resend is followed while retries remain, and fails the command otherwise
      ensures byte == 0xfe && old(queue) != [] ==>
                var id, c := old(Done()), old(heap[Done()]);
                if 0 < c.resendCount && !c.noRetry
                then queue == old(queue) && wire == old(wire) + [id] && heap[id].sends == c.sends + 1
                else queue == old(queue)[..|old(queue)| - 1] && heap[id].state == Failed
      // an echo ends an echo command and nothing else
      ensures byte == 0xee ==>
                if old(queue) != [] && old(heap[Done()].cmdByte) == 0xee
                then queue == old(queue)[..|old(queue)| - 1] && heap[old(Done())].state == Success
                else queue == old(queue) && heap == old(heap)
      ensures byte in {0xfe, 0xee} ==> wantsData == old(wantsData)
      // while data is expected, the next byte that is no answer code ends the oldest command as its data
      ensures byte !in {0xfa, 0xfe, 0xee} && old(wantsData) && old(queue) != [] ==>
                queue == old(queue)[..|old(queue)| - 1] && heap[old(Done())].state == Success && heap[old(Done())].response == byte
      ensures byte !in {0xfa, 0xfe, 0xee} && !old(wantsData) ==> queue == old(queue) && heap == old(heap)
      // data is expected for a command that did not ask exactly after one that did has ended without its data
      ensures old(Matches()) ==> (Matches() <==> !(old(wantsData) && old(EndsWithoutData(byte)) && !old(NextAsks())))
      // and with no command left nothing clears the expectation
      ensures old(queue) == [] ==> queue == [] && wantsData == old(wantsData)
    {
      if byte == 0xfa {
        AckReceived();
      } else if byte == 0xfe {
        ResendReceived();
      } else if byte == 0xee {
        EchoReceived();
      } else if wantsData {
        ResponseByteReceived(byte);
      }
    }

    /** The second half of request_cmd: a waiting requester sees the end of its command and releases it. */
    method Collect(id: nat) returns (ok: bool, response: nat)
      requires Valid() && id < |heap| && !heap[id].isAsync && heap[id].frees == 0
      requires heap[id].state == Success || heap[id].state == Failed
      modifies this`heap
      ensures Valid() && heap == old(heap)[id := old(heap)[id].(frees := 1)]
      ensures ok <==> old(heap)[id].state == Success
      ensures ok && heap[id].needData ==> response == heap[id].response
    {
      ok := heap[id].state == Success;
      response := if ok && heap[id].needData then heap[id].response else 0;
      WireSame(heap, heap[id := heap[id].(frees := heap[id].frees + 1)], Started());
      heap := heap[id := heap[id].(frees := heap[id].frees + 1)];
    }

    /** In every reachable state: each command is on the wire at most four times, and only the oldest one awaits a response. */
    lemma Protocol(id: nat)
      requires Valid() && id < |heap|
      ensures multiset(wire)[id] == heap[id].sends <= 4
      ensures heap[id].state == WaitingResponse <==> queue != [] && id == queue[|queue| - 1]
      ensures id in queue <==> heap[id].state == WaitingResponse || heap[id].state == Queued
      ensures heap[id].frees <= 1 && (id in queue ==> heap[id].frees == 0)
      ensures heap[id].sends == 0 <==> heap[id].state == Queued
    {
      WireCounts(heap, Started(), id);
      assert InPlace(heap[id], id, Done());
      if id >= Done() {
        assert queue[|heap| - 1 - id] == id;
      }
    }

    /** In every reachable state the wire has the commands in request order. */
    lemma RequestOrder(i: nat, j: nat)
      requires Valid() && i < j < |wire|
      ensures wire[i] <= wire[j] < |heap|
    {
      WireInOrder(heap, Started(), i, j);
    }
  }

  /**
   A command that asked for data fails after its acknowledgement: the expectation
   stays, and the next key byte is taken for the answer to a command that asked for
   nothing.
   */
  method StrayExpectation() returns (k: Keyboard)
    ensures k.Valid() && |k.heap| == 2 && !k.heap[1].needData
    ensures k.heap[0].state == Failed && k.heap[1].state == Success && k.heap[1].response == 0x1c
  {
    hide Keyboard.Valid, Wire;
    k := new Keyboard();
    var first := k.Request(0, true, false, true);
    k.AckReceived();
    k.ResendReceived();
    assert k.queue == [] && k.wantsData && k.heap[0].state == Failed;
    var second := k.Request(0xed, false, true, false);
    k.ByteReceived(0x1c);
  }
}
