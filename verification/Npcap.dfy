/**
 The capture driver and the operating system, as the socket sees them: handles with installed filters,
 a queue of captured frames per handle, a steady clock, and events to wait for. Everything the
 environment decides is chosen freely in the bodies; the contracts say what the socket may rely on.
 */
module Npcaps {
  import opened Common
  import opened Packets
  import S = SocketState
  import PcapFilter

  const INFINITE: nat := 0xFFFF_FFFF
  const MAXIMUM_WAIT_OBJECTS: nat := 64
  const WAIT_OBJECT_0: nat := 0
  const WAIT_ABANDONED_0: nat := 0x80
  const WAIT_TIMEOUT: nat := 258
  const WAIT_FAILED: nat := 0xFFFF_FFFF
  const NANOS_PER_MILLI: nat := 1_000_000

  const PCAP_ERROR_NOT_ACTIVATED := -3

  function Total(queues: seq<seq<Frame>>): nat {
    if queues == [] then 0 else |queues[0]| + Total(queues[1..])
  }

  lemma {:induction false} TotalUpdate(queues: seq<seq<Frame>>, h: nat, q: seq<Frame>)
    requires h < |queues|
    ensures Total(queues[h := q]) == Total(queues) - |queues[h]| + |q|
  {
    if h == 0 {
      assert queues[0 := q][1..] == queues[1..];
    } else {
      TotalUpdate(queues[1..], h - 1, q);
      assert queues[h := q][1..] == queues[1..][h - 1 := q];
    }
  }

  lemma {:induction false} TotalAppend(queues: seq<seq<Frame>>)
    ensures Total(queues + [[]]) == Total(queues)
  {
    if queues != [] {
      assert (queues + [[]])[1..] == queues[1..] + [[]];
      TotalAppend(queues[1..]);
    }
  }

  datatype WaitRecord = WaitRecord(since: int, handles: nat, ms: Uint32, answer: Uint32)

  class Npcap {
    var handles: seq<S.Handle>
    /** Captured and not yet claimed, per handle. */
    var queues: seq<seq<Frame>>
    /** Traffic still to come that the filters let through, in order of arrival. */
    var agenda: seq<(nat, Frame)>
    /** Event notifications still to come. */
    var signals: nat
    var clock: int

    /** Every frame ever captured, every frame ever claimed, and every poll with its answer. */
    ghost var captured: seq<seq<Frame>>
    ghost var claimed: seq<seq<Frame>>
    ghost var polls: seq<(nat, int)>
    /** Every wait for events: when it began, for how many handles and milliseconds, and its answer. */
    ghost var waits: seq<WaitRecord>

    /** No captured frame is lost or duplicated: it waits in its queue or has been claimed, in order. */
    ghost predicate Valid()
      reads this
    {
      && |queues| == |captured| == |claimed| == |handles|
      && forall h | 0 <= h < |handles| :: captured[h] == claimed[h] + queues[h]
    }

    ghost function PacketsLeft(): nat
      reads this
    {
      Total(queues) + |agenda|
    }

    /** What was captured before is still the beginning of what has been captured, handle by handle. */
    twostate predicate CapturedGrows()
      reads this
    {
      |old(captured)| <= |captured| && forall h | 0 <= h < |old(captured)| :: old(captured)[h] <= captured[h]
    }

    /** Time may have passed and traffic may have come in; nothing else has happened. */
    twostate predicate Flowed()
      reads this
    {
      && handles == old(handles) && claimed == old(claimed) && polls == old(polls) && waits == old(waits)
      && signals == old(signals)
      && PacketsLeft() <= old(PacketsLeft())
      && old(clock) <= clock
      && CapturedGrows()
    }

    constructor (agenda: seq<(nat, Frame)>, signals: nat, clock: int)
      ensures Valid() && handles == []
    {
      handles, queues, captured, claimed, polls, waits := [], [], [], [], [], [];
      this.agenda, this.signals, this.clock := agenda, signals, clock;
    }

    /** pcap_create, with the outcome of the activation already known. */
    method Create(handle: S.Handle)
      requires Valid()
      modifies this`handles, this`queues, this`captured, this`claimed
      ensures Valid()
      ensures handles == old(handles) + [handle] && claimed == old(claimed) + [[]] && captured == old(captured) + [[]]
    {
      handles := handles + [handle];
      queues, captured, claimed := queues + [[]], captured + [[]], claimed + [[]];
    }

    /** pcap_setfilter */
    method SetFilter(h: nat, program: Option<seq<PcapFilter.Token>>)
      requires h < |handles|
      modifies this`handles
      ensures handles == S.Install(old(handles), h, program)
    {
      if program.Some? && !handles[h].refuses {
        handles := handles[h := handles[h].(filter := program)];
      }
    }

    /** pcap_close */
    method CloseHandle(h: nat)
      requires h < |handles|
      modifies this`handles
      ensures handles == old(handles)[h := old(handles)[h].(closes := old(handles)[h].closes + 1)]
    {
      handles := handles[h := handles[h].(closes := handles[h].closes + 1)];
    }

    method Arrive()
      requires Valid() && agenda != []
      modifies this`queues, this`agenda, this`captured
      ensures Valid() && Flowed() && |agenda| < old(|agenda|)
    {
      var (h, f) := agenda[0];
      agenda := agenda[1..];
      if h < |queues| {
        TotalUpdate(queues, h, queues[h] + [f]);
        queues := queues[h := queues[h] + [f]];
        assert captured[h] + [f] == claimed[h] + (old(queues)[h] + [f]);
        captured := captured[h := captured[h] + [f]];
      }
    }

    method Elapse()
      requires Valid()
      modifies this`queues, this`agenda, this`captured, this`clock
      ensures Valid() && Flowed()
    {
      var more: bool := *;
      while more && agenda != []
        invariant Valid() && Flowed()
        decreases |agenda|
      {
        Arrive();
        more := *;
      }
      var passed: int := *;
      if passed > 0 {
        clock := clock + passed;
      }
    }

    method Now() returns (t: int)
      requires Valid()
      modifies this`queues, this`agenda, this`captured, this`clock
      ensures Valid() && Flowed() && t == clock
    {
      Elapse();
      t := clock;
    }

    /** pcap_next_ex on a non-blocking handle: 1 with the oldest frame not yet claimed, 0 when there is none, anything else is an error. */
    method NextEx(h: nat) returns (code: int, frame: Option<Frame>)
      requires Valid() && h < |handles|
      modifies this`queues, this`agenda, this`captured, this`claimed, this`clock, this`polls
      ensures Valid() && handles == old(handles) && signals == old(signals) && old(clock) <= clock
      ensures polls == old(polls) + [(h, code)]
      ensures CapturedGrows() && (code == 1 <==> frame.Some?)
      ensures code == 1 ==> var n := |old(claimed)[h]|; n < |captured[h]| && frame == Some(captured[h][n])
      ensures code == 1 ==> PacketsLeft() < old(PacketsLeft())
      ensures code != 1 ==> PacketsLeft() <= old(PacketsLeft())
      ensures code == 0 ==> queues[h] == []
      ensures claimed == if frame.Some? then old(claimed)[h := old(claimed)[h] + [frame.value]] else old(claimed)
    {
      Elapse();
      var fault: int := *;
      if fault != 0 && fault != 1 {
        code, frame := fault, None;
      } else if queues[h] == [] {
        code, frame := 0, None;
      } else {
        code, frame := 1, Some(queues[h][0]);
        TotalUpdate(queues, h, queues[h][1..]);
        claimed := claimed[h := claimed[h] + [queues[h][0]]];
        queues := queues[h := queues[h][1..]];
      }
      polls := polls + [(h, code)];
    }

    /**
     WaitForMultipleObjects: an answer below `n` uses up a notification, any other answer comes after
     some time; a timeout comes no earlier than asked for, and never from an infinite wait.
     */
    method Wait(n: nat, ms: Uint32) returns (r: Uint32)
      requires Valid() && n <= MAXIMUM_WAIT_OBJECTS
      modifies this`queues, this`agenda, this`captured, this`clock, this`signals, this`waits
      ensures Valid() && handles == old(handles) && claimed == old(claimed) && polls == old(polls)
      ensures CapturedGrows()
      ensures waits == old(waits) + [WaitRecord(old(clock), n, ms, r)]
      ensures PacketsLeft() <= old(PacketsLeft()) && old(clock) <= clock
      ensures if r < n then signals < old(signals) else signals == old(signals) && old(clock) < clock
      ensures r == WAIT_TIMEOUT ==> ms != INFINITE && old(clock) + ms * NANOS_PER_MILLI <= clock
    {
      ghost var since := clock;
      Elapse();
      r := *;
      if r < n && signals > 0 {
        signals := signals - 1;
      } else {
        if r < n || (r == WAIT_TIMEOUT && ms == INFINITE) {
          r := WAIT_FAILED;
        }
        if r == WAIT_TIMEOUT {
          clock := clock + ms * NANOS_PER_MILLI;
        }
        clock := clock + 1;
      }
      waits := waits + [WaitRecord(since, n, ms, r)];
    }

    /** Some order in which an unordered container presents its keys, given one such order. */
    method IterationOrder(known: seq<int>) returns (order: seq<int>)
      requires Distinct(known)
      ensures Distinct(order) && Members(order) == Members(known)
    {
      order := *;
      if !Distinct(order) || Members(order) != Members(known) {
        order := known;
      }
    }
  }
}
