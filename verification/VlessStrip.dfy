/** Stripping the VLESS response header from a stream: `VlessRespStrip` in `crates/net/src/outbound.rs`. */
module VlessStrip {
  import opened Bits
  import opened Wrappers
  import opened Sequences

  /**
   What the transport does on one poll: nothing yet, a failure, or at most `n + 1` bytes. How the
   bytes of the stream are cut into reads is entirely up to it.
   */
  datatype Outcome = Wait | Fault | Arrive(n: nat)

  datatype Reply = Pending | Failed | Truncated | Ready(bytes: seq<byte>)

  /** The stripper over a transport that will carry `data` in all and has carried `pos` of it. */
  datatype Strip = Strip(data: seq<byte>, pos: nat, header: seq<byte>, addonLen: Option<nat>, done: bool)

  /** The transport's share of a read: none exactly at the end of the stream or without room. */
  function Share(data: seq<byte>, pos: nat, room: nat, n: nat): (k: nat)
    requires pos <= |data|
    ensures pos + k <= |data| && k <= room
    ensures k == 0 <==> pos == |data| || room == 0
  {
    var most := if room < |data| - pos then room else |data| - pos;
    if n + 1 < most then n + 1 else most
  }

  /** Version byte, length byte, and as many more bytes as the second says. */
  function HeaderLength(data: seq<byte>): nat {
    if |data| < 2 then 2 else AddonLength(data) + 2
  }

  function AddonLength(data: seq<byte>): nat
    requires |data| >= 2
  {
    data[1]
  }

  function Payload(data: seq<byte>): seq<byte> {
    if HeaderLength(data) <= |data| then data[HeaderLength(data)..] else []
  }

  ghost predicate Inv(s: Strip) {
    && s.pos <= |s.data|
    && s.header <= s.data
    && |s.header| <= HeaderLength(s.data)
    && (!s.done ==> |s.header| == s.pos)
    && (s.addonLen.None? ==> !s.done && |s.header| <= 2)
    && (s.addonLen.Some? ==> 2 <= |s.header| && s.addonLen.value == AddonLength(s.data))
    && (s.done ==> |s.header| == HeaderLength(s.data) <= s.pos)
  }

  function Initial(data: seq<byte>): Strip {
    Strip(data, 0, [], None, false)
  }

  /** How long the header buffer has to be before the loop moves on. */
  function Need(s: Strip): nat {
    match s.addonLen
    case None => 2
    case Some(a) => a + 2
  }

  /** The turns of the loop that read nothing: learn the length, or finish. */
  function Settle(s: Strip): (t: Strip)
    ensures t.data == s.data && t.pos == s.pos && t.header == s.header
    ensures t.done || |t.header| < Need(t)
    decreases if s.done then 0 else 1, if s.addonLen.None? then 1 else 0
  {
    if s.done || |s.header| < Need(s) then s
    else if s.addonLen.None? then Settle(s.(addonLen := Some(s.header[1])))
    else s.(done := true)
  }

  /**
   How much the next read may take: the rest of the header through a 64-byte scratch buffer, or what
   the caller has room for.
   */
  function Room(s: Strip, room: nat): nat
    requires s.done || |s.header| < Need(s)
  {
    if s.done then room
    else
      var missing := Need(s) - |s.header|;
      if missing < 64 then missing else 64
  }

  /** The state after the transport handed over `k` bytes. */
  function Take(s: Strip, k: nat): Strip
    requires s.pos + k <= |s.data|
  {
    if s.done then s.(pos := s.pos + k)
    else s.(pos := s.pos + k, header := s.header + s.data[s.pos..s.pos + k])
  }

  /** `poll_read` with room for `room` bytes; the last component is the schedule left over. */
  function Poll(s: Strip, room: nat, schedule: seq<Outcome>): (Strip, Reply, seq<Outcome>)
    requires s.pos <= |s.data|
    decreases |schedule|
  {
    var t := Settle(s);
    if schedule == [] then (t, Pending, [])
    else
      var rest := schedule[1..];
      match schedule[0]
      case Wait => (t, Pending, rest)
      case Fault => (t, Failed, rest)
      case Arrive(n) =>
        var k := Share(t.data, t.pos, Room(t, room), n);
        if t.done then (Take(t, k), Ready(t.data[t.pos..t.pos + k]), rest)
        else if k == 0 then (t, Truncated, rest)
        else Poll(Take(t, k), room, rest)
  }

  function Bytes(r: Reply): seq<byte> {
    if r.Ready? then r.bytes else []
  }

  /** What the reader has been given so far in state `s`. */
  function Delivered(s: Strip): seq<byte> {
    if s.done && HeaderLength(s.data) <= s.pos <= |s.data| then s.data[HeaderLength(s.data)..s.pos] else []
  }

  lemma SettleKeepsInv(s: Strip)
    requires Inv(s)
    ensures Inv(Settle(s)) && Delivered(Settle(s)) == Delivered(s)
    ensures Settle(s).done <==> s.done || (s.pos >= 2 && s.pos >= HeaderLength(s.data))
    decreases if s.done then 0 else 1, if s.addonLen.None? then 1 else 0
  {
    if !s.done && |s.header| >= Need(s) && s.addonLen.None? {
      SettleKeepsInv(s.(addonLen := Some(s.header[1])));
    }
  }

  lemma SettleTurn(s: Strip, room: nat, schedule: seq<Outcome>)
    requires Inv(s) && !s.done && |s.header| >= Need(s)
    ensures var turn := if s.addonLen.None? then s.(addonLen := Some(s.header[1])) else s.(done := true);
            Inv(turn) && Poll(turn, room, schedule) == Poll(s, room, schedule)
  {
  }

  lemma TakeKeepsInv(s: Strip, room: nat, k: nat)
    requires Inv(s) && (s.done || |s.header| < Need(s))
    requires s.pos + k <= |s.data| && k <= Room(s, room)
    ensures Inv(Take(s, k))
    ensures Delivered(Take(s, k)) == Delivered(s) + (if s.done then s.data[s.pos..s.pos + k] else [])
  {
    if s.done {
      var h := HeaderLength(s.data);
      assert s.data[h..s.pos] + s.data[s.pos..s.pos + k] == s.data[h..s.pos + k];
    } else {
      assert s.header + s.data[s.pos..s.pos + k] == s.data[..s.pos + k];
    }
  }

  /** A poll keeps the invariant. */
  lemma {:induction false} PollKeepsInv(s: Strip, room: nat, schedule: seq<Outcome>)
    requires Inv(s)
    ensures Inv(Poll(s, room, schedule).0) && Poll(s, room, schedule).0.data == s.data
    decreases |schedule|
  {
    SettleKeepsInv(s);
    var t := Settle(s);
    if schedule != [] && schedule[0].Arrive? {
      var k := Share(t.data, t.pos, Room(t, room), schedule[0].n);
      TakeKeepsInv(t, room, k);
      if !t.done && k > 0 { PollKeepsInv(Take(t, k), room, schedule[1..]); }
    }
  }

  /** A poll of a finished stripper gives what it takes, and any other poll that ends here gives nothing. */
  lemma {:induction false} LastTurnDelivers(s: Strip, room: nat, schedule: seq<Outcome>)
    requires Inv(s) && Settle(s) == s
    requires s.done || schedule == [] || !schedule[0].Arrive? || Share(s.data, s.pos, Room(s, room), schedule[0].n) == 0
    ensures Delivered(Poll(s, room, schedule).0) == Delivered(s) + Bytes(Poll(s, room, schedule).1)
  {
    assert Delivered(s) + [] == Delivered(s);
    if schedule != [] && schedule[0].Arrive? {
      TakeKeepsInv(s, room, Share(s.data, s.pos, Room(s, room), schedule[0].n));
    }
  }

  /** What one poll gives is what comes next in the payload. */
  lemma {:induction false} PollDelivers(s: Strip, room: nat, schedule: seq<Outcome>)
    requires Inv(s)
    ensures Delivered(Poll(s, room, schedule).0) == Delivered(s) + Bytes(Poll(s, room, schedule).1)
    decreases |schedule|
  {
    SettleKeepsInv(s);
    var t := Settle(s);
    assert Poll(t, room, schedule) == Poll(s, room, schedule);
    if t.done || schedule == [] || !schedule[0].Arrive? || Share(t.data, t.pos, Room(t, room), schedule[0].n) == 0 {
      LastTurnDelivers(t, room, schedule);
    } else {
      var k := Share(t.data, t.pos, Room(t, room), schedule[0].n);
      TakeKeepsInv(t, room, k);
      PollDelivers(Take(t, k), room, schedule[1..]);
    }
  }

  /** Nothing is given before the header is over, an empty read means the end, and truncation means a short stream. */
  lemma {:induction false} PollReplies(s: Strip, room: nat, schedule: seq<Outcome>)
    requires Inv(s)
    ensures var (s', r, rest) := Poll(s, room, schedule);
            && (r.Ready? ==> s'.done && (r.bytes == [] ==> room == 0 || s'.pos == |s.data|))
            && (r.Truncated? ==> !s'.done && s'.pos == |s.data| < HeaderLength(s.data))
    decreases |schedule|
  {
    SettleKeepsInv(s);
    var t := Settle(s);
    if schedule != [] && schedule[0].Arrive? {
      var k := Share(t.data, t.pos, Room(t, room), schedule[0].n);
      TakeKeepsInv(t, room, k);
      if !t.done && k > 0 { PollReplies(Take(t, k), room, schedule[1..]); }
    }
  }

  /** A poll with this reply took the first `n` outcomes: arrivals, up to the one that decided the reply. */
  ghost predicate Took(schedule: seq<Outcome>, n: nat, r: Reply, rest: seq<Outcome>) {
    && n <= |schedule| && rest == schedule[n..]
    && (forall i :: 0 <= i < n - 1 ==> schedule[i].Arrive?)
    && (r.Failed? <==> n > 0 && schedule[n - 1].Fault?)
    && (n > 0 && schedule[n - 1].Wait? ==> r.Pending?)
    && (r.Pending? ==> n == |schedule| || (n > 0 && schedule[n - 1].Wait?))
  }

  lemma TookOneMore(schedule: seq<Outcome>, n: nat, r: Reply, rest: seq<Outcome>)
    requires schedule != [] && schedule[0].Arrive? && Took(schedule[1..], n, r, rest)
    ensures Took(schedule, n + 1, r, rest)
  {
    assert schedule[1..][n..] == schedule[n + 1..];
    assert forall i :: 0 < i < |schedule| ==> schedule[i] == schedule[1..][i - 1];
  }

  /** It fails exactly on a fault of the transport, and it waits on a wait. */
  lemma {:induction false} RepliesFollowTransport(s: Strip, room: nat, schedule: seq<Outcome>) returns (n: nat)
    requires Inv(s)
    ensures Took(schedule, n, Poll(s, room, schedule).1, Poll(s, room, schedule).2)
    decreases |schedule|
  {
    SettleKeepsInv(s);
    var t := Settle(s);
    if schedule == [] {
      n := 0;
    } else {
      n := 1;
      if schedule[0].Arrive? {
        var k := Share(t.data, t.pos, Room(t, room), schedule[0].n);
        if !t.done && k > 0 {
          TakeKeepsInv(t, room, k);
          n := RepliesFollowTransport(Take(t, k), room, schedule[1..]);
          TookOneMore(schedule, n, Poll(s, room, schedule).1, Poll(s, room, schedule).2);
          n := n + 1;
        }
      }
    }
  }

  /** While bytes keep arriving a poll comes to an answer: one more arrival than bytes are left is enough. */
  lemma {:induction false} ArrivalsAreAnswered(s: Strip, room: nat, schedule: seq<Outcome>)
    requires Inv(s) && |schedule| > |s.data| - s.pos
    requires forall i :: 0 <= i < |schedule| ==> schedule[i].Arrive?
    ensures Poll(s, room, schedule).1.Ready? || Poll(s, room, schedule).1.Truncated?
    decreases |schedule|
  {
    SettleKeepsInv(s);
    var t := Settle(s);
    var k := Share(t.data, t.pos, Room(t, room), schedule[0].n);
    if !t.done && k > 0 {
      TakeKeepsInv(t, room, k);
      ArrivalsAreAnswered(Take(t, k), room, schedule[1..]);
    }
  }

  // ----- runs -----

  /** Any number of polls with any room each: the state and everything given. */
  function Run(s: Strip, rooms: seq<nat>, schedule: seq<Outcome>): (r: (Strip, seq<byte>))
    requires Inv(s)
    ensures Inv(r.0) && r.0.data == s.data
    decreases |rooms|
  {
    if rooms == [] then (s, [])
    else
      PollKeepsInv(s, rooms[0], schedule);
      var (s', reply, rest) := Poll(s, rooms[0], schedule);
      var (end, given) := Run(s', rooms[1..], rest);
      (end, Bytes(reply) + given)
  }

  lemma {:induction false} RunDelivers(s: Strip, rooms: seq<nat>, schedule: seq<Outcome>)
    requires Inv(s)
    ensures Delivered(Run(s, rooms, schedule).0) == Delivered(s) + Run(s, rooms, schedule).1
    decreases |rooms|
  {
    if rooms != [] {
      PollKeepsInv(s, rooms[0], schedule);
      PollDelivers(s, rooms[0], schedule);
      var (s', reply, rest) := Poll(s, rooms[0], schedule);
      RunDelivers(s', rooms[1..], rest);
      Regroup(Delivered(s), Bytes(reply), Run(s', rooms[1..], rest).1);
    }
  }

  /** What a run from the start has given is what its final state says. */
  lemma RunFromStart(data: seq<byte>, rooms: seq<nat>, schedule: seq<Outcome>)
    ensures Run(Initial(data), rooms, schedule).1 == Delivered(Run(Initial(data), rooms, schedule).0)
  {
    RunDelivers(Initial(data), rooms, schedule);
    var given := Run(Initial(data), rooms, schedule).1;
    assert [] + given == given;
  }

  /** However the stream is cut, the reader gets a prefix of the payload, and the header buffer none of it. */
  lemma DeliversPayloadPrefix(data: seq<byte>, rooms: seq<nat>, schedule: seq<Outcome>)
    ensures var (end, given) := Run(Initial(data), rooms, schedule);
            && given <= Payload(data)
            && (given != [] ==> |data| >= 2 && 2 + data[1] <= |data| && given <= data[2 + data[1]..])
            && end.header <= data && |end.header| <= HeaderLength(data)
            && (end.done ==> HeaderLength(data) + |given| == end.pos)
            && (!end.done ==> given == [])
  {
    RunFromStart(data, rooms, schedule);
    var end := Run(Initial(data), rooms, schedule).0;
    if end.done {
      var h := HeaderLength(data);
      assert data[h..end.pos] == Payload(data)[..end.pos - h];
    }
  }

  /** A read that finds the end of the stream has given the whole payload, whatever the schedule was. */
  lemma EndMeansWholePayload(data: seq<byte>, rooms: seq<nat>, schedule: seq<Outcome>, room: nat, more: seq<Outcome>)
    requires room > 0 && Poll(Run(Initial(data), rooms, schedule).0, room, more).1 == Ready([])
    ensures Run(Initial(data), rooms, schedule).1 == Payload(data)
  {
    var end := Run(Initial(data), rooms, schedule).0;
    RunFromStart(data, rooms, schedule);
    PollKeepsInv(end, room, more);
    PollDelivers(end, room, more);
    PollReplies(end, room, more);
    assert Delivered(end) + [] == Delivered(end);
    assert data[HeaderLength(data)..|data|] == data[HeaderLength(data)..];
  }

  /** So two ways of cutting the same stream that both reach its end deliver the same bytes. */
  lemma CutsDoNotMatter(data: seq<byte>,
                        rooms1: seq<nat>, schedule1: seq<Outcome>, room1: nat, more1: seq<Outcome>,
                        rooms2: seq<nat>, schedule2: seq<Outcome>, room2: nat, more2: seq<Outcome>)
    requires room1 > 0 && Poll(Run(Initial(data), rooms1, schedule1).0, room1, more1).1 == Ready([])
    requires room2 > 0 && Poll(Run(Initial(data), rooms2, schedule2).0, room2, more2).1 == Ready([])
    ensures Run(Initial(data), rooms1, schedule1).1 == Run(Initial(data), rooms2, schedule2).1
  {
    EndMeansWholePayload(data, rooms1, schedule1, room1, more1);
    EndMeansWholePayload(data, rooms2, schedule2, room2, more2);
  }

  /** At the end of the stream a read errs exactly when the stream stopped inside its header. */
  lemma TruncatedIffShort(s: Strip, room: nat, n: nat, rest: seq<Outcome>)
    requires Inv(s) && s.pos == |s.data|
    ensures Poll(s, room, [Arrive(n)] + rest).1 == (if HeaderLength(s.data) > |s.data| then Truncated else Ready([]))
  {
    SettleKeepsInv(s);
  }

  // ----- the object of the source -----

  class Transport {
    const data: seq<byte>
    var pos: nat
    var schedule: seq<Outcome>

    constructor (data: seq<byte>, schedule: seq<Outcome>)
      ensures this.data == data && pos == 0 && this.schedule == schedule
    {
      this.data := data;
      pos := 0;
      this.schedule := schedule;
    }

    method PollRead(room: nat) returns (r: Reply)
      requires pos <= |data|
      modifies this
      ensures old(schedule) == [] ==> r == Pending && pos == old(pos) && schedule == []
      ensures old(schedule) != [] ==>
                schedule == old(schedule)[1..] &&
                match old(schedule)[0]
                case Wait => r == Pending && pos == old(pos)
                case Fault => r == Failed && pos == old(pos)
                case Arrive(n) => pos == old(pos) + Share(data, old(pos), room, n) && r == Ready(data[old(pos)..pos])
    {
      if schedule == [] { return Pending; }
      var o := schedule[0];
      schedule := schedule[1..];
      match o
      case Wait => r := Pending;
      case Fault => r := Failed;
      case Arrive(n) =>
        var k := Share(data, pos, room, n);
        r := Ready(data[pos..pos + k]);
        pos := pos + k;
    }
  }

  class VlessRespStrip {
    const inner: Transport
    var hdrBuf: seq<byte>
    var addonLen: Option<nat>
    var done: bool

    function State(): Strip
      reads this, inner
    {
      Strip(inner.data, inner.pos, hdrBuf, addonLen, done)
    }

    constructor (inner: Transport)
      ensures this.inner == inner && hdrBuf == [] && addonLen == None && !done
    {
      this.inner := inner;
      hdrBuf, addonLen, done := [], None, false;
    }

    /** One read of the header loop: `Ready` when bytes arrived, else what the poll has to return. */
    method FillHeader(want: nat, ghost room: nat) returns (reply: Reply)
      requires Inv(State()) && !done && |hdrBuf| < Need(State()) && want == Room(State(), room)
      modifies this, inner
      ensures Inv(State()) && !done && addonLen == old(addonLen)
      ensures var all := Poll(old(State()), room, old(inner.schedule));
              if reply.Ready? then
                |inner.schedule| < |old(inner.schedule)| && Poll(State(), room, inner.schedule) == all
              else
                (State(), reply, inner.schedule) == all
    {
      ghost var before := State();
      assert Settle(before) == before;
      reply := inner.PollRead(want);
      if reply.Ready? {
        if reply.bytes == [] { return Truncated; }
        hdrBuf := hdrBuf + reply.bytes;
        TakeKeepsInv(before, room, |reply.bytes|);
        assert State() == Take(before, |reply.bytes|);
      }
    }

    method ReadPayload(room: nat) returns (r: Reply)
      requires Inv(State()) && done
      modifies inner
      ensures Inv(State())
      ensures (State(), r, inner.schedule) == Poll(old(State()), room, old(inner.schedule))
    {
      PollKeepsInv(State(), room, inner.schedule);
      r := inner.PollRead(room);
    }

    method PollRead(room: nat) returns (r: Reply)
      requires Inv(State())
      modifies this, inner
      ensures Inv(State())
      ensures (State(), r, inner.schedule) == Poll(old(State()), room, old(inner.schedule))
    {
      ghost var all := Poll(State(), room, inner.schedule);
      while !done
        invariant Inv(State())
        invariant Poll(State(), room, inner.schedule) == all
        decreases |inner.schedule|, if done then 0 else 1, if addonLen.None? then 1 else 0
      {
        var need := match addonLen case None => 2 case Some(a) => a + 2;
        if |hdrBuf| >= need {
          SettleTurn(State(), room, inner.schedule);
          if addonLen.None? {
            addonLen := Some(hdrBuf[1]);
            continue;
          }
          done := true;
          break;
        }
        var missing := need - |hdrBuf|;
        var reply := FillHeader(if missing < 64 then missing else 64, room);
        if !reply.Ready? { return reply; }
      }
      r := ReadPayload(room);
    }
  }
}
