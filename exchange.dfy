/**
  `send_command` (plcbus.rb lines 179-198): up to three rounds of writing the
  frame, reading a reply and checking it, stopping at the first accepted
  reply and pausing after every rejected one; and the script's top level
  (line 216), which runs it once the values of lines 152-176 are fixed.

  The serial port is not modelled: what the n-th read returns (0-based) is a
  parameter `read(n)`, None standing for nil. What the script does is
  recorded as a trace of events.
 */
module Exchange {

  import opened RubyHash
  import opened RubyArray
  import opened Frames

  /** One observable step of the exchange. */
  datatype Event =
    | Wrote(frame: seq<byte>)               // `@port_write.write @packet`
    | ReadBack(reply: Option<seq<byte>>)    // `@port_read.read`
    | Printed(status: Status)               // `puts @parsed_response`
    | Slept                                 // `sleep(1.0/8.0)`

  /** How the script stops inside `send_command`. */
  datatype Crash =
    | NilRead        // `nil.unpack` on line 201
    | UnnamedStatus  // `"..." + nil` on line 209

  datatype Outcome =
    | Accepted(status: Status)  // a reply was accepted and printed
    | NoValidReply              // three replies were rejected; nothing printed
    | Crashed(crash: Crash)

  /** `parse_response` with the values of lines 152-160 fixed. */
  function Parser(cfg: Config): (parse: seq<byte> -> Parsed)
  {
    p => ParseResponse(cfg, p)
  }

  /** A read that returned a reply which `parse` rejects. */
  predicate Rejected(parse: seq<byte> -> Parsed, reply: Option<seq<byte>>)
  {
    reply.Some? && parse(reply.value) == Invalid
  }

  /** Rounds n, n+1, ... 2 of the `3.times` loop: the outcome and the events.
      A nil read fails in `parse_response` (it is called before the nil
      test); an accepted reply is printed and ends the loop without a pause;
      a rejected reply only pauses (the string on line 191 is not printed);
      the "No response received" branch cannot be reached. */
  function Rounds(parse: seq<byte> -> Parsed, frame: seq<byte>, read: nat -> Option<seq<byte>>, n: nat): (r: (Outcome, seq<Event>))
    decreases 3 - n
  {
    if n >= 3 then (NoValidReply, [])
    else
      var io := [Wrote(frame), ReadBack(read(n))];
      match read(n)
      case None => (Crashed(NilRead), io)
      case Some(reply) =>
        match parse(reply)
        case Reported(status) => (Accepted(status), io + [Printed(status)])
        case Unnamed => (Crashed(UnnamedStatus), io)
        case Invalid =>
          var next := Rounds(parse, frame, read, n + 1);
          (next.0, io + [Slept] + next.1)
  }

  /** The number of writes in a trace. */
  function Writes(trace: seq<Event>): (k: nat)
  {
    if trace == [] then 0 else (if trace[0].Wrote? then 1 else 0) + Writes(trace[1..])
  }

  /** The number of pauses in a trace. */
  function Sleeps(trace: seq<Event>): (k: nat)
  {
    if trace == [] then 0 else (if trace[0].Slept? then 1 else 0) + Sleeps(trace[1..])
  }

  /** A count is zero exactly when the trace has no event of that kind. */
  lemma {:induction false} CountsZero(trace: seq<Event>)
    ensures Writes(trace) == 0 <==> forall i :: 0 <= i < |trace| ==> !trace[i].Wrote?
    ensures Sleeps(trace) == 0 <==> forall i :: 0 <= i < |trace| ==> !trace[i].Slept?
    decreases |trace|
  {
    if trace != [] {
      CountsZero(trace[1..]);
      assert forall i :: 1 <= i < |trace| ==> trace[i] == trace[1..][i - 1];
    }
  }

  lemma {:induction false} CountsConcat(s: seq<Event>, t: seq<Event>)
    ensures Writes(s + t) == Writes(s) + Writes(t)
    ensures Sleeps(s + t) == Sleeps(s) + Sleeps(t)
    decreases |s|
  {
    if s == [] {
      assert s + t == t;
    } else {
      assert (s + t)[1..] == s[1..] + t;
      CountsConcat(s[1..], t);
    }
  }

  lemma CountOne(e: Event)
    ensures Writes([e]) == (if e.Wrote? then 1 else 0)
    ensures Sleeps([e]) == (if e.Slept? then 1 else 0)
  {
    assert [e][1..] == [];
  }

  /** A round writes once; it pauses only when its reply was rejected. */
  lemma RoundCounts(io: seq<Event>, last: Event)
    requires |io| == 2 && io[0].Wrote? && io[1].ReadBack? && !last.Wrote?
    ensures Writes(io) == 1 && Sleeps(io) == 0
    ensures Writes(io + [last]) == 1 && Sleeps(io + [last]) == (if last.Slept? then 1 else 0)
  {
    assert io == [io[0]] + [io[1]];
    CountOne(io[0]);
    CountOne(io[1]);
    CountOne(last);
    CountsConcat([io[0]], [io[1]]);
    CountsConcat(io, [last]);
  }

  /** A rejected round adds one write and one pause to what follows it. */
  lemma RejectedRoundCounts(io: seq<Event>, rest: seq<Event>)
    requires |io| == 2 && io[0].Wrote? && io[1].ReadBack?
    ensures Writes(io + [Slept] + rest) == Writes(rest) + 1
    ensures Sleeps(io + [Slept] + rest) == Sleeps(rest) + 1
  {
    RoundCounts(io, Slept);
    CountsConcat(io + [Slept], rest);
  }

  /** Counting from round n: at most 3 - n writes; when the loop runs out,
      exactly 3 - n writes and as many pauses; otherwise one pause fewer
      than writes, since the round that ends the loop does not pause. */
  lemma {:induction false} RoundsCounts(parse: seq<byte> -> Parsed, frame: seq<byte>, read: nat -> Option<seq<byte>>, n: nat)
    requires n <= 3
    ensures Writes(Rounds(parse, frame, read, n).1) <= 3 - n
    ensures Rounds(parse, frame, read, n).0 == NoValidReply ==>
              Writes(Rounds(parse, frame, read, n).1) == 3 - n && Sleeps(Rounds(parse, frame, read, n).1) == 3 - n
    ensures Rounds(parse, frame, read, n).0 != NoValidReply ==>
              Writes(Rounds(parse, frame, read, n).1) >= 1 &&
              Sleeps(Rounds(parse, frame, read, n).1) == Writes(Rounds(parse, frame, read, n).1) - 1
    decreases 3 - n
  {
    if n < 3 {
      var r := read(n);
      var io := [Wrote(frame), ReadBack(r)];
      var t := Rounds(parse, frame, read, n).1;
      if Rejected(parse, r) {
        var next := Rounds(parse, frame, read, n + 1);
        RoundsCounts(parse, frame, read, n + 1);
        assert t == io + [Slept] + next.1;
        RejectedRoundCounts(io, next.1);
      } else if r.Some? && parse(r.value).Reported? {
        var status := parse(r.value).status;
        RoundCounts(io, Printed(status));
        assert t == io + [Printed(status)];
      } else {
        RoundCounts(io, Slept);
        assert t == io;
      }
    }
  }

  /** The order of events the loop produces, at position i: a write is the
      frame of line 176 and is followed at once by a read; a read follows a
      write; a print or a pause follows a read; a print is the last event. */
  predicate OrderedAt(frame: seq<byte>, trace: seq<Event>, i: nat)
    requires i < |trace|
  {
    (trace[i].Wrote? ==> trace[i].frame == frame && i + 1 < |trace| && trace[i + 1].ReadBack?) &&
    (trace[i].ReadBack? ==> 0 < i && trace[i - 1].Wrote?) &&
    (trace[i].Printed? ==> i == |trace| - 1 && 0 < i && trace[i - 1].ReadBack?) &&
    (trace[i].Slept? ==> 0 < i && trace[i - 1].ReadBack?)
  }

  predicate WellOrdered(frame: seq<byte>, trace: seq<Event>)
  {
    forall i :: 0 <= i < |trace| ==> OrderedAt(frame, trace, i)
  }

  /** A rejected round followed by a well-ordered rest that is empty or
      starts with a write is well ordered. */
  lemma RejectedRoundOrdered(frame: seq<byte>, reply: Option<seq<byte>>, rest: seq<Event>)
    requires WellOrdered(frame, rest) && (rest == [] || rest[0].Wrote?)
    ensures WellOrdered(frame, [Wrote(frame), ReadBack(reply), Slept] + rest)
  {
    var t := [Wrote(frame), ReadBack(reply), Slept] + rest;
    forall i | 0 <= i < |t|
      ensures OrderedAt(frame, t, i)
    {
      if i >= 3 {
        assert OrderedAt(frame, rest, i - 3);
        assert t[i] == rest[i - 3];
        if i > 3 {
          assert t[i - 1] == rest[i - 4];
        }
        if i + 1 < |t| {
          assert t[i + 1] == rest[i - 2];
        }
      }
    }
  }

  /** A round that ends the loop, with or without a print, is well
      ordered. */
  lemma FinalRoundOrdered(frame: seq<byte>, reply: Option<seq<byte>>, status: Status)
    ensures WellOrdered(frame, [Wrote(frame), ReadBack(reply)])
    ensures WellOrdered(frame, [Wrote(frame), ReadBack(reply), Printed(status)])
  {
    var t := [Wrote(frame), ReadBack(reply)];
    assert OrderedAt(frame, t, 0) && OrderedAt(frame, t, 1);
    var u := [Wrote(frame), ReadBack(reply), Printed(status)];
    assert OrderedAt(frame, u, 0) && OrderedAt(frame, u, 1) && OrderedAt(frame, u, 2);
  }

  /** Every trace of the loop is well ordered, and from round n < 3 on it
      starts by writing the frame and reading. */
  lemma {:induction false} RoundsShape(parse: seq<byte> -> Parsed, frame: seq<byte>, read: nat -> Option<seq<byte>>, n: nat)
    ensures WellOrdered(frame, Rounds(parse, frame, read, n).1)
    ensures n < 3 ==>
              |Rounds(parse, frame, read, n).1| >= 2 &&
              Rounds(parse, frame, read, n).1[0] == Wrote(frame) &&
              Rounds(parse, frame, read, n).1[1] == ReadBack(read(n))
    decreases 3 - n
  {
    if n < 3 {
      var r := read(n);
      var io := [Wrote(frame), ReadBack(r)];
      FinalRoundOrdered(frame, r, Status("", 0, 0));
      if Rejected(parse, r) {
        var rest := Rounds(parse, frame, read, n + 1).1;
        RoundsShape(parse, frame, read, n + 1);
        assert Rounds(parse, frame, read, n).1 == io + [Slept] + rest;
        assert io + [Slept] + rest == [Wrote(frame), ReadBack(r), Slept] + rest;
        RejectedRoundOrdered(frame, r, rest);
      } else if r.Some? && parse(r.value).Reported? {
        var status := parse(r.value).status;
        FinalRoundOrdered(frame, r, status);
        assert Rounds(parse, frame, read, n).1 == io + [Printed(status)];
      } else {
        assert Rounds(parse, frame, read, n).1 == io;
      }
    } else {
      assert Rounds(parse, frame, read, n).1 == [];
    }
  }

  /** When the reply to round k is the first one not rejected, the loop ends
      at round k, and the outcome is what that reply leads to. */
  lemma {:induction false} EndsAtFirstNotRejected(parse: seq<byte> -> Parsed, frame: seq<byte>, read: nat -> Option<seq<byte>>, n: nat, k: nat)
    requires n <= k < 3
    requires forall j :: n <= j < k ==> Rejected(parse, read(j))
    requires !Rejected(parse, read(k))
    ensures Rounds(parse, frame, read, n).0 ==
              if read(k).None? then Crashed(NilRead)
              else match parse(read(k).value)
                case Reported(status) => Accepted(status)
                case _ => Crashed(UnnamedStatus)
    decreases k - n
  {
    if n < k {
      EndsAtFirstNotRejected(parse, frame, read, n + 1, k);
    }
  }

  /** The loop ends without an accepted reply exactly when each of the three
      reads returned a reply that was rejected; the trace is then three
      rounds of write, read and pause. */
  lemma NoValidReplyExactly(parse: seq<byte> -> Parsed, frame: seq<byte>, read: nat -> Option<seq<byte>>)
    ensures Rounds(parse, frame, read, 0).0 == NoValidReply <==>
              Rejected(parse, read(0)) && Rejected(parse, read(1)) && Rejected(parse, read(2))
    ensures Rounds(parse, frame, read, 0).0 == NoValidReply ==>
              Rounds(parse, frame, read, 0).1 ==
                [Wrote(frame), ReadBack(read(0)), Slept,
                 Wrote(frame), ReadBack(read(1)), Slept,
                 Wrote(frame), ReadBack(read(2)), Slept]
  {
    if Rejected(parse, read(0)) && Rejected(parse, read(1)) && Rejected(parse, read(2)) {
      var r0 := [Wrote(frame), ReadBack(read(0)), Slept];
      var r1 := [Wrote(frame), ReadBack(read(1)), Slept];
      var r2 := [Wrote(frame), ReadBack(read(2)), Slept];
      assert Rounds(parse, frame, read, 3) == (NoValidReply, []);
      assert [Wrote(frame), ReadBack(read(2))] + [Slept] + [] == r2;
      assert Rounds(parse, frame, read, 2) == (NoValidReply, r2);
      assert [Wrote(frame), ReadBack(read(1))] + [Slept] + r2 == r1 + r2;
      assert Rounds(parse, frame, read, 1) == (NoValidReply, r1 + r2);
      assert [Wrote(frame), ReadBack(read(0))] + [Slept] + (r1 + r2) == r0 + r1 + r2;
      assert Rounds(parse, frame, read, 0) == (NoValidReply, r0 + r1 + r2);
    } else if !Rejected(parse, read(0)) {
      EndsAtFirstNotRejected(parse, frame, read, 0, 0);
    } else if !Rejected(parse, read(1)) {
      EndsAtFirstNotRejected(parse, frame, read, 0, 1);
    } else {
      EndsAtFirstNotRejected(parse, frame, read, 0, 2);
    }
  }

  /** Round n < 3 unfolded: its events, and whether the loop goes on. */
  lemma RoundsAt(parse: seq<byte> -> Parsed, frame: seq<byte>, read: nat -> Option<seq<byte>>, n: nat)
    requires n < 3
    ensures read(n).None? ==> Rounds(parse, frame, read, n) == (Crashed(NilRead), [Wrote(frame), ReadBack(read(n))])
    ensures read(n).Some? && parse(read(n).value).Reported? ==>
              Rounds(parse, frame, read, n) ==
                (Accepted(parse(read(n).value).status),
                 [Wrote(frame), ReadBack(read(n))] + [Printed(parse(read(n).value).status)])
    ensures read(n).Some? && parse(read(n).value).Unnamed? ==>
              Rounds(parse, frame, read, n) == (Crashed(UnnamedStatus), [Wrote(frame), ReadBack(read(n))])
    ensures Rejected(parse, read(n)) ==>
              Rounds(parse, frame, read, n) ==
                (Rounds(parse, frame, read, n + 1).0,
                 [Wrote(frame), ReadBack(read(n))] + [Slept] + Rounds(parse, frame, read, n + 1).1)
  {
  }

  /** An accepted reply is the last thing the loop prints, and nothing
      follows it. */
  lemma {:induction false} AcceptedEndsWithPrint(parse: seq<byte> -> Parsed, frame: seq<byte>, read: nat -> Option<seq<byte>>, n: nat)
    ensures Rounds(parse, frame, read, n).0.Accepted? ==>
              |Rounds(parse, frame, read, n).1| > 0 &&
              Rounds(parse, frame, read, n).1[|Rounds(parse, frame, read, n).1| - 1] ==
                Printed(Rounds(parse, frame, read, n).0.status)
    decreases 3 - n
  {
    if n < 3 {
      RoundsAt(parse, frame, read, n);
      if Rejected(parse, read(n)) {
        AcceptedEndsWithPrint(parse, frame, read, n + 1);
      }
    }
  }

  /** `send_command`: the `3.times` loop with its early `break`. */
  method SendCommand(cfg: Config, read: nat -> Option<seq<byte>>) returns (outcome: Outcome, trace: seq<Event>)
    ensures (outcome, trace) == Rounds(Parser(cfg), Packet(cfg), read, 0)
    ensures 1 <= Writes(trace) <= 3
    ensures WellOrdered(Packet(cfg), trace)
    ensures outcome.Accepted? ==> trace[|trace| - 1] == Printed(outcome.status)
    ensures outcome == NoValidReply <==>
              Rejected(Parser(cfg), read(0)) && Rejected(Parser(cfg), read(1)) && Rejected(Parser(cfg), read(2))
  {
    var packet := Packet(cfg);
    ghost var parse := Parser(cfg);
    outcome := NoValidReply;
    trace := [];
    assert trace + Rounds(parse, packet, read, 0).1 == Rounds(parse, packet, read, 0).1;
    assert Rounds(parse, packet, read, 3) == (NoValidReply, []);
    for n := 0 to 3
      invariant outcome == NoValidReply
      invariant Rounds(parse, packet, read, 0) ==
                  (Rounds(parse, packet, read, n).0, trace + Rounds(parse, packet, read, n).1)
    {
      var returned := read(n);
      var round := [Wrote(packet), ReadBack(returned)];
      RoundsAt(parse, packet, read, n);
      if returned == None {
        outcome := Crashed(NilRead);
        trace := trace + round;
        assert (outcome, trace) == Rounds(parse, packet, read, 0);
        break;
      }
      var parsed := ParseResponse(cfg, returned.value);
      assert parse(returned.value) == parsed;
      if parsed.Reported? {
        outcome := Accepted(parsed.status);
        trace := trace + (round + [Printed(parsed.status)]);
        assert (outcome, trace) == Rounds(parse, packet, read, 0);
        break;
      } else if parsed == Unnamed {
        outcome := Crashed(UnnamedStatus);
        trace := trace + round;
        assert (outcome, trace) == Rounds(parse, packet, read, 0);
        break;
      }
      ghost var rest := Rounds(parse, packet, read, n + 1).1;
      assert trace + (round + [Slept] + rest) == (trace + round + [Slept]) + rest;
      trace := trace + round + [Slept];
    }
    assert trace + [] == trace;
    RoundsCounts(parse, packet, read, 0);
    RoundsShape(parse, packet, read, 0);
    AcceptedEndsWithPrint(parse, packet, read, 0);
    NoValidReplyExactly(parse, packet, read);
  }

  /** What running the script does, after option parsing. */
  datatype RunResult =
    | SetupFailed(error: SetupError)
    | Exchanged(outcome: Outcome)

  /** Lines 152-216: fix the values, then `send_command`. A setup failure
      stops the script before anything is written. */
  method Run(req: Request, read: nat -> Option<seq<byte>>) returns (result: RunResult, trace: seq<Event>)
    ensures result.SetupFailed? <==> Configure(req).Aborted?
    ensures result.SetupFailed? ==> result.error == Configure(req).error && trace == []
    ensures result.Exchanged? ==> (result.outcome, trace) == Rounds(Parser(Configure(req).cfg), Packet(Configure(req).cfg), read, 0)
  {
    match Configure(req) {
      case Aborted(error) =>
        result := SetupFailed(error);
        trace := [];
      case Ready(cfg) =>
        var outcome;
        outcome, trace := SendCommand(cfg, read);
        result := Exchanged(outcome);
    }
  }
}
