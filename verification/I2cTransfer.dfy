/** Whole transfers of the bit-banging I2C master (src/driver/i2c/i2c-algo-bit.c). */
module I2cTransfer {
  import opened I2cBus
  import opened I2cAlgoBit
  import opened I2cMessage

  /** The messages of a transfer that have gone through. */
  function TransferTokens(views: seq<View>): seq<Token> {
    if views == [] then []
    else
      var n := |views| - 1;
      TransferTokens(views[..n]) + (Joint(n == 0, views[n].flags) + views[n].Tokens())
  }

  lemma TransferNext(views: seq<View>, v: View)
    ensures TransferTokens(views + [v]) == TransferTokens(views) + (Joint(|views| == 0, v.flags) + v.Tokens())
  {
    assert (views + [v])[..|views|] == views;
  }

  ghost predicate AllCarried(bus: Bus, msgs: seq<I2cMsg>, views: seq<View>)
    requires |views| <= |msgs|
    reads msgs, set i | 0 <= i < |msgs| :: msgs[i].buf
  {
    forall k :: 0 <= k < |views| ==> Carried(bus, msgs[k], views[k])
  }

  ghost predicate AllValid(msgs: seq<I2cMsg>, from: nat)
    reads msgs, set i | 0 <= i < |msgs| :: msgs[i].buf
  {
    forall k :: from <= k < |msgs| ==> msgs[k].Valid()
  }

  ghost function AllGiven(msgs: seq<I2cMsg>): (r: seq<Given>)
    reads msgs, set i | 0 <= i < |msgs| :: msgs[i].buf
    ensures |r| == |msgs|
  {
    seq(|msgs|, i requires 0 <= i < |msgs| reads msgs, set i | 0 <= i < |msgs| :: msgs[i].buf => GivenOf(msgs[i]))
  }

  /** The messages in front of `i` were transferred, the others have not been touched. */
  ghost predicate AllKept(msgs: seq<I2cMsg>, given: seq<Given>, i: nat)
    requires |given| == |msgs|
    reads msgs, set i | 0 <= i < |msgs| :: msgs[i].buf
  {
    forall k :: 0 <= k < |msgs| ==> if k < i then Kept(msgs[k], given[k]) else GivenOf(msgs[k]) == given[k]
  }

  /** The first `n` messages that were read are as long as they were asked for and as the slave, if it
      gives their length, has made them. */
  ghost predicate AllLengthened(msgs: seq<I2cMsg>, given: seq<Given>, n: nat)
    requires n <= |msgs| == |given|
    reads msgs, set i | 0 <= i < |msgs| :: msgs[i].buf
  {
    forall k :: 0 <= k < n && msgs[k].flags.rd ==> Lengthened(msgs[k], given[k].len, msgs[k].Data())
  }

  ghost predicate Distinct(msgs: seq<I2cMsg>) {
    forall i, j :: 0 <= i < j < |msgs| ==> msgs[i] != msgs[j] && msgs[i].buf != msgs[j].buf
  }

  ghost function Shapes(msgs: seq<I2cMsg>): (r: seq<Shape>)
    reads msgs
    ensures |r| == |msgs|
  {
    seq(|msgs|, i requires 0 <= i < |msgs| reads msgs => Shape(msgs[i].flags, msgs[i].len))
  }

  /** The transfer has come to message `|views|`; if the slaves answer as they are asked to from `at`
      on, they still do. */
  ghost predicate Reached(bus: Bus, msgs: seq<I2cMsg>, at: nat, shapes: seq<Shape>, before: seq<Event>,
      views: seq<View>)
    requires |views| <= |msgs| == |shapes|
    reads bus, msgs, set i | 0 <= i < |msgs| :: msgs[i].buf
  {
    && Sent(bus, before, [TStart] + TransferTokens(views))
    && ToCome(msgs, shapes, |views|)
    && (bus.timedOut || (
          && AllCarried(bus, msgs, views)
          && (AllAnswered(bus, at, shapes, 0) ==> AllAnswered(bus, bus.cursor, shapes, |views|))))
  }

  /** The transfer has broken off in message `|views|`, of which `last` has been heard. */
  ghost predicate BrokeOff(bus: Bus, msgs: seq<I2cMsg>, at: nat, shapes: seq<Shape>, before: seq<Event>,
      views: seq<View>,
                           last: View, stage: Stage)
    requires |views| < |msgs| == |shapes|
    reads bus, msgs, set i | 0 <= i < |msgs| :: msgs[i].buf
  {
    && Sent(bus, before, [TStart] + Traffic(views, -1, last, stage))
    && (bus.timedOut || (
          && AllCarried(bus, msgs, views) && Broken(bus, msgs[|views|], last, stage) &&
            !AllAnswered(bus, at, shapes, 0)))
  }

  /** The messages from `i` on have yet to be transferred. */
  ghost predicate ToCome(msgs: seq<I2cMsg>, shapes: seq<Shape>, i: nat)
    requires i <= |msgs| == |shapes|
    reads msgs, set i | 0 <= i < |msgs| :: msgs[i].buf
  {
    AllValid(msgs, i) && forall k :: i <= k < |msgs| ==> shapes[k] == Shape(msgs[k].flags, msgs[k].len)
  }

  /** A message among others, which stay as they are. */
  method DoOneOf(bus: Bus, msg: I2cMsg, ghost msgs: seq<I2cMsg>, i: nat, ghost shapes: seq<Shape>,
      ghost given: seq<Given>, ghost views: seq<View>, ghost before: seq<Event>, ghost pre: seq<Token>)
    returns (ret: int, ghost view: View, ghost stage: Stage)
    requires i == |views| < |msgs| == |shapes| && msg == msgs[i] && Distinct(msgs)
    requires Sent(bus, before, pre) && ToCome(msgs, shapes, i) && (bus.timedOut || AllCarried(bus, msgs, views))
    requires |given| == |msgs| && AllKept(msgs, given, i) && (bus.timedOut || AllLengthened(msgs, given, i))
    modifies bus, msg`len, msg.buf
    ensures old(bus.timedOut) ==> bus.timedOut
    ensures ret == 0 || ret == -1
    ensures ToCome(msgs, shapes, i + 1) && (bus.timedOut || AllCarried(bus, msgs, views))
    ensures AllKept(msgs, given, i + 1) && (bus.timedOut || ret != 0 || AllLengthened(msgs, given, i + 1))
    ensures Sent(bus, before, pre + Joint(i == 0, msg.flags) + if ret == 0 then view.Tokens()
      else BrokenTokens(view, stage))
    ensures !bus.timedOut ==> if ret == 0 then Carried(bus, msg, view) else Broken(bus, msg, view, stage)
    ensures !bus.timedOut && Answered(bus, old(bus.cursor), shapes[i]) ==>
      ret == 0 && bus.cursor == old(bus.cursor) + Pulses(bus, old(bus.cursor), shapes[i])
  {
    hide Flatten, BitsOf, Attempts, WriteTokens, ReadTokens, Breaks, Carried, Kept, Lengthened;
    assert shapes[i] == Shape(msg.flags, msg.len);
    ret, view, stage := DoMessage(bus, msg, i == 0, before, pre);
    forall k | i < k < |msgs| ensures msgs[k].Valid() && shapes[k] == Shape(msgs[k].flags, msgs[k].len) {
      assert old(msgs[k].Valid());
    }
    forall k | 0 <= k < |msgs| ensures if k < i + 1 then Kept(msgs[k], given[k]) else GivenOf(msgs[k]) == given[k] {
      if k < i { assert old(Kept(msgs[k], given[k])); }
    }
    if !bus.timedOut {
      forall k | 0 <= k < i && msgs[k].flags.rd ensures Lengthened(msgs[k], given[k].len, msgs[k].Data()) {
        assert old(Lengthened(msgs[k], given[k].len, msgs[k].Data()));
      }
      forall k | 0 <= k < i ensures Carried(bus, msgs[k], views[k]) { assert old(Carried(bus, msgs[k], views[k])); }
    }
  }

  lemma CarriedNext(bus: Bus, msgs: seq<I2cMsg>, views: seq<View>, v: View)
    requires |views| < |msgs| && AllCarried(bus, msgs, views) && Carried(bus, msgs[|views|], v)
    ensures AllCarried(bus, msgs, views + [v])
  {
  }

  lemma AnsweredNext(bus: Bus, cursor: nat, shapes: seq<Shape>, i: nat, next: nat)
    requires i < |shapes|
    ensures AllAnswered(bus, cursor, shapes, i) ==> Answered(bus, cursor, shapes[i])
    ensures AllAnswered(bus, cursor, shapes, i) && next == cursor + Pulses(bus, cursor, shapes[i]) ==>
      AllAnswered(bus, next, shapes, i + 1)
  {
  }

  /** What has been heard after one more message. */
  lemma MessageNext(views: seq<View>, v: View)
    ensures [TStart] + TransferTokens(views) + Joint(|views| == 0, v.flags) + v.Tokens()
      == [TStart] + TransferTokens(views + [v])
  {
    TokensAssoc([TStart], TransferTokens(views), Joint(|views| == 0, v.flags), v.Tokens());
    TransferNext(views, v);
  }

  /** Refusals that are to be ignored do not break a message off. */
  lemma BrokenHeeds(bus: Bus, msg: I2cMsg, last: View, stage: Stage)
    requires Broken(bus, msg, last, stage) && msg.flags.ignoreNak
    ensures msg.flags.rd && msg.flags.recvLen
  {
  }

  lemma BrokenNext(views: seq<View>, v: View, stage: Stage)
    ensures [TStart] + TransferTokens(views) + Joint(|views| == 0, v.flags) + BrokenTokens(v, stage)
      == [TStart] + Traffic(views, -1, v, stage)
  {
    TokensAssoc([TStart], TransferTokens(views), Joint(|views| == 0, v.flags), BrokenTokens(v, stage));
  }

  lemma ReachedNext(bus: Bus, msgs: seq<I2cMsg>, at: nat, shapes: seq<Shape>, before: seq<Event>, views: seq<View>,
      v: View)
    requires |views| < |msgs| == |shapes| && ToCome(msgs, shapes, |views| + 1)
    requires Sent(bus, before, [TStart] + TransferTokens(views) + Joint(|views| == 0, v.flags) + v.Tokens())
    requires bus.timedOut || (AllCarried(bus, msgs, views) && Carried(bus, msgs[|views|], v))
    requires bus.timedOut || (AllAnswered(bus, at, shapes, 0) ==> AllAnswered(bus, bus.cursor, shapes, |views| + 1))
    ensures Reached(bus, msgs, at, shapes, before, views + [v])
  {
    hide Flatten, TransferTokens, BitsOf, Attempts, WriteTokens, ReadTokens;
    MessageNext(views, v);
    if !bus.timedOut { CarriedNext(bus, msgs, views, v); }
  }

  /** The next message of a transfer. */
  method NextMessage(bus: Bus, msg: I2cMsg, ghost msgs: seq<I2cMsg>, i: nat, ghost at: nat, ghost shapes: seq<Shape>,
      ghost given: seq<Given>, ghost before: seq<Event>, ghost views: seq<View>)
    returns (ret: int, ghost view: View, ghost stage: Stage)
    requires i == |views| < |msgs| == |shapes| && msg == msgs[i] && Distinct(msgs)
    requires Reached(bus, msgs, at, shapes, before, views) && |given| == |msgs| && AllKept(msgs, given, i)
    requires bus.timedOut || AllLengthened(msgs, given, i)
    modifies bus, msg`len, msg.buf
    ensures old(bus.timedOut) ==> bus.timedOut
    ensures (ret == 0 || ret == -1) && AllKept(msgs, given, i + 1)
    ensures bus.timedOut || ret != 0 || AllLengthened(msgs, given, i + 1)
    ensures if ret == 0 then Reached(bus, msgs, at, shapes, before, views + [view])
            else BrokeOff(bus, msgs, at, shapes, before, views, view, stage)
  {
    hide Flatten, BitsOf, Attempts, WriteTokens, ReadTokens, Breaks, TransferTokens;
    ret, view, stage := DoOneOf(bus, msg, msgs, i, shapes, given, views, before, [TStart] + TransferTokens(views));
    AnsweredNext(bus, old(bus.cursor), shapes, i, bus.cursor);
    if ret == 0 {
      ReachedNext(bus, msgs, at, shapes, before, views, view);
    } else {
      BrokenNext(views, view, stage);
    }
  }

  /** The messages of a transfer, one after the other, until one breaks off. */
  method XferMessages(bus: Bus, msgs: seq<I2cMsg>, ghost at: nat, ghost shapes: seq<Shape>, ghost given: seq<Given>,
      ghost before: seq<Event>)
    returns (ret: int, ghost views: seq<View>, ghost last: View, ghost stage: Stage)
    requires Distinct(msgs) && |shapes| == |msgs| && Reached(bus, msgs, at, shapes, before, [])
    requires |given| == |msgs| && AllKept(msgs, given, 0)
    modifies bus, msgs, set i | 0 <= i < |msgs| :: msgs[i].buf
    ensures old(bus.timedOut) ==> bus.timedOut
    ensures |views| <= |msgs| && ret == (if |views| == |msgs| then |msgs| else -1)
    ensures AllKept(msgs, given, |views| + 1) && (bus.timedOut || ret < 0 || AllLengthened(msgs, given, |msgs|))
    ensures if ret >= 0 then Reached(bus, msgs, at, shapes, before, views)
            else BrokeOff(bus, msgs, at, shapes, before, views, last, stage)
  {
    hide Flatten, BitsOf, Attempts, WriteTokens, ReadTokens, Breaks, Carried;
    views := [];
    var i := 0;
    ret, last, stage := 0, NO_VIEW, FirstByte;
    while i < |msgs|
      invariant 0 <= i <= |msgs| && |views| == i && ret == 0
      invariant old(bus.timedOut) ==> bus.timedOut
      invariant Reached(bus, msgs, at, shapes, before, views) && AllKept(msgs, given, i)
      invariant bus.timedOut || AllLengthened(msgs, given, i)
    {
      ret, last, stage := NextMessage(bus, msgs[i], msgs, i, at, shapes, given, before, views);
      if ret != 0 {
        return;
      }
      views := views + [last];
      i := i + 1;
    }
    ret := i;
  }

  /** A whole transfer.  On every run without a stretch timeout both lines end up released, and
      what a slave has heard is a start, the messages that went through, and a stop.  If not all of
      them did, there comes before the stop what had been heard of the next one when the slave refused
      a byte of it or gave a length out of range; so all go through if the slaves answer as they are
      asked to. */
  method Xfer(bus: Bus, msgs: seq<I2cMsg>)
    returns (ret: int, ghost views: seq<View>, ghost last: View, ghost stage: Stage)
    requires bus.Idle() && AllValid(msgs, 0) && Distinct(msgs)
    modifies bus, msgs, set i | 0 <= i < |msgs| :: msgs[i].buf
    ensures old(bus.timedOut) ==> bus.timedOut
    ensures bus.sda && bus.scl && (bus.timedOut || bus.Idle())
    ensures |views| <= |msgs| && ret == (if |views| == |msgs| then |msgs| else -1)
    ensures AllKept(msgs, old(AllGiven(msgs)), |views| + 1)
    ensures !bus.timedOut ==> AllCarried(bus, msgs, views)
    ensures !bus.timedOut && ret == |msgs| ==> AllLengthened(msgs, old(AllGiven(msgs)), |msgs|)
    ensures !bus.timedOut && ret == -1 ==>
      var msg := msgs[|views|]; msg.flags.ignoreNak ==> msg.flags.rd && msg.flags.recvLen
    ensures !bus.timedOut ==>
      bus.ear.heard == old(bus.ear).heard + Flatten([TStart] + Traffic(views, ret, last, stage)) + [Stop]
    ensures !bus.timedOut && ret == -1 ==> Broken(bus, msgs[|views|], last, stage)
    ensures !bus.timedOut && AllAnswered(bus, old(bus.cursor), old(Shapes(msgs)), 0) ==> ret == |msgs|
  {
    hide BitsOf, Attempts, WriteTokens, ReadTokens, Breaks, Carried, Kept, BrokenTokens, AllAnswered;
    hide Lengthened, AllLengthened;
    ghost var before, at, shapes, given := bus.ear.heard, bus.cursor, Shapes(msgs), AllGiven(msgs);
    I2cStart(bus, before);
    assert [TStart] + TransferTokens([]) == [TStart];
    ret, views, last, stage := XferMessages(bus, msgs, at, shapes, given, before);
    I2cStop(bus);
    if !bus.timedOut && ret == -1 && msgs[|views|].flags.ignoreNak { BrokenHeeds(bus, msgs[|views|], last, stage); }
  }

  /** What is heard between the start and the stop of a transfer. */
  function Traffic(views: seq<View>, ret: int, last: View, stage: Stage): seq<Token> {
    if ret >= 0 then TransferTokens(views)
    else TransferTokens(views) + (Joint(|views| == 0, last.flags) + BrokenTokens(last, stage))
  }
}
