/** The matching state machine shared by both usbhidOpenDevice loops. The
    loop walks the enumerated devices in order, keeping `errorCode` and at
    most one open handle; each device either ends the loop (it is the one),
    is passed over, or is a rejected candidate that sets `errorCode`. Every
    handle the loop opens for a device it does not keep is closed before the
    next device is looked at. */
module Selection {
  import opened HidTypes

  /** What the loop decides about one enumerated device. `wasOpened` says
      whether it opened a handle to the device on the way. */
  datatype Verdict =
    | Accept
    | Ignore(wasOpened: bool)
    | Reject(code: OpenCode, wasOpened: bool)

  /** The calls that open and close device handles, in the order made. */
  datatype Event<L> = Opened(at: L) | Closed(at: L)

  /** The loop's variables: errorCode, the handle kept (by the location of
      its device), and the handle calls made so far. */
  datatype State<L> = State(errorCode: OpenCode, chosen: Option<L>, log: seq<Event<L>>)

  /** The calls made for a device that is not kept. */
  function Visit<L>(at: L, wasOpened: bool): seq<Event<L>>
  {
    if wasOpened then [Opened(at), Closed(at)] else []
  }

  /** One iteration of the loop; once a device is kept nothing changes. */
  function Step<L>(s: State<L>, at: L, v: Verdict): State<L>
  {
    if s.chosen.Some? then s
    else
      match v
      case Accept => State(s.errorCode, Some(at), s.log + [Opened(at)])
      case Ignore(wasOpened) => State(s.errorCode, None, s.log + Visit(at, wasOpened))
      case Reject(code, wasOpened) => State(code, None, s.log + Visit(at, wasOpened))
  }

  /** The loop over a sequence of located verdicts, from errorCode
      NOTFOUND and no handle. */
  function Run<L>(cs: seq<(L, Verdict)>): State<L>
  {
    if cs == [] then State(ErrNotFound, None, [])
    else
      var last := cs[|cs| - 1];
      Step(Run(cs[..|cs| - 1]), last.0, last.1)
  }

  /** Each device costs the loop at most one open and one close, and the
      handle calls are odd in number exactly when a handle is kept: only
      the kept one is left unclosed. */
  lemma {:induction false} RunLog<L>(cs: seq<(L, Verdict)>)
    ensures |Run(cs).log| <= 2 * |cs|
    ensures Run(cs).chosen.Some? <==> |Run(cs).log| % 2 == 1
  {
    if cs != [] {
      RunLog(cs[..|cs| - 1]);
    }
  }

  /** What usbhidOpenDevice returns after the loop. */
  function Result<L>(s: State<L>): OpenCode
  {
    if s.chosen.Some? then Success else s.errorCode
  }

  /** When no rejected candidate carries SUCCESS, usbhidOpenDevice returns
      SUCCESS exactly when it keeps a handle. */
  lemma {:induction false} RunResult<L>(cs: seq<(L, Verdict)>)
    requires forall k :: 0 <= k < |cs| && cs[k].1.Reject? ==> cs[k].1.code != Success
    ensures Result(Run(cs)) == Success <==> Run(cs).chosen.Some?
  {
    if cs != [] {
      RunResult(cs[..|cs| - 1]);
    }
  }

  lemma RunAppend<L>(cs: seq<(L, Verdict)>, c: (L, Verdict))
    ensures Run(cs + [c]) == Step(Run(cs), c.0, c.1)
  {
    assert (cs + [c])[..|cs|] == cs;
  }

  /** Once a device is kept, the devices enumerated after it change nothing. */
  lemma {:induction false} RunKeepsChoice<L>(cs: seq<(L, Verdict)>, more: seq<(L, Verdict)>)
    requires Run(cs).chosen.Some?
    ensures Run(cs + more) == Run(cs)
    decreases |more|
  {
    if more != [] {
      var init := more[..|more| - 1];
      var last := more[|more| - 1];
      RunKeepsChoice(cs, init);
      assert more == init + [last];
      assert cs + more == (cs + init) + [last];
      RunAppend(cs + init, last);
      assert Run(cs + more) == Step(Run(cs + init), last.0, last.1);
    } else {
      assert cs + more == cs;
    }
  }

  /** The loop over the first i + 1 candidates is one step past the first i. */
  lemma RunNext<L>(cs: seq<(L, Verdict)>, i: nat)
    requires i < |cs|
    ensures Run(cs[..i + 1]) == Step(Run(cs[..i]), cs[i].0, cs[i].1)
  {
    assert cs[..i + 1][..i] == cs[..i];
  }

  /** A device kept among the first i candidates is the one kept in the end. */
  lemma RunPrefixKept<L>(cs: seq<(L, Verdict)>, i: nat)
    requires i <= |cs| && Run(cs[..i]).chosen.Some?
    ensures Run(cs) == Run(cs[..i])
  {
    RunKeepsChoice(cs[..i], cs[i..]);
    assert cs[..i] + cs[i..] == cs;
  }

  /** `k` is the first accepted device. */
  ghost predicate FirstAccept<L>(cs: seq<(L, Verdict)>, k: int)
  {
    && 0 <= k < |cs|
    && cs[k].1.Accept?
    && forall j :: 0 <= j < k ==> !cs[j].1.Accept?
  }

  /** The loop keeps a handle exactly when some device is accepted, and it
      keeps the first one in enumeration order. */
  lemma {:induction false} RunChoosesFirst<L>(cs: seq<(L, Verdict)>)
    ensures Run(cs).chosen.None? <==> forall k :: 0 <= k < |cs| ==> !cs[k].1.Accept?
    ensures forall k :: FirstAccept(cs, k) ==> Run(cs).chosen == Some(cs[k].0)
    ensures Run(cs).chosen.Some? ==> exists k :: FirstAccept(cs, k)
  {
    if cs != [] {
      var init := cs[..|cs| - 1];
      var last := cs[|cs| - 1];
      RunChoosesFirst(init);
      assert Run(cs) == Step(Run(init), last.0, last.1);
      assert forall k :: 0 <= k < |init| ==> init[k] == cs[k];
      if Run(init).chosen.Some? {
        var k :| FirstAccept(init, k);
        assert FirstAccept(cs, k);
        assert forall j :: FirstAccept(cs, j) ==> j == k;
      } else if last.1.Accept? {
        assert FirstAccept(cs, |cs| - 1);
        assert forall j :: FirstAccept(cs, j) ==> j == |cs| - 1;
      } else {
        forall j | 0 <= j < |cs|
          ensures !cs[j].1.Accept?
        {
          if j < |init| {
            assert !init[j].1.Accept?;
          }
        }
      }
    }
  }

  /** errorCode is NOTFOUND or the code of some rejected candidate. */
  lemma {:induction false} RunErrorCodeFrom<L>(cs: seq<(L, Verdict)>)
    ensures Run(cs).errorCode == ErrNotFound
      || exists k :: 0 <= k < |cs| && cs[k].1.Reject? && cs[k].1.code == Run(cs).errorCode
  {
    if cs != [] {
      var init := cs[..|cs| - 1];
      RunErrorCodeFrom(init);
      if Run(cs).errorCode != Run(init).errorCode {
        assert cs[|cs| - 1].1.Reject?;
      } else if Run(init).errorCode != ErrNotFound {
        var k :| 0 <= k < |init| && init[k].1.Reject? && init[k].1.code == Run(init).errorCode;
        assert cs[k] == init[k];
      }
    }
  }

  /** `k` is the last rejected candidate. */
  ghost predicate LastReject<L>(cs: seq<(L, Verdict)>, k: int)
  {
    && 0 <= k < |cs|
    && cs[k].1.Reject?
    && forall j :: k < j < |cs| ==> !cs[j].1.Reject?
  }

  /** When no device is accepted, errorCode is the code of the last
      rejected candidate, or NOTFOUND when there was none. */
  lemma {:induction false} RunErrorCode<L>(cs: seq<(L, Verdict)>)
    requires forall k :: 0 <= k < |cs| ==> !cs[k].1.Accept?
    ensures (forall k :: 0 <= k < |cs| ==> !cs[k].1.Reject?) ==> Run(cs).errorCode == ErrNotFound
    ensures forall k :: LastReject(cs, k) ==> Run(cs).errorCode == cs[k].1.code
  {
    if cs != [] {
      var init := cs[..|cs| - 1];
      RunErrorCode(init);
      RunChoosesFirst(init);
      forall k | LastReject(cs, k)
        ensures Run(cs).errorCode == cs[k].1.code
      {
        if k < |init| {
          assert LastReject(init, k);
        }
      }
    }
  }

  /** The handle calls one device costs the loop when it is reached:
      opening the kept device, or opening and closing a passed-over one. */
  function Own<L>(c: (L, Verdict)): (calls: seq<Event<L>>)
    ensures |calls| <= 2
    ensures forall e :: e in calls ==> e.at == c.0
  {
    match c.1
    case Accept => [Opened(c.0)]
    case Ignore(wasOpened) => Visit(c.0, wasOpened)
    case Reject(_, wasOpened) => Visit(c.0, wasOpened)
  }

  /** The handle calls of the devices in enumeration order, each device's
      own calls in turn, up to and including the first accepted one. */
  function Calls<L>(cs: seq<(L, Verdict)>): seq<Event<L>>
  {
    if cs == [] then []
    else Own(cs[0]) + (if cs[0].1.Accept? then [] else Calls(cs[1..]))
  }

  /** A device after the first accepted one adds no calls. */
  lemma {:induction false} CallsAfterAccept<L>(cs: seq<(L, Verdict)>, c: (L, Verdict), k: nat)
    requires k < |cs| && cs[k].1.Accept?
    ensures Calls(cs + [c]) == Calls(cs)
    decreases |cs|
  {
    assert (cs + [c])[0] == cs[0];
    if !cs[0].1.Accept? {
      assert (cs + [c])[1..] == cs[1..] + [c];
      CallsAfterAccept(cs[1..], c, k - 1);
    }
  }

  /** Before any device is accepted, the next device's own calls follow. */
  lemma {:induction false} CallsBeforeAccept<L>(cs: seq<(L, Verdict)>, c: (L, Verdict))
    requires forall k :: 0 <= k < |cs| ==> !cs[k].1.Accept?
    ensures Calls(cs + [c]) == Calls(cs) + Own(c)
    decreases |cs|
  {
    if cs == [] {
      assert [] + [c] == [c];
    } else {
      assert (cs + [c])[0] == cs[0];
      assert (cs + [c])[1..] == cs[1..] + [c];
      CallsBeforeAccept(cs[1..], c);
    }
  }

  /** The loop's handle calls are exactly each device's own calls, in
      enumeration order, up to the kept device: no device is opened twice
      or out of turn, and none after the kept one is touched. */
  lemma {:induction false} RunCalls<L>(cs: seq<(L, Verdict)>)
    ensures Run(cs).log == Calls(cs)
  {
    if cs != [] {
      var init := cs[..|cs| - 1];
      var last := cs[|cs| - 1];
      assert cs == init + [last];
      RunCalls(init);
      RunChoosesFirst(init);
      if Run(init).chosen.Some? {
        var k :| FirstAccept(init, k);
        CallsAfterAccept(init, last, k);
      } else {
        CallsBeforeAccept(init, last);
        assert Run(cs).log == Run(init).log + Own(last);
      }
    }
  }

  /** Handle discipline: each handle opened is closed by the very next
      call, except the kept one, which is opened last and never closed. */
  ghost predicate Balanced<L>(log: seq<Event<L>>, chosen: Option<L>)
  {
    && (forall k {:trigger log[k]} :: 0 <= k < |log| && log[k].Opened? ==>
          (k + 1 < |log| && log[k + 1] == Closed(log[k].at))
          || (k + 1 == |log| && chosen == Some(log[k].at)))
    && (forall k {:trigger log[k]} :: 0 <= k < |log| && log[k].Closed? ==> 0 < k && log[k - 1] == Opened(log[k].at))
    && (chosen.Some? ==> 0 < |log| && log[|log| - 1] == Opened(chosen.value))
  }

  lemma BalancedExtend<L>(log: seq<Event<L>>, more: seq<Event<L>>, chosen: Option<L>)
    requires Balanced(log, None)
    requires Balanced(more, chosen)
    ensures Balanced(log + more, chosen)
  {
    var all := log + more;
    forall k | 0 <= k < |all| && all[k].Opened?
      ensures (k + 1 < |all| && all[k + 1] == Closed(all[k].at))
              || (k + 1 == |all| && chosen == Some(all[k].at))
    {
      if k >= |log| {
        assert all[k] == more[k - |log|];
        if k + 1 < |all| {
          assert all[k + 1] == more[k + 1 - |log|];
        }
      } else {
        assert all[k] == log[k];
        assert k + 1 < |log| && log[k + 1] == Closed(log[k].at);
        assert all[k + 1] == log[k + 1];
      }
    }
    forall k | 0 <= k < |all| && all[k].Closed?
      ensures 0 < k && all[k - 1] == Opened(all[k].at)
    {
      if k >= |log| {
        assert all[k] == more[k - |log|];
        if k - 1 >= |log| {
          assert all[k - 1] == more[k - 1 - |log|];
        }
      }
    }
  }

  lemma StepBalanced<L>(s: State<L>, at: L, v: Verdict)
    requires Balanced(s.log, s.chosen)
    ensures Balanced(Step(s, at, v).log, Step(s, at, v).chosen)
  {
    if s.chosen.None? {
      match v
      case Accept =>
        BalancedExtend(s.log, [Opened(at)], Some(at));
      case Ignore(wasOpened) =>
        BalancedExtend(s.log, Visit(at, wasOpened), None);
      case Reject(code, wasOpened) =>
        BalancedExtend(s.log, Visit(at, wasOpened), None);
    }
  }

  /** Every handle the loop opens and does not return is closed, and the
      returned one is left open. */
  lemma {:induction false} RunBalanced<L>(cs: seq<(L, Verdict)>)
    ensures Balanced(Run(cs).log, Run(cs).chosen)
  {
    if cs != [] {
      var init := cs[..|cs| - 1];
      RunBalanced(init);
      StepBalanced(Run(init), cs[|cs| - 1].0, cs[|cs| - 1].1);
    }
  }
}
