/** Runs of the server: requests and reaper ticks in any order. */
module Runs {
  import opened Wire
  import opened Radius
  import opened Eap
  import opened Conversation

  datatype Event = Request(p: Packet, env: Env) | Tick(now: int) {
    predicate Valid() { Request? ==> env.Valid() }
  }

  /** An event that opens a conversation: an EAP-Response/Identity without a State. */
  predicate Opens(ev: Event) {
    && ev.Request?
    && First(ev.p.attrs, STATE) == []
    && var e := ParseEap(EapMessage(ev.p.attrs));
       e.Ok? && e.value.code == 2 && e.value.typ == 1
  }

  ghost predicate ValidRun(evs: seq<Event>) { forall i :: 0 <= i < |evs| ==> evs[i].Valid() }

  function Step(c: Crypto, s: Sessions, ev: Event): Outcome
    requires ev.Valid()
  {
    match ev
    case Request(p, env) => Handle(c, s, p, env)
    case Tick(now) => Outcome(Reap(s, now), [], None)
  }

  /** The table after a run that starts with s. */
  ghost function After(c: Crypto, s: Sessions, evs: seq<Event>): Sessions
    requires ValidRun(evs)
    decreases |evs|
  {
    if evs == [] then s
    else
      var k := |evs| - 1;
      Step(c, After(c, s, evs[..k]), evs[k]).sessions
  }

  /** What the k-th event of a run does. */
  ghost function OutcomeAt(c: Crypto, s: Sessions, evs: seq<Event>, k: nat): Outcome
    requires ValidRun(evs) && k < |evs|
  {
    Step(c, After(c, s, evs[..k]), evs[k])
  }

  lemma AfterPrefix(c: Crypto, s: Sessions, evs: seq<Event>, k: nat)
    requires ValidRun(evs) && k < |evs|
    ensures After(c, s, evs[..k + 1]) == OutcomeAt(c, s, evs, k).sessions
  {
    assert evs[..k + 1][..k] == evs[..k];
  }

  /** A run can be cut anywhere: the rest runs from the table reached. */
  lemma {:induction false} AfterSplit(c: Crypto, s: Sessions, xs: seq<Event>, ys: seq<Event>)
    requires ValidRun(xs) && ValidRun(ys)
    ensures ValidRun(xs + ys)
    ensures After(c, s, xs + ys) == After(c, After(c, s, xs), ys)
    decreases |ys|
  {
    hide Step;
    if ys == [] {
      assert xs + ys == xs;
    } else {
      var k := |ys| - 1;
      assert (xs + ys)[..|xs| + k] == xs + ys[..k];
      AfterSplit(c, s, xs, ys[..k]);
    }
  }

  lemma OutcomeSplit(c: Crypto, s: Sessions, xs: seq<Event>, ys: seq<Event>, k: nat)
    requires ValidRun(xs) && ValidRun(ys) && k < |xs| + |ys|
    ensures ValidRun(xs + ys)
    ensures OutcomeAt(c, s, xs + ys, k) ==
            if k < |xs| then OutcomeAt(c, s, xs, k) else OutcomeAt(c, After(c, s, xs), ys, k - |xs|)
  {
    if k < |xs| {
      assert (xs + ys)[..k] == xs[..k];
    } else {
      assert (xs + ys)[..k] == xs + ys[..k - |xs|];
      AfterSplit(c, s, xs, ys[..k - |xs|]);
    }
  }
}
