/** Nested timing: inclusive and exclusive time of properly nested spans. */
module Timeline {

  datatype Frame = Frame(name: string, start: int, childNs: int)

  datatype Event = Event(name: string, parent: string, inclusiveNs: int, exclusiveNs: int)

  datatype Total = Total(calls: nat, inclusiveMs: real, exclusiveMs: real)

  // --------------------------------------------------------------------- sums

  function Exclusive(es: seq<Event>): int {
    if es == [] then 0 else Exclusive(es[..|es| - 1]) + es[|es| - 1].exclusiveNs
  }

  function Open(fs: seq<Frame>): int {
    if fs == [] then 0 else Open(fs[..|fs| - 1]) + fs[|fs| - 1].childNs
  }

  /** The share of one name. */
  function Share(es: seq<Event>, name: string): Total {
    if es == [] then Total(0, 0.0, 0.0)
    else
      var t, e := Share(es[..|es| - 1], name), es[|es| - 1];
      if e.name != name then t else OneMoreCall(t, e)
  }

  /** Nanoseconds are added up as milliseconds. */
  function OneMoreCall(t: Total, e: Event): Total {
    Total(t.calls + 1, t.inclusiveMs + e.inclusiveNs as real / 1000000.0,
      t.exclusiveMs + e.exclusiveNs as real / 1000000.0)
  }

  /** Within each open frame, the time of its closed children fits before the next
      frame was opened, or before `now`. */
  ghost predicate Fits(fs: seq<Frame>, now: int) {
    fs != [] ==>
      var rest, f := fs[..|fs| - 1], fs[|fs| - 1];
      0 <= f.childNs <= now - f.start && Fits(rest, f.start)
  }

  ghost predicate NonNegative(es: seq<Event>) {
    forall e | e in es :: 0 <= e.exclusiveNs <= e.inclusiveNs
  }

  /** Closing the innermost frame adds its time to the frame around it. */
  function Closed(fs: seq<Frame>, now: int): seq<Frame>
    requires fs != []
  {
    var n := |fs| - 1;
    if n == 0 then [] else
      fs[..n - 1] + [fs[n - 1].(childNs := fs[n - 1].childNs + (now - fs[n].start))]
  }

  /** What is recorded of the innermost frame when it is closed. */
  function Closing(fs: seq<Frame>, now: int): (e: Event)
    requires fs != []
  {
    var n := |fs| - 1;
    Event(fs[n].name, if n == 0 then "" else fs[n - 1].name,
      now - fs[n].start, now - fs[n].start - fs[n].childNs)
  }

  lemma ClosingConserves(fs: seq<Frame>, now: int)
    requires fs != []
    ensures var f := fs[|fs| - 1];
      Open(Closed(fs, now)) == Open(fs) - f.childNs + if |fs| == 1 then 0 else now - f.start
  {
    var rest, gs := fs[..|fs| - 1], Closed(fs, now);
    if rest != [] {
      assert gs[..|gs| - 1] == rest[..|rest| - 1];
    }
  }

  lemma ClosingFits(fs: seq<Frame>, before: int, now: int)
    requires fs != [] && Fits(fs, before) && before <= now
    ensures Fits(Closed(fs, now), now)
    ensures 0 <= fs[|fs| - 1].childNs <= now - fs[|fs| - 1].start
  {
    var rest, gs := fs[..|fs| - 1], Closed(fs, now);
    if rest != [] {
      assert gs[..|gs| - 1] == rest[..|rest| - 1];
    }
  }

  lemma Recording(es: seq<Event>, e: Event)
    ensures Exclusive(es + [e]) == Exclusive(es) + e.exclusiveNs
    ensures NonNegative(es + [e]) == (NonNegative(es) && 0 <= e.exclusiveNs <= e.inclusiveNs)
  {
    assert (es + [e])[..|es|] == es && e in es + [e];
    assert forall x | x in es :: x in es + [e];
  }

  /** At every moment the exclusive time of closed spans is the inclusive time of closed
      outermost spans and what open frames have been charged for their children. */
  predicate Conserved(fs: seq<Frame>, es: seq<Event>, roots: int) {
    Exclusive(es) == roots + Open(fs)
  }

  lemma LeavingKeeps(fs: seq<Frame>, es: seq<Event>, roots: int, before: int, now: int, monotone: bool)
    requires fs != [] && Conserved(fs, es, roots)
    requires monotone ==> Fits(fs, before) && NonNegative(es)
    ensures var e := Closing(fs, now);
      Conserved(Closed(fs, now), es + [e], roots + if |fs| == 1 then e.inclusiveNs else 0)
    ensures monotone && before <= now ==> Fits(Closed(fs, now), now) && NonNegative(es + [Closing(fs, now)])
  {
    ClosingConserves(fs, now);
    Recording(es, Closing(fs, now));
    if monotone && before <= now {
      ClosingFits(fs, before, now);
    }
  }

  // ---------------------------------------------------- the calls so far

  /** A span was entered, or the innermost one left, at the given clock reading. */
  datatype Call = Entered(name: string, now: int) | Left(now: int)

  /** How many spans are open after the calls. */
  function Level(calls: seq<Call>): int {
    if calls == [] then 0
    else Level(calls[..|calls| - 1]) + if calls[|calls| - 1].Entered? then 1 else -1
  }

  /** When the outermost of the open spans was entered. */
  function Outermost(calls: seq<Call>): int {
    if calls == [] then 0 else
      var rest, call := calls[..|calls| - 1], calls[|calls| - 1];
      if call.Entered? && Level(rest) == 0 then call.now else Outermost(rest)
  }

  /** How long there has been a span open, over all outermost spans that have been closed. */
  function RootTime(calls: seq<Call>): int {
    if calls == [] then 0 else
      var rest, call := calls[..|calls| - 1], calls[|calls| - 1];
      RootTime(rest) + if call.Left? && Level(rest) == 1 then call.now - Outermost(rest) else 0
  }

  datatype Span = Span(name: string, start: int)

  /** The spans that are open after the calls, the innermost last. */
  function Opened(calls: seq<Call>): seq<Span> {
    if calls == [] then [] else
      var rest, call := Opened(calls[..|calls| - 1]), calls[|calls| - 1];
      if call.Entered? then rest + [Span(call.name, call.now)] else if rest == [] then [] else rest[..|rest| - 1]
  }

  /** The frames are those of the open spans. */
  ghost predicate FramesOf(fs: seq<Frame>, spans: seq<Span>) {
    |fs| == |spans| && forall i | 0 <= i < |fs| :: fs[i].name == spans[i].name && fs[i].start == spans[i].start
  }

  function Last(calls: seq<Call>): int {
    if calls == [] then 0 else calls[|calls| - 1].now
  }

  /** The clock has never gone back. */
  predicate Monotone(calls: seq<Call>) {
    |calls| <= 1 || (Monotone(calls[..|calls| - 1]) && Last(calls[..|calls| - 1]) <= Last(calls))
  }

  /** The stack is that of the calls so far. */
  ghost predicate Stacked(calls: seq<Call>, fs: seq<Frame>) {
    FramesOf(fs, Opened(calls)) && Level(calls) == |fs| && (fs != [] ==> fs[0].start == Outermost(calls))
  }

  /** What the calls so far have come to. */
  ghost predicate Kept(calls: seq<Call>, fs: seq<Frame>, es: seq<Event>) {
    && Stacked(calls, fs) && Conserved(fs, es, RootTime(calls))
    && (Monotone(calls) ==> Fits(fs, Last(calls)) && NonNegative(es))
  }

  lemma CallsUnfold(calls: seq<Call>, call: Call)
    ensures var next := calls + [call];
      && Level(next) == Level(calls) + (if call.Entered? then 1 else -1) && Last(next) == call.now
      && Outermost(next) == (if call.Entered? && Level(calls) == 0 then call.now else Outermost(calls))
      && RootTime(next) == RootTime(calls) + (if call.Left? && Level(calls) == 1 then call.now - Outermost(calls) else 0)
      && Opened(next) == (if call.Entered? then Opened(calls) + [Span(call.name, call.now)]
                          else if Opened(calls) == [] then [] else Opened(calls)[..|Opened(calls)| - 1])
      && (Monotone(next) <==> calls == [] || (Monotone(calls) && Last(calls) <= call.now))
  {
    assert (calls + [call])[..|calls|] == calls;
  }

  /** The event names the innermost of the open spans and the one around it, if there is one,
      and tells how long it has been open. */
  ghost predicate Records(e: Event, spans: seq<Span>, now: int) {
    spans != [] && var n := |spans| - 1;
    e.name == spans[n].name && e.inclusiveNs == now - spans[n].start
    && e.parent == if n == 0 then "" else spans[n - 1].name
  }

  lemma Recorded(fs: seq<Frame>, spans: seq<Span>, now: int)
    requires fs != [] && FramesOf(fs, spans)
    ensures Records(Closing(fs, now), spans, now)
  {
  }

  lemma EnteringKeeps(calls: seq<Call>, fs: seq<Frame>, es: seq<Event>, name: string, now: int)
    requires Kept(calls, fs, es)
    ensures Kept(calls + [Entered(name, now)], fs + [Frame(name, now, 0)], es)
  {
    CallsUnfold(calls, Entered(name, now));
    var next := fs + [Frame(name, now, 0)];
    assert next[..|fs|] == fs;
    assert Open(next) == Open(fs);
  }

  lemma LeavingStacks(calls: seq<Call>, fs: seq<Frame>, now: int)
    requires Stacked(calls, fs) && fs != []
    ensures Stacked(calls + [Left(now)], Closed(fs, now))
  {
    CallsUnfold(calls, Left(now));
    ClosedFrames(fs, Opened(calls), now);
  }

  lemma ClosedFrames(fs: seq<Frame>, spans: seq<Span>, now: int)
    requires FramesOf(fs, spans) && fs != []
    ensures FramesOf(Closed(fs, now), spans[..|spans| - 1])
    ensures |fs| > 1 ==> Closed(fs, now)[0].start == fs[0].start
  {
  }

  lemma LeavingKeepsAll(calls: seq<Call>, fs: seq<Frame>, es: seq<Event>, now: int)
    requires Kept(calls, fs, es) && fs != []
    ensures Kept(calls + [Left(now)], Closed(fs, now), es + [Closing(fs, now)])
  {
    LeavingStacks(calls, fs, now);
    CallsUnfold(calls, Left(now));
    LeavingKeeps(fs, es, RootTime(calls), Last(calls), now, Monotone(calls));
  }

  class Timeline {
    var stack: seq<Frame>
    var events: seq<Event>
    ghost var calls: seq<Call>

    ghost predicate Valid()
      reads this
    {
      Kept(calls, stack, events)
    }

    constructor ()
      ensures Valid() && stack == [] && events == [] && calls == []
    {
      stack, events, calls := [], [], [];
    }

    /** Entering a span. */
    method Enter(name: string, now: int)
      requires Valid()
      modifies this
      ensures Valid() && calls == old(calls) + [Entered(name, now)]
      ensures stack == old(stack) + [Frame(name, now, 0)] && events == old(events)
    {
      EnteringKeeps(calls, stack, events, name, now);
      stack := stack + [Frame(name, now, 0)];
      calls := calls + [Entered(name, now)];
    }

    /** Leaving the innermost span, normally or by an exception. */
    method Leave(now: int)
      requires Valid() && stack != []
      modifies this
      ensures Valid() && calls == old(calls) + [Left(now)]
      ensures stack == Closed(old(stack), now) && events == old(events) + [Closing(old(stack), now)]
      ensures Records(events[|old(events)|], Opened(old(calls)), now)
    {
      ghost var expected, record := Closed(stack, now), Closing(stack, now);
      var top := |stack| - 1;
      var frame := stack[top];
      var elapsed := now - frame.start;
      var parent := "";
      if top == 0 {
        stack := [];
      } else {
        var outer := stack[top - 1];
        stack := stack[..top - 1] + [outer.(childNs := outer.childNs + elapsed)];
        parent := outer.name;
      }
      var event := Event(frame.name, parent, elapsed, elapsed - frame.childNs);
      assert stack == expected && event == record;
      Recorded(old(stack), Opened(old(calls)), now);
      events := events + [event];
      calls := calls + [Left(now)];
      assert Valid() by {
        LeavingKeepsAll(old(calls), old(stack), old(events), now);
      }
    }

    /** The totals by name. */
    method Aggregate() returns (groups: map<string, Total>)
      ensures groups.Keys == set e | e in events :: e.name
      ensures forall name | name in groups :: groups[name] == Share(events, name)
    {
      groups := map[];
      var i := 0;
      while i < |events|
        invariant 0 <= i <= |events|
        invariant groups.Keys == set e | e in events[..i] :: e.name
        invariant forall name | name in groups :: groups[name] == Share(events[..i], name)
        invariant forall name | name !in groups :: Share(events[..i], name) == Total(0, 0.0, 0.0)
      {
        var e := events[i];
        assert events[..i + 1] == events[..i] + [e];
        SharesStep(events, i);
        var t := if e.name in groups then groups[e.name] else Total(0, 0.0, 0.0);
        groups := groups[e.name := OneMoreCall(t, e)];
        i := i + 1;
      }
      assert events[..i] == events;
    }
  }

  // -------------------------------------------------- the totals lose nothing

  lemma SharesStep(es: seq<Event>, i: nat)
    requires i < |es|
    ensures forall name | name != es[i].name :: Share(es[..i + 1], name) == Share(es[..i], name)
    ensures Share(es[..i + 1], es[i].name) == OneMoreCall(Share(es[..i], es[i].name), es[i])
  {
    assert es[..i + 1][..i] == es[..i];
  }

  /** The events of one name. */
  function Only(es: seq<Event>, name: string): seq<Event> {
    if es == [] then []
    else Only(es[..|es| - 1], name) + if es[|es| - 1].name == name then [es[|es| - 1]] else []
  }

  function Inclusive(es: seq<Event>): int {
    if es == [] then 0 else Inclusive(es[..|es| - 1]) + es[|es| - 1].inclusiveNs
  }

  /** The share of a name is the number of its events and the sums of their times, a
      million nanoseconds to the millisecond. */
  lemma {:induction false} ShareIs(es: seq<Event>, name: string)
    ensures var o, t := Only(es, name), Share(es, name);
      t.calls == |o| && t.inclusiveMs * 1000000.0 == Inclusive(o) as real && t.exclusiveMs * 1000000.0 == Exclusive(o) as real
  {
    if es != [] {
      var rest, e := es[..|es| - 1], es[|es| - 1];
      ShareIs(rest, name);
      if e.name == name {
        var o := Only(rest, name);
        assert (o + [e])[..|o|] == o;
      } else {
        assert Only(rest, name) + [] == Only(rest, name);
      }
    }
  }

  function SumOfShares(es: seq<Event>, names: seq<string>): real {
    if names == [] then 0.0 else Share(es, names[0]).exclusiveMs + SumOfShares(es, names[1..])
  }

  ghost predicate Distinct(names: seq<string>) {
    forall i, j | 0 <= i < j < |names| :: names[i] != names[j]
  }

  /** Listed by name, each name once, the exclusive times add up to the whole. */
  lemma {:induction false} SharesAddUp(es: seq<Event>, names: seq<string>)
    requires Distinct(names) && forall e | e in es :: e.name in names
    ensures SumOfShares(es, names) == Exclusive(es) as real / 1000000.0
  {
    if es == [] {
      NothingShared(names);
    } else {
      var rest, e := es[..|es| - 1], es[|es| - 1];
      assert forall x | x in rest :: x in es;
      SharesAddUp(rest, names);
      OneMore(rest, e, es, names);
    }
  }

  lemma {:induction false} NothingShared(names: seq<string>)
    ensures SumOfShares([], names) == 0.0
  {
    if names != [] {
      NothingShared(names[1..]);
    }
  }

  lemma {:induction false} OneMore(rest: seq<Event>, e: Event, es: seq<Event>, names: seq<string>)
    requires es != [] && rest == es[..|es| - 1] && e == es[|es| - 1] && Distinct(names)
    ensures SumOfShares(es, names)
         == SumOfShares(rest, names) + if e.name in names then e.exclusiveNs as real / 1000000.0 else 0.0
  {
    if names != [] {
      OneMore(rest, e, es, names[1..]);
      assert names == [names[0]] + names[1..];
      assert e.name == names[0] ==> e.name !in names[1..];
    }
  }
}
