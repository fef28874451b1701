/** The crossing as a machine with registers and a memory that change edge by edge. */
module FifoMachine {
  import Modular
  import opened FifoLogic
  import opened Controller
  import opened AsyncFifo
  import opened FifoRuns

  /** After `i` of the instants from `start` on the state is `s`, with the transfers `ts`. */
  ghost predicate Along<T>(w: nat, zero: T, start: State<T>, xs: seq<Event<T>>, i: nat, s: State<T>, ts: seq<Transfer<T>>)
    requires w >= 3 && |start.cells| == |s.cells| == Depth(w) && i <= |xs|
  {
    Run(w, zero, start, xs) == Run(w, zero, s, xs[i..]) &&
    Transfers(w, zero, start, xs) == ts + Transfers(w, zero, s, xs[i..])
  }

  lemma AlongAll<T>(w: nat, zero: T, start: State<T>, xs: seq<Event<T>>, s: State<T>, ts: seq<Transfer<T>>)
    requires w >= 3 && |start.cells| == |s.cells| == Depth(w)
    ensures Along(w, zero, start, xs, 0, start, [])
    ensures Along(w, zero, start, xs, |xs|, s, ts) ==> Run(w, zero, start, xs) == s && Transfers(w, zero, start, xs) == ts
  {
    assert xs[0..] == xs && xs[|xs|..] == [];
    assert [] + Transfers(w, zero, start, xs) == Transfers(w, zero, start, xs);
    assert ts + [] == ts;
  }

  lemma AlongStep<T>(w: nat, zero: T, start: State<T>, xs: seq<Event<T>>, i: nat, s: State<T>, ts: seq<Transfer<T>>, t: Transfer<T>)
    requires w >= 3 && |start.cells| == |s.cells| == Depth(w) && i < |xs| && Along(w, zero, start, xs, i, s, ts)
    requires t == Observe(s, xs[i], Accepts(w, s, xs[i]), Delivers(w, s, xs[i]))
    ensures Along(w, zero, start, xs, i + 1, Step(w, zero, s, xs[i]), ts + [t])
  {
    assert xs[i..][0] == xs[i] && xs[i..][1..] == xs[i + 1..];
    assert ts + ([t] + Transfers(w, zero, Step(w, zero, s, xs[i]), xs[i + 1..])) ==
           ts + [t] + Transfers(w, zero, Step(w, zero, s, xs[i]), xs[i + 1..]);
  }

  class Crossing<T> {
    const w: nat
    const zero: T
    const equations: seq<Equation>
    const cells: array<T>

    var writeBinary: nat
    var writeGray: nat
    var readGraySync1: nat
    var readGraySync2: nat
    var full: bool

    var readBinary: nat
    var readGray: nat
    var writeGraySync1: nat
    var writeGraySync2: nat
    var outputValid: bool
    var readData: T

    predicate Valid() {
      w >= 3 && equations == Equations(w) && cells.Length == Depth(w)
    }

    ghost function Registers(): (s: State<T>)
      requires Valid()
      reads this, cells
      ensures |s.cells| == Depth(w)
    {
      State(writeBinary, writeGray, readGraySync1, readGraySync2, full,
        readBinary, readGray, writeGraySync1, writeGraySync2, outputValid, cells[..], readData)
    }

    /** All registers at their reset values, all cells at the initial word. */
    constructor (w: nat, zero: T)
      requires w >= 3
      ensures Valid() && fresh(cells) && this.w == w && this.zero == zero
      ensures Cleared(w, Registers())
    {
      this.w, this.zero, this.equations := w, zero, Equations(w);
      cells := new T[Depth(w)](_ => zero);
      writeBinary, writeGray, readGraySync1, readGraySync2, full := 0, 0, 0, 0, false;
      readBinary, readGray, writeGraySync1, writeGraySync2, outputValid := 0, 0, 0, 0, false;
      readData := zero;
    }

    /** Settle the controller wires for the levels at the ports. */
    method Settle(x: Event<T>) returns (v: Values)
      requires Valid()
      ensures OUTPUTS <= v.Keys
      ensures forall n | n in OUTPUTS :: v[n] == Wires(w, SampleOf(Registers(), x))[n]
    {
      var sample := Sample(x.sourceValid, x.destinationReady, x.sourceReset, x.destinationReset,
        writeBinary, writeGray, readGraySync2, full, readBinary, readGray, writeGraySync2, outputValid);
      var r := RunEquations(equations, sample.Inputs());
      InputsSettle(w, sample);
      assert r == Ok(Outputs(w, sample));
      v := r.value;
      assert forall n | n in OUTPUTS :: Holds(v, n, Wires(w, sample)[n]);
    }

    /** Advance the domains that have an edge.  The word fetched is read before the
        memory is written. */
    method Edge(x: Event<T>) returns (accepted: bool, delivered: bool)
      requires Valid()
      modifies this, cells
      ensures Valid()
      ensures Registers() == Step(w, zero, old(Registers()), x)
      ensures accepted == Accepts(w, old(Registers()), x) && delivered == Delivers(w, old(Registers()), x)
    {
      var v := Settle(x);
      ghost var s := Registers();
      ghost var wires := Wires(w, SampleOf(s, x));
      assert forall n | n in OUTPUTS :: v[n] == wires[n];
      accepted := x.sourceEdge && v[Push] != 0;
      delivered := x.destinationEdge && v[Pop] != 0;
      var fetched := cells[Modular.Wrap(v[ReadBinaryNext], Depth(w))];
      if x.sourceEdge {
        SourceEdge(x, v, wires);
      }
      if x.destinationEdge {
        DestinationEdge(x, v, fetched, s, wires);
      }
    }

    /** Go through a sequence of instants, noting the words accepted and delivered. */
    method RunAll(xs: seq<Event<T>>) returns (ts: seq<Transfer<T>>)
      requires Valid()
      modifies this, cells
      ensures Valid() && Registers() == Run(w, zero, old(Registers()), xs)
      ensures ts == Transfers(w, zero, old(Registers()), xs)
    {
      ghost var start := Registers();
      ts := [];
      AlongAll(w, zero, start, xs, start, ts);
      var i := 0;
      while i < |xs|
        invariant 0 <= i <= |xs| && Valid() && Along(w, zero, start, xs, i, Registers(), ts)
      {
        ghost var s := Registers();
        var t := Instant(xs[i]);
        AlongStep(w, zero, start, xs, i, s, ts, t);
        ts := ts + [t];
        i := i + 1;
      }
      AlongAll(w, zero, start, xs, Registers(), ts);
    }

    /** One instant, and what is seen of it at the ports. */
    method Instant(x: Event<T>) returns (t: Transfer<T>)
      requires Valid()
      modifies this, cells
      ensures Valid() && Registers() == Step(w, zero, old(Registers()), x)
      ensures t == Observe(old(Registers()), x, Accepts(w, old(Registers()), x), Delivers(w, old(Registers()), x))
    {
      var word := readData;
      var accepted, delivered := Edge(x);
      t := Transfer(if accepted then [x.payload] else [], if delivered then [word] else []);
    }

    /** From joint reset the words accepted and delivered are those of a bounded queue. */
    method RunFromReset(xs: seq<Event<T>>) returns (ts: seq<Transfer<T>>)
      requires Valid() && Cleared(w, Registers())
      requires Coordinated(xs, false, false) && AllCaught(w, zero, Registers(), xs)
      modifies this, cells
      ensures Valid() && QueueRuns(Depth(w), [], ts)
      ensures Delivered(ts) <= Accepted(ts) && |Accepted(ts)| - |Delivered(ts)| <= Depth(w)
    {
      CrossingRefinesQueue(w, zero, Registers(), xs);
      ts := RunAll(xs);
    }

    /** The source registers and the memory at an edge of the source clock. */
    method SourceEdge(x: Event<T>, v: Values, ghost wires: map<Signal, nat>)
      requires Valid() && OUTPUTS <= v.Keys && OUTPUTS <= wires.Keys
      requires forall n | n in OUTPUTS :: v[n] == wires[n]
      modifies this, cells
      ensures Valid() && Registers() == SourceTick(w, old(Registers()), x, wires, old(Registers()))
    {
      if x.sourceReset {
        writeBinary, writeGray, readGraySync1, readGraySync2, full := 0, 0, 0, 0, false;
      } else {
        if v[Push] != 0 {
          cells[Modular.Wrap(writeBinary, Depth(w))] := x.payload;
        }
        readGraySync1, readGraySync2 := x.caughtRead, readGraySync1;
        writeBinary, writeGray, full := v[WriteBinaryNext], v[WriteGrayNext], v[FullNext] != 0;
      }
    }

    /** The destination registers at an edge of the destination clock; `s` is the state
        before this instant, from which the word on the read port was fetched. */
    method DestinationEdge(x: Event<T>, v: Values, fetched: T, ghost s: State<T>, ghost wires: map<Signal, nat>)
      requires Valid() && OUTPUTS <= v.Keys && OUTPUTS <= wires.Keys
      requires forall n | n in OUTPUTS :: v[n] == wires[n]
      requires |s.cells| == Depth(w) && s.cells[Modular.Wrap(wires[ReadBinaryNext], Depth(w))] == fetched
      requires s.outputValid == outputValid && s.readData == readData && s.writeGraySync1 == writeGraySync1
      modifies this
      ensures Valid() && Registers() == DestinationTick(w, zero, s, x, wires, old(Registers()))
    {
      if x.destinationReset {
        readBinary, readGray, writeGraySync1, writeGraySync2, outputValid := 0, 0, 0, 0, false;
        readData := zero;
      } else {
        writeGraySync1, writeGraySync2 := x.caughtWrite, writeGraySync1;
        readBinary, readGray := v[ReadBinaryNext], v[ReadGrayNext];
        if v[Prefetch] != 0 {
          outputValid, readData := true, fetched;
        } else if v[Pop] != 0 {
          outputValid := false;
        }
      }
    }
  }
}
