/** The registers a plan declares, against the machine they are the registers of. */
module FifoLayout {
  import opened Bits
  import opened FifoLogic
  import opened AsyncFifo
  import opened FifoPlan

  /** What the register of the given name holds. */
  function Holding<T>(s: State<T>, name: string): nat {
    if name == "zlang_write_binary" then s.writeBinary
    else if name == "zlang_write_gray" then s.writeGray
    else if name == "zlang_read_gray_sync1" then s.readGraySync1
    else if name == "zlang_read_gray_sync2" then s.readGraySync2
    else if name == "zlang_full" then FromBool(s.full)
    else if name == "zlang_read_binary" then s.readBinary
    else if name == "zlang_read_gray" then s.readGray
    else if name == "zlang_write_gray_sync1" then s.writeGraySync1
    else if name == "zlang_write_gray_sync2" then s.writeGraySync2
    else if name == "zlang_output_valid" then FromBool(s.outputValid)
    else 0
  }

  /** The clock of the domain has an edge. */
  predicate Clocked<T>(p: Plan, domain: string, x: Event<T>) {
    (domain == p.source && x.sourceEdge) || (domain == p.destination && x.destinationEdge)
  }

  /** A plan that the builder made. */
  ghost predicate Built(p: Plan) {
    exists c, clocks :: BuildPlan(p.identity, c, clocks) == Some(p)
  }

  lemma BuiltLayout(p: Plan)
    requires Built(p)
    ensures p.registers == Layout(p.identity, p.source, p.destination, p.pointerWidth)
    ensures p.pointerWidth >= 3 && p.source != p.destination
  {
    var c, clocks :| BuildPlan(p.identity, c, clocks) == Some(p);
    PlanAccepts(p.identity, c, clocks);
  }

  // -------------------------------------------------- names and values

  /** The names of the registers, those of the source domain first. */
  const NAMES := ["zlang_write_binary", "zlang_write_gray", "zlang_read_gray_sync1",
                  "zlang_read_gray_sync2", "zlang_full",
                  "zlang_read_binary", "zlang_read_gray", "zlang_write_gray_sync1",
                  "zlang_write_gray_sync2", "zlang_output_valid"]

  /** What the registers hold, in the same order. */
  function Values<T>(s: State<T>): seq<nat> {
    [s.writeBinary, s.writeGray, s.readGraySync1, s.readGraySync2, FromBool(s.full),
     s.readBinary, s.readGray, s.writeGraySync1, s.writeGraySync2, FromBool(s.outputValid)]
  }

  lemma Holds<T>(s: State<T>, k: nat)
    requires k < 10
    ensures Holding(s, NAMES[k]) == Values(s)[k]
  {
  }

  lemma LayoutPlaces(p: Plan, k: nat)
    requires p.registers == Layout(p.identity, p.source, p.destination, p.pointerWidth) && k < 10
    ensures |p.registers| == 10
    ensures var r := p.registers[k];
      && r.domain == (if k < 5 then p.source else p.destination) && r.name == NAMES[k]
      && r.width == (if k == 4 || k == 9 then 1 else p.pointerWidth)
      && r.identity == p.identity + ":state:" + r.name
  {
  }

  lemma Placed(p: Plan, r: Register) returns (k: nat)
    requires Built(p) && r in p.registers
    ensures k < 10 && r.name == NAMES[k] && r.domain == (if k < 5 then p.source else p.destination)
    ensures r.width == if k == 4 || k == 9 then 1 else p.pointerWidth
    ensures p.pointerWidth >= 3 && p.source != p.destination
  {
    BuiltLayout(p);
    LayoutPlaces(p, 0);
    k :| 0 <= k < 10 && p.registers[k] == r;
    LayoutPlaces(p, k);
  }

  // ------------------------------------------------------------ clocking

  lemma MovesKeep<T>(w: nat, zero: T, s: State<T>, x: Event<T>, t: State<T>, a: bool, d: bool, k: nat)
    requires w >= 3 && |s.cells| == Depth(w) && Ticks(w, zero, s, x, t, a, d) && k < 10
    requires if k < 5 then !x.sourceEdge else !x.destinationEdge
    ensures Values(t)[k] == Values(s)[k]
  {
  }

  /** Without an edge of its declared clock a register keeps what it holds. */
  lemma RegisterKeeps<T>(p: Plan, r: Register, zero: T, s: State<T>, x: Event<T>)
    requires Built(p) && r in p.registers && Sized(p.pointerWidth, s) && !Clocked(p, r.domain, x)
    ensures Holding(Step(p.pointerWidth, zero, s, x), r.name) == Holding(s, r.name)
  {
    var w := p.pointerWidth;
    var k := Placed(p, r);
    StepTicks(w, zero, s, x);
    MovesKeep(w, zero, s, x, Step(w, zero, s, x), Accepts(w, s, x), Delivers(w, s, x), k);
    Holds(s, k);
    Holds(Step(w, zero, s, x), k);
  }

  /** All registers set, and an edge that resets one of the domains. */
  function AllSet<T>(w: nat, zero: T): State<T>
    requires w >= 3
  {
    State(1, 1, 1, 1, true, 1, 1, 1, 1, true, seq(Depth(w), _ => zero), zero)
  }

  function ResetEdge<T>(source: bool, zero: T): Event<T> {
    Event(source, !source, true, true, false, zero, false, 1, 1)
  }

  lemma ResetChanges<T>(w: nat, zero: T, t: State<T>, a: bool, d: bool, k: nat)
    requires w >= 3 && k < 10 && Ticks(w, zero, AllSet(w, zero), ResetEdge(k < 5, zero), t, a, d)
    ensures Values(t)[k] == 0 && Values(AllSet(w, zero))[k] == 1
  {
  }

  lemma AllSetSized<T>(w: nat, zero: T)
    requires w >= 3
    ensures Sized(w, AllSet(w, zero))
  {
    Pow2Monotone(1, w);
    assert Pow2(1) == 2;
  }

  /** An edge of its declared clock alone can change a register. */
  lemma RegisterChanges<T>(p: Plan, r: Register, zero: T) returns (s: State<T>, x: Event<T>)
    requires Built(p) && r in p.registers
    ensures Sized(p.pointerWidth, s) && Clocked(p, r.domain, x) && !(x.sourceEdge && x.destinationEdge)
    ensures Holding(Step(p.pointerWidth, zero, s, x), r.name) != Holding(s, r.name)
  {
    var w := p.pointerWidth;
    var k := Placed(p, r);
    s, x := AllSet(w, zero), ResetEdge(k < 5, zero);
    AllSetSized(w, zero);
    StepTicks(w, zero, s, x);
    ResetChanges(w, zero, Step(w, zero, s, x), Accepts(w, s, x), Delivers(w, s, x), k);
    Holds(s, k);
    Holds(Step(w, zero, s, x), k);
  }

  /** The cells change only with the clock of the writing port, and the registered read only
      with that of the reading port. */
  lemma PortsKeep<T>(p: Plan, zero: T, s: State<T>, x: Event<T>)
    requires Built(p) && Sized(p.pointerWidth, s)
    ensures |p.memory.ports| == 2
    ensures var writer, reader, t := p.memory.ports[0], p.memory.ports[1], Step(p.pointerWidth, zero, s, x);
      && (writer.kind == WritePort && !Clocked(p, writer.domain, x) ==> t.cells == s.cells)
      && (reader.kind == ReadPort && !Clocked(p, reader.domain, x) ==> t.readData == s.readData)
      && writer.kind == WritePort && reader.kind == ReadPort
  {
    BuiltPorts(p);
    StepTicks(p.pointerWidth, zero, s, x);
  }

  lemma BuiltPorts(p: Plan)
    requires Built(p)
    ensures p.pointerWidth >= 3 && p.source != p.destination && |p.memory.ports| == 2
    ensures p.memory.ports[0].kind == WritePort && p.memory.ports[0].domain == p.source
    ensures p.memory.ports[1].kind == ReadPort && p.memory.ports[1].domain == p.destination
  {
    BuiltLayout(p);
  }

  // -------------------------------------------------------------- widths

  lemma ValuesFit<T>(w: nat, s: State<T>, k: nat)
    requires Sized(w, s) && k < 10
    ensures Values(s)[k] < if k == 4 || k == 9 then 2 else Pow2(w)
  {
  }

  /** A register never holds more than its declared width has room for. */
  lemma RegisterFits<T>(p: Plan, r: Register, s: State<T>)
    requires Built(p) && r in p.registers && Sized(p.pointerWidth, s)
    ensures Holding(s, r.name) < Pow2(r.width)
  {
    var k := Placed(p, r);
    assert Pow2(1) == 2;
    Holds(s, k);
    ValuesFit(p.pointerWidth, s, k);
  }

  function AllFull<T>(w: nat, zero: T): State<T>
    requires w >= 3
  {
    var m := Pow2(w) - 1;
    State(m, m, m, m, true, m, m, m, m, true, seq(Depth(w), _ => zero), zero)
  }

  lemma FullValues<T>(w: nat, zero: T, k: nat)
    requires w >= 3 && k < 10
    ensures Sized(w, AllFull(w, zero)) && Values(AllFull(w, zero))[k] == if k == 4 || k == 9 then 1 else Pow2(w) - 1
  {
  }

  /** It can hold as much as its width has room for, so that no smaller width would do. */
  lemma WidthNeeded<T>(p: Plan, r: Register, zero: T) returns (s: State<T>)
    requires Built(p) && r in p.registers
    ensures Sized(p.pointerWidth, s) && Holding(s, r.name) == Pow2(r.width) - 1
  {
    var k := Placed(p, r);
    assert Pow2(1) == 2;
    s := AllFull(p.pointerWidth, zero);
    FullValues(p.pointerWidth, zero, k);
    Holds(s, k);
  }

  // -------------------------------------------------------- completeness

  lemma SameValues<T>(s: State<T>, t: State<T>)
    requires s.cells == t.cells && s.readData == t.readData && Values(s) == Values(t)
    ensures s == t
  {
    var a, b := Values(s), Values(t);
    assert a[0] == b[0] && a[1] == b[1] && a[2] == b[2] && a[3] == b[3] && a[4] == b[4];
    assert a[5] == b[5] && a[6] == b[6] && a[7] == b[7] && a[8] == b[8] && a[9] == b[9];
  }

  /** The declared registers, the cells and the registered read are the whole state. */
  lemma RegistersAreState<T>(p: Plan, s: State<T>, t: State<T>)
    requires Built(p) && s.cells == t.cells && s.readData == t.readData
    requires forall r | r in p.registers :: Holding(s, r.name) == Holding(t, r.name)
    ensures s == t
  {
    BuiltLayout(p);
    forall k: nat | k < 10
      ensures Values(s)[k] == Values(t)[k]
    {
      LayoutPlaces(p, k);
      assert p.registers[k] in p.registers;
      Holds(s, k);
      Holds(t, k);
    }
    SameValues(s, t);
  }

  lemma Suffix(a: string, b: string, c: string)
    ensures a + b == a + c <==> b == c
  {
    assert (a + b)[|a|..] == b && (a + c)[|a|..] == c;
  }

  /** A state whose registers all hold something else. */
  function AllDifferent(): State<bool> {
    State(2, 3, 4, 5, true, 6, 7, 8, 9, false, [], false)
  }

  /** Every register is declared once, under an identity of its own made of the plan's and its
      name. */
  lemma RegistersDistinct(p: Plan, i: nat, j: nat)
    requires Built(p) && i < j < |p.registers|
    ensures |p.registers| == 10 && p.registers[i].identity == p.identity + ":state:" + p.registers[i].name
    ensures p.registers[i].name != p.registers[j].name && p.registers[i].identity != p.registers[j].identity
  {
    BuiltLayout(p);
    LayoutPlaces(p, 0);
    LayoutPlaces(p, i);
    LayoutPlaces(p, j);
    Holds(AllDifferent(), i);
    Holds(AllDifferent(), j);
    Suffix(p.identity + ":state:", p.registers[i].name, p.registers[j].name);
  }
}
