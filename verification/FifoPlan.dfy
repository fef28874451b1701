/** Sizing the crossing: which depths are accepted, and the pointer width they get. */
module FifoPlan {
  import opened Bits
  import opened FifoLogic
  import opened Controller
  import opened AsyncFifo

  datatype Collision = ReadFirst | WriteFirst | NoChange

  datatype ResetPolicy = Clear | Preserve

  datatype PortKind = ReadPort | WritePort | ReadWritePort

  /** An address is an unsigned integer of some width, or of another type. */
  datatype AddressType = UInt(width: nat) | OtherType

  datatype MemoryPort = MemoryPort(kind: PortKind, domain: string, address: AddressType,
                                   writeEnable: bool, writeData: bool, readEnable: bool)

  datatype Memory = Memory(depth: int, readLatency: int, asyncMemory: bool, ports: seq<MemoryPort>,
                           contentsReset: ResetPolicy, readDataReset: ResetPolicy, collision: Collision)

  datatype Register = Register(identity: string, name: string, domain: string, width: nat)

  datatype Plan = Plan(identity: string, memory: Memory, depth: int, addressWidth: nat, pointerWidth: nat,
                       source: string, destination: string, registers: seq<Register>,
                       equations: seq<Equation>, prefetchPolicy: string)

  datatype Check = Accepted | BadDepth | BadWidths | BadStorage | NotAsync | BadContentsReset | BadReadReset
                 | BadCollision | BadPorts | BadPolicy | BadController | SameDomain | BadLayout

  /** Bitwise conjunction of two non-negative integers. */
  function BitAnd(a: nat, b: nat): nat
    decreases a + b
  {
    if a == 0 && b == 0 then 0
    else 2 * BitAnd(a / 2, b / 2) + FromBool(a % 2 == 1 && b % 2 == 1)
  }

  /** The number of bits needed to write a non-negative integer. */
  function BitLength(n: nat): nat {
    if n == 0 then 0 else 1 + BitLength(n / 2)
  }

  const POLICY := "one_slot_registered_read_v1"

  function Validate(p: Plan): Check {
    if p.depth < 4 || BitAnd(p.depth, p.depth - 1) != 0 then BadDepth
    else if p.addressWidth != BitLength(p.depth - 1) || p.pointerWidth != p.addressWidth + 1 then BadWidths
    else if p.memory.depth != p.depth || p.memory.readLatency != 1 then BadStorage
    else if !p.memory.asyncMemory || |p.memory.ports| != 2 then NotAsync
    else if p.memory.contentsReset != Preserve then BadContentsReset
    else if p.memory.readDataReset != Clear then BadReadReset
    else if p.memory.collision != ReadFirst then BadCollision
    else if !PortsMatch(p, p.memory.ports[0], p.memory.ports[1]) then BadPorts
    else if p.prefetchPolicy != POLICY then BadPolicy
    else if Controller.Build(p.pointerWidth) != Ok(p.equations) then BadController
    else if p.source == p.destination then SameDomain
    else if p.registers != Layout(p.identity, p.source, p.destination, p.pointerWidth) then BadLayout
    else Check.Accepted
  }

  predicate PortsMatch(p: Plan, writer: MemoryPort, reader: MemoryPort) {
    writer.kind == WritePort && reader.kind == ReadPort && writer.domain == p.source && reader.domain == p.destination &&
    writer.writeEnable && writer.writeData && reader.readEnable &&
    writer.address == UInt(p.addressWidth) && reader.address == UInt(p.addressWidth)
  }

  /** The ten registers of the crossing, each with its domain and width. */
  function Layout(identity: string, source: string, destination: string, w: nat): seq<Register> {
    var r := (name: string, domain: string, width: nat) => Register(identity + ":state:" + name, name, domain, width);
    [r("zlang_write_binary", source, w), r("zlang_write_gray", source, w),
     r("zlang_read_gray_sync1", source, w), r("zlang_read_gray_sync2", source, w), r("zlang_full", source, 1),
     r("zlang_read_binary", destination, w), r("zlang_read_gray", destination, w),
     r("zlang_write_gray_sync1", destination, w), r("zlang_write_gray_sync2", destination, w),
     r("zlang_output_valid", destination, 1)]
  }

  // ----------------------------------------------------------- building

  datatype Option<T> = None | Some(value: T)

  datatype Endpoint = Endpoint(domain: Option<string>, payload: string, packable: bool)

  /** A connection; it has a depth when it crosses by an asynchronous FIFO. */
  datatype Connection = Connection(depth: Option<int>, source: Endpoint, destination: Endpoint)

  /** Both ends have known domains and carry one bit-packable payload. */
  predicate Resolved(c: Connection, clocks: set<string>) {
    c.depth.Some? && c.source.domain.Some? && c.destination.domain.Some? &&
    c.source.payload == c.destination.payload && c.source.packable &&
    c.source.domain.value in clocks && c.destination.domain.value in clocks
  }

  function Ports(source: string, destination: string, addressWidth: nat): seq<MemoryPort> {
    [MemoryPort(WritePort, source, UInt(addressWidth), true, true, false),
     MemoryPort(ReadPort, destination, UInt(addressWidth), false, false, true)]
  }

  function AddressWidth(depth: int): nat {
    BitLength(if depth >= 1 then depth - 1 else 1 - depth)
  }

  /** The plan for a crossing between two domains, or nothing where it cannot be built. */
  function BuildPlan(identity: string, c: Connection, clocks: set<string>): Option<Plan> {
    if !Resolved(c, clocks) then None else
      var depth, source, destination := c.depth.value, c.source.domain.value, c.destination.domain.value;
      var a := AddressWidth(depth);
      var ports := Ports(source, destination, a);
      var memory := Memory(depth, 1, true, ports, Preserve, Clear, ReadFirst);
      var registers := Layout(identity, source, destination, a + 1);
      match Controller.Build(a + 1)
      case Err(_) => None
      case Ok(equations) =>
        var plan := Plan(identity, memory, depth, a, a + 1, source, destination, registers, equations, POLICY);
        if Validate(plan) == Check.Accepted then Some(plan) else None
  }

  /** `d & (d - 1)` vanishes exactly for powers of two. */
  lemma {:induction false} PowerOfTwoTest(d: nat)
    requires d >= 1
    ensures BitAnd(d, d - 1) == 0 <==> d == Pow2(BitLength(d - 1))
    decreases d
  {
    if d == 1 {
    } else if d % 2 == 0 {
      assert (d - 1) / 2 == d / 2 - 1 && (d - 1) % 2 == 1;
      PowerOfTwoTest(d / 2);
    } else {
      assert (d - 1) / 2 == d / 2;
      AndWithSelf(d / 2);
      OddIsNoPower(d, BitLength(d - 1));
    }
  }

  lemma {:induction false} AndWithSelf(n: nat)
    ensures BitAnd(n, n) == n
  {
    if n > 0 {
      AndWithSelf(n / 2);
    }
  }

  lemma OddIsNoPower(d: nat, k: nat)
    requires d > 1 && d % 2 == 1
    ensures d != Pow2(k)
  {
    if k > 0 {
      Pow2Even(k);
    }
  }

  lemma {:induction false} BitLengthOfPowerLessOne(k: nat)
    ensures BitLength(Pow2(k) - 1) == k
  {
    if k > 0 {
      Pow2Even(k);
      assert (Pow2(k) - 1) / 2 == Pow2(k - 1) - 1;
      BitLengthOfPowerLessOne(k - 1);
    }
  }

  ghost predicate IsDepth(depth: int) {
    exists k: nat :: k >= 2 && depth == Pow2(k)
  }

  lemma DepthTest(depth: int)
    ensures IsDepth(depth) <==> depth >= 4 && BitAnd(depth, depth - 1) == 0
    ensures IsDepth(depth) ==> AddressWidth(depth) >= 2 && Pow2(AddressWidth(depth)) == depth
  {
    if depth >= 1 {
      PowerOfTwoTest(depth);
    }
    if k: nat :| k >= 2 && depth == Pow2(k) {
      BitLengthOfPowerLessOne(k);
      Pow2Monotone(2, k);
      assert Pow2(2) == 4;
    }
    if depth >= 4 && BitAnd(depth, depth - 1) == 0 {
      var k := BitLength(depth - 1);
      assert depth == Pow2(k);
      assert Pow2(0) == 1 && Pow2(1) == 2;
      assert k >= 2;
    }
  }

  /** The connection has a depth, a power of two from four on. */
  ghost predicate HasDepth(c: Connection) {
    exists k: nat :: k >= 2 && c.depth == Some(Pow2(k))
  }

  /** It joins two different domains with known clocks. */
  ghost predicate Crosses(c: Connection, clocks: set<string>) {
    exists a, b :: a in clocks && b in clocks && a != b && c.source.domain == Some(a) && c.destination.domain == Some(b)
  }

  lemma PlannableWhen(c: Connection, clocks: set<string>)
    ensures Resolved(c, clocks) && IsDepth(c.depth.value) && c.source.domain != c.destination.domain <==>
      HasDepth(c) && Crosses(c, clocks) && c.source.payload == c.destination.payload && c.source.packable
  {
    if HasDepth(c) {
      var k: nat :| k >= 2 && c.depth == Some(Pow2(k));
      assert IsDepth(c.depth.value);
    }
    if Resolved(c, clocks) && IsDepth(c.depth.value) && c.source.domain != c.destination.domain {
      var k: nat :| k >= 2 && c.depth.value == Pow2(k);
      assert c.depth == Some(Pow2(k));
      var a, b := c.source.domain.value, c.destination.domain.value;
      assert c.source.domain == Some(a) && c.destination.domain == Some(b);
    }
  }

  /** What the plan for a connection says: pointers are one bit wider than addresses, so that the
      cells are as many as the depth. */
  ghost predicate PlanFor(p: Plan, identity: string, c: Connection) {
    && p.pointerWidth >= 3 && Some(p.depth) == c.depth && Depth(p.pointerWidth) == p.depth
    && p.addressWidth == p.pointerWidth - 1 && p.equations == Equations(p.pointerWidth)
    && Some(p.source) == c.source.domain && Some(p.destination) == c.destination.domain && p.source != p.destination
    && p.identity == identity && p.prefetchPolicy == "one_slot_registered_read_v1"
  }

  /** A plan is built for exactly the connections that have a depth, a power of two from four
      on, join different domains with known clocks and carry one bit-packable payload. */
  lemma PlanAccepts(identity: string, c: Connection, clocks: set<string>)
    ensures BuildPlan(identity, c, clocks).Some? <==>
      HasDepth(c) && Crosses(c, clocks) && c.source.payload == c.destination.payload && c.source.packable
    ensures BuildPlan(identity, c, clocks).Some? ==> PlanFor(BuildPlan(identity, c, clocks).value, identity, c)
  {
    BuiltWhen(identity, c, clocks);
    PlannableWhen(c, clocks);
  }

  lemma BuiltWhen(identity: string, c: Connection, clocks: set<string>)
    ensures var o := BuildPlan(identity, c, clocks);
      && (o.Some? <==> Resolved(c, clocks) && IsDepth(c.depth.value) && c.source.domain != c.destination.domain)
      && (o.Some? ==> PlanFor(o.value, identity, c))
  {
    if Resolved(c, clocks) {
      DepthTest(c.depth.value);
    }
  }

  /** What a validated plan may differ in from a built one: the checks leave open only whether
      the writer has a read enable and the reader write signals. */
  function Trimmed(p: Plan): Plan
    requires |p.memory.ports| == 2
  {
    var writer := p.memory.ports[0].(readEnable := false);
    var reader := p.memory.ports[1].(writeEnable := false, writeData := false);
    p.(memory := p.memory.(ports := [writer, reader]))
  }

  /** Validation accepts exactly the plans that the builder makes for some connection. */
  lemma ValidatedIsBuilt(p: Plan)
    ensures Validate(p) == Check.Accepted <==>
      |p.memory.ports| == 2 && exists c, clocks :: BuildPlan(p.identity, c, clocks) == Some(Trimmed(p))
  {
    if Validate(p) == Check.Accepted {
      var c := Connection(Some(p.depth), Endpoint(Some(p.source), "", true), Endpoint(Some(p.destination), "", true));
      AcceptedIsBuilt(p, c, {p.source, p.destination});
    }
    if |p.memory.ports| == 2 {
      if c, clocks :| BuildPlan(p.identity, c, clocks) == Some(Trimmed(p)) {
        BuiltIsAccepted(p, c, clocks);
      }
    }
  }

  lemma AcceptedIsBuilt(p: Plan, c: Connection, clocks: set<string>)
    requires Validate(p) == Check.Accepted && Resolved(c, clocks)
    requires c.depth.value == p.depth && c.source.domain.value == p.source && c.destination.domain.value == p.destination
    ensures BuildPlan(p.identity, c, clocks) == Some(Trimmed(p))
  {
    assert Trimmed(p).memory.ports == Ports(p.source, p.destination, p.addressWidth);
  }

  lemma BuiltIsAccepted(p: Plan, c: Connection, clocks: set<string>)
    requires |p.memory.ports| == 2 && BuildPlan(p.identity, c, clocks) == Some(Trimmed(p))
    ensures Validate(p) == Check.Accepted
  {
  }
}
