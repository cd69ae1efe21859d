/** The read session (src/modbus_client/registers/read_session.py): the requested
    registers are split by table, each table's ranges are merged into read buckets, one
    read is issued per bucket (coils, then discrete inputs, then input registers, then
    holding registers) and every returned value is stored under its table and address. */
module ReadSessions {
  import opened Wrappers
  import opened Exceptions
  import opened AddressRanges
  import opened Transport

  /** What the session needs of a register (`ModbusRegisterTrait`): its table and the
      words it occupies. */
  datatype Request = Request(kind: RegisterKind, range: AddressRange)

  /** A key of `registers_dict`. */
  type Key = (RegisterKind, int)

  // ---------------------------------------------------------------------------
  // The plan: which reads are issued

  /** `[x for x in registers if x.get_reg_type() == kind]`, as address ranges. */
  function OfKind(registers: seq<Request>, kind: RegisterKind): (r: seq<AddressRange>)
    ensures |r| <= |registers|
    ensures forall x :: x in r <==> exists q :: q in registers && q.kind == kind && q.range == x
  {
    if registers == [] then []
    else
      var rest := OfKind(registers[1..], kind);
      assert forall q :: q in registers <==> q == registers[0] || q in registers[1..];
      if registers[0].kind == kind then [registers[0].range] + rest else rest
  }

  /** The buckets of one table: coils and discrete inputs are merged with no holes and a
      read size of 1, the word tables with the caller's settings. */
  function Buckets(registers: seq<Request>, kind: RegisterKind, allowHoles: bool, maxReadSize: int): seq<AddressRange> {
    if kind.IsBitTable() then Merged(OfKind(registers, kind), false, 1)
    else Merged(OfKind(registers, kind), allowHoles, maxReadSize)
  }

  /** One read of `kind` per bucket, in bucket order. */
  function ReadCalls(kind: RegisterKind, unit: int, buckets: seq<AddressRange>): seq<Call> {
    seq(|buckets|, i requires 0 <= i < |buckets| => Read(kind, unit, buckets[i].address, buckets[i].count))
  }

  /** Every read `read_registers` issues, in order. */
  function Plan(registers: seq<Request>, unit: int, allowHoles: bool, maxReadSize: int): seq<Call> {
    ReadCalls(Coil, unit, Buckets(registers, Coil, allowHoles, maxReadSize))
    + ReadCalls(DiscreteInputs, unit, Buckets(registers, DiscreteInputs, allowHoles, maxReadSize))
    + ReadCalls(InputRegister, unit, Buckets(registers, InputRegister, allowHoles, maxReadSize))
    + ReadCalls(HoldingRegister, unit, Buckets(registers, HoldingRegister, allowHoles, maxReadSize))
  }

  // ---------------------------------------------------------------------------
  // Running the plan against a client

  /** The dictionary so far, the calls sent so far, and the exception that stopped the
      session, if any. */
  datatype Outcome = Outcome(values: map<Key, RegisterValue>, calls: seq<Call>, failure: Option<TransportError>)

  /** `for i, val in enumerate(values): registers_dict[(kind, address + i)] = val`. */
  function StoreReply(m: map<Key, RegisterValue>, kind: RegisterKind, address: int, vs: seq<RegisterValue>): map<Key, RegisterValue>
  {
    if vs == [] then m
    else
      var n := |vs| - 1;
      StoreReply(m, kind, address, vs[..n])[(kind, address + n) := vs[n]]
  }

  /** One call: nothing happens once the session has failed; otherwise the call is sent
      with the calls so far as history, and its values are stored or its exception kept. */
  function Step(client: Client, history: seq<Call>, o: Outcome, call: Call): Outcome {
    if o.failure.Some? then o
    else
      match client(history + o.calls, call)
      case Err(e) => Outcome(o.values, o.calls + [call], Some(e))
      case Ok(vs) =>
        var values := if call.Read? then StoreReply(o.values, call.kind, call.address, vs) else o.values;
        Outcome(values, o.calls + [call], None)
  }

  /** The calls of `plan`, one after the other, from `o`. */
  function Run(client: Client, history: seq<Call>, o: Outcome, plan: seq<Call>): Outcome
    decreases |plan|
  {
    if plan == [] then o
    else
      var n := |plan| - 1;
      Step(client, history, Run(client, history, o, plan[..n]), plan[n])
  }

  /** The outcome of `read_registers`, from an empty dictionary. */
  function Execute(client: Client, history: seq<Call>, plan: seq<Call>): Outcome {
    Run(client, history, Outcome(map[], [], None), plan)
  }

  /** `ModbusReadSession`: the dictionary of values read. */
  class ReadSession {
    var registersDict: map<Key, RegisterValue>

    constructor ()
      ensures registersDict == map[]
    {
      registersDict := map[];
    }

    /** One of the four loops of `read_registers`: a read per bucket, its values stored
        one by one; an exception from the client ends the loop and the session. */
    method ReadBuckets(client: Client, history: seq<Call>, calls0: seq<Call>, unit: int,
                       kind: RegisterKind, buckets: seq<AddressRange>)
      returns (calls: seq<Call>, failure: Option<TransportError>)
      modifies this
      ensures Outcome(registersDict, calls, failure)
        == Run(client, history, Outcome(old(registersDict), calls0, None), ReadCalls(kind, unit, buckets))
    {
      ghost var o0 := Outcome(registersDict, calls0, None);
      ghost var plan := ReadCalls(kind, unit, buckets);
      calls := calls0;
      failure := None;
      for k := 0 to |buckets|
        invariant Outcome(registersDict, calls, None) == Run(client, history, o0, plan[..k])
      {
        var rng := buckets[k];
        var call := Read(kind, unit, rng.address, rng.count);
        RunNext(client, history, o0, plan, k);
        assert plan[k] == call;
        var reply := client(history + calls, call);
        calls := calls + [call];
        if reply.Err? {
          failure := Some(reply.error);
          assert plan == plan[..k + 1] + plan[k + 1..];
          RunConcat(client, history, o0, plan[..k + 1], plan[k + 1..]);
          RunFailed(client, history, Run(client, history, o0, plan[..k + 1]), plan[k + 1..]);
          return;
        }
        Store(kind, rng.address, reply.value);
      }
      assert plan[..|buckets|] == plan;
    }

    /** The inner loop: each value of a reply stored at its address. */
    method Store(kind: RegisterKind, address: int, values: seq<RegisterValue>)
      modifies this
      ensures registersDict == StoreReply(old(registersDict), kind, address, values)
    {
      for i := 0 to |values|
        invariant registersDict == StoreReply(old(registersDict), kind, address, values[..i])
      {
        assert values[..i + 1][..i] == values[..i];
        registersDict := registersDict[(kind, address + i) := values[i]];
      }
      assert values[..|values|] == values;
    }

    /** `read_registers`: split by table, merge, read coils, discrete inputs, input
        registers and holding registers in that order. An exception from the client
        propagates and no session is returned. */
    static method ReadRegisters(client: Client, history: seq<Call>, unit: int, registers: seq<Request>,
                                allowHoles: bool, maxReadSize: int)
      returns (result: Result<ReadSession, TransportError>, calls: seq<Call>)
      ensures var o := Execute(client, history, Plan(registers, unit, allowHoles, maxReadSize));
        calls == o.calls
        && (result.Ok? <==> o.failure.None?)
        && (result.Ok? ==> fresh(result.value) && result.value.registersDict == o.values)
        && (result.Err? ==> o.failure == Some(result.error))
    {
      var coilsBuckets := MergeAddressRanges(OfKind(registers, Coil), false, 1);
      var discreteInputsBuckets := MergeAddressRanges(OfKind(registers, DiscreteInputs), false, 1);
      var inputRegistersBuckets := MergeAddressRanges(OfKind(registers, InputRegister), allowHoles, maxReadSize);
      var holdingRegistersBuckets := MergeAddressRanges(OfKind(registers, HoldingRegister), allowHoles, maxReadSize);

      ghost var a := ReadCalls(Coil, unit, coilsBuckets);
      ghost var b := ReadCalls(DiscreteInputs, unit, discreteInputsBuckets);
      ghost var c := ReadCalls(InputRegister, unit, inputRegistersBuckets);
      ghost var d := ReadCalls(HoldingRegister, unit, holdingRegistersBuckets);
      ghost var o0 := Outcome(map[], [], None);
      assert Plan(registers, unit, allowHoles, maxReadSize) == a + b + c + d;
      RunConcat(client, history, o0, a + b + c, d);
      RunConcat(client, history, o0, a + b, c);
      RunConcat(client, history, o0, a, b);
      ghost var oa := Run(client, history, o0, a);
      ghost var ob := Run(client, history, oa, b);
      ghost var oc := Run(client, history, ob, c);

      var ses := new ReadSession();
      var failure;
      calls, failure := ses.ReadBuckets(client, history, [], unit, Coil, coilsBuckets);
      if failure.Some? {
        RunFailed(client, history, oa, b);
        RunFailed(client, history, oa, c);
        RunFailed(client, history, oa, d);
        return Err(failure.value), calls;
      }
      calls, failure := ses.ReadBuckets(client, history, calls, unit, DiscreteInputs, discreteInputsBuckets);
      if failure.Some? {
        RunFailed(client, history, ob, c);
        RunFailed(client, history, ob, d);
        return Err(failure.value), calls;
      }
      calls, failure := ses.ReadBuckets(client, history, calls, unit, InputRegister, inputRegistersBuckets);
      if failure.Some? {
        RunFailed(client, history, oc, d);
        return Err(failure.value), calls;
      }
      calls, failure := ses.ReadBuckets(client, history, calls, unit, HoldingRegister, holdingRegistersBuckets);
      if failure.Some? {
        return Err(failure.value), calls;
      }
      return Ok(ses), calls;
    }
  }

  // ---------------------------------------------------------------------------
  // Composition

  /** Once an exception is kept, later calls are not made. */
  lemma {:induction false} RunFailed(client: Client, history: seq<Call>, o: Outcome, plan: seq<Call>)
    requires o.failure.Some?
    ensures Run(client, history, o, plan) == o
    decreases |plan|
  {
    if plan != [] {
      RunFailed(client, history, o, plan[..|plan| - 1]);
    }
  }

  /** Running two plans one after the other is running their concatenation. */
  lemma {:induction false} RunConcat(client: Client, history: seq<Call>, o: Outcome, p: seq<Call>, q: seq<Call>)
    ensures Run(client, history, o, p + q) == Run(client, history, Run(client, history, o, p), q)
    decreases |q|
  {
    if q == [] {
      assert p + q == p;
    } else {
      var n := |q| - 1;
      assert (p + q)[..|p + q| - 1] == p + q[..n];
      RunConcat(client, history, o, p, q[..n]);
    }
  }

  // ---------------------------------------------------------------------------
  // What is stored

  /** After storing a reply, a key is present iff it was before or the reply covers it;
      the reply's value wins inside its range. */
  lemma {:induction false} StoreReplySpec(m: map<Key, RegisterValue>, kind: RegisterKind, address: int, vs: seq<RegisterValue>, key: Key)
    ensures key in StoreReply(m, kind, address, vs)
      <==> key in m || (key.0 == kind && address <= key.1 < address + |vs|)
    ensures key.0 == kind && address <= key.1 < address + |vs|
      ==> StoreReply(m, kind, address, vs)[key] == vs[key.1 - address]
    ensures !(key.0 == kind && address <= key.1 < address + |vs|) && key in m
      ==> StoreReply(m, kind, address, vs)[key] == m[key]
    decreases |vs|
  {
    if vs != [] {
      var n := |vs| - 1;
      StoreReplySpec(m, kind, address, vs[..n], key);
      if key != (kind, address + n) && key.0 == kind && address <= key.1 < address + |vs| {
        assert vs[..n][key.1 - address] == vs[key.1 - address];
      }
    }
  }

  /** The reply call `i` of `plan` gets, when every call before it succeeded. */
  predicate Supplies(client: Client, history: seq<Call>, plan: seq<Call>, i: int, key: Key, v: RegisterValue) {
    0 <= i < |plan| && plan[i].Read? && plan[i].kind == key.0
    && client(history + plan[..i], plan[i]).Ok?
    && var vs := client(history + plan[..i], plan[i]).value;
       plan[i].address <= key.1 < plan[i].address + |vs| && vs[key.1 - plan[i].address] == v
  }

  /** The calls sent are a prefix of the plan, and all of it when nothing failed. */
  lemma {:induction false} RunCalls(client: Client, history: seq<Call>, o: Outcome, plan: seq<Call>)
    requires o.failure.None?
    ensures o.calls <= Run(client, history, o, plan).calls <= o.calls + plan
    ensures Run(client, history, o, plan).failure.None? ==> Run(client, history, o, plan).calls == o.calls + plan
    decreases |plan|
  {
    if plan != [] {
      var n := |plan| - 1;
      RunCalls(client, history, o, plan[..n]);
      var r' := Run(client, history, o, plan[..n]);
      if r'.failure.None? {
        assert o.calls + plan[..n] + [plan[n]] == o.calls + plan;
      } else {
        assert o.calls + plan[..n] <= o.calls + plan;
      }
    }
  }

  /** A run that failed stopped at the call that failed: the last one sent. */
  lemma {:induction false} RunFailsLast(client: Client, history: seq<Call>, o: Outcome, plan: seq<Call>)
    requires o.failure.None?
    ensures var r := Run(client, history, o, plan);
      r.failure.Some? ==>
        |r.calls| > |o.calls| && client(history + r.calls[..|r.calls| - 1], r.calls[|r.calls| - 1]) == Err(r.failure.value)
    decreases |plan|
  {
    if plan != [] {
      var n := |plan| - 1;
      RunFailsLast(client, history, o, plan[..n]);
      RunCalls(client, history, o, plan[..n]);
      var r' := Run(client, history, o, plan[..n]);
      var r := Run(client, history, o, plan);
      if r'.failure.None? {
        assert r == Step(client, history, r', plan[n]);
        assert r.calls[..|r.calls| - 1] == r'.calls;
      }
    }
  }

  /** Running one more call of the plan is one more step. */
  lemma RunNext(client: Client, history: seq<Call>, o: Outcome, plan: seq<Call>, k: int)
    requires 0 <= k < |plan|
    ensures Run(client, history, o, plan[..k + 1]) == Step(client, history, Run(client, history, o, plan[..k]), plan[k])
  {
    assert plan[..k + 1][..k] == plan[..k];
  }

  /** The session succeeds exactly when every read of the plan succeeds. */
  lemma {:induction false} RunSucceedsIff(client: Client, history: seq<Call>, o: Outcome, plan: seq<Call>)
    requires o.failure.None?
    ensures Run(client, history, o, plan).failure.None?
      <==> forall i :: 0 <= i < |plan| ==> client(history + o.calls + plan[..i], plan[i]).Ok?
    decreases |plan|
  {
    if plan != [] {
      var n := |plan| - 1;
      var p := plan[..n];
      RunSucceedsIff(client, history, o, p);
      RunCalls(client, history, o, p);
      forall i | 0 <= i < n
        ensures p[..i] == plan[..i] && p[i] == plan[i]
      {
      }
      var r' := Run(client, history, o, p);
      if r'.failure.None? {
        assert history + r'.calls == history + o.calls + plan[..n];
      } else {
        var i :| 0 <= i < n && !client(history + o.calls + p[..i], p[i]).Ok?;
        assert !client(history + o.calls + plan[..i], plan[i]).Ok?;
      }
    }
  }

  /** Every value in the dictionary was either there before or is the value some
      successful read returned for that key. */
  lemma {:induction false} RunValues(client: Client, history: seq<Call>, o: Outcome, plan: seq<Call>, key: Key)
    requires o.failure.None?
    ensures var r := Run(client, history, o, plan);
      key in r.values ==>
        (key in o.values && r.values[key] == o.values[key])
        || exists i :: Supplies(client, history + o.calls, plan, i, key, r.values[key])
    decreases |plan|
  {
    if plan != [] {
      var n := |plan| - 1;
      var p := plan[..n];
      var r' := Run(client, history, o, p);
      var r := Run(client, history, o, plan);
      RunValues(client, history, o, p, key);
      RunCalls(client, history, o, p);
      if key in r'.values {
        forall i | 0 <= i < n && Supplies(client, history + o.calls, p, i, key, r'.values[key])
          ensures Supplies(client, history + o.calls, plan, i, key, r'.values[key])
        {
          assert p[..i] == plan[..i];
        }
      }
      if key in r.values {
        if r'.failure.None? && client(history + r'.calls, plan[n]).Ok? && plan[n].Read? {
          var c := plan[n];
          var vs := client(history + r'.calls, c).value;
          StoreReplySpec(r'.values, c.kind, c.address, vs, key);
          if key.0 == c.kind && c.address <= key.1 < c.address + |vs| {
            assert history + r'.calls == history + o.calls + plan[..n];
            assert Supplies(client, history + o.calls, plan, n, key, r.values[key]);
          }
        }
      }
    }
  }

  /** Stored keys are never removed. */
  lemma {:induction false} RunKeeps(client: Client, history: seq<Call>, o: Outcome, plan: seq<Call>, key: Key)
    requires key in o.values
    ensures key in Run(client, history, o, plan).values
    decreases |plan|
  {
    if plan != [] {
      var n := |plan| - 1;
      RunKeeps(client, history, o, plan[..n], key);
      var r' := Run(client, history, o, plan[..n]);
      if r'.failure.None? && client(history + r'.calls, plan[n]).Ok? && plan[n].Read? {
        var c := plan[n];
        StoreReplySpec(r'.values, c.kind, c.address, client(history + r'.calls, c).value, key);
      }
    }
  }

  /** With a client that returns `count` values per read, a session that succeeded holds
      every address of every read of the plan. */
  lemma {:induction false} RunStoresReads(client: Client, history: seq<Call>, o: Outcome, plan: seq<Call>, c: Call, a: int)
    requires o.failure.None? && WellBehaved(client)
    requires c in plan && c.Read? && c.address <= a < c.address + c.count
    ensures Run(client, history, o, plan).failure.None? ==> (c.kind, a) in Run(client, history, o, plan).values
    decreases |plan|
  {
    var n := |plan| - 1;
    var r' := Run(client, history, o, plan[..n]);
    if r'.failure.None? && client(history + r'.calls, plan[n]).Ok? {
      var d := plan[n];
      if c == d {
        StoreReplySpec(r'.values, c.kind, c.address, client(history + r'.calls, c).value, (c.kind, a));
      } else {
        assert plan == plan[..n] + [d];
        assert c in plan[..n];
        RunStoresReads(client, history, o, plan[..n], c, a);
        RunKeeps(client, history, r', [d], (c.kind, a));
        assert plan[..n] + [d] == plan;
        RunConcat(client, history, o, plan[..n], [d]);
      }
    }
  }

  // ---------------------------------------------------------------------------
  // The plan

  /** Exactly one read per bucket of each table. */
  lemma ReadCallsMembers(kind: RegisterKind, unit: int, buckets: seq<AddressRange>, c: Call)
    ensures c in ReadCalls(kind, unit, buckets)
      <==> c.Read? && c.kind == kind && c.unit == unit && AddressRange(c.address, c.count) in buckets
  {
    var calls := ReadCalls(kind, unit, buckets);
    if c.Read? && c.kind == kind && c.unit == unit && AddressRange(c.address, c.count) in buckets {
      var j :| 0 <= j < |buckets| && buckets[j] == AddressRange(c.address, c.count);
      assert calls[j] == c;
    }
  }

  /** The plan reads, for the caller's unit, exactly the buckets of each table. */
  lemma PlanMembers(registers: seq<Request>, unit: int, allowHoles: bool, maxReadSize: int, c: Call)
    ensures c in Plan(registers, unit, allowHoles, maxReadSize)
      <==> c.Read? && c.unit == unit && AddressRange(c.address, c.count) in Buckets(registers, c.kind, allowHoles, maxReadSize)
  {
    ReadCallsMembers(Coil, unit, Buckets(registers, Coil, allowHoles, maxReadSize), c);
    ReadCallsMembers(DiscreteInputs, unit, Buckets(registers, DiscreteInputs, allowHoles, maxReadSize), c);
    ReadCallsMembers(InputRegister, unit, Buckets(registers, InputRegister, allowHoles, maxReadSize), c);
    ReadCallsMembers(HoldingRegister, unit, Buckets(registers, HoldingRegister, allowHoles, maxReadSize), c);
  }

  predicate KindsOrdered(calls: seq<Call>) {
    forall i, j :: 0 <= i < j < |calls| && calls[i].Read? && calls[j].Read? ==> calls[i].kind.Rank() <= calls[j].kind.Rank()
  }

  /** Every call is a read of a table whose rank lies in `lo..hi`. */
  predicate RanksIn(calls: seq<Call>, lo: int, hi: int) {
    forall i :: 0 <= i < |calls| ==> calls[i].Read? && lo <= calls[i].kind.Rank() <= hi
  }

  lemma ReadCallsRanks(kind: RegisterKind, unit: int, buckets: seq<AddressRange>)
    ensures KindsOrdered(ReadCalls(kind, unit, buckets))
    ensures RanksIn(ReadCalls(kind, unit, buckets), kind.Rank(), kind.Rank())
  {
  }

  lemma JoinOrdered(p: seq<Call>, q: seq<Call>, lo: int, mid: int, hi: int)
    requires KindsOrdered(p) && RanksIn(p, lo, mid)
    requires KindsOrdered(q) && RanksIn(q, mid, hi) && lo <= mid <= hi
    ensures KindsOrdered(p + q) && RanksIn(p + q, lo, hi)
  {
    var s := p + q;
    forall i, j | 0 <= i < j < |s| && s[i].Read? && s[j].Read?
      ensures s[i].kind.Rank() <= s[j].kind.Rank()
    {
      if i < |p| && j >= |p| {
        assert s[i] == p[i] && s[j] == q[j - |p|];
      } else if i < |p| {
        assert s[i] == p[i] && s[j] == p[j];
      } else {
        assert s[i] == q[i - |p|] && s[j] == q[j - |p|];
      }
    }
    forall i | 0 <= i < |s|
      ensures s[i].Read? && lo <= s[i].kind.Rank() <= hi
    {
      if i < |p| {
        assert s[i] == p[i];
      } else {
        assert s[i] == q[i - |p|];
      }
    }
  }

  /** All coils are read first, then all discrete inputs, then input registers, then
      holding registers. */
  lemma PlanOrdered(registers: seq<Request>, unit: int, allowHoles: bool, maxReadSize: int)
    ensures KindsOrdered(Plan(registers, unit, allowHoles, maxReadSize))
  {
    var a := ReadCalls(Coil, unit, Buckets(registers, Coil, allowHoles, maxReadSize));
    var b := ReadCalls(DiscreteInputs, unit, Buckets(registers, DiscreteInputs, allowHoles, maxReadSize));
    var c := ReadCalls(InputRegister, unit, Buckets(registers, InputRegister, allowHoles, maxReadSize));
    var d := ReadCalls(HoldingRegister, unit, Buckets(registers, HoldingRegister, allowHoles, maxReadSize));
    ReadCallsRanks(Coil, unit, Buckets(registers, Coil, allowHoles, maxReadSize));
    ReadCallsRanks(DiscreteInputs, unit, Buckets(registers, DiscreteInputs, allowHoles, maxReadSize));
    ReadCallsRanks(InputRegister, unit, Buckets(registers, InputRegister, allowHoles, maxReadSize));
    ReadCallsRanks(HoldingRegister, unit, Buckets(registers, HoldingRegister, allowHoles, maxReadSize));
    JoinOrdered(a, b, 0, 1, 1);
    JoinOrdered(a + b, c, 0, 2, 2);
    JoinOrdered(a + b + c, d, 0, 3, 3);
  }

  /** A read exceeds its size limit only when it is one requested range on its own; the
      limit is 1 for coils and discrete inputs. */
  lemma PlanBounded(registers: seq<Request>, unit: int, allowHoles: bool, maxReadSize: int, c: Call)
    requires c in Plan(registers, unit, allowHoles, maxReadSize)
    ensures c.Read?
    ensures c.Read? ==> (c.count <= (if c.kind.IsBitTable() then 1 else maxReadSize)
                         || Request(c.kind, AddressRange(c.address, c.count)) in registers)
  {
    PlanMembers(registers, unit, allowHoles, maxReadSize, c);
    var ranges := OfKind(registers, c.kind);
    if c.kind.IsBitTable() {
      MergeBounded(ranges, false, 1);
    } else {
      MergeBounded(ranges, allowHoles, maxReadSize);
    }
  }

  // ---------------------------------------------------------------------------
  // The session

  /** The calls sent are a prefix of the plan, and all of it when nothing failed. */
  lemma SessionCalls(client: Client, history: seq<Call>, plan: seq<Call>)
    ensures Execute(client, history, plan).calls <= plan
    ensures Execute(client, history, plan).failure.None? ==> Execute(client, history, plan).calls == plan
  {
    var start := Outcome(map[], [], None);
    RunCalls(client, history, start, plan);
    assert start.calls + plan == plan;
  }

  /** A session that failed stopped at the call that failed: the last one sent. */
  lemma SessionFailsLast(client: Client, history: seq<Call>, plan: seq<Call>)
    ensures var o := Execute(client, history, plan);
      o.failure.Some? ==>
        o.calls != [] && client(history + o.calls[..|o.calls| - 1], o.calls[|o.calls| - 1]) == Err(o.failure.value)
  {
    RunFailsLast(client, history, Outcome(map[], [], None), plan);
  }

  /** The session succeeds exactly when every read of the plan succeeds. */
  lemma SessionSucceedsIff(client: Client, history: seq<Call>, plan: seq<Call>)
    ensures Execute(client, history, plan).failure.None?
      <==> forall i :: 0 <= i < |plan| ==> client(history + plan[..i], plan[i]).Ok?
  {
    var start := Outcome(map[], [], None);
    RunSucceedsIff(client, history, start, plan);
    assert forall i :: 0 <= i < |plan| ==> history + start.calls + plan[..i] == history + plan[..i];
  }

  /** Every value in the session is what some read returned for that table and address. */
  lemma SessionSound(client: Client, history: seq<Call>, plan: seq<Call>, key: Key)
    requires key in Execute(client, history, plan).values
    ensures exists i :: Supplies(client, history, plan, i, key, Execute(client, history, plan).values[key])
  {
    RunValues(client, history, Outcome(map[], [], None), plan, key);
    assert history + [] == history;
  }

  /** With a client that returns `count` values per read, a successful session holds a
      value for every address of every requested register. */
  lemma SessionComplete(client: Client, history: seq<Call>, registers: seq<Request>, unit: int,
                        allowHoles: bool, maxReadSize: int, q: Request, a: int)
    requires WellBehaved(client)
    requires q in registers && q.range.FirstAddress() <= a <= q.range.LastAddress()
    requires Execute(client, history, Plan(registers, unit, allowHoles, maxReadSize)).failure.None?
    ensures (q.kind, a) in Execute(client, history, Plan(registers, unit, allowHoles, maxReadSize)).values
  {
    var ranges := OfKind(registers, q.kind);
    assert q.range in ranges;
    if q.kind.IsBitTable() {
      MergeCovers(ranges, false, 1);
    } else {
      MergeCovers(ranges, allowHoles, maxReadSize);
    }
    var b :| b in Buckets(registers, q.kind, allowHoles, maxReadSize) && Contains(b, q.range);
    var c := Read(q.kind, unit, b.address, b.count);
    PlanMembers(registers, unit, allowHoles, maxReadSize, c);
    RunStoresReads(client, history, Outcome(map[], [], None), Plan(registers, unit, allowHoles, maxReadSize), c, a);
  }
}
