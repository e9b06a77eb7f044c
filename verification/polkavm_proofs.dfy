/** The dispatch table, the sparse storage and the calldata syscalls, against their plain meanings. */
module PolkaVmProofs {
  import opened Words
  import opened Bytes
  import opened PolkaVmSpec

  // ----- dispatch

  /** Dispatching on the precomputed id is dispatching on the name, for every name. */
  lemma SameDispatch(keccak: Keccak, symbol: string, calldata: seq<Byte>, h: Host)
    ensures HandleById(keccak, SymbolToSyscallId(symbol), calldata, h) == HandleByName(keccak, symbol, calldata, h)
  {
    hide LoadWord, CopyData, GetStorage, SetStorage, HashInput, Emit, SealData;
  }

  /** For every guest, import list, calldata and starting state, the table-driven run and the
      name-resolving run pass through the same memories, registers and storages to the same outcome. */
  lemma {:induction false} SameRun(keccak: Keccak, imports: seq<string>, calldata: seq<Byte>, guest: Guest, h: Host, fuel: nat)
    ensures RunLoop(keccak, Table(TableOf(imports)), calldata, guest, h, fuel)
         == RunLoop(keccak, Names(imports), calldata, guest, h, fuel)
    decreases fuel
  {
    if fuel != 0 {
      var (machine, interrupt) := guest(h.machine);
      if interrupt.Ecalli? {
        SameService(keccak, imports, calldata, interrupt.index, h.(machine := machine));
      }
      hide Serve;
      var (next, outcome) := OnePass(keccak, Names(imports), calldata, guest, h);
      assert OnePass(keccak, Table(TableOf(imports)), calldata, guest, h) == (next, outcome);
      SameRun(keccak, imports, calldata, guest, next, fuel - 1);
    }
  }

  lemma SameService(keccak: Keccak, imports: seq<string>, calldata: seq<Byte>, index: U32, h: Host)
    ensures Serve(keccak, Table(TableOf(imports)), calldata, index, h) == Serve(keccak, Names(imports), calldata, index, h)
  {
    UnknownDoesNothing(keccak, calldata, h);
    if index < |imports| { SameDispatch(keccak, imports[index], calldata, h); }
    hide HandleById, HandleByName, SymbolToSyscallId;
  }

  lemma UnknownDoesNothing(keccak: Keccak, calldata: seq<Byte>, h: Host)
    ensures HandleById(keccak, Unknown, calldata, h) == (h, Continue)
  {
  }

  // ----- storage

  /** No key is stored with an all-zero value. */
  ghost predicate Sparse(s: Storage) {
    forall k <- s :: s[k] != Zeros(32)
  }

  /** Sparse storages are the same when they read the same. */
  lemma SparseIsCanonical(s: Storage, t: Storage)
    requires Sparse(s) && Sparse(t) && forall k: Bytes32 :: ReadStorage(s, k) == ReadStorage(t, k)
    ensures s == t
  {
    forall k | k in s ensures k in t && s[k] == t[k] { assert ReadStorage(s, k) == ReadStorage(t, k); }
    forall k | k in t ensures k in s { assert ReadStorage(s, k) == ReadStorage(t, k); }
  }

  lemma WriteReads(s: Storage, key: Bytes32, value: Bytes32, k: Bytes32)
    ensures ReadStorage(WriteStorage(s, key, value), k) == if k == key then value else ReadStorage(s, k)
    ensures Sparse(s) ==> Sparse(WriteStorage(s, key, value))
  {
  }

  /** The set syscall answers 32 when the key read as non-zero before and the sentinel otherwise. */
  lemma SetAnswers(h: Host)
    requires Sparse(h.storage)
    ensures SetStorage(h).1 == ReturnValue(if ReadStorage(h.storage, KeyAt(h)) != ZERO32 then 32 else SENTINEL)
    ensures ReadStorage(SetStorage(h).0.storage, KeyAt(h)) == ValueAt(h)
    ensures SetStorage(h).0.machine == h.machine
  {
  }

  datatype Event = Set(key: Bytes32, value: Bytes32) | Reset

  /** The store a total map with default zero would hold. */
  function LastValue(history: seq<Event>, key: Bytes32, initial: Bytes32): Bytes32
    decreases |history|
  {
    if history == [] then initial
    else
      var now :=
        if history[0].Reset? then Zeros(32)
        else if history[0].key == key then history[0].value
        else initial;
      LastValue(history[1..], key, now)
  }

  lemma {:induction false} LastValueSplit(a: seq<Event>, b: seq<Event>, key: Bytes32, initial: Bytes32)
    ensures LastValue(a + b, key, initial) == LastValue(b, key, LastValue(a, key, initial))
    decreases |a|
  {
    if a == [] {
      assert a + b == b;
    } else {
      assert (a + b)[1..] == a[1..] + b;
      var now := if a[0].Reset? then Zeros(32) else if a[0].key == key then a[0].value else initial;
      LastValueSplit(a[1..], b, key, now);
    }
  }

  // ----- what the guest names, by register and byte

  /** The n bytes of guest memory from address p on, or zeros when one of them is not mapped. */
  function BytesAt(m: Memory, p: nat, n: nat): (s: seq<Byte>)
    ensures |s| == n
  {
    if forall k :: p <= k < p + n ==> k in m then seq(n, i requires 0 <= i < n => m[p + i]) else seq(n, _ => 0)
  }

  /** Guest memory once `data` has been stored from address p on; a store that touches an unmapped byte does nothing. */
  ghost predicate Stored(before: Memory, after: Memory, p: nat, data: seq<Byte>) {
    if forall k :: p <= k < p + |data| ==> k in before then
      && after.Keys == before.Keys
      && forall k <- before :: after[k] == if p <= k < p + |data| then data[k - p] else before[k]
    else after == before
  }

  function NameAt(imports: seq<string>, index: U32): string {
    if index < |imports| then imports[index] else ""
  }

  /** The storage syscalls read the key at a1 and a new value at a2. */
  lemma KeyAndValue(h: Host)
    ensures KeyAt(h) == BytesAt(h.machine.memory, h.machine.a1 % TWO_32, 32)
    ensures ValueAt(h) == BytesAt(h.machine.memory, h.machine.a2 % TWO_32, 32)
  {
    ReadsBytes(h.machine.memory, LowU32(h.machine.a1), 32);
    ReadsBytes(h.machine.memory, LowU32(h.machine.a2), 32);
  }

  lemma ReadsBytes(m: Memory, p: U32, n: nat)
    ensures ReadMemory(m, p, n) == BytesAt(m, p, n)
  {
  }

  lemma WriteStores(m: Memory, p: U32, data: seq<Byte>)
    ensures Stored(m, WriteMemory(m, p, data), p, data)
  {
  }

  lemma NamedSet(imports: seq<string>, index: U32)
    ensures TableGet(TableOf(imports), index).SetStorageOrClear? <==> NameAt(imports, index) == "set_storage_or_clear"
    ensures TableGet(TableOf(imports), index).GetStorageOrZero? <==> NameAt(imports, index) == "get_storage_or_zero"
    ensures TableGet(TableOf(imports), index).SealReturn? <==> NameAt(imports, index) == "seal_return"
  {
  }

  /** The set syscall of one pass, if it makes one. */
  function SetOf(imports: seq<string>, guest: Guest, h: Host): seq<Event> {
    var (machine, interrupt) := guest(h.machine);
    if interrupt.Ecalli? && NameAt(imports, interrupt.index) == "set_storage_or_clear" then
      [Set(BytesAt(machine.memory, machine.a1 % TWO_32, 32), BytesAt(machine.memory, machine.a2 % TWO_32, 32))]
    else []
  }

  /** The set syscalls of a run, in order. */
  function Sets(keccak: Keccak, imports: seq<string>, calldata: seq<Byte>, guest: Guest, h: Host, fuel: nat): seq<Event>
    decreases fuel
  {
    if fuel == 0 then []
    else
      var (next, outcome) := OnePass(keccak, Table(TableOf(imports)), calldata, guest, h);
      SetOf(imports, guest, h) +
      (if outcome != StillRunning then [] else Sets(keccak, imports, calldata, guest, next, fuel - 1))
  }

  function LastHost(t: Trace): Host
    requires t.hosts != []
  {
    t.hosts[|t.hosts| - 1]
  }

  function StorageAfter(t: Trace): Storage
    requires t.hosts != []
  {
    LastHost(t).storage
  }

  /** One pass stores exactly what its set syscall, if any, says, and keeps storage sparse. */
  lemma PassStorage(keccak: Keccak, imports: seq<string>, calldata: seq<Byte>, guest: Guest, h: Host, key: Bytes32)
    requires Sparse(h.storage)
    ensures var (next, outcome) := OnePass(keccak, Table(TableOf(imports)), calldata, guest, h);
      && Sparse(next.storage)
      && ReadStorage(next.storage, key) == LastValue(SetOf(imports, guest, h), key, ReadStorage(h.storage, key))
  {
    hide HandleById, KeyAt, ValueAt, BytesAt, NameAt, TableOf, TableGet, Sparse, WriteStorage, ReadStorage;
    var (machine, interrupt) := guest(h.machine);
    var paused := h.(machine := machine);
    if interrupt.Ecalli? {
      SyscallStorage(keccak, TableGet(TableOf(imports), interrupt.index), calldata, paused);
      NamedSet(imports, interrupt.index);
      KeyAndValue(paused);
      WriteReads(h.storage, KeyAt(paused), ValueAt(paused), key);
      OneSet(KeyAt(paused), ValueAt(paused), key, ReadStorage(h.storage, key));
    }
    hide LastValue;
    NoSet(key, ReadStorage(h.storage, key));
  }

  lemma OneSet(k: Bytes32, value: Bytes32, key: Bytes32, initial: Bytes32)
    ensures LastValue([Set(k, value)], key, initial) == if k == key then value else initial
  {
  }

  lemma NoSet(key: Bytes32, initial: Bytes32)
    ensures LastValue([], key, initial) == initial
  {
  }

  lemma SyscallStorage(keccak: Keccak, id: SyscallId, calldata: seq<Byte>, h: Host)
    ensures HandleById(keccak, id, calldata, h).0.storage
         == if id.SetStorageOrClear? then WriteStorage(h.storage, KeyAt(h), ValueAt(h)) else h.storage
  {
  }

  /** A call leaves storage as the in-order effect of its set syscalls, however it ends, and sparse. */
  lemma {:induction false} CallIsFoldOfSets(keccak: Keccak, imports: seq<string>, calldata: seq<Byte>, guest: Guest,
                                           h: Host, fuel: nat, key: Bytes32)
    requires Sparse(h.storage)
    ensures var after := StorageAfter(RunLoop(keccak, Table(TableOf(imports)), calldata, guest, h, fuel));
      && Sparse(after)
      && ReadStorage(after, key)
         == LastValue(Sets(keccak, imports, calldata, guest, h, fuel), key, ReadStorage(h.storage, key))
    decreases fuel
  {
    hide OnePass, SetOf, Sparse, ReadStorage;
    if fuel != 0 {
      var (next, outcome) := OnePass(keccak, Table(TableOf(imports)), calldata, guest, h);
      PassStorage(keccak, imports, calldata, guest, h, key);
      if outcome != StillRunning {
        assert SetOf(imports, guest, h) + [] == SetOf(imports, guest, h);
      } else {
        CallIsFoldOfSets(keccak, imports, calldata, guest, next, fuel - 1, key);
        FoldStep(h, next, RunLoop(keccak, Table(TableOf(imports)), calldata, guest, next, fuel - 1), SetOf(imports, guest, h),
                 Sets(keccak, imports, calldata, guest, next, fuel - 1), key);
        hide LastValue, StorageAfter;
      }
    }
  }

  /** A pass and then the rest of the run, in terms of the sets of each. */
  lemma FoldStep(h: Host, next: Host, rest: Trace, here: seq<Event>, later: seq<Event>, key: Bytes32)
    requires rest.hosts != []
    requires ReadStorage(next.storage, key) == LastValue(here, key, ReadStorage(h.storage, key))
    requires ReadStorage(StorageAfter(rest), key) == LastValue(later, key, ReadStorage(next.storage, key))
    ensures StorageAfter(rest.(hosts := [h] + rest.hosts)) == StorageAfter(rest)
    ensures ReadStorage(StorageAfter(rest), key) == LastValue(here + later, key, ReadStorage(h.storage, key))
  {
    LastValueSplit(here, later, key, ReadStorage(h.storage, key));
  }

  /** What is done to one executor: calls, each on a fresh machine, and storage resets. */
  datatype Op = Call(imports: seq<string>, calldata: seq<Byte>, guest: Guest, machine: Machine, fuel: nat) | ResetStorage

  /** What a call on an executor with storage `s` passes through. */
  function TraceOf(keccak: Keccak, s: Storage, call: Op): (t: Trace)
    requires call.Call?
    ensures t.hosts != []
  {
    RunLoop(keccak, Table(TableOf(call.imports)), call.calldata, call.guest, Host(call.machine, s), call.fuel)
  }

  function After(keccak: Keccak, s: Storage, op: Op): Storage {
    match op
    case ResetStorage => map[]
    case Call(_, _, _, _, _) => StorageAfter(TraceOf(keccak, s, op))
  }

  function EventsOf(keccak: Keccak, s: Storage, op: Op): seq<Event> {
    match op
    case ResetStorage => [Reset]
    case Call(imports, calldata, guest, machine, fuel) =>
      Sets(keccak, imports, calldata, guest, Host(machine, s), fuel)
  }

  function AfterAll(keccak: Keccak, s: Storage, ops: seq<Op>): Storage
    decreases |ops|
  {
    if ops == [] then s else AfterAll(keccak, After(keccak, s, ops[0]), ops[1..])
  }

  function History(keccak: Keccak, s: Storage, ops: seq<Op>): seq<Event>
    decreases |ops|
  {
    if ops == [] then [] else EventsOf(keccak, s, ops[0]) + History(keccak, After(keccak, s, ops[0]), ops[1..])
  }

  /** Over any calls and resets the sparse map reads as the total map with default zero, and stays sparse. */
  lemma {:induction false} StorageIsATotalMap(keccak: Keccak, s: Storage, ops: seq<Op>, key: Bytes32)
    requires Sparse(s)
    ensures Sparse(AfterAll(keccak, s, ops))
    ensures ReadStorage(AfterAll(keccak, s, ops), key)
         == LastValue(History(keccak, s, ops), key, ReadStorage(s, key))
    decreases |ops|
  {
    if ops != [] {
      OpReads(keccak, s, ops[0], key);
      hide Sparse, ReadStorage, After, EventsOf;
      var next := After(keccak, s, ops[0]);
      StorageIsATotalMap(keccak, next, ops[1..], key);
      LastValueSplit(EventsOf(keccak, s, ops[0]), History(keccak, next, ops[1..]), key, ReadStorage(s, key));
    }
  }

  lemma OpReads(keccak: Keccak, s: Storage, op: Op, key: Bytes32)
    requires Sparse(s)
    ensures Sparse(After(keccak, s, op))
    ensures ReadStorage(After(keccak, s, op), key) == LastValue(EventsOf(keccak, s, op), key, ReadStorage(s, key))
  {
    match op
    case ResetStorage =>
    case Call(imports, calldata, guest, machine, fuel) =>
      CallIsFoldOfSets(keccak, imports, calldata, guest, Host(machine, s), fuel, key);
  }

  // ----- every answer of every run

  /** Each host of a run comes from the one before by one pass, and is where a run of fewer interrupts ends. */
  lemma {:induction false} HostAt(keccak: Keccak, service: Service, calldata: seq<Byte>, guest: Guest, h: Host, fuel: nat, i: nat)
    requires i + 1 < |RunLoop(keccak, service, calldata, guest, h, fuel).hosts|
    ensures var hosts := RunLoop(keccak, service, calldata, guest, h, fuel).hosts;
      && hosts[i] == LastHost(RunLoop(keccak, service, calldata, guest, h, i))
      && hosts[i + 1] == OnePass(keccak, service, calldata, guest, hosts[i]).0
    decreases fuel
  {
    hide OnePass, LastHost;
    FirstHost(keccak, service, calldata, guest, h, fuel);
    var (next, outcome) := OnePass(keccak, service, calldata, guest, h);
    if i == 0 {
      LastOfOne(h);
      if outcome == StillRunning { FirstHost(keccak, service, calldata, guest, next, fuel - 1); }
    } else {
      HostAt(keccak, service, calldata, guest, next, fuel - 1, i - 1);
      LastOfMore(h, RunLoop(keccak, service, calldata, guest, next, i - 1));
    }
  }

  lemma LastOfOne(h: Host)
    ensures LastHost(Trace([h], StillRunning)) == h
  {
  }

  lemma LastOfMore(h: Host, t: Trace)
    requires t.hosts != []
    ensures LastHost(t.(hosts := [h] + t.hosts)) == LastHost(t)
  {
  }

  lemma FirstHost(keccak: Keccak, service: Service, calldata: seq<Byte>, guest: Guest, h: Host, fuel: nat)
    ensures RunLoop(keccak, service, calldata, guest, h, fuel).hosts[0] == h
  {
    hide OnePass;
  }

  /** `after` is `paused` with the current value of the key stored at a2, or with the answer to a set in a0,
      according to whether the key was non-zero, and the new value under the key. */
  ghost predicate Answered(name: string, paused: Host, after: Host, key: Bytes32, current: Bytes32) {
    var m := paused.machine;
    && (name == "get_storage_or_zero" ==>
          && after == paused.(machine := m.(memory := after.machine.memory))
          && Stored(m.memory, after.machine.memory, m.a2 % TWO_32, current))
    && (name == "set_storage_or_clear" ==>
          && after.machine == m.(a0 := if current != Zeros(32) then 32 else 0xFFFF_FFFF)
          && ReadStorage(after.storage, key) == BytesAt(m.memory, m.a2 % TWO_32, 32))
  }

  /** One pass answers from the storage it finds. */
  lemma PassAnswers(keccak: Keccak, imports: seq<string>, calldata: seq<Byte>, guest: Guest, h: Host, index: U32)
    requires Sparse(h.storage) && guest(h.machine).1 == Ecalli(index)
    ensures var paused := h.(machine := guest(h.machine).0);
      var key := BytesAt(paused.machine.memory, paused.machine.a1 % TWO_32, 32);
      Answered(NameAt(imports, index), paused, OnePass(keccak, Table(TableOf(imports)), calldata, guest, h).0,
               key, ReadStorage(h.storage, key))
  {
    var paused := h.(machine := guest(h.machine).0);
    KeyAndValue(paused);
    NamedSet(imports, index);
    WriteStores(paused.machine.memory, LowU32(paused.machine.a2), ReadStorage(h.storage, KeyAt(paused)));
    SetAnswers(paused);
    hide KeyAt, ValueAt, BytesAt, NameAt, TableOf, TableGet, Stored, WriteMemory, Sparse, WriteStorage, ReadStorage;
  }

  /** In any pass of any call made after any calls and resets, a get stores at a2 the value of the last set to
      the key at a1 in everything that ran before, zero when there is none, and a set answers 32 or the sentinel
      according to whether that value is non-zero. */
  lemma EveryAnswerIsCurrent(keccak: Keccak, s: Storage, ops: seq<Op>, call: Op, i: nat, index: U32)
    requires Sparse(s) && call.Call?
    requires var t := TraceOf(keccak, AfterAll(keccak, s, ops), call);
      i + 1 < |t.hosts| && call.guest(t.hosts[i].machine).1 == Ecalli(index)
    ensures var start := Host(call.machine, AfterAll(keccak, s, ops));
      var hosts := TraceOf(keccak, AfterAll(keccak, s, ops), call).hosts;
      var paused := hosts[i].(machine := call.guest(hosts[i].machine).0);
      var before := History(keccak, s, ops) + Sets(keccak, call.imports, call.calldata, call.guest, start, i);
      var key := BytesAt(paused.machine.memory, paused.machine.a1 % TWO_32, 32);
      Answered(NameAt(call.imports, index), paused, hosts[i + 1], key, LastValue(before, key, ReadStorage(s, key)))
  {
    hide OnePass, RunLoop, Sets, History, AfterAll, LastValue, Answered, Sparse, ReadStorage, BytesAt, TableOf, TableGet, NameAt;
    var imports, start := call.imports, Host(call.machine, AfterAll(keccak, s, ops));
    var hosts := TraceOf(keccak, AfterAll(keccak, s, ops), call).hosts;
    HostAt(keccak, Table(TableOf(imports)), call.calldata, call.guest, start, call.fuel, i);
    var paused := hosts[i].(machine := call.guest(hosts[i].machine).0);
    var key := BytesAt(paused.machine.memory, paused.machine.a1 % TWO_32, 32);
    StorageIsATotalMap(keccak, s, ops, key);
    CallIsFoldOfSets(keccak, imports, call.calldata, call.guest, start, i, key);
    LastValueSplit(History(keccak, s, ops), Sets(keccak, imports, call.calldata, call.guest, start, i), key, ReadStorage(s, key));
    PassAnswers(keccak, imports, call.calldata, call.guest, hosts[i], index);
  }

  // ----- calldata

  /** The n bytes of calldata from `start` on, with zeros past its end. */
  function Window(calldata: seq<Byte>, start: nat, n: nat): (w: seq<Byte>)
    ensures |w| == n
  {
    seq(n, i requires 0 <= i < n => if start + i < |calldata| then calldata[start + i] else 0)
  }

  /** call_data_copy writes exactly the zero-extended window, at any offset, and nothing outside it. */
  lemma CopyIsWindow(h: Host, calldata: seq<Byte>)
    requires Mapped(h.machine.memory, LowU32(h.machine.a0), LowU32(h.machine.a1))
    ensures var out, len, start := LowU32(h.machine.a0), LowU32(h.machine.a1), LowU32(h.machine.a2);
      CopyData(h, calldata) == WithMemory(h, WriteMemory(h.machine.memory, out, Window(calldata, start, len)))
  {
    CopiedIsWindow(h.machine.memory, LowU32(h.machine.a0), LowU32(h.machine.a1), LowU32(h.machine.a2), calldata);
    hide CopiedMemory, LowU32, Window, WriteMemory, Mapped;
  }

  lemma CopiedIsWindow(m: Memory, out: U32, len: U32, start: U32, calldata: seq<Byte>)
    requires Mapped(m, out, len)
    ensures CopiedMemory(m, out, len, start, calldata) == WriteMemory(m, out, Window(calldata, start, len))
  {
    hide Window, WriteMemory, Mapped, Zeros;
    WindowParts(calldata, start, len);
    if start < |calldata| {
      var end := if start + len < |calldata| then start + len else |calldata|;
      CopyTail(m, out, calldata[start..end], len);
    }
  }

  /** Copying `data` and then zeroing the rest of a mapped range is one write. */
  lemma CopyTail(m: Memory, out: U32, data: seq<Byte>, len: nat)
    requires Mapped(m, out, len) && |data| <= len
    ensures WriteMemory(m, out, data + Zeros(len - |data|))
         == if |data| < len then ZeroMemory(WriteMemory(m, out, data), (out + |data|) % TWO_32, len - |data|)
            else WriteMemory(m, out, data)
  {
    hide WriteMemory;
    if |data| < len {
      var tail := Zeros(len - |data|);
      assert |data + tail| == len;
      assert out + |data| in m;
      TwoWrites(m, out, data, tail);
    } else {
      assert data + Zeros(0) == data;
    }
  }

  /** A window is the calldata it overlaps, then zeros. */
  lemma WindowParts(calldata: seq<Byte>, start: nat, n: nat)
    ensures start >= |calldata| ==> Window(calldata, start, n) == Zeros(n)
    ensures start < |calldata| ==>
      var end := if start + n < |calldata| then start + n else |calldata|;
      Window(calldata, start, n) == calldata[start..end] + Zeros(n - |calldata[start..end]|)
  {
  }

  lemma TwoWrites(m: Memory, start: U32, a: seq<Byte>, b: seq<Byte>)
    requires Mapped(m, start, |a + b|) && start + |a| < TWO_32
    ensures WriteMemory(WriteMemory(m, start, a), start + |a|, b) == WriteMemory(m, start, a + b)
  {
    assert Mapped(m, start, |a|);
    var half := WriteMemory(m, start, a);
    assert Mapped(half, start + |a|, |b|);
  }

  /** The little-endian value of a byte string. */
  function FromBytesLE(s: seq<Byte>): nat {
    if s == [] then 0 else s[0] + 256 * FromBytesLE(s[1..])
  }

  lemma {:induction false} ReversalSwapsEndianness(s: seq<Byte>)
    ensures FromBytesLE(Reversed(s)) == FromBytes(s)
  {
    if s != [] {
      var front := s[..|s| - 1];
      ReversalSwapsEndianness(front);
      assert Reversed(s)[1..] == Reversed(front);
    }
  }

  /** call_data_load writes, in little-endian form, the integer whose big-endian bytes are the
      zero-extended 32-byte window: the reversal of what call_data_copy would write. */
  lemma LoadIsReversedWindow(h: Host, calldata: seq<Byte>)
    ensures var out, start := LowU32(h.machine.a0), LowU32(h.machine.a1);
      var data := Reversed(Window(calldata, start, 32));
      && LoadWord(h, calldata) == WithMemory(h, WriteMemory(h.machine.memory, out, data))
      && FromBytesLE(data) == FromBytes(Window(calldata, start, 32))
  {
    var window := Window(calldata, LowU32(h.machine.a1), 32);
    ReversalSwapsEndianness(window);
    WindowParts(calldata, LowU32(h.machine.a1), 32);
    assert Zeros(32) == Reversed(Zeros(32));
    hide LowU32, WriteMemory, Window, Reversed;
  }
}
