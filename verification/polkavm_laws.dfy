/** What each syscall, pass and run does to registers, guest memory and storage, byte by byte, without the
    functions that serve it. */
module PolkaVmLaws {
  import opened Words
  import opened Bytes
  import opened PolkaVmSpec
  import opened PolkaVmProofs

  // ----- one syscall

  /** `after` is `h` but for its memory, where `data` has been stored from p on. */
  ghost predicate Wrote(h: Host, after: Host, p: U64, data: seq<Byte>) {
    after == h.(machine := h.machine.(memory := after.machine.memory))
    && Stored(h.machine.memory, after.machine.memory, p % TWO_32, data)
  }

  /** `after` is `h` but for the answer in a0. */
  ghost predicate Replied(h: Host, after: Host, value: int) {
    0 <= value < TWO_64 && after == h.(machine := h.machine.(a0 := value))
  }

  /** How many bytes of calldata there are to copy. */
  function There(len: nat, start: nat, size: nat): (n: nat)
    ensures n <= len
  {
    if start >= size then 0 else if start + len < size then len else size - start
  }

  /** `head` stored from p on and then `tail` after it: two stores, each of which may touch an unmapped byte. */
  ghost predicate StoredTwice(before: Memory, between: Memory, after: Memory, p: nat, head: seq<Byte>, tail: seq<Byte>) {
    Stored(before, between, p, head) && Stored(between, after, (p + |head|) % TWO_32, tail)
  }

  /** call_data_copy: the window in one store or, where the buffer is not wholly mapped, what there is of the
      calldata and then the zeros. */
  ghost predicate CopiedIn(before: Memory, after: Memory, out: nat, len: nat, start: nat, calldata: seq<Byte>) {
    var there := There(len, start, |calldata|);
    var head, tail := Window(calldata, start, there), Zeros(len - there);
    if forall k :: out <= k < out + len ==> k in before then Stored(before, after, out, Window(calldata, start, len))
    else exists between: Memory :: StoredTwice(before, between, after, out, head, tail)
  }

  /** What serving `name` leaves, its answer in a0 included. */
  ghost predicate Leaves(keccak: Keccak, name: string, calldata: seq<Byte>, h: Host, after: Host) {
    var m := h.machine;
    var in0, in1, in2 := m.a0 % TWO_32, m.a1 % TWO_32, m.a2 % TWO_32;
    match name
    case "call_data_size" => Replied(h, after, |calldata| % TWO_64)
    case "call_data_load" => Wrote(h, after, m.a0, seq(32, i requires 0 <= i < 32 => Window(calldata, in1, 32)[31 - i]))
    case "call_data_copy" =>
      && after == h.(machine := m.(memory := after.machine.memory))
      && CopiedIn(m.memory, after.machine.memory, in0, in1, in2, calldata)
    case "value_transferred" => Wrote(h, after, m.a0, Zeros(32))
    case "get_immutable_data" => Wrote(h, after, m.a1, Zeros(4))
    case "get_storage_or_zero" =>
      var key := BytesAt(m.memory, in1, 32);
      Wrote(h, after, m.a2, if key in h.storage then h.storage[key] else Zeros(32))
    case "set_storage_or_clear" =>
      var key, value := BytesAt(m.memory, in1, 32), BytesAt(m.memory, in2, 32);
      && Replied(h.(storage := after.storage), after, if key in h.storage then 32 else 0xFFFF_FFFF)
      && after.storage == if value == Zeros(32) then h.storage - {key} else h.storage[key := value]
    case "hash_keccak_256" => Wrote(h, after, m.a2, keccak(BytesAt(m.memory, in0, in1)))
    case "address" => Wrote(h, after, m.a0, seq(20, _ => 0x42))
    case "caller" => Wrote(h, after, m.a0, seq(20, _ => 1))
    case "balance" => Wrote(h, after, m.a0, Zeros(32))
    case "block_number" => Wrote(h, after, m.a0, [1] + Zeros(31))
    case "return_data_size" => Replied(h, after, 0)
    case "ref_time_left" => Replied(h, after, m.gas % TWO_64)
    case _ => after == h
  }

  /** How serving `name` ends the run, if it does. */
  function Ends(name: string, m: Machine): Outcome {
    if name == "seal_return" then Returned(m.a0 % TWO_32, BytesAt(m.memory, m.a1 % TWO_32, m.a2 % TWO_32))
    else if name == "consume_all_gas" then Returned(1, [])
    else StillRunning
  }

  lemma EmitWrote(h: Host, p: U64, data: seq<Byte>)
    ensures Wrote(h, Emit(h, p, data), p, data)
  {
    WriteStores(h.machine.memory, LowU32(p), data);
    hide Stored, PolkaVmSpec.WriteMemory;
  }

  lemma LoadWrote(h: Host, calldata: seq<Byte>)
    ensures Wrote(h, LoadWord(h, calldata), h.machine.a0,
                  seq(32, i requires 0 <= i < 32 => Window(calldata, h.machine.a1 % TWO_32, 32)[31 - i]))
  {
    LoadIsReversedWindow(h, calldata);
    var window := Window(calldata, LowU32(h.machine.a1), 32);
    assert Reversed(window) == seq(32, i requires 0 <= i < 32 => window[31 - i]);
    EmitWrote(h, h.machine.a0, Reversed(window));
    hide LoadWord, Wrote, Reversed, Window, PolkaVmSpec.WriteMemory, FromBytes, FromBytesLE;
  }

  lemma CopyWrote(h: Host, calldata: seq<Byte>)
    ensures var m, m' := h.machine, CopyData(h, calldata).machine.memory;
      && CopyData(h, calldata) == h.(machine := m.(memory := m'))
      && CopiedIn(m.memory, m', m.a0 % TWO_32, m.a1 % TWO_32, m.a2 % TWO_32, calldata)
  {
    var m := h.machine;
    CopiedMeans(m.memory, LowU32(m.a0), LowU32(m.a1), LowU32(m.a2), calldata);
    hide CopiedMemory, CopiedIn;
  }

  lemma CopiedMeans(m: Memory, out: U32, len: U32, start: U32, calldata: seq<Byte>)
    ensures CopiedIn(m, CopiedMemory(m, out, len, start, calldata), out, len, start, calldata)
  {
    if Mapped(m, out, len) {
      CopiedIsWindow(m, out, len, start, calldata);
      WriteStores(m, out, Window(calldata, start, len));
    } else {
      CopyParts(m, out, len, start, calldata);
    }
    hide CopiedMemory, Window, Stored, StoredTwice, PolkaVmSpec.WriteMemory;
  }

  lemma CopyParts(m: Memory, out: U32, len: U32, start: U32, calldata: seq<Byte>)
    ensures var there := There(len, start, |calldata|);
      StoredTwice(m, WriteMemory(m, out, Window(calldata, start, there)), CopiedMemory(m, out, len, start, calldata),
                  out, Window(calldata, start, there), Zeros(len - there))
  {
    hide There, Window, Stored, PolkaVmSpec.WriteMemory, CopiedMemory, Zeros;
    CopyInTwo(m, out, len, start, calldata);
    var there := There(len, start, |calldata|);
    var head, tail := Window(calldata, start, there), Zeros(len - there);
    var p: U32 := (out + |head|) % TWO_32;
    var between := WriteMemory(m, out, head);
    WriteStores(m, out, head);
    WriteStores(between, p, tail);
    assert CopiedMemory(m, out, len, start, calldata) == WriteMemory(between, p, tail);
  }

  /** The copy as two writes, with an empty one where there is nothing to write. */
  lemma CopyInTwo(m: Memory, out: U32, len: U32, start: U32, calldata: seq<Byte>)
    ensures var there := There(len, start, |calldata|);
      CopiedMemory(m, out, len, start, calldata)
      == WriteMemory(WriteMemory(m, out, Window(calldata, start, there)), (out + there) % TWO_32, Zeros(len - there))
  {
    var there := There(len, start, |calldata|);
    var head, tail := Window(calldata, start, there), Zeros(len - there);
    var p: U32 := (out + there) % TWO_32;
    WindowThere(calldata, start, len);
    Empty(calldata, start);
    CopyCases(m, out, len, start, calldata);
    hide *;
    NothingWritten(m, out);
    NothingWritten(WriteMemory(m, out, head), p);
  }

  lemma CopyCases(m: Memory, out: U32, len: U32, start: U32, calldata: seq<Byte>)
    ensures var there := There(len, start, |calldata|);
      var p: U32 := (out + there) % TWO_32;
      && (start >= |calldata| ==>
          there == 0 && p == out && CopiedMemory(m, out, len, start, calldata) == WriteMemory(m, out, Zeros(len - there)))
      && (start < |calldata| ==>
          var head := calldata[start..if start + len < |calldata| then start + len else |calldata|];
          CopiedMemory(m, out, len, start, calldata)
          == if there < len then WriteMemory(WriteMemory(m, out, head), p, Zeros(len - there)) else WriteMemory(m, out, head))
  {
    hide PolkaVmSpec.WriteMemory, Zeros;
  }

  lemma WindowThere(calldata: seq<Byte>, start: nat, len: nat)
    ensures var there := There(len, start, |calldata|);
      start < |calldata| ==>
        Window(calldata, start, there) == calldata[start..if start + len < |calldata| then start + len else |calldata|]
  {
  }

  lemma Empty(calldata: seq<Byte>, start: nat)
    ensures Window(calldata, start, 0) == [] && Zeros(0) == []
  {
  }

  lemma NothingWritten(m: Memory, p: U32)
    ensures WriteMemory(m, p, []) == m
  {
  }

  lemma GetWrote(h: Host)
    ensures var key := BytesAt(h.machine.memory, h.machine.a1 % TWO_32, 32);
      Wrote(h, GetStorage(h), h.machine.a2, if key in h.storage then h.storage[key] else Zeros(32))
  {
    KeyAndValue(h);
    EmitWrote(h, h.machine.a2, ReadStorage(h.storage, KeyAt(h)));
    hide KeyAt, BytesAt, Wrote, PolkaVmSpec.WriteMemory;
  }

  lemma SetWrote(h: Host)
    ensures var (served, r) := SetStorage(h);
      var key, value := BytesAt(h.machine.memory, h.machine.a1 % TWO_32, 32), BytesAt(h.machine.memory, h.machine.a2 % TWO_32, 32);
      && Replied(h.(storage := served.storage), Resume(served, r), if key in h.storage then 32 else 0xFFFF_FFFF)
      && served.storage == if value == Zeros(32) then h.storage - {key} else h.storage[key := value]
  {
    KeyAndValue(h);
    hide KeyAt, ValueAt, BytesAt;
  }

  lemma HashWrote(h: Host, keccak: Keccak)
    ensures var m := h.machine;
      Wrote(h, HashInput(h, keccak), m.a2, keccak(BytesAt(m.memory, m.a0 % TWO_32, m.a1 % TWO_32)))
  {
    ReadsBytes(h.machine.memory, LowU32(h.machine.a0), LowU32(h.machine.a1));
    EmitWrote(h, h.machine.a2, keccak(BytesAt(h.machine.memory, LowU32(h.machine.a0), LowU32(h.machine.a1))));
    hide BytesAt, Wrote, PolkaVmSpec.WriteMemory;
  }

  /** Every syscall, served by name or by id. */
  lemma SyscallMeaning(keccak: Keccak, name: string, calldata: seq<Byte>, h: Host)
    ensures var (served, r) := HandleById(keccak, SymbolToSyscallId(name), calldata, h);
      && Leaves(keccak, name, calldata, h, Resume(served, r))
      && Ends(name, h.machine) == if r.Terminate? then Returned(r.flags, r.data) else StillRunning
  {
    SameDispatch(keccak, name, calldata, h);
    LeavesByName(keccak, name, calldata, h);
    EndsByName(keccak, name, calldata, h);
    hide HandleById, HandleByName, Leaves, Ends, Resume, SymbolToSyscallId;
  }

  lemma EndsByName(keccak: Keccak, name: string, calldata: seq<Byte>, h: Host)
    ensures var (served, r) := HandleByName(keccak, name, calldata, h);
      Ends(name, h.machine) == if r.Terminate? then Returned(r.flags, r.data) else StillRunning
  {
    ReadsBytes(h.machine.memory, LowU32(h.machine.a1), LowU32(h.machine.a2));
    hide BytesAt, ReadMemory, CopyData, GetStorage, LoadWord, Emit, HashInput;
  }

  lemma LeavesByName(keccak: Keccak, name: string, calldata: seq<Byte>, h: Host)
    ensures var (served, r) := HandleByName(keccak, name, calldata, h);
      Leaves(keccak, name, calldata, h, Resume(served, r))
  {
    hide CopyData, CopiedIn, SetStorage, GetStorage, LoadWord, Wrote, BytesAt, Emit, HashInput, ReadMemory, Zeros;
    var m := h.machine;
    match name
    case "call_data_load" => LoadWrote(h, calldata);
    case "call_data_copy" => CopyWrote(h, calldata);
    case "get_storage_or_zero" => GetWrote(h);
    case "set_storage_or_clear" => SetWrote(h);
    case "hash_keccak_256" => HashWrote(h, keccak);
    case "value_transferred" => EmitWrote(h, m.a0, Zeros(32));
    case "get_immutable_data" => EmitWrote(h, m.a1, Zeros(4));
    case "address" => EmitWrote(h, m.a0, seq(20, _ => 0x42));
    case "caller" => EmitWrote(h, m.a0, seq(20, _ => 0x01));
    case "balance" => EmitWrote(h, m.a0, Zeros(32));
    case "block_number" => EmitWrote(h, m.a0, [1] + Zeros(31));
    case _ =>
  }

  // ----- passes and runs

  /** One pass: the guest's own computation, and then the syscall it stopped for, if any. */
  ghost predicate Passed(keccak: Keccak, imports: seq<string>, calldata: seq<Byte>, guest: Guest, h: Host, after: Host, outcome: Outcome) {
    var (machine, interrupt) := guest(h.machine);
    var paused := h.(machine := machine);
    match interrupt
    case Ecalli(index) =>
      var name := NameAt(imports, index);
      Leaves(keccak, name, calldata, paused, after) && outcome == Ends(name, machine)
    case Step => after == paused && outcome == StillRunning
    case Finished => after == paused && outcome == Ended
    case NotEnoughGas => after == paused && outcome == OutOfGas
    case EngineError => after == paused && outcome == Failed
    case Trap => after == paused && outcome == Outcome.Trapped
    case Segfault => after == paused && outcome == Outcome.Trapped
  }

  /** Every pass of a run goes on but the last one, which does only when the interrupts are used up. */
  ghost predicate Ran(keccak: Keccak, imports: seq<string>, calldata: seq<Byte>, guest: Guest, h: Host, fuel: nat, t: Trace) {
    var last := |t.hosts| - 1;
    && 0 <= last <= fuel && t.hosts[0] == h
    && (t.outcome == StillRunning ==> last == fuel)
    && (last == 0 ==> t.outcome == StillRunning)
    && forall i :: 0 <= i < last ==>
         Passed(keccak, imports, calldata, guest, t.hosts[i], t.hosts[i + 1], if i + 1 == last then t.outcome else StillRunning)
  }

  /** What the caller gets, by the guest's last interrupt: success exactly when it finished or made a
      seal_return with an even flag word. */
  ghost predicate Told(imports: seq<string>, guest: Guest, hosts: seq<Host>, result: CallResult) {
    if |hosts| < 2 then result == Error
    else
      var (m, interrupt) := guest(hosts[|hosts| - 2].machine);
      if interrupt == Finished then result == Success(300_000_000 - m.gas, [])
      else if interrupt.Ecalli? && NameAt(imports, interrupt.index) == "seal_return" && m.a0 % 2 == 0 then
        result == Success(300_000_000 - m.gas, BytesAt(m.memory, m.a1 % TWO_32, m.a2 % TWO_32))
      else result == Error
  }

  lemma PassMeaning(keccak: Keccak, imports: seq<string>, calldata: seq<Byte>, guest: Guest, h: Host)
    ensures var (next, outcome) := OnePass(keccak, Table(TableOf(imports)), calldata, guest, h);
      Passed(keccak, imports, calldata, guest, h, next, outcome)
  {
    var (machine, interrupt) := guest(h.machine);
    if interrupt.Ecalli? {
      SyscallMeaning(keccak, NameAt(imports, interrupt.index), calldata, h.(machine := machine));
      NameResolves(imports, interrupt.index);
    }
    hide HandleById, Leaves, Ends, Resume, SymbolToSyscallId, NameAt, TableGet, TableOf;
  }

  lemma NameResolves(imports: seq<string>, index: U32)
    ensures TableGet(TableOf(imports), index) == SymbolToSyscallId(NameAt(imports, index))
  {
  }

  /** Every run of every guest from every state. */
  lemma {:induction false} RunMeaning(keccak: Keccak, imports: seq<string>, calldata: seq<Byte>, guest: Guest, h: Host, fuel: nat)
    ensures Ran(keccak, imports, calldata, guest, h, fuel, RunLoop(keccak, Table(TableOf(imports)), calldata, guest, h, fuel))
    decreases fuel
  {
    hide OnePass, Passed;
    if fuel != 0 {
      var (next, outcome) := OnePass(keccak, Table(TableOf(imports)), calldata, guest, h);
      PassMeaning(keccak, imports, calldata, guest, h);
      if outcome == StillRunning { RunMeaning(keccak, imports, calldata, guest, next, fuel - 1); }
    }
  }

  /** The caller's answer, from the outcome of any run. */
  lemma ResultMeaning(keccak: Keccak, imports: seq<string>, calldata: seq<Byte>, guest: Guest, h: Host, fuel: nat)
    ensures var t := RunLoop(keccak, Table(TableOf(imports)), calldata, guest, h, fuel);
      Told(imports, guest, t.hosts, ResultOf(t.outcome, t.hosts[|t.hosts| - 1].machine.gas))
  {
    var t := RunLoop(keccak, Table(TableOf(imports)), calldata, guest, h, fuel);
    RunMeaning(keccak, imports, calldata, guest, h, fuel);
    hide RunLoop, BytesAt, NameAt, Leaves;
    var n := |t.hosts| - 2;
    if 0 <= n {
      assert Passed(keccak, imports, calldata, guest, t.hosts[n], t.hosts[n + 1], t.outcome);
      var (m, interrupt) := guest(t.hosts[n].machine);
      if interrupt.Ecalli? {
        SealKeeps(keccak, NameAt(imports, interrupt.index), calldata, t.hosts[n].(machine := m), t.hosts[n + 1]);
      }
    }
  }

  lemma SealKeeps(keccak: Keccak, name: string, calldata: seq<Byte>, h: Host, after: Host)
    ensures Leaves(keccak, name, calldata, h, after) && name == "seal_return" ==> after == h
  {
  }
}
