/** The executor in its own form: a storage map and a guest instance mutated by syscalls in a loop. */
module PolkaVmRunner {
  import opened Words
  import opened Bytes
  import opened PolkaVmSpec
  import opened PolkaVmProofs
  import opened PolkaVmLaws

  /** A guest instance: its machine, and the code that `run` executes on it. */
  class Instance {
    var machine: Machine
    const guest: Guest

    constructor (machine: Machine, guest: Guest)
      ensures this.machine == machine && this.guest == guest
    {
      this.machine, this.guest := machine, guest;
    }

    method Run() returns (interrupt: Interrupt)
      modifies this
      ensures (machine, interrupt) == guest(old(machine))
    {
      var (after, i) := guest(machine);
      machine, interrupt := after, i;
    }

    method WriteMemory(start: U32, data: seq<Byte>)
      modifies this
      ensures machine == old(machine).(memory := PolkaVmSpec.WriteMemory(old(machine).memory, start, data))
    {
      machine := machine.(memory := PolkaVmSpec.WriteMemory(machine.memory, start, data));
    }

    method SetA0(value: U64)
      modifies this
      ensures machine == old(machine).(a0 := value)
    {
      machine := machine.(a0 := value);
    }
  }

  /** `SyscallDispatchTable::from_module`: one pass over the import indices. */
  method FromModule(imports: seq<string>) returns (table: seq<SyscallId>)
    ensures table == TableOf(imports)
  {
    table := [];
    var index := 0;
    while index < |imports|
      invariant 0 <= index == |table| <= |imports|
      invariant forall i :: 0 <= i < index ==> table[i] == SymbolToSyscallId(imports[i])
    {
      table := table + [SymbolToSyscallId(imports[index])];
      index := index + 1;
    }
  }

  class Executor {
    const keccak: Keccak
    var storage: Storage

    constructor (keccak: Keccak)
      ensures this.keccak == keccak && storage == map[]
    {
      this.keccak, this.storage := keccak, map[];
    }

    function HostWith(instance: Instance): Host
      reads this, instance
    {
      Host(instance.machine, storage)
    }

    method ResetStorage()
      modifies this
      ensures storage == map[]
    {
      storage := map[];
    }

    method GetStorageOrZero(instance: Instance)
      modifies instance
      ensures HostWith(instance) == GetStorage(old(HostWith(instance)))
    {
      var m := instance.machine;
      var key: Bytes32 := ReadMemory(m.memory, LowU32(m.a1), 32);
      var value: Bytes32 := if key in storage then storage[key] else ZERO32;
      instance.WriteMemory(LowU32(m.a2), value);
    }

    method SetStorageOrClear(instance: Instance) returns (r: SyscallResult)
      modifies this
      ensures (HostWith(instance), r) == SetStorage(old(HostWith(instance)))
    {
      var m := instance.machine;
      var key: Bytes32 := ReadMemory(m.memory, LowU32(m.a1), 32);
      var value: Bytes32 := ReadMemory(m.memory, LowU32(m.a2), 32);
      var oldLen: U32 := if key in storage then 32 else SENTINEL;
      if value == ZERO32 {
        storage := storage - {key};
      } else {
        storage := storage[key := value];
      }
      r := ReturnValue(oldLen);
    }

    method CallDataLoad(instance: Instance, calldata: seq<Byte>)
      modifies instance
      ensures HostWith(instance) == LoadWord(old(HostWith(instance)), calldata)
    {
      hide PolkaVmSpec.WriteMemory, LowU32, Reversed;
      var m := instance.machine;
      var start := LowU32(m.a1);
      var data := Zeros(32);
      if start < |calldata| {
        var end := if start + 32 < |calldata| then start + 32 else |calldata|;
        assert data[end - start..] == Zeros(32 - (end - start));
        data := calldata[start..end] + data[end - start..];
        data := Reversed(data);
      }
      instance.WriteMemory(LowU32(m.a0), data);
    }

    method CallDataCopy(instance: Instance, calldata: seq<Byte>)
      modifies instance
      ensures HostWith(instance) == CopyData(old(HostWith(instance)), calldata)
    {
      hide PolkaVmSpec.WriteMemory, LowU32;
      var m := instance.machine;
      var out, len, start := LowU32(m.a0), LowU32(m.a1), LowU32(m.a2);
      if start >= |calldata| {
        instance.WriteMemory(out, Zeros(len));
      } else {
        var end := if start + len < |calldata| then start + len else |calldata|;
        instance.WriteMemory(out, calldata[start..end]);
        var written := end - start;
        if written < len {
          instance.WriteMemory((out + written) % TWO_32, Zeros(len - written));
        }
      }
    }

    method HandleSyscallById(instance: Instance, id: SyscallId, calldata: seq<Byte>) returns (r: SyscallResult)
      modifies this, instance
      ensures (HostWith(instance), r) == HandleById(keccak, id, calldata, old(HostWith(instance)))
    {
      hide LoadWord, CopyData, GetStorage, SetStorage, PolkaVmSpec.WriteMemory, ReadMemory;
      var m := instance.machine;
      r := Continue;
      match id {
        case CallDataSize => r := ReturnValue(|calldata| % TWO_64);
        case CallDataLoad => CallDataLoad(instance, calldata);
        case CallDataCopy => CallDataCopy(instance, calldata);
        case SealReturn => r := Terminate(LowU32(m.a0), ReadMemory(m.memory, LowU32(m.a1), LowU32(m.a2)));
        case ConsumeAllGas => r := Terminate(1, []);
        case ValueTransferred => instance.WriteMemory(LowU32(m.a0), Zeros(32));
        case SetImmutableData =>
        case GetImmutableData => instance.WriteMemory(LowU32(m.a1), Zeros(4));
        case GetStorageOrZero => GetStorageOrZero(instance);
        case SetStorageOrClear => r := SetStorageOrClear(instance);
        case HashKeccak256 =>
          var input := ReadMemory(m.memory, LowU32(m.a0), LowU32(m.a1));
          instance.WriteMemory(LowU32(m.a2), keccak(input));
        case AddressOf => instance.WriteMemory(LowU32(m.a0), seq(20, _ => 0x42));
        case Caller => instance.WriteMemory(LowU32(m.a0), seq(20, _ => 0x01));
        case Balance => instance.WriteMemory(LowU32(m.a0), Zeros(32));
        case BlockNumber => instance.WriteMemory(LowU32(m.a0), [1] + Zeros(31));
        case ReturnDataSize => r := ReturnValue(0);
        case RefTimeLeft => r := ReturnValue(m.gas % TWO_64);
        case Unknown =>
      }
    }

    /** The interrupt loop, for at most `fuel` interrupts. Whatever its outcome, the instance and the
        storage are the last host of the specified trace. */
    method CallWithDispatchTable(instance: Instance, table: seq<SyscallId>, calldata: seq<Byte>, fuel: nat)
      returns (result: CallResult, ghost trace: Trace)
      modifies this, instance
      ensures trace == RunLoop(keccak, Table(table), calldata, instance.guest,
                               old(HostWith(instance)).(machine := old(instance.machine).(gas := GAS_LIMIT)), fuel)
      ensures HostWith(instance) == trace.hosts[|trace.hosts| - 1]
      ensures result == ResultOf(trace.outcome, instance.machine.gas)
      ensures forall imports :: TableOf(imports) == table ==> Told(imports, instance.guest, trace.hosts, result)
    {
      hide HandleById;
      instance.machine := instance.machine.(gas := GAS_LIMIT);
      ghost var start := HostWith(instance);
      trace := RunLoop(keccak, Table(table), calldata, instance.guest, start, fuel);
      ghost var seen: seq<Host> := [];
      var left := fuel;
      var outcome := StillRunning;
      while left > 0
        invariant 0 <= left <= fuel && outcome == StillRunning
        invariant var rest := RunLoop(keccak, Table(table), calldata, instance.guest, HostWith(instance), left);
          trace == Trace(seen + rest.hosts, rest.outcome)
        decreases left
      {
        ghost var before := HostWith(instance);
        var interrupt := instance.Run();
        if interrupt.Ecalli? {
          var syscall := HandleSyscallById(instance, TableGet(table, interrupt.index), calldata);
          if syscall.Terminate? {
            outcome := Returned(syscall.flags, syscall.data);
          } else if syscall.ReturnValue? {
            instance.SetA0(syscall.value);
          }
        } else {
          outcome := StopOf(interrupt);
        }
        assert (HostWith(instance), outcome) == OnePass(keccak, Table(table), calldata, instance.guest, before);
        hide OnePass;
        if outcome != StillRunning { break; }
        left := left - 1;
        ghost var rest := RunLoop(keccak, Table(table), calldata, instance.guest, HostWith(instance), left);
        assert (seen + [before]) + rest.hosts == seen + ([before] + rest.hosts);
        seen := seen + [before];
      }
      result := ResultOf(outcome, instance.machine.gas);
      forall imports | TableOf(imports) == table ensures Told(imports, instance.guest, trace.hosts, result) {
        ResultMeaning(keccak, imports, calldata, instance.guest, start, fuel);
      }
    }

    /** A call with a table built for it: every pass and the caller's answer, in plain terms. */
    method CallWithData(instance: Instance, imports: seq<string>, calldata: seq<Byte>, fuel: nat)
      returns (result: CallResult, ghost trace: Trace)
      modifies this, instance
      ensures Ran(keccak, imports, calldata, instance.guest,
                  old(HostWith(instance)).(machine := old(instance.machine).(gas := 300_000_000)), fuel, trace)
      ensures HostWith(instance) == trace.hosts[|trace.hosts| - 1]
      ensures Told(imports, instance.guest, trace.hosts, result)
    {
      hide RunLoop, Ran, Told, ResultOf, TableOf;
      ghost var start := HostWith(instance).(machine := instance.machine.(gas := GAS_LIMIT));
      RunMeaning(keccak, imports, calldata, instance.guest, start, fuel);
      ResultMeaning(keccak, imports, calldata, instance.guest, start, fuel);
      var table := FromModule(imports);
      result, trace := CallWithDispatchTable(instance, table, calldata, fuel);
    }
  }
}
