/** The PolkaVM host: guest memory and registers, the syscalls, and the interrupt loop. */
module PolkaVmSpec {
  import opened Words
  import opened Bytes

  const TWO_64: nat := 0x1_0000_0000_0000_0000
  const SENTINEL: nat := 0xFFFF_FFFF
  const GAS_LIMIT: int := 300_000_000
  const ZERO32: Bytes32 := Zeros(32)

  type U32 = x: nat | x < TWO_32
  type U64 = x: nat | x < TWO_64

  /** The mapped bytes of the 32-bit address space. */
  type Memory = m: map<nat, Byte> | forall k <- m :: k < TWO_32 witness map[]

  /** What the host sees of a guest; `inner` stands for everything else the guest keeps. */
  datatype Machine = Machine(memory: Memory, a0: U64, a1: U64, a2: U64, others: seq<U64>, gas: int, inner: nat)

  type Storage = map<Bytes32, Bytes32>

  datatype Host = Host(machine: Machine, storage: Storage)

  // ----- guest memory; an access that touches an unmapped byte does nothing

  predicate Mapped(m: Memory, start: nat, n: nat) {
    forall i :: start <= i < start + n ==> i in m
  }

  /** `read_memory_into` a zeroed buffer of n bytes. */
  function ReadMemory(m: Memory, start: U32, n: nat): (s: seq<Byte>)
    ensures |s| == n
  {
    if Mapped(m, start, n) then seq(n, i requires 0 <= i < n => m[start + i]) else Zeros(n)
  }

  function WriteMemory(m: Memory, start: U32, data: seq<Byte>): (m': Memory)
    ensures m'.Keys == m.Keys
  {
    if Mapped(m, start, |data|) then
      map k | k in m :: if start <= k < start + |data| then data[k - start] else m[k]
    else m
  }

  function ZeroMemory(m: Memory, start: U32, n: nat): Memory {
    WriteMemory(m, start, Zeros(n))
  }

  // ----- syscalls

  datatype SyscallId =
    | CallDataSize | CallDataLoad | CallDataCopy | SealReturn | ConsumeAllGas | ValueTransferred
    | SetImmutableData | GetImmutableData | GetStorageOrZero | SetStorageOrClear | HashKeccak256
    | AddressOf | Caller | Balance | BlockNumber | ReturnDataSize | RefTimeLeft | Unknown

  function SymbolToSyscallId(symbol: string): SyscallId {
    match symbol
    case "call_data_size" => CallDataSize
    case "call_data_load" => CallDataLoad
    case "call_data_copy" => CallDataCopy
    case "seal_return" => SealReturn
    case "consume_all_gas" => ConsumeAllGas
    case "value_transferred" => ValueTransferred
    case "set_immutable_data" => SetImmutableData
    case "get_immutable_data" => GetImmutableData
    case "get_storage_or_zero" => GetStorageOrZero
    case "set_storage_or_clear" => SetStorageOrClear
    case "hash_keccak_256" => HashKeccak256
    case "address" => AddressOf
    case "caller" => Caller
    case "balance" => Balance
    case "block_number" => BlockNumber
    case "return_data_size" => ReturnDataSize
    case "ref_time_left" => RefTimeLeft
    case _ => Unknown
  }

  datatype SyscallResult =
    | Continue
    | ReturnValue(value: U64)
    | Terminate(flags: U32, data: seq<Byte>)

  type Keccak = seq<Byte> -> Bytes32

  function LowU32(x: U64): U32 { x % TWO_32 }

  function WithMemory(h: Host, m: Memory): Host {
    h.(machine := h.machine.(memory := m))
  }

  function Reversed(s: seq<Byte>): (r: seq<Byte>)
    ensures |r| == |s|
  {
    seq(|s|, i requires 0 <= i < |s| => s[|s| - 1 - i])
  }

  function LoadWord(h: Host, calldata: seq<Byte>): Host {
    var start := LowU32(h.machine.a1);
    var data :=
      if start < |calldata| then
        var end := if start + 32 < |calldata| then start + 32 else |calldata|;
        Reversed(calldata[start..end] + Zeros(32 - (end - start)))
      else Zeros(32);
    WithMemory(h, WriteMemory(h.machine.memory, LowU32(h.machine.a0), data))
  }

  function CopiedMemory(m: Memory, out: U32, len: U32, start: U32, calldata: seq<Byte>): Memory {
    if start >= |calldata| then ZeroMemory(m, out, len)
    else
      var end := if start + len < |calldata| then start + len else |calldata|;
      var copied := WriteMemory(m, out, calldata[start..end]);
      var written := end - start;
      if written < len then ZeroMemory(copied, (out + written) % TWO_32, len - written) else copied
  }

  function CopyData(h: Host, calldata: seq<Byte>): Host {
    WithMemory(h, CopiedMemory(h.machine.memory, LowU32(h.machine.a0), LowU32(h.machine.a1), LowU32(h.machine.a2), calldata))
  }

  function KeyAt(h: Host): Bytes32 {
    ReadMemory(h.machine.memory, LowU32(h.machine.a1), 32)
  }

  function ReadStorage(s: Storage, key: Bytes32): Bytes32 {
    if key in s then s[key] else ZERO32
  }

  function WriteStorage(s: Storage, key: Bytes32, value: Bytes32): Storage {
    if value == ZERO32 then s - {key} else s[key := value]
  }

  function GetStorage(h: Host): Host {
    WithMemory(h, WriteMemory(h.machine.memory, LowU32(h.machine.a2), ReadStorage(h.storage, KeyAt(h))))
  }

  function ValueAt(h: Host): Bytes32 {
    ReadMemory(h.machine.memory, LowU32(h.machine.a2), 32)
  }

  function SetStorage(h: Host): (Host, SyscallResult) {
    (h.(storage := WriteStorage(h.storage, KeyAt(h), ValueAt(h))),
     ReturnValue(if KeyAt(h) in h.storage then 32 else SENTINEL))
  }

  function HashInput(h: Host, keccak: Keccak): Host {
    var input := ReadMemory(h.machine.memory, LowU32(h.machine.a0), LowU32(h.machine.a1));
    WithMemory(h, WriteMemory(h.machine.memory, LowU32(h.machine.a2), keccak(input)))
  }

  function Emit(h: Host, at: U64, data: seq<Byte>): Host {
    WithMemory(h, WriteMemory(h.machine.memory, LowU32(at), data))
  }

  function SealData(h: Host): SyscallResult {
    Terminate(LowU32(h.machine.a0), ReadMemory(h.machine.memory, LowU32(h.machine.a1), LowU32(h.machine.a2)))
  }

  /** `handle_syscall_by_id` */
  function HandleById(keccak: Keccak, id: SyscallId, calldata: seq<Byte>, h: Host): (Host, SyscallResult) {
    match id
    case CallDataSize => (h, ReturnValue(|calldata| % TWO_64))
    case CallDataLoad => (LoadWord(h, calldata), Continue)
    case CallDataCopy => (CopyData(h, calldata), Continue)
    case SealReturn => (h, SealData(h))
    case ConsumeAllGas => (h, Terminate(1, []))
    case ValueTransferred => (Emit(h, h.machine.a0, Zeros(32)), Continue)
    case SetImmutableData => (h, Continue)
    case GetImmutableData => (Emit(h, h.machine.a1, Zeros(4)), Continue)
    case GetStorageOrZero => (GetStorage(h), Continue)
    case SetStorageOrClear => SetStorage(h)
    case HashKeccak256 => (HashInput(h, keccak), Continue)
    case AddressOf => (Emit(h, h.machine.a0, seq(20, _ => 0x42)), Continue)
    case Caller => (Emit(h, h.machine.a0, seq(20, _ => 0x01)), Continue)
    case Balance => (Emit(h, h.machine.a0, Zeros(32)), Continue)
    case BlockNumber => (Emit(h, h.machine.a0, [1] + Zeros(31)), Continue)
    case ReturnDataSize => (h, ReturnValue(0))
    case RefTimeLeft => (h, ReturnValue(h.machine.gas % TWO_64))
    case Unknown => (h, Continue)
  }

  /** `handle_syscall`, the string-matching handler. */
  function HandleByName(keccak: Keccak, symbol: string, calldata: seq<Byte>, h: Host): (Host, SyscallResult) {
    match symbol
    case "call_data_size" => (h, ReturnValue(|calldata| % TWO_64))
    case "call_data_load" => (LoadWord(h, calldata), Continue)
    case "call_data_copy" => (CopyData(h, calldata), Continue)
    case "seal_return" => (h, SealData(h))
    case "consume_all_gas" => (h, Terminate(1, []))
    case "value_transferred" => (Emit(h, h.machine.a0, Zeros(32)), Continue)
    case "set_immutable_data" => (h, Continue)
    case "get_immutable_data" => (Emit(h, h.machine.a1, Zeros(4)), Continue)
    case "get_storage_or_zero" => (GetStorage(h), Continue)
    case "set_storage_or_clear" => SetStorage(h)
    case "hash_keccak_256" => (HashInput(h, keccak), Continue)
    case "address" => (Emit(h, h.machine.a0, seq(20, _ => 0x42)), Continue)
    case "caller" => (Emit(h, h.machine.a0, seq(20, _ => 0x01)), Continue)
    case "balance" => (Emit(h, h.machine.a0, Zeros(32)), Continue)
    case "block_number" => (Emit(h, h.machine.a0, [1] + Zeros(31)), Continue)
    case "return_data_size" => (h, ReturnValue(0))
    case "ref_time_left" => (h, ReturnValue(h.machine.gas % TWO_64))
    case _ => (h, Continue)
  }

  // ----- the interrupt loop

  datatype Interrupt = Finished | Trap | NotEnoughGas | Segfault | Step | Ecalli(index: U32) | EngineError

  /** One `instance.run()`: the guest computes on its own machine until it interrupts. */
  type Guest = Machine -> (Machine, Interrupt)

  datatype Outcome = Returned(flags: U32, data: seq<Byte>) | Trapped | OutOfGas | Ended | Failed | StillRunning

  /** The host before each pass and at the end, and how the run ended within `fuel` interrupts. */
  datatype Trace = Trace(hosts: seq<Host>, outcome: Outcome)

  function Resume(h: Host, r: SyscallResult): Host {
    if r.ReturnValue? then h.(machine := h.machine.(a0 := r.value)) else h
  }

  function StopOf(i: Interrupt): Outcome
    requires !i.Ecalli?
  {
    match i
    case Finished => Ended
    case Step => StillRunning
    case NotEnoughGas => OutOfGas
    case EngineError => Failed
    case _ => Outcome.Trapped
  }

  function TableGet(table: seq<SyscallId>, index: U32): SyscallId {
    if index < |table| then table[index] else Unknown
  }

  /** How an Ecalli is served: by a precomputed table, or by resolving the import's name on each call. */
  datatype Service = Table(ids: seq<SyscallId>) | Names(imports: seq<string>)

  /** An index without an import does nothing. */
  function Serve(keccak: Keccak, service: Service, calldata: seq<Byte>, index: U32, h: Host): (Host, SyscallResult) {
    match service
    case Table(ids) => HandleById(keccak, TableGet(ids, index), calldata, h)
    case Names(imports) =>
      if index < |imports| then HandleByName(keccak, imports[index], calldata, h) else (h, Continue)
  }

  /** One pass of the loop: run the guest to its next interrupt and serve that. */
  function OnePass(keccak: Keccak, service: Service, calldata: seq<Byte>, guest: Guest, h: Host): (Host, Outcome) {
    var (machine, interrupt) := guest(h.machine);
    var paused := h.(machine := machine);
    match interrupt
    case Ecalli(index) =>
      var (served, result) := Serve(keccak, service, calldata, index, paused);
      if result.Terminate? then (served, Returned(result.flags, result.data)) else (Resume(served, result), StillRunning)
    case _ => (paused, StopOf(interrupt))
  }

  /** The loop of `call_with_dispatch_table`. */
  function RunLoop(keccak: Keccak, service: Service, calldata: seq<Byte>, guest: Guest, h: Host, fuel: nat): (t: Trace)
    ensures t.hosts != []
    decreases fuel
  {
    if fuel == 0 then Trace([h], StillRunning)
    else
      var (next, outcome) := OnePass(keccak, service, calldata, guest, h);
      if outcome != StillRunning then Trace([h, next], outcome)
      else
        var rest := RunLoop(keccak, service, calldata, guest, next, fuel - 1);
        rest.(hosts := [h] + rest.hosts)
  }

  /** `SyscallDispatchTable::from_module` */
  function TableOf(imports: seq<string>): seq<SyscallId> {
    seq(|imports|, i requires 0 <= i < |imports| => SymbolToSyscallId(imports[i]))
  }

  /** What the caller gets: the gas used and the data of a return without the revert flag, or an error. */
  datatype CallResult = Success(gasUsed: int, data: seq<Byte>) | Error

  function ResultOf(o: Outcome, gasLeft: int): CallResult {
    match o
    case Returned(flags, data) => if flags % 2 != 0 then Error else Success(GAS_LIMIT - gasLeft, data)
    case Ended => Success(GAS_LIMIT - gasLeft, [])
    case _ => Error
  }
}
