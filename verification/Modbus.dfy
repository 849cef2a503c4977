/**
 The modbus controller: writes that the shadow registers show to be unnecessary are skipped. Slave 0 is the
 broadcast address. The bus is free to answer a write as it likes, and a write whose answer is lost may or may
 not have reached the slave. The bus keeps a log of the frames that were written to it.
 */
module Modbus {
  import opened Wrappers

  type u16 = x: nat | x < 0x1_0000
  type u32 = x: nat | x < 0x1_0000_0000
  type u64 = x: nat | x < 0x1_0000_0000_0000_0000

  datatype Register = Register(slave: u16, address: u16)

  function High(data: u32): u16 {
    data / 0x1_0000
  }

  function Low(data: u32): u16 {
    data % 0x1_0000
  }

  function Words(data: u32): seq<u16> {
    [High(data), Low(data)]
  }

  function Wide(high: u16, low: u16): u32 {
    var shifted: int := high;
    shifted * 0x1_0000 + low
  }

  /** address + 1 in 16 bits. */
  function Next(address: u16): u16 {
    (address + 1) % 0x1_0000
  }

  // ------------------------------------------------------------ shadow addresses

  /** (slave << 16) | address is computed in a signed 32-bit int and then widened, which extends its sign. */
  function GetShadowAddress(slave: u16, address: u16): u64 {
    var bits := slave * 0x1_0000 + address;
    if bits < 0x8000_0000 then bits else bits + 0xFFFF_FFFF_0000_0000
  }

  /** No two registers share a shadow, not even for the slaves whose shadow address is negative. */
  lemma ShadowAddressIsInjective(r1: Register, r2: Register)
    requires GetShadowAddress(r1.slave, r1.address) == GetShadowAddress(r2.slave, r2.address)
    ensures r1 == r2
  {
    var bits := r1.slave * 0x1_0000 + r1.address;
    assert bits == r2.slave * 0x1_0000 + r2.address;
    assert bits / 0x1_0000 == r1.slave && bits / 0x1_0000 == r2.slave;
  }

  /** The shadow address is the 32-bit address with its sign extended to 64 bits. */
  lemma ShadowAddressIsExtended(slave: u16, address: u16)
    ensures var key := GetShadowAddress(slave, address);
      && key % 0x1_0000 == address && key / 0x1_0000 % 0x1_0000 == slave
      && key / 0x1_0000_0000 == if slave >= 0x8000 then 0xFFFF_FFFF else 0
  {
  }

  function KeyOf(r: Register): u64 {
    GetShadowAddress(r.slave, r.address)
  }

  // ------------------------------------------------------------ the bus

  /** Done: applied and acknowledged. Refused: an error that left the registers alone. The other two are
      timeouts. */
  datatype Reply = Done | Refused | LostApplied | LostUnapplied

  /** The frame is for this register. */
  predicate Hit(slave: u16, first: u16, n: nat, r: Register) {
    (slave == 0 || r.slave == slave) && first <= r.address < first + n
  }

  /** The slave has all the registers. */
  predicate Complete(registers: map<Register, u16>, slave: u16, first: u16, n: nat) {
    first + n <= 0x1_0000 && forall a: u16 | first <= a < first + n :: Register(slave, a) in registers
  }

  /** A slave takes a frame that is for it as a whole, and only if it has all the registers. */
  predicate Takes(registers: map<Register, u16>, slave: u16, first: u16, n: nat, r: Register) {
    Hit(slave, first, n, r) && Complete(registers, r.slave, first, n)
  }

  function Apply(registers: map<Register, u16>, slave: u16, first: u16, data: seq<u16>): (after: map<Register, u16>)
    ensures after.Keys == registers.Keys
  {
    map r | r in registers ::
      if Takes(registers, slave, first, |data|, r) then data[r.address - first] else registers[r]
  }

  /** What the bus can answer: a slave that lacks a register refuses. Nobody answers to a broadcast. */
  function Answer(registers: map<Register, u16>, slave: u16, first: u16, n: nat, wish: Reply): Reply {
    if slave != 0 && !Complete(registers, slave, first, n) then Refused else wish
  }

  function Effect(registers: map<Register, u16>, slave: u16, first: u16, data: seq<u16>, wish: Reply)
    : map<Register, u16> {
    if Answer(registers, slave, first, |data|, wish) in {Done, LostApplied} then Apply(registers, slave, first, data)
    else registers
  }

  /** A failed write throws, except that a broadcast may time out. */
  predicate Succeeds(slave: u16, reply: Reply) {
    reply == Done || (slave == 0 && reply in {LostApplied, LostUnapplied})
  }

  /** A frame that was written and the answer to it. */
  datatype Exchange = Exchange(slave: u16, first: u16, data: seq<u16>, reply: Reply)

  /** What the environment does is fixed in advance: wishes(n) is what happens to the n-th frame written, and
      failures(n) whether the n-th read fails. Both are arbitrary. */
  class Bus {
    const wishes: nat -> Reply
    const failures: nat -> bool
    var registers: map<Register, u16>
    var log: seq<Exchange>
    var asked: nat

    constructor (registers: map<Register, u16>, wishes: nat -> Reply, failures: nat -> bool)
      ensures this.registers == registers && this.wishes == wishes && this.failures == failures
      ensures log == [] && asked == 0
    {
      this.registers, this.wishes, this.failures, log, asked := registers, wishes, failures, [], 0;
    }

    function Wish(): Reply
      reads this
    {
      wishes(|log|)
    }

    /** modbus_write_register and modbus_write_registers. */
    method Write(slave: u16, first: u16, data: seq<u16>) returns (reply: Reply)
      modifies `registers, `log
      ensures reply == old(Answer(registers, slave, first, |data|, Wish()))
      ensures log == old(log) + [Exchange(slave, first, data, reply)]
      ensures registers == Effect(old(registers), slave, first, data, reply)
    {
      reply := Answer(registers, slave, first, |data|, Wish());
      registers := Effect(registers, slave, first, data, reply);
      log := log + [Exchange(slave, first, data, reply)];
    }

    /** modbus_read_registers. It fails when the bus does or when the slave lacks one of the registers. */
    method Read(slave: u16, first: u16, n: nat) returns (data: Option<seq<u16>>)
      modifies `asked
      ensures asked == old(asked) + 1
      ensures data.Some? <==> !failures(old(asked)) && Complete(registers, slave, first, n)
      ensures data.Some? ==> |data.value| == n
      ensures data.Some? ==> forall i | 0 <= i < n :: data.value[i] == registers[Register(slave, first + i)]
    {
      var fails := failures(asked);
      asked := asked + 1;
      if fails || !Complete(registers, slave, first, n) {
        return None;
      }
      var words := [];
      for i := 0 to n
        invariant |words| == i
        invariant forall k | 0 <= k < i :: words[k] == registers[Register(slave, first + k)]
      {
        words := words + [registers[Register(slave, first + i)]];
      }
      return Some(words);
    }
  }

  // ------------------------------------------------------------ writing

  datatype State = State(registers: map<Register, u16>, shadow: map<u64, u16>)

  datatype Outcome = Outcome(state: State, ok: bool)

  predicate InShadow(s: State, r: Register, data: u16) {
    KeyOf(r) in s.shadow && s.shadow[KeyOf(r)] == data
  }

  function WithShadow(s: State, r: Register, data: u16): State {
    s.(shadow := s.shadow[KeyOf(r) := data])
  }

  function Send(s: State, slave: u16, first: u16, data: seq<u16>, wish: Reply): Outcome {
    Outcome(s.(registers := Effect(s.registers, slave, first, data, wish)),
            Succeeds(slave, Answer(s.registers, slave, first, |data|, wish)))
  }

  /** A broadcast that times out counts as written, but the 16-bit write shadows it only when it is answered. */
  function Shadowed(o: Outcome, r: Register, data: u16): Outcome {
    if o.ok then Outcome(WithShadow(o.state, r, data), true) else o
  }

  function Write16Outcome(s: State, slave: u16, address: u16, data: u16, useShadow: bool, wish: Reply): Outcome {
    var r := Register(slave, address);
    if !useShadow then Send(s, slave, address, [data], wish)
    else if InShadow(s, r, data) then Outcome(s, true)
    else
      var sent := Send(s, slave, address, [data], wish);
      if Answer(s.registers, slave, address, 1, wish) == Done then Shadowed(sent, r, data) else sent
  }

  function WriteManyOutcome(s: State, slave: u16, first: u16, data: seq<u16>, wish: Reply): Outcome {
    if |data| > 10 then Outcome(s, false) else Send(s, slave, first, data, wish)
  }

  function Write32Outcome(s: State, slave: u16, address: u16, data: u32, useShadow: bool, wish: Reply): Outcome {
    var high, low := Register(slave, address), Register(slave, Next(address));
    if !useShadow then Send(s, slave, address, Words(data), wish)
    else if InShadow(s, high, High(data)) && InShadow(s, low, Low(data)) then Outcome(s, true)
    else if InShadow(s, low, Low(data)) then Shadowed(Send(s, slave, address, [High(data)], wish), high, High(data))
    else if InShadow(s, high, High(data)) then
      Shadowed(Send(s, slave, Next(address), [Low(data)], wish), low, Low(data))
    else Shadowed(Shadowed(Send(s, slave, address, Words(data), wish), high, High(data)), low, Low(data))
  }

  function WordsAt(s: State, slave: u16, address: u16): Option<u32> {
    if Complete(s.registers, slave, address, 2) then
      Some(Wide(s.registers[Register(slave, address)], s.registers[Register(slave, address + 1)]))
    else None
  }

  class ModbusController {
    const context: Bus
    var shadowRegisters: map<u64, u16>

    constructor (context: Bus)
      ensures this.context == context && shadowRegisters == map[]
    {
      this.context := context;
      shadowRegisters := map[];
    }

    function Now(): State
      reads this, context
    {
      State(context.registers, shadowRegisters)
    }

    method GetShadow(slave: u16, address: u16) returns (found: bool, value: u16)
      ensures found == (KeyOf(Register(slave, address)) in shadowRegisters)
      ensures found ==> value == shadowRegisters[KeyOf(Register(slave, address))]
    {
      var key := GetShadowAddress(slave, address);
      if key !in shadowRegisters {
        return false, 0;
      }
      return true, shadowRegisters[key];
    }

    method WriteU16(slave: u16, address: u16, data: u16, useShadow: bool) returns (ok: bool)
      modifies this, context`registers, context`log
      ensures Outcome(Now(), ok) == old(Write16Outcome(Now(), slave, address, data, useShadow, context.Wish()))
      ensures context.log == old(context.log + Logged(Now(), Write16(slave, address, data, useShadow), context.Wish()))
    {
      if useShadow {
        var found, shadowData := GetShadow(slave, address);
        if found && shadowData == data {
          return true;
        }
      }
      var r := context.Write(slave, address, [data]);
      if r != Done {
        return slave == 0 && r in {LostApplied, LostUnapplied};
      }
      if useShadow {
        shadowRegisters := shadowRegisters[GetShadowAddress(slave, address) := data];
      }
      return true;
    }

    method WriteU16Array(slave: u16, first: u16, data: seq<u16>) returns (ok: bool)
      modifies this, context`registers, context`log
      ensures Outcome(Now(), ok) == old(WriteManyOutcome(Now(), slave, first, data, context.Wish()))
      ensures context.log == old(context.log + Logged(Now(), WriteMany(slave, first, data), context.Wish()))
    {
      if |data| > 10 {
        return false;
      }
      var r := context.Write(slave, first, data);
      return r == Done || (slave == 0 && r in {LostApplied, LostUnapplied});
    }

    method WriteU32(slave: u16, address: u16, data: u32, useShadow: bool) returns (ok: bool)
      modifies this, context`registers, context`log
      ensures Outcome(Now(), ok) == old(Write32Outcome(Now(), slave, address, data, useShadow, context.Wish()))
      ensures context.log == old(context.log + Logged(Now(), Write32(slave, address, data, useShadow), context.Wish()))
    {
      var words := Words(data);
      if useShadow {
        var foundHigh, shadowHigh := GetShadow(slave, address);
        var foundLow, shadowLow := GetShadow(slave, Next(address));
        var skipHigh := foundHigh && shadowHigh == words[0];
        var skipLow := foundLow && shadowLow == words[1];
        if skipHigh && skipLow {
          return true;
        } else if skipLow {
          ok := WriteU16(slave, address, words[0], false);
          if ok {
            SetShadow(slave, address, words[0]);
          }
          return;
        } else if skipHigh {
          ok := WriteU16(slave, Next(address), words[1], false);
          if ok {
            SetShadow(slave, Next(address), words[1]);
          }
          return;
        }
      }
      ok := WriteU16Array(slave, address, words);
      if ok && useShadow {
        SetShadow(slave, address, words[0]);
        SetShadow(slave, Next(address), words[1]);
      }
    }

    method SetShadow(slave: u16, address: u16, value: u16)
      modifies this
      ensures Now() == WithShadow(old(Now()), Register(slave, address), value)
    {
      shadowRegisters := shadowRegisters[GetShadowAddress(slave, address) := value];
    }

    /** None stands for the exception, which is thrown exactly when the read fails. */
    method ReadU32(slave: u16, address: u16) returns (value: Option<u32>)
      modifies context`asked
      ensures context.asked == old(context.asked) + 1
      ensures value == if context.failures(old(context.asked)) then None else WordsAt(Now(), slave, address)
    {
      var data := context.Read(slave, address, 2);
      if data.None? {
        return None;
      }
      return Some(Wide(data.value[0], data.value[1]));
    }
  }

  // ------------------------------------------------------------ commands

  datatype Command =
    | Write16(slave: u16, first: u16, data: u16, useShadow: bool)
    | Write32(slave: u16, first: u16, wide: u32, useShadow: bool)
    | WriteMany(slave: u16, first: u16, many: seq<u16>)

  function WordsOf(c: Command): seq<u16> {
    match c
    case Write16(_, _, data, _) => [data]
    case Write32(_, _, wide, _) => Words(wide)
    case WriteMany(_, _, many) => many
  }

  predicate UsesShadow(c: Command) {
    !c.WriteMany? && c.useShadow
  }

  function Step(s: State, c: Command, wish: Reply): Outcome {
    match c
    case Write16(slave, first, data, useShadow) => Write16Outcome(s, slave, first, data, useShadow, wish)
    case Write32(slave, first, wide, useShadow) => Write32Outcome(s, slave, first, wide, useShadow, wish)
    case WriteMany(slave, first, many) => WriteManyOutcome(s, slave, first, many, wish)
  }

  /** The same command without a shadow, and with the same answer of the bus. */
  function PlainStep(registers: map<Register, u16>, c: Command, wish: Reply): map<Register, u16> {
    if |WordsOf(c)| > 10 then registers else Effect(registers, c.slave, c.first, WordsOf(c), wish)
  }

  predicate Hits(c: Command, r: Register) {
    Hit(c.slave, c.first, |WordsOf(c)|, r)
  }

  /** Every shadow of a slave's register is the value of that register. The shadows of broadcasts, kept under
      slave 0, stand for no register. */
  ghost predicate Coherent(s: State) {
    forall r: Register | r.slave != 0 && KeyOf(r) in s.shadow ::
      r in s.registers && s.registers[r] == s.shadow[KeyOf(r)]
  }

  // ------------------------------------------------------------ what is sent

  datatype Frame = Silent | Frame(first: u16, words: seq<u16>)

  /** The words that a command puts on the bus. */
  function Sent(s: State, c: Command): Frame {
    match c
    case Write16(slave, first, data, useShadow) =>
      if useShadow && InShadow(s, Register(slave, first), data) then Silent else Frame(first, [data])
    case Write32(slave, first, wide, useShadow) =>
      var skipHigh := useShadow && InShadow(s, Register(slave, first), High(wide));
      var skipLow := useShadow && InShadow(s, Register(slave, Next(first)), Low(wide));
      if skipHigh && skipLow then Silent
      else if skipLow then Frame(first, [High(wide)])
      else if skipHigh then Frame(Next(first), [Low(wide)])
      else Frame(first, Words(wide))
    case WriteMany(_, first, many) => if |many| > 10 then Silent else Frame(first, many)
  }

  /** What the log of the bus gains. */
  function Logged(s: State, c: Command, wish: Reply): seq<Exchange> {
    match Sent(s, c)
    case Silent => []
    case Frame(first, words) => [Exchange(c.slave, first, words, Answer(s.registers, c.slave, first, |words|, wish))]
  }

  /** The words of a 16-bit or 32-bit write that are sent are exactly those that no shadow shows to be there. */
  lemma SentIff(s: State, c: Command, i: nat)
    requires !c.WriteMany? && i < |WordsOf(c)| && (c.Write32? ==> c.first < 0xFFFF)
    ensures var f, r := Sent(s, c), Register(c.slave, c.first + i);
      var sent := f.Frame? && f.first <= r.address < f.first + |f.words|;
      && (sent <==> !(c.useShadow && InShadow(s, r, WordsOf(c)[i])))
      && (sent ==> f.words[r.address - f.first] == WordsOf(c)[i])
      && (f.Frame? ==> c.first <= f.first && f.first + |f.words| <= c.first + |WordsOf(c)|)
  {
  }

  /** A write succeeds when there is nothing to send, because it is all in shadow, or when the frame is answered; a
      broadcast also when the answer is lost. More than ten words are never sent. */
  lemma SucceedsIff(s: State, c: Command, wish: Reply)
    ensures Step(s, c, wish).ok <==>
            match Sent(s, c)
            case Silent => !c.WriteMany?
            case Frame(first, words) =>
              var reply := Answer(s.registers, c.slave, first, |words|, wish);
              reply == Done || (c.slave == 0 && reply != Refused)
    ensures c.WriteMany? ==> (Sent(s, c) == if |c.many| <= 10 then Frame(c.first, c.many) else Silent)
  {
  }

  predicate Arrives(s: State, c: Command, wish: Reply) {
    var f := Sent(s, c);
    f.Frame? && Answer(s.registers, c.slave, f.first, |f.words|, wish) in {Done, LostApplied}
  }

  /** One of the words sent is for the register r, whose slave takes the frame. */
  predicate Carries(s: State, c: Command, r: Register) {
    var f := Sent(s, c);
    f.Frame? && Takes(s.registers, c.slave, f.first, |f.words|, r)
  }

  function Carried(s: State, c: Command, r: Register): u16
    requires Carries(s, c, r)
  {
    Sent(s, c).words[r.address - Sent(s, c).first]
  }

  lemma StepRegisters(s: State, c: Command, wish: Reply)
    ensures var f := Sent(s, c);
      Step(s, c, wish).state.registers ==
      if f.Silent? then s.registers else Effect(s.registers, c.slave, f.first, f.words, wish)
  {
  }

  lemma ArrivedAt(s: State, c: Command, wish: Reply, r: Register)
    ensures var after := Step(s, c, wish).state.registers;
      && (r in after <==> r in s.registers)
      && (r in after ==>
            after[r] == if Arrives(s, c, wish) && Carries(s, c, r) then Carried(s, c, r) else s.registers[r])
    ensures Arrives(s, c, wish) && c.slave != 0 && Carries(s, c, r) ==> r in s.registers
  {
    StepRegisters(s, c, wish);
  }

  lemma CompleteWords(registers: map<Register, u16>, slave: u16, first: u16)
    ensures Complete(registers, slave, first, 1) <==> Register(slave, first) in registers
    ensures Complete(registers, slave, first, 2) <==>
              first < 0xFFFF && Register(slave, first) in registers && Register(slave, first + 1) in registers
  {
    if first < 0xFFFF && Register(slave, first) in registers && Register(slave, first + 1) in registers {
      forall a: u16 | first <= a < first + 2
        ensures Register(slave, a) in registers
      {
        assert a == first || a == first + 1;
      }
    }
  }

  // ------------------------------------------------------------ the shadows after a write

  lemma WithShadowChanges(s: State, r: Register, data: u16, other: Register)
    ensures KeyOf(other) in WithShadow(s, r, data).shadow <==> other == r || KeyOf(other) in s.shadow
    ensures KeyOf(other) in WithShadow(s, r, data).shadow ==>
              WithShadow(s, r, data).shadow[KeyOf(other)] == if other == r then data else s.shadow[KeyOf(other)]
  {
    if KeyOf(other) == KeyOf(r) {
      ShadowAddressIsInjective(other, r);
    }
  }

  /** The shadow of r is as it was. */
  predicate ShadowKept(before: map<u64, u16>, after: map<u64, u16>, r: Register) {
    && (KeyOf(r) in after <==> KeyOf(r) in before)
    && (KeyOf(r) in after ==> after[KeyOf(r)] == before[KeyOf(r)])
  }

  /** A shadowed write to a slave that is answered shadows the words it has sent, and no other shadow of a slave
      changes. */
  ghost predicate Recorded(s: State, c: Command, wish: Reply, r: Register) {
    var after := Step(s, c, wish).state.shadow;
    if UsesShadow(c) && c.slave != 0 && wish == Done && Arrives(s, c, wish) && Carries(s, c, r) then
      KeyOf(r) in after && after[KeyOf(r)] == Carried(s, c, r)
    else ShadowKept(s.shadow, after, r)
  }

  lemma ShadowAfter(s: State, c: Command, wish: Reply, r: Register)
    requires r.slave != 0
    ensures Recorded(s, c, wish, r)
  {
    if c.Write16? && c.useShadow {
      WithShadowChanges(s, Register(c.slave, c.first), c.data, r);
    } else if c.Write32? && c.useShadow {
      WideShadowAfter(s, c, wish, r);
    }
  }

  lemma WideShadowAfter(s: State, c: Command, wish: Reply, r: Register)
    requires r.slave != 0 && c.Write32? && c.useShadow
    ensures Recorded(s, c, wish, r)
  {
    var h, l := Register(c.slave, c.first), Register(c.slave, Next(c.first));
    var high, low := High(c.wide), Low(c.wide);
    if InShadow(s, l, low) && !InShadow(s, h, high) {
      OneShadowAfter(s, c, wish, r, h, high);
    } else if InShadow(s, h, high) && !InShadow(s, l, low) {
      OneShadowAfter(s, c, wish, r, l, low);
    } else if !InShadow(s, h, high) {
      BothShadowsAfter(s, c, wish, r);
    }
  }

  lemma OneShadowAfter(s: State, c: Command, wish: Reply, r: Register, target: Register, word: u16)
    requires r.slave != 0 && c.Write32? && c.useShadow
    requires Sent(s, c) == Frame(target.address, [word]) && target.slave == c.slave
    requires Step(s, c, wish) == Shadowed(Send(s, c.slave, target.address, [word], wish), target, word)
    ensures Recorded(s, c, wish, r)
  {
    WithShadowChanges(Send(s, c.slave, target.address, [word], wish).state, target, word, r);
    assert c.slave != 0 && Arrives(s, c, wish) ==> (Carries(s, c, r) <==> r == target);
  }

  lemma BothShadowsAfter(s: State, c: Command, wish: Reply, r: Register)
    requires r.slave != 0 && c.Write32? && c.useShadow && Sent(s, c) == Frame(c.first, Words(c.wide))
    ensures Recorded(s, c, wish, r)
  {
    var h, l := Register(c.slave, c.first), Register(c.slave, Next(c.first));
    var high, low := High(c.wide), Low(c.wide);
    var sent := Send(s, c.slave, c.first, Words(c.wide), wish);
    assert Step(s, c, wish) == Shadowed(Shadowed(sent, h, high), l, low);
    WithShadowChanges(sent.state, h, high, r);
    WithShadowChanges(WithShadow(sent.state, h, high), l, low, r);
    CompleteWords(s.registers, c.slave, c.first);
    assert c.slave != 0 && Arrives(s, c, wish) ==> (Carries(s, c, r) <==> r == h || r == l);
  }

  /** The words sent are those that the shadows already show. */
  ghost predicate Agrees(s: State, c: Command) {
    forall r: Register | r.slave != 0 && KeyOf(r) in s.shadow && Carries(s, c, r) ::
      s.shadow[KeyOf(r)] == Carried(s, c, r)
  }

  /** The write keeps the shadows right. */
  ghost predicate KeepsShadows(s: State, c: Command, wish: Reply) {
    (UsesShadow(c) && c.slave != 0 && wish == Done) || !Arrives(s, c, wish) || Agrees(s, c)
  }

  /** Any write, shadowed or not, to one slave or to all, keeps the shadows right exactly when it is a shadowed
      one to a slave that is answered, or does not reach the registers, or sends what the shadows show. So an
      unshadowed write, a broadcast or a write whose answer is lost breaks them if and only if it changes a
      shadowed register. */
  lemma CoherentIff(s: State, c: Command, wish: Reply)
    requires Coherent(s)
    ensures Coherent(Step(s, c, wish).state) <==> KeepsShadows(s, c, wish)
  {
    var after := Step(s, c, wish).state;
    if KeepsShadows(s, c, wish) {
      forall r: Register | r.slave != 0 && KeyOf(r) in after.shadow
        ensures r in after.registers && after.registers[r] == after.shadow[KeyOf(r)]
      {
        ShadowAfter(s, c, wish, r);
        ArrivedAt(s, c, wish, r);
      }
    } else {
      var r: Register :|
        r.slave != 0 && KeyOf(r) in s.shadow && Carries(s, c, r) && s.shadow[KeyOf(r)] != Carried(s, c, r);
      ShadowAfter(s, c, wish, r);
      ArrivedAt(s, c, wish, r);
    }
  }

  // ------------------------------------------------------------ what skipping words changes

  /** A shadowed 32-bit write at the last address: the low word would go to register 0, and both words together
      are refused, so sending one word alone is a write that the plain one is not. */
  predicate WrapsDifferently(s: State, c: Command) {
    c.Write32? && c.first == 0xFFFF &&
    var h, l := Register(c.slave, 0xFFFF), Register(c.slave, 0);
    if InShadow(s, h, High(c.wide)) then
      !InShadow(s, l, Low(c.wide)) && l in s.registers && s.registers[l] != Low(c.wide)
    else
      InShadow(s, l, Low(c.wide)) && h in s.registers && s.registers[h] != High(c.wide)
  }

  /** A shadowed broadcast: a word that is skipped, because it was broadcast before, is not what the slave has
      there now; or a word of two that is sent alone changes a slave that has only this register of the two, and
      would not take both. At the last address, where the low word goes to register 0, no slave takes both. */
  predicate MissedBy(s: State, c: Command, r: Register)
    requires r in s.registers && !c.WriteMany?
  {
    var shown := (a: u16, word: u16) => InShadow(s, Register(0, a), word);
    match c
    case Write16(_, first, data, _) => r.address == first && shown(first, data) && s.registers[r] != data
    case Write32(_, first, wide, _) =>
      var both := Complete(s.registers, r.slave, first, 2);
      var high, low := shown(first, High(wide)), shown(Next(first), Low(wide));
      || (r.address == first && s.registers[r] != High(wide) && if both then high else low && !high)
      || (r.address == Next(first) && s.registers[r] != Low(wide) && if both then low else high && !low)
  }

  ghost predicate Differs(s: State, c: Command, wish: Reply) {
    && UsesShadow(c) && wish in {Done, LostApplied}
    && if c.slave != 0 then WrapsDifferently(s, c) else exists r :: r in s.registers && MissedBy(s, c, r)
  }

  /** A write leaves the registers as it would without shadows, except for a shadowed 32-bit write at the last
      address and a shadowed broadcast, where it does so if and only if Differs does not hold. */
  lemma StepIsPlainIff(s: State, c: Command, wish: Reply)
    requires Coherent(s)
    ensures Step(s, c, wish).state.registers == PlainStep(s.registers, c, wish) <==> !Differs(s, c, wish)
  {
    StepRegisters(s, c, wish);
    if UsesShadow(c) {
      if c.slave == 0 {
        BroadcastIsPlainIff(s, c, wish);
      } else if c.Write16? {
        if Sent(s, c).Silent? {
          Unneeded(s.registers, c.slave, c.first, [c.data], wish);
        }
      } else if c.first < 0xFFFF {
        WideStepIsPlain(s, c, wish);
      } else {
        LastAddressIsPlainIff(s, c, wish);
      }
    }
  }

  /** Writing words that are already there changes nothing. */
  lemma Unneeded(registers: map<Register, u16>, slave: u16, first: u16, data: seq<u16>, wish: Reply)
    requires forall r | r in registers && Takes(registers, slave, first, |data|, r) ::
               registers[r] == data[r.address - first]
    ensures Effect(registers, slave, first, data, wish) == registers
  {
  }

  lemma PlainAt(registers: map<Register, u16>, c: Command, wish: Reply, r: Register)
    requires !c.WriteMany? && r in registers
    ensures var n, after := |WordsOf(c)|, PlainStep(registers, c, wish);
      && after.Keys == registers.Keys
      && after[r] == if Answer(registers, c.slave, c.first, n, wish) in {Done, LostApplied}
                        && Takes(registers, c.slave, c.first, n, r)
                     then WordsOf(c)[r.address - c.first] else registers[r]
  {
  }

  /** Of two words, the one that is already there need not be sent. */
  lemma WideStepIsPlain(s: State, c: Command, wish: Reply)
    requires Coherent(s) && c.Write32? && c.useShadow && c.slave != 0 && c.first < 0xFFFF
    ensures Step(s, c, wish).state.registers == PlainStep(s.registers, c, wish)
  {
    forall r | r in s.registers
      ensures Step(s, c, wish).state.registers[r] == PlainStep(s.registers, c, wish)[r]
    {
      WideStepAt(s, c, wish, r);
    }
    StepRegisters(s, c, wish);
  }

  lemma WideStepAt(s: State, c: Command, wish: Reply, r: Register)
    requires Coherent(s) && c.Write32? && c.useShadow && c.slave != 0 && c.first < 0xFFFF && r in s.registers
    ensures var after := Step(s, c, wish).state.registers;
      r in after && after[r] == PlainStep(s.registers, c, wish)[r]
  {
    var h, l := Register(c.slave, c.first), Register(c.slave, c.first + 1);
    PlainAt(s.registers, c, wish, r);
    ArrivedAt(s, c, wish, r);
    CompleteWords(s.registers, c.slave, c.first);
    CompleteWords(s.registers, c.slave, c.first + 1);
    assert Hits(c, r) <==> r == h || r == l;
  }

  lemma LastAddressIsPlainIff(s: State, c: Command, wish: Reply)
    requires c.Write32? && c.useShadow && c.slave != 0 && c.first == 0xFFFF
    ensures Step(s, c, wish).state.registers == PlainStep(s.registers, c, wish) <==> !Differs(s, c, wish)
  {
    var h, l := Register(c.slave, 0xFFFF), Register(c.slave, 0);
    CompleteWords(s.registers, c.slave, c.first);
    CompleteWords(s.registers, c.slave, 0);
    StepRegisters(s, c, wish);
    assert PlainStep(s.registers, c, wish) == s.registers;
    forall r | r in s.registers
      ensures Step(s, c, wish).state.registers[r] == s.registers[r]
              || (r == (if InShadow(s, h, High(c.wide)) then l else h))
    {
      ArrivedAt(s, c, wish, r);
    }
    if h in s.registers {
      ArrivedAt(s, c, wish, h);
    }
    if l in s.registers {
      ArrivedAt(s, c, wish, l);
    }
  }

  lemma BroadcastIsPlainIff(s: State, c: Command, wish: Reply)
    requires UsesShadow(c) && c.slave == 0
    ensures Step(s, c, wish).state.registers == PlainStep(s.registers, c, wish) <==> !Differs(s, c, wish)
  {
    StepRegisters(s, c, wish);
    if wish in {Done, LostApplied} {
      forall r | r in s.registers
        ensures Step(s, c, wish).state.registers[r] == PlainStep(s.registers, c, wish)[r] <==> !MissedBy(s, c, r)
      {
        BroadcastAt(s, c, wish, r);
      }
    }
  }

  lemma BroadcastAt(s: State, c: Command, wish: Reply, r: Register)
    requires UsesShadow(c) && c.slave == 0 && wish in {Done, LostApplied} && r in s.registers
    ensures var after := Step(s, c, wish).state.registers;
      r in after && (after[r] == PlainStep(s.registers, c, wish)[r] <==> !MissedBy(s, c, r))
  {
    PlainAt(s.registers, c, wish, r);
    ArrivedAt(s, c, wish, r);
    CompleteWords(s.registers, r.slave, r.address);
    if c.Write32? {
      WideBroadcastAt(s, c, r);
    }
  }

  /** What is sent of the two words, for a register of one of them. */
  lemma WideBroadcastAt(s: State, c: Command, r: Register)
    requires UsesShadow(c) && c.slave == 0 && c.Write32? && r in s.registers
    ensures var takes := Takes(s.registers, 0, c.first, 2, r);
      && (MissedBy(s, c, r) <==>
          if Carries(s, c, r) then !takes && Carried(s, c, r) != s.registers[r]
          else takes && WordsOf(c)[r.address - c.first] != s.registers[r])
      && (takes && Carries(s, c, r) ==> Carried(s, c, r) == WordsOf(c)[r.address - c.first])
  {
    CompleteWords(s.registers, r.slave, r.address);
    CompleteWords(s.registers, r.slave, c.first);
  }

  // ------------------------------------------------------------ runs

  datatype Round = Round(command: Command, wish: Reply)

  function Run(s: State, rounds: seq<Round>): State {
    if rounds == [] then s
    else
      var last := rounds[|rounds| - 1];
      Step(Run(s, rounds[..|rounds| - 1]), last.command, last.wish).state
  }

  /** The same writes with the same answers of the bus, without shadows. */
  function PlainRun(registers: map<Register, u16>, rounds: seq<Round>): map<Register, u16> {
    if rounds == [] then registers
    else
      var last := rounds[|rounds| - 1];
      PlainStep(PlainRun(registers, rounds[..|rounds| - 1]), last.command, last.wish)
  }

  /** A round after which the shadows are right and the registers what they would be without them. */
  ghost predicate Sound(s: State, round: Round) {
    KeepsShadows(s, round.command, round.wish) && !Differs(s, round.command, round.wish)
  }

  ghost predicate PlainUpTo(s: State, rounds: seq<Round>, k: nat)
    requires k <= |rounds|
  {
    Coherent(Run(s, rounds[..k])) && Run(s, rounds[..k]).registers == PlainRun(s.registers, rounds[..k])
  }

  lemma RunNext(s: State, rounds: seq<Round>, k: nat)
    requires k < |rounds|
    ensures var round := rounds[k];
      && Run(s, rounds[..k + 1]) == Step(Run(s, rounds[..k]), round.command, round.wish).state
      && PlainRun(s.registers, rounds[..k + 1]) ==
         PlainStep(PlainRun(s.registers, rounds[..k]), round.command, round.wish)
  {
    assert rounds[..k + 1][..k] == rounds[..k];
  }

  lemma RoundIsPlainIff(s: State, rounds: seq<Round>, k: nat)
    requires k < |rounds| && PlainUpTo(s, rounds, k)
    ensures PlainUpTo(s, rounds, k + 1) <==> Sound(Run(s, rounds[..k]), rounds[k])
  {
    var before := Run(s, rounds[..k]);
    RunNext(s, rounds, k);
    CoherentIff(before, rounds[k].command, rounds[k].wish);
    StepIsPlainIff(before, rounds[k].command, rounds[k].wish);
  }

  ghost predicate SoundRun(s: State, rounds: seq<Round>) {
    forall k: nat | k < |rounds| :: Sound(Run(s, rounds[..k]), rounds[k])
  }

  lemma {:induction false} SoundRunIsPlain(s: State, rounds: seq<Round>, n: nat)
    requires Coherent(s) && n <= |rounds| && SoundRun(s, rounds)
    ensures PlainUpTo(s, rounds, n)
  {
    if n == 0 {
      assert rounds[..0] == [];
    } else {
      SoundRunIsPlain(s, rounds, n - 1);
      RoundIsPlainIff(s, rounds, n - 1);
    }
  }

  /** Over every run, of any writes and answers: the shadows equal the registers all the time, and the registers
      are all the time as if no write had been skipped, if and only if every round is sound. */
  lemma RunIsPlainIff(s: State, rounds: seq<Round>)
    requires Coherent(s)
    ensures (forall k: nat | k <= |rounds| :: PlainUpTo(s, rounds, k)) <==> SoundRun(s, rounds)
  {
    if SoundRun(s, rounds) {
      forall k: nat | k <= |rounds|
        ensures PlainUpTo(s, rounds, k)
      {
        SoundRunIsPlain(s, rounds, k);
      }
    } else {
      var k: nat :| k < |rounds| && !Sound(Run(s, rounds[..k]), rounds[k]);
      if PlainUpTo(s, rounds, k) {
        RoundIsPlainIff(s, rounds, k);
      }
    }
  }

  /** How the motors use the controller: some registers are always written with the shadow and to one slave,
      the others never; a write with the shadow does not lose its answer after it was applied. */
  ghost predicate Disciplined(shadowed: set<Register>, round: Round) {
    var c := round.command;
    && (forall r: Register | Hits(c, r) :: r in shadowed <==> UsesShadow(c))
    && (UsesShadow(c) ==> c.slave != 0 && (c.Write32? ==> c.first < 0xFFFF) && round.wish != LostApplied)
  }

  ghost predicate Shadows(shadowed: set<Register>, s: State) {
    forall r: Register | r.slave != 0 && KeyOf(r) in s.shadow :: r in shadowed
  }

  lemma DisciplinedIsSound(shadowed: set<Register>, s: State, round: Round)
    requires Coherent(s) && Shadows(shadowed, s) && Disciplined(shadowed, round)
    ensures Sound(s, round) && Shadows(shadowed, Step(s, round.command, round.wish).state)
  {
    var c, wish := round.command, round.wish;
    forall r | Carries(s, c, r)
      ensures Hits(c, r)
    {
    }
    forall r: Register | r.slave != 0 && KeyOf(r) in Step(s, c, wish).state.shadow
      ensures r in shadowed
    {
      ShadowAfter(s, c, wish, r);
    }
  }

  /** Every disciplined run is sound, so the shadows equal the registers, and the registers end as if no write
      had been skipped. */
  lemma {:induction false} RunIsPlain(shadowed: set<Register>, s: State, rounds: seq<Round>, n: nat)
    requires Coherent(s) && Shadows(shadowed, s) && n <= |rounds|
    requires forall i | 0 <= i < |rounds| :: Disciplined(shadowed, rounds[i])
    ensures PlainUpTo(s, rounds, n) && Shadows(shadowed, Run(s, rounds[..n]))
  {
    if n == 0 {
      assert rounds[..0] == [];
    } else {
      RunIsPlain(shadowed, s, rounds, n - 1);
      DisciplinedIsSound(shadowed, Run(s, rounds[..n - 1]), rounds[n - 1]);
      RoundIsPlainIff(s, rounds, n - 1);
      RunNext(s, rounds, n - 1);
    }
  }

  // ------------------------------------------------------------ what a successful write means

  /** A write to one slave that succeeds leaves its words in the registers; one that fails without having
      been applied changes nothing. */
  lemma SuccessMeansWritten(s: State, c: Command, wish: Reply)
    requires Coherent(s) && c.slave != 0
    ensures var o := Step(s, c, wish);
            if o.ok then forall r: Register | Hits(c, r) ::
                r in o.state.registers && o.state.registers[r] == WordsOf(c)[r.address - c.first]
            else wish != LostApplied ==> o.state == s
  {
    var o := Step(s, c, wish);
    if o.ok {
      forall r: Register | Hits(c, r)
        ensures r in o.state.registers && o.state.registers[r] == WordsOf(c)[r.address - c.first]
      {
        ArrivedAt(s, c, wish, r);
        OkMeansThere(s, c, wish, r);
      }
    }
  }

  /** The high word of a 32-bit value is in the first of its two registers. */
  lemma HighWordFirst(s: State, c: Command, wish: Reply)
    requires Coherent(s) && c.slave != 0 && c.Write32? && c.first < 0xFFFF && Step(s, c, wish).ok
    ensures var after := Step(s, c, wish).state.registers;
      var h, l := Register(c.slave, c.first), Register(c.slave, c.first + 1);
      h in after && l in after && c.wide == after[h] as int * 0x1_0000 + after[l]
  {
    SuccessMeansWritten(s, c, wish);
    var h, l := Register(c.slave, c.first), Register(c.slave, c.first + 1);
    assert Hits(c, h) && Hits(c, l);
  }

  /** Success means that the word is sent and arrives, or that it is there already. */
  lemma OkMeansThere(s: State, c: Command, wish: Reply, r: Register)
    requires Coherent(s) && c.slave != 0 && Step(s, c, wish).ok && Hits(c, r)
    ensures var word := WordsOf(c)[r.address - c.first];
      if Carries(s, c, r) then Arrives(s, c, wish) && Carried(s, c, r) == word
      else r in s.registers && s.registers[r] == word
  {
  }

  /** A later write has no word for a register of c: not directly, and not for register 0 by way of the last
      address. */
  ghost predicate Apart(c: Command, d: Command) {
    forall r: Register | Hits(c, r) ::
      !Hits(d, r) && !(d.Write32? && d.useShadow && d.first == 0xFFFF && Hit(d.slave, 0, 1, r))
  }

  /** readU32 gives the last 32-bit value that was written to its registers, whatever other writes follow. */
  lemma ReadsLastWritten(s: State, c: Command, wish: Reply, rounds: seq<Round>)
    requires Coherent(s) && c.Write32? && c.slave != 0 && c.first < 0xFFFF && Step(s, c, wish).ok
    requires forall i | 0 <= i < |rounds| :: Apart(c, rounds[i].command)
    ensures WordsAt(Run(Step(s, c, wish).state, rounds), c.slave, c.first) == Some(c.wide)
  {
    SuccessMeansWritten(s, c, wish);
    var h, l := Register(c.slave, c.first), Register(c.slave, c.first + 1);
    assert Hits(c, h) && Hits(c, l);
    StaysWritten(Step(s, c, wish).state, c, rounds, h, l);
  }

  lemma StaysWritten(written: State, c: Command, rounds: seq<Round>, h: Register, l: Register)
    requires c.Write32? && c.first < 0xFFFF && h == Register(c.slave, c.first) && l == Register(c.slave, c.first + 1)
    requires h in written.registers && written.registers[h] == High(c.wide)
    requires l in written.registers && written.registers[l] == Low(c.wide)
    requires forall i | 0 <= i < |rounds| :: Apart(c, rounds[i].command)
    ensures WordsAt(Run(written, rounds), c.slave, c.first) == Some(c.wide)
  {
    Untouched(written, rounds, c, h);
    Untouched(written, rounds, c, l);
    ReadsWords(Run(written, rounds), c.slave, c.first, c.wide);
  }

  lemma ReadsWords(s: State, slave: u16, first: u16, data: u32)
    requires first < 0xFFFF
    requires var h, l := Register(slave, first), Register(slave, first + 1);
             h in s.registers && l in s.registers && s.registers[h] == High(data) && s.registers[l] == Low(data)
    ensures WordsAt(s, slave, first) == Some(data)
  {
    CompleteWords(s.registers, slave, first);
    assert Wide(High(data), Low(data)) == data;
  }

  lemma {:induction false} Untouched(s: State, rounds: seq<Round>, c: Command, r: Register)
    requires r in s.registers && Hits(c, r) && forall i | 0 <= i < |rounds| :: Apart(c, rounds[i].command)
    ensures var end := Run(s, rounds).registers; r in end && end[r] == s.registers[r]
  {
    if rounds != [] {
      var front, last := rounds[..|rounds| - 1], rounds[|rounds| - 1];
      Untouched(s, front, c, r);
      NotCarried(Run(s, front), c, last.command, r);
      ArrivedAt(Run(s, front), last.command, last.wish, r);
    }
  }

  lemma NotCarried(s: State, c: Command, d: Command, r: Register)
    requires Hits(c, r) && Apart(c, d)
    ensures !Carries(s, d, r)
  {
  }

  /** Writing a value with the shadow a second time does not use the bus at all: whatever the bus would
      answer, it succeeds and nothing changes. A 16-bit broadcast must have been answered for that. */
  lemma SecondWriteIsSkipped(s: State, c: Command, wish: Reply, other: Reply)
    requires UsesShadow(c) && Step(s, c, wish).ok
    requires c.Write16? && c.slave == 0 ==> wish == Done || Sent(s, c).Silent?
    ensures var after := Step(s, c, wish).state;
            Step(after, c, other) == Outcome(after, true)
  {
    var h, after := Register(c.slave, c.first), Step(s, c, wish).state;
    if c.Write16? {
      WithShadowChanges(s, h, c.data, h);
    } else {
      var l := Register(c.slave, Next(c.first));
      WithShadowChanges(s, h, High(c.wide), l);
      WithShadowChanges(s, l, Low(c.wide), h);
      WithShadowChanges(WithShadow(s, h, High(c.wide)), l, Low(c.wide), h);
    }
  }

  // ------------------------------------------------------------ where the shadows mislead

  /** A lost answer: the slave took 2, the write failed, and writing 1 again is skipped. */
  lemma LostAnswerMisleads()
    ensures var r := Register(3, 0);
            var first := Step(State(map[r := 0], map[]), Write16(3, 0, 1, true), Done);
            var second := Step(first.state, Write16(3, 0, 2, true), LostApplied);
            var third := Step(second.state, Write16(3, 0, 1, true), Done);
            third.ok && third.state.registers == map[r := 2]
  {
  }

  /** A broadcast does not update the shadows of the slaves: writing 1 to the slave again is skipped. */
  lemma BroadcastMisleads()
    ensures var r := Register(3, 0);
            var first := Step(State(map[r := 0], map[]), Write16(3, 0, 1, true), Done);
            var second := Step(first.state, Write16(0, 0, 2, false), LostApplied);
            var third := Step(second.state, Write16(3, 0, 1, true), Done);
            second.ok && third.ok && third.state.registers == map[r := 2]
  {
  }

  /** A write to one slave does not update the shadow of a broadcast: repeating the broadcast is skipped. */
  lemma RepeatedBroadcastIsSkipped()
    ensures var r := Register(3, 0);
            var first := Step(State(map[r := 0], map[]), Write16(0, 0, 1, true), Done);
            var second := Step(first.state, Write16(3, 0, 2, false), Done);
            var third := Step(second.state, Write16(0, 0, 1, true), Done);
            third.ok && third.state.registers == map[r := 2]
            && PlainStep(second.state.registers, Write16(0, 0, 1, true), Done) == map[r := 1]
  {
  }

  /** At the last address the low word wraps to register 0: a slave refuses the two words together, but when
      the high word is shadowed the low one is written there. */
  lemma LastAddressWraps()
    ensures var h, l := Register(3, 0xFFFF), Register(3, 0);
            var s := State(map[h := 1, l := 0], map[KeyOf(h) := 1]);
            var c := Write32(3, 0xFFFF, 0x1_0002, true);
            && Step(s, c, Done).state.registers == map[h := 1, l := 2]
            && PlainStep(s.registers, c, Done) == s.registers
  {
  }
}
