/**
  Classic BPF as far as the monitor needs it: load a packet word, mask it,
  compare and jump forward, return.
  */
module SocketFilter {
  datatype Ins =
    | Unset
    | LdAbs(offset: nat)                  // LD W ABS
    | And(mask: bv32)                     // ALU AND K
    | Jeq(value: bv32, jt: nat, jf: nat)  // JMP JEQ K; the targets are bytes
    | Ret(length: bv32)                   // RET K

  /** The 32-bit words of a packet, in host order, by their offset. */
  type Packet = map<nat, bv32>

  datatype Outcome = Fault | Returned(length: bv32)

  const PASS: bv32 := 0xffff_ffff
  const DROP: bv32 := 0

  function Mask(a: bv32, m: bv32): bv32 { a & m }

  /** Runs a program from instruction `pc` with accumulator `acc`; a load outside the packet drops it. */
  function Exec(prog: seq<Ins>, packet: Packet, pc: nat, acc: bv32): Outcome
    decreases |prog| - pc
  {
    if pc >= |prog| then Fault else
      match prog[pc]
      case Unset => Fault
      case LdAbs(k) => if k in packet then Exec(prog, packet, pc + 1, packet[k]) else Returned(DROP)
      case And(m) => Exec(prog, packet, pc + 1, Mask(acc, m))
      case Jeq(v, jt, jf) => Exec(prog, packet, pc + 1 + (if acc == v then jt else jf), acc)
      case Ret(n) => Returned(n)
  }
}
