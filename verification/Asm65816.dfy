/** The assembly statements the width lint reads, and the labels as the lint resolves them. */
module Asm65816 {
  import opened Octets

  datatype Width = Eight | Sixteen {
    function Size(): nat { if Eight? then 1 else 2 }
  }

  /** Runtime widths of the accumulator and of the index registers. */
  datatype Widths = Widths(a: Width, i: Width)

  datatype Register = RegA | RegX | RegY | RegP | RegB | RegD | RawWord

  /** Operand of a jump, branch or call. An anonymous target counts labels
      forwards or backwards; counts zero and one both mean the nearest. */
  datatype Target = Named(name: string) | Forward(count: nat) | Backward(count: nat)

  /** What an instruction inside the expansion of a macro has to do with widths, stack and calls. */
  datatype Part =
    | Immediate(indexed: bool)                              // lda #, ldx #, ...
    | Switch(newA: Option<Width>, newI: Option<Width>)      // m8, i16, ...: the machine and the assembler
    | Declare(newA: Option<Width>, newI: Option<Width>)     // .a8, .i16, ...: the assembler alone
    | Touch(indexed: bool, symbol: string, offset: nat)     // direct memory operand, A or X/Y wide
    | Enter(abi: Widths)                                    // jsr or jsl of a procedure with these widths
    | Pushed(from: Register)
    | Taken(into: Register)
    | Restored                                              // plp

  /** How control leaves an expansion: behind it, by a jump, or by rts or rtl. Anonymous targets count
      from the ends of the expansion. */
  datatype End = Onward | Away(to: Target) | Back(far: bool)

  /** One way through an expansion. */
  datatype Path = Path(parts: seq<Part>, end: End)

  /** `Macro` stands for a macro that the lint takes for a plain statement or, if `terminal`, for the end of
      control flow. Control takes one of `paths` through its expansion; `entries` are the paths from each
      anonymous label inside it, in order. */
  datatype Op =
    | Label(name: string)                                   // "" is the anonymous label
    | WidthMacro(newA: Option<Width>, newI: Option<Width>)  // m8, i16, mi8, enterNativeM8I16, ...
    | Directive(newA: Option<Width>, newI: Option<Width>)   // .a8, .i16, ...
    | AssertWidths(expected: Widths)                        // assert_m8_i16, ...
    | StatusImmediate(sets: bool, mask: Option<bv8>)         // bare rep/sep; None: not a literal octet
    | Push(from: Register)                                  // pha .. phd; pea, pei and per push RawWord
    | Pull(into: Register)                                  // pla, plx, ply, plb, pld
    | PullStatus                                            // plp, plp_interrupt
    | PullStatusAs(restored: Widths)                        // plp_m8_i8, ...
    | AccumulatorImmediate
    | IndexImmediate
    | Access(indexed: bool, symbol: string, offset: nat)    // direct memory operand, A or X/Y wide
    | Increment32(symbol: string, offset: nat)              // inc32: switches to a 16-bit accumulator
    | PushProgramBank                                       // phk
    | Call(far: bool, callee: Target)                       // jsr / jsl
    | Return(far: bool)                                     // rts / rtl
    | InterruptReturn                                       // rti
    | Halt                                                  // stp
    | Jump(to: Target)
    | Branch(to: Target)
    | Macro(terminal: bool, paths: seq<Path>, entries: seq<seq<Path>>)
    | Plain                                                 // an instruction without effect on widths or stack

  /** `encoded` are the widths the assembler encodes immediates with where the statement stands. */
  datatype Statement = Statement(op: Op, encoded: Widths)

  /** One procedure and its surroundings. An interrupt procedure has no return ABI. */
  datatype Procedure = Procedure(
    statements: seq<Statement>,
    returnAbi: Option<Widths>,
    abis: map<string, Widths>,
    allocations: map<string, nat>)

  predicate IsAnonymous(p: Procedure, k: nat)
    requires k < |p.statements|
  {
    p.statements[k].op == Label("")
  }

  /** Index of the `n`-th anonymous label at or after `k`, counting from zero. */
  function AnonymousFrom(p: Procedure, k: nat, n: nat): (r: Option<nat>)
    ensures r.Some? ==> k <= r.value < |p.statements| && IsAnonymous(p, r.value)
    decreases |p.statements| - k
  {
    if k >= |p.statements| then None
    else if !IsAnonymous(p, k) then AnonymousFrom(p, k + 1, n)
    else if n == 0 then Some(k)
    else AnonymousFrom(p, k + 1, n - 1)
  }

  /** Index of the `n`-th anonymous label before `k`, nearest first. */
  function AnonymousBefore(p: Procedure, k: nat, n: nat): (r: Option<nat>)
    requires k <= |p.statements|
    ensures r.Some? ==> r.value < k && IsAnonymous(p, r.value)
  {
    if k == 0 then None
    else if !IsAnonymous(p, k - 1) then AnonymousBefore(p, k - 1, n)
    else if n == 0 then Some(k - 1)
    else AnonymousBefore(p, k - 1, n - 1)
  }

  /** A name declared twice denotes its last declaration, as in the label map. */
  function LastLabel(p: Procedure, name: string, k: nat): (r: Option<nat>)
    requires k <= |p.statements|
    ensures r.Some? ==> r.value < k && p.statements[r.value].op == Label(name)
    ensures r.None? ==> forall j | 0 <= j < k :: p.statements[j].op != Label(name)
  {
    if k == 0 then None
    else if p.statements[k - 1].op == Label(name) then Some(k - 1)
    else LastLabel(p, name, k - 1)
  }

  function Resolve(p: Procedure, k: nat, target: Target): (r: Option<nat>)
    requires k < |p.statements|
    ensures r.Some? ==> r.value < |p.statements| && p.statements[r.value].op.Label?
  {
    match target
    case Named(name) => if name == "" then None else LastLabel(p, name, |p.statements|)
    case Forward(n) => AnonymousFrom(p, k + 1, if n == 0 then 0 else n - 1)
    case Backward(n) => AnonymousBefore(p, k, if n == 0 then 0 else n - 1)
  }
}
