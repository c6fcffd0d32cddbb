/** Failure values for the assembler. The Rust code aborts with a panic
    (`unwrap` on a missing key or capture, `unreachable!`, `u8` overflow
    in a debug build); this model returns one of the errors below instead. */
module Outcomes {

  datatype Option<+T> = None | Some(value: T)

  datatype Error =
    | UnknownInstruction(line: string)   // `unreachable!("Unknown Instruction")` in discern or assemble
    | InvalidOperandA                    // `unreachable!("Invalid Operand A")`
    | InvalidOperandB                    // `unreachable!("Invalid Operand B")`
    | PcOverflow                         // `*pc += n` past 255 on the `u8` program counter
    | MissingKey(key: string)            // `.get(..).unwrap()` on one of the code tables
    | BadMnemonic(mnemonic: string)      // slicing or `chars().nth(0).unwrap()` on a too-short mnemonic
    | MissingSymbol(name: string)        // only raised by the symbol-resolving encoder (an addition)

  datatype Result<+T> = Ok(value: T) | Fail(error: Error)
}
