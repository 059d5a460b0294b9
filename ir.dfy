/**
 * The part of an LLVM module the three passes look at: the module's name and,
 * in order, each function's name and the three facts that make a pass skip
 * it.  Instructions, blocks and globals are not represented; what a pass
 * would insert into a function is recorded per function by each pass.
 */
module IR {

  datatype Function = Function(
    name: string,
    isDeclaration: bool,  // F.isDeclaration()
    isIntrinsic: bool,    // F.isIntrinsic()
    isEmpty: bool         // F.empty(): no basic blocks
  )

  datatype Module = Module(name: string, functions: seq<Function>)

  /** A function the passes may instrument: not a declaration, not an
      intrinsic and not empty. */
  predicate Instrumentable(f: Function)
  {
    !f.isDeclaration && !f.isIntrinsic && !f.isEmpty
  }
}
