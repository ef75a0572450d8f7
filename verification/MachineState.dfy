/** Register files of abstract machine code: reading and writing the registers of an instruction. */
module MachineState {
  import opened Liveness

  function Get(regs: map<Reg, int>, r: Reg): int {
    if r in regs then regs[r] else 0
  }

  function ReadAll(regs: map<Reg, int>, uses: seq<Reg>): seq<int> {
    seq(|uses|, k requires 0 <= k < |uses| => Get(regs, uses[k]))
  }

  function WriteAll(regs: map<Reg, int>, defs: seq<Reg>, vals: seq<int>): map<Reg, int> {
    if defs == [] then regs
    else
      var n := |defs| - 1;
      WriteAll(regs, defs[..n], vals)[defs[n] := if n < |vals| then vals[n] else 0]
  }
}
