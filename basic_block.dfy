/** A basic block: a name, an owned ordered instruction list, and the
    predecessor and successor sets the CFG builder maintains. Blocks are
    referred to by their index in the owning function's block list. */
module BasicBlocks {
  import opened Instructions

  /** An instruction as its constructor leaves it: a jump's block references
      are all still null. */
  predicate AsConstructed(i: Instruction) {
    match i.shape
    case JumpShape(_, t, p) => t.None? && p.None?
    case CondJumpShape(_, _, _, t, f, p) => t.None? && f.None? && p.None?
    case _ => true
  }

  /** Every instruction of the block is a distinct object. */
  predicate UniqueIds(s: seq<Instruction>) {
    forall a, b :: 0 <= a < b < |s| ==> s[a].id != s[b].id
  }

  class BasicBlock {
    const name: string
    var instructions: seq<Instruction>
    var preds: set<nat>
    var succs: set<nat>

    /** A new block has the given name, no instructions and no edges. */
    constructor (nm: string)
      ensures name == nm && instructions == [] && preds == {} && succs == {}
    {
      name := nm;
      instructions := [];
      preds := {};
      succs := {};
    }

    /** Constructs an instruction in place and appends it: exactly one new
        instruction at the end, the earlier ones unchanged and in order. The
        instruction is a new object, so its identity is not yet in the block,
        and distinct identities stay distinct. */
    method CreateInstr(i: Instruction) returns (r: Instruction)
      requires AsConstructed(i)
      requires forall j :: j in instructions ==> j.id != i.id
      modifies this`instructions
      ensures instructions == old(instructions) + [i] && r == i
      ensures UniqueIds(old(instructions)) ==> UniqueIds(instructions)
      ensures |instructions| == |old(instructions)| + 1 && instructions[|instructions| - 1] == r
      ensures instructions[..|old(instructions)|] == old(instructions)
    {
      instructions := instructions + [i];
      r := i;
    }

    method ClearPredecessors()
      modifies this`preds
      ensures preds == {}
    {
      preds := {};
    }

    method ClearSuccessors()
      modifies this`succs
      ensures succs == {}
    {
      succs := {};
    }

    method AddSuccessor(s: nat)
      modifies this`succs
      ensures succs == old(succs) + {s}
    {
      succs := succs + {s};
    }

    method AddPredecessor(p: nat)
      modifies this`preds
      ensures preds == old(preds) + {p}
    {
      preds := preds + {p};
    }
  }
}
