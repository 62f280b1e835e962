/** A function: a name and append-only lists of parameters, constants and
    basic blocks. The first block is the entry block. */
module Functions {
  import opened Instructions
  import opened BasicBlocks

  class Function {
    const name: string
    var params: seq<Value>
    var constants: seq<Value>
    var blocks: seq<BasicBlock>

    /** Every block is owned once: the list holds distinct objects. */
    ghost predicate Valid()
      reads this
    {
      forall i, j :: 0 <= i < j < |blocks| ==> blocks[i] != blocks[j]
    }

    constructor (nm: string)
      ensures Valid() && name == nm
      ensures params == [] && constants == [] && blocks == []
    {
      name := nm;
      params := [];
      constants := [];
      blocks := [];
    }

    /** Appends one parameter, named `nm`, and returns it. */
    method CreateParam(nm: string) returns (p: Value)
      modifies this`params
      ensures params == old(params) + [p]
      ensures p == Parameter(ParamNo(|old(params)|), nm)
    {
      p := Parameter(ParamNo(|params|), nm);
      params := params + [p];
    }

    /** Appends one new, empty block and returns it; names are not checked for
        uniqueness. The first block created stays the entry block. */
    method CreateBasicBlock(nm: string) returns (b: BasicBlock)
      requires Valid()
      modifies this`blocks
      ensures Valid() && fresh(b)
      ensures blocks == old(blocks) + [b]
      ensures b.name == nm && b.instructions == [] && b.preds == {} && b.succs == {}
      ensures |old(blocks)| > 0 ==> blocks[0] == old(blocks)[0]
    {
      b := new BasicBlock(nm);
      blocks := blocks + [b];
    }

    /** Appends one constant holding `v`, named `nm`, and returns it. */
    method CreateConstant(v: Int32, nm: string) returns (c: Value)
      modifies this`constants
      ensures constants == old(constants) + [c]
      ensures c == Constant(ConstNo(|old(constants)|), v, nm)
    {
      c := Constant(ConstNo(|constants|), v, nm);
      constants := constants + [c];
    }
  }
}
