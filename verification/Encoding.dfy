/** The stream of 8-byte slots a function is encoded into, and where a branch's displacement leads in it. */
module Encoding {
  import opened Wrappers
  import opened Machine
  import opened Layout

  /** A slot that holds (part of) an instruction of a block. */
  datatype Slot = Slot(block: Block, index: nat)

  /** An operation takes the slots it reports, any other instruction one. */
  function Emitted(b: Block, i: nat, instr: Instr): seq<Slot> {
    match instr
    case Op(_, slots) => seq(slots, _ => Slot(b, i))
    case Cond(_, _) => [Slot(b, i)]
    case Jump(_) => [Slot(b, i)]
    case Ret => [Slot(b, i)]
    case Call(_) => [Slot(b, i)]
  }

  function BodyStream(b: Block, body: seq<Instr>): seq<Slot> {
    if body == [] then []
    else BodyStream(b, body[..|body| - 1]) + Emitted(b, |body| - 1, body[|body| - 1])
  }

  /** The first `k` blocks of the layout, encoded. */
  function Stream(p: Program, k: nat): seq<Slot>
    requires k <= |p.layout| && forall b :: b in p.layout ==> b in p.code
  {
    if k == 0 then [] else Stream(p, k - 1) + BodyStream(p.layout[k - 1], p.code[p.layout[k - 1]])
  }

  lemma {:induction false} BodyStreamLength(b: Block, body: seq<Instr>)
    ensures |BodyStream(b, body)| == BodySlots(body)
    ensures forall j :: 0 <= j < |BodyStream(b, body)| ==> BodyStream(b, body)[j].block == b
  {
    if body != [] { BodyStreamLength(b, body[..|body| - 1]); }
  }

  /** Instruction `i` starts where the instructions before it end. */
  lemma {:induction false} BodyStreamAt(b: Block, body: seq<Instr>, i: nat)
    requires i < |body| && body[i].IsBranch()
    ensures BodySlots(body[..i]) < |BodyStream(b, body)|
    ensures forall j :: 0 <= j < |BodyStream(b, body)| ==>
        (BodyStream(b, body)[j] == Slot(b, i) <==> j == BodySlots(body[..i]))
    decreases |body|
  {
    var front := body[..|body| - 1];
    BodyStreamLength(b, front);
    BodyStreamIndices(b, front);
    if i < |front| {
      BodyStreamAt(b, front, i);
      assert front[..i] == body[..i];
    }
  }

  lemma {:induction false} BodyStreamIndices(b: Block, body: seq<Instr>)
    ensures forall j :: 0 <= j < |BodyStream(b, body)| ==> BodyStream(b, body)[j].index < |body|
  {
    if body != [] { BodyStreamIndices(b, body[..|body| - 1]); }
  }

  lemma {:induction false} StreamLength(p: Program, k: nat)
    requires LayoutOk(p) && k <= |p.layout|
    ensures |Stream(p, k)| == OffsetAt(p, k)
  {
    if k > 0 {
      StreamLength(p, k - 1);
      BodyStreamLength(p.layout[k - 1], p.code[p.layout[k - 1]]);
    }
  }

  /** The first `j` blocks' slots come first, and the later slots belong to later blocks. */
  lemma {:induction false} StreamSplit(p: Program, j: nat, k: nat, x: nat)
    requires LayoutOk(p) && j <= k <= |p.layout| && x < |Stream(p, k)|
    ensures Stream(p, k)[x].block in p.layout
    ensures var at := Pos(p.layout, Stream(p, k)[x].block);
            at < k && (at < j <==> x < OffsetAt(p, j)) && (x < OffsetAt(p, j) ==> x < |Stream(p, j)|)
    ensures x < OffsetAt(p, j) ==> Stream(p, k)[x] == Stream(p, j)[x]
    decreases k
  {
    StreamLength(p, j);
    StreamLength(p, k);
    if k > 0 {
      StreamLength(p, k - 1);
      var last := p.layout[k - 1];
      BodyStreamLength(last, p.code[last]);
      hide OffsetAt, LayoutOk;
      LastBlock(p, k);
      if x < |Stream(p, k - 1)| { StreamSplit(p, if j < k then j else k - 1, k - 1, x); }
    }
  }

  lemma LastBlock(p: Program, k: nat)
    requires LayoutOk(p) && 0 < k <= |p.layout|
    ensures p.layout[k - 1] in p.code && p.layout[k - 1] in p.layout && Pos(p.layout, p.layout[k - 1]) == k - 1
    ensures forall j :: 0 <= j < k ==> OffsetAt(p, j) <= OffsetAt(p, k - 1)
  {
    PosIs(p.layout, k - 1);
    forall j | 0 <= j < k ensures OffsetAt(p, j) <= OffsetAt(p, k - 1) { OffsetMonotone(p, j, k - 1); }
  }

  /** A branch occupies exactly the slot at its offset, and the slot its displacement leads to is the first one
      that no block laid out before its target owns. */
  lemma BranchInStream(p: Program, b: Block, i: nat)
    requires WellFormed(p) && b in p.code && i < |p.code[b]| && p.code[b][i].IsBranch()
    ensures p.code[b][i].target in p.layout
    ensures var stream := Stream(p, |p.layout|); var at := BranchOffset(p, b, i);
            at < |stream| && forall x :: 0 <= x < |stream| ==> (stream[x] == Slot(b, i) <==> x == at)
    ensures var stream := Stream(p, |p.layout|); var to := BranchOffset(p, b, i) + 1 + Span(p, b, i);
            && 0 <= to <= |stream|
            && forall x :: 0 <= x < |stream| ==>
                 && stream[x].block in p.layout
                 && (x < to <==> Pos(p.layout, stream[x].block) < Pos(p.layout, p.code[b][i].target))
  {
    assert TargetsPlaced(p, p.code[b]);
    var n, stream, target := |p.layout|, Stream(p, |p.layout|), p.code[b][i].target;
    StreamLength(p, n);
    OffsetMonotone(p, Pos(p.layout, target), n);
    forall x: nat | x < |stream|
      ensures stream[x].block in p.layout
      ensures x < Offset(p, target) <==> Pos(p.layout, stream[x].block) < Pos(p.layout, target)
    {
      StreamSplit(p, Pos(p.layout, target), n, x);
    }
    BranchSlot(p, b, i);
  }

  lemma BranchSlot(p: Program, b: Block, i: nat)
    requires LayoutOk(p) && b in p.code && i < |p.code[b]| && p.code[b][i].IsBranch()
    ensures var stream := Stream(p, |p.layout|); var at := BranchOffset(p, b, i);
            at < |stream| && forall x :: 0 <= x < |stream| ==> (stream[x] == Slot(b, i) <==> x == at)
  {
    var n, k, stream := |p.layout|, Pos(p.layout, b), Stream(p, |p.layout|);
    var at, body := BranchOffset(p, b, i), BodyStream(b, p.code[b]);
    StreamLength(p, n);
    StreamLength(p, k);
    StreamLength(p, k + 1);
    OffsetMonotone(p, k + 1, n);
    BodyStreamAt(b, p.code[b], i);
    assert Stream(p, k + 1) == Stream(p, k) + body;
    assert at < |Stream(p, k + 1)| && Stream(p, k + 1)[at] == Slot(b, i);
    forall x: nat | x < |stream| ensures stream[x] == Slot(b, i) <==> x == at {
      StreamSplit(p, k, n, x);
      StreamSplit(p, k + 1, n, x);
      hide LayoutOk, BodyStream, BodySlots;
    }
  }
}
