/** What the detectors report, the excerpt cap, and the selection loop that the
    switch/case and if/else-if detectors share. */
module Findings {

  /** The four detectors that report a count with an excerpt; each kind
      stands for the label its findings carry ("Long switch-case",
      "Long method", "Deep nesting", "Long if-else chain"). */
  datatype Kind = LongSwitchCase | LongMethod | DeepNesting | LongIfElseChain

  /** One reported smell: its kind, its metric (a case count, a line count, a
      1-based line number or an else-if count) and a text excerpt. */
  datatype Finding = Finding(kind: Kind, metric: nat, excerpt: string)

  /** A distinct numeric literal reported by the magic number detector; it is
      printed with the label "Magic number" and carries no excerpt. */
  datatype MagicNumber = MagicNumber(literal: string)

  const EXCERPT_LIMIT: nat := 200

  /** `block[:200]`: the first 200 characters of a matched block, or all of it
      when it is shorter. */
  function Excerpt(block: string): (r: string)
    ensures |r| <= EXCERPT_LIMIT && |r| <= |block| && r == block[..|r|]
    ensures |r| == EXCERPT_LIMIT || r == block
  {
    if |block| <= EXCERPT_LIMIT then block else block[..EXCERPT_LIMIT]
  }

  /** The findings of one pass over `blocks` that reports each block whose
      `count` reaches `threshold`, with that count and the block's excerpt. */
  function FlagBlocks(kind: Kind, blocks: seq<string>, count: string -> nat, threshold: int): seq<Finding>
    decreases |blocks|
  {
    if blocks == [] then []
    else
      var b := blocks[|blocks| - 1];
      FlagBlocks(kind, blocks[..|blocks| - 1], count, threshold)
        + if count(b) >= threshold then [Finding(kind, count(b), Excerpt(b))] else []
  }

  /** A block is reported exactly when its count reaches the threshold, with
      that count as metric and its excerpt; each block yields at most one
      finding. */
  lemma {:induction false} FlagBlocksSpec(kind: Kind, blocks: seq<string>, count: string -> nat, threshold: int)
    ensures |FlagBlocks(kind, blocks, count, threshold)| <= |blocks|
    ensures forall f :: f in FlagBlocks(kind, blocks, count, threshold) ==>
              exists b :: b in blocks && count(b) >= threshold && f == Finding(kind, count(b), Excerpt(b))
    ensures forall b :: b in blocks && count(b) >= threshold ==>
              Finding(kind, count(b), Excerpt(b)) in FlagBlocks(kind, blocks, count, threshold)
    decreases |blocks|
  {
    if blocks != [] {
      var init := blocks[..|blocks| - 1];
      FlagBlocksSpec(kind, init, count, threshold);
      assert blocks == init + [blocks[|blocks| - 1]];
    }
  }

  /** One more block extends the findings by that block's finding, if any. */
  lemma FlagBlocksStep(kind: Kind, blocks: seq<string>, count: string -> nat, threshold: int, i: nat)
    requires i < |blocks|
    ensures FlagBlocks(kind, blocks[..i + 1], count, threshold)
            == FlagBlocks(kind, blocks[..i], count, threshold)
               + if count(blocks[i]) >= threshold then [Finding(kind, count(blocks[i]), Excerpt(blocks[i]))] else []
  {
    assert blocks[..i + 1][..i] == blocks[..i];
  }
}
