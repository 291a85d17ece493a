/** Scratch words: their addresses are drawn at random from the range the blocks are allocated in. */
module FeistelScratch {
  import opened FeistelSpace
  import opened FeistelBlocks

  /** The addresses that can be drawn for `words` words: steps of that size from the start of the range. */
  function Pick(words: nat, k: nat): nat {
    COUNTER + 4 * (words * k)
  }

  ghost predicate Overlap(a: nat, words: nat, block: nat) {
    a < block + 4 && block < a + 4 * words
  }

  /** Words drawn at random overlap a block exactly when one of them is the block. */
  lemma {:induction false} RandomWordsMeetBlocks(owner: Owner, lists: seq<seq<nat>>, next: nat, words: nat, k: nat,
      t: nat, i: nat)
    requires AllOwned(owner, lists, next) && t < |lists| && i < |lists[t]|
    ensures Overlap(Pick(words, k), words, lists[t][i]) <==> lists[t][i] in Run(Pick(words, k), words)
  {
    assert Owned(owner, lists[t], t);
    var a, b := Pick(words, k), lists[t][i];
    var steps := words * k;
    assert b == COUNTER + 4 + 4 * ((b - START) / 4);
    if Overlap(a, words, b) {
      var j := 1 + (b - START) / 4 - steps;
      assert b == a + 4 * j;
      assert Run(a, words)[j] == b;
    }
  }

  /** Every block can be drawn, and so can the loop counter. */
  lemma {:induction false} EveryBlockCanBeDrawn(owner: Owner, lists: seq<seq<nat>>, next: nat, t: nat, i: nat)
    requires AllOwned(owner, lists, next) && next <= END && t < |lists| && i < |lists[t]|
    ensures exists k :: Pick(1, k) == lists[t][i] && Pick(1, k) < END
    ensures Pick(1, 0) == COUNTER
  {
    assert Owned(owner, lists[t], t);
    var b := lists[t][i];
    var k := 1 + (b - START) / 4;
    assert Pick(1, k) == b;
  }
}
