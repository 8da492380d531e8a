/** List helpers shared by the stages. */
module Lists {

  /** `[x for xs in nested for x in xs]`: the lists one after another. */
  function Flatten<T(!new)>(nested: seq<seq<T>>): (r: seq<T>)
    ensures forall x :: x in r <==> exists i :: 0 <= i < |nested| && x in nested[i]
  {
    if |nested| == 0 then []
    else
      Flatten(nested[..|nested| - 1]) + nested[|nested| - 1]
  }

  /** Flattening distributes over concatenation of the outer list. */
  lemma {:induction false} FlattenAppend<T(!new)>(a: seq<seq<T>>, b: seq<seq<T>>)
    ensures Flatten(a + b) == Flatten(a) + Flatten(b)
    decreases |b|
  {
    if |b| == 0 {
      assert a + b == a;
    } else {
      assert (a + b)[..|a + b| - 1] == a + b[..|b| - 1];
      FlattenAppend(a, b[..|b| - 1]);
    }
  }

  /** The length of the flattened list is the sum of the inner lengths. */
  function TotalLength<T>(nested: seq<seq<T>>): nat
  {
    if |nested| == 0 then 0 else TotalLength(nested[..|nested| - 1]) + |nested[|nested| - 1]|
  }

  lemma {:induction false} FlattenLength<T(!new)>(nested: seq<seq<T>>)
    ensures |Flatten(nested)| == TotalLength(nested)
  {
    if |nested| > 0 { FlattenLength(nested[..|nested| - 1]); }
  }

  /** Every list of lists flattened, one for one: what `doc_to_toks` and
      `doc_to_entities` do to each source's nested lists. */
  function FlattenEach<T(!new)>(nesteds: seq<seq<seq<T>>>): (r: seq<seq<T>>)
    ensures |r| == |nesteds| && forall c :: 0 <= c < |nesteds| ==> r[c] == Flatten(nesteds[c])
  {
    seq(|nesteds|, c requires 0 <= c < |nesteds| => Flatten(nesteds[c]))
  }
}
