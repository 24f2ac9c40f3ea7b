/** restrictor.py: split the input text into newline-separated pieces, keep
    every stride-th piece from the first (stride = pieces // 100 + 1) and
    join the kept pieces with newlines. Reading and writing the files is
    not modelled; `text` is what was read and the result is what is written. */
module Restrictor {
  import opened Text
  import opened Sampling

  /** The approximate number of pieces to keep. */
  const Target: nat := 100

  /** The kept pieces (`nodes_100`): the ceiling of pieces / stride of them,
      so at least one and at most `Target`; the first piece is always among
      them, and piece i of the sample is piece i * stride of the input. */
  function Sample(text: string): (sample: seq<string>)
    ensures var nodes := SplitOn(text, '\n');
            var step := Stride(|nodes|, Target);
            && |sample| == CeilDiv(|nodes|, step)
            && 1 <= |sample| <= Target
            && sample[0] == nodes[0]
            && forall i :: 0 <= i < |sample| ==> i * step < |nodes| && sample[i] == nodes[i * step]
  {
    var nodes := SplitOn(text, '\n');
    SliceWithinTarget(nodes, 0, Target);
    Slice(nodes, 0, Stride(|nodes|, Target))
  }

  /** Slicing newline-free pieces keeps them newline-free. */
  lemma SliceNoNewline(nodes: seq<string>, step: nat)
    requires step >= 1
    requires forall i :: 0 <= i < |nodes| ==> '\n' !in nodes[i]
    ensures forall i :: 0 <= i < |Slice(nodes, 0, step)| ==> '\n' !in Slice(nodes, 0, step)[i]
  {
    var sample := Slice(nodes, 0, step);
    forall i | 0 <= i < |sample| ensures '\n' !in sample[i] {
      assert sample[i] == nodes[0 + i * step];
    }
  }

  /** No kept piece holds a newline. */
  lemma NoNewlineInSample(text: string)
    ensures forall i :: 0 <= i < |Sample(text)| ==> '\n' !in Sample(text)[i]
  {
    var nodes := SplitOn(text, '\n');
    SliceNoNewline(nodes, Stride(|nodes|, Target));
  }

  /** The text written out. Since no piece holds a newline, it has exactly
      one newline fewer than the sample has pieces. */
  function RestrictorOutput(text: string): (out: string)
    ensures Count(out, '\n') == |Sample(text)| - 1
  {
    var sample := Sample(text);
    NoNewlineInSample(text);
    CountJoin(sample, '\n');
    Join(sample, '\n')
  }

  /** The written text splits on newlines back into exactly the kept pieces. */
  lemma OutputSplitsToSample(text: string)
    ensures SplitOn(RestrictorOutput(text), '\n') == Sample(text)
  {
    NoNewlineInSample(text);
    SplitOnJoin(Sample(text), '\n');
  }

  /** With fewer than `Target` pieces the stride is 1 and joining undoes
      splitting, so the output is the input unchanged. */
  lemma ShortInputUnchanged(text: string)
    requires |SplitOn(text, '\n')| < Target
    ensures RestrictorOutput(text) == text
  {
    var nodes := SplitOn(text, '\n');
    assert Stride(|nodes|, Target) == 1;
    SliceUnitStride(nodes);
    JoinSplitOn(text, '\n');
  }

  /** With `Target` pieces or more the stride is at least 2, pieces are
      dropped and the output has fewer newlines than the input. */
  lemma LongInputShrinks(text: string)
    requires |SplitOn(text, '\n')| >= Target
    ensures Count(RestrictorOutput(text), '\n') < Count(text, '\n')
  {
    var nodes := SplitOn(text, '\n');
    var n := |nodes|;
    var step := Stride(n, Target);
    assert step >= 2;
    MultipleOfStride(n - 1, step);
    SliceAtMost(nodes, 0, step, n - 1);
    var sample := Slice(nodes, 0, step);
    assert |Sample(text)| == |sample| <= n - 1;
  }

  /** The output is the input unchanged exactly when the input has fewer
      than `Target` pieces. */
  lemma OutputUnchangedIff(text: string)
    ensures RestrictorOutput(text) == text <==> |SplitOn(text, '\n')| < Target
  {
    if |SplitOn(text, '\n')| < Target {
      ShortInputUnchanged(text);
    } else {
      LongInputShrinks(text);
    }
  }
}
