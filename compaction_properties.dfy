/** What compaction guarantees about a stream: which bytes survive, how the
    quote counter moves, that chunk boundaries do not matter, and that
    compacting twice changes nothing. */
module CompactionProperties {
  import opened Compaction

  /** The quote counter just before `input[i]` is processed. */
  function QuotesBefore(input: seq<Byte>, s: State, i: nat): int
    requires i <= |input|
  {
    Compacted(input[..i], s).state.quotes
  }

  /** The byte the machine compares against when it meets `input[i]`: the
      byte before it, or the carried `last` for the first byte of a chunk. */
  function Previous(input: seq<Byte>, s: State, i: nat): Byte
    requires i < |input|
  {
    if i == 0 then s.last else input[i - 1]
  }

  /** Position `i` is whitespace met outside a string. */
  predicate Dropped(input: seq<Byte>, s: State, i: nat)
    requires i < |input|
  {
    QuotesBefore(input, s, i) == 0 && IsWhitespace(input[i])
  }

  /** The positions that are not dropped, in increasing order. */
  function KeptPositions(input: seq<Byte>, s: State): seq<nat>
    decreases |input|
  {
    if |input| == 0 then []
    else
      var n := |input| - 1;
      KeptPositions(input[..n], s) + (if Dropped(input, s, n) then [] else [n])
  }

  /** Whether a position is dropped is decided by the bytes up to it. */
  lemma DroppedOfPrefix(input: seq<Byte>, s: State, n: nat, j: nat)
    requires j < n <= |input|
    ensures Dropped(input[..n], s, j) == Dropped(input, s, j)
  {
    assert input[..n][..j] == input[..j];
  }

  /** The kept positions are increasing positions of the input, and a
      position is kept exactly when it is not whitespace met outside a string. */
  lemma {:induction false} KeptPositionsAreTheUndropped(input: seq<Byte>, s: State)
    ensures var ks := KeptPositions(input, s);
      && (forall k :: 0 <= k < |ks| ==> ks[k] < |input|)
      && (forall k, l :: 0 <= k < l < |ks| ==> ks[k] < ks[l])
      && (forall i :: 0 <= i < |input| ==> (i in ks <==> !Dropped(input, s, i)))
    decreases |input|
  {
    if |input| > 0 {
      var n := |input| - 1;
      var p := input[..n];
      KeptPositionsAreTheUndropped(p, s);
      var kp := KeptPositions(p, s);
      var ks := KeptPositions(input, s);
      assert ks == kp + (if Dropped(input, s, n) then [] else [n]);
      forall i | 0 <= i < |input|
        ensures i in ks <==> !Dropped(input, s, i)
      {
        if i < n {
          DroppedOfPrefix(input, s, n, i);
          assert i in ks <==> i in kp;
        }
      }
    }
  }

  /** The output is the input with exactly the whitespace met outside strings
      removed: an order-preserving subsequence in which every other byte, in
      particular every byte inside a string, survives unchanged. */
  lemma {:induction false} OutputIsKeptBytes(input: seq<Byte>, s: State)
    ensures var out, ks := Compacted(input, s).output, KeptPositions(input, s);
      && |out| == |ks|
      && (forall k :: 0 <= k < |ks| ==> ks[k] < |input| && out[k] == input[ks[k]])
      && (forall k, l :: 0 <= k < l < |ks| ==> ks[k] < ks[l])
      && (forall i :: 0 <= i < |input| ==> (i in ks <==> !Dropped(input, s, i)))
    decreases |input|
  {
    KeptPositionsAreTheUndropped(input, s);
    if |input| > 0 {
      var n := |input| - 1;
      var p := input[..n];
      OutputIsKeptBytes(p, s);
      KeptPositionsAreTheUndropped(p, s);
      var kp := KeptPositions(p, s);
      var ks := KeptPositions(input, s);
      var prefix := Compacted(p, s);
      var step := Step(prefix.state, input[n]);
      var out := Compacted(input, s).output;
      assert out == prefix.output + step.output;
      assert Dropped(input, s, n) <==> step.output == [];
      assert ks == kp + (if Dropped(input, s, n) then [] else [n]);
      forall k | 0 <= k < |ks|
        ensures out[k] == input[ks[k]]
      {
        if k < |kp| {
          assert out[k] == prefix.output[k] == p[kp[k]];
        }
      }
    }
  }

  /** The quote counter moves exactly as the program says, at every position
      of a chunk: outside a string a quote sets it to 1 and anything else
      leaves it at 0; inside a string only a quote whose immediately
      preceding byte is not a backslash decrements it. */
  lemma QuoteTransition(input: seq<Byte>, s: State, i: nat)
    requires i < |input|
    ensures var q, prev, c := QuotesBefore(input, s, i), Previous(input, s, i), input[i];
      QuotesBefore(input, s, i + 1) ==
        if q == 0 then (if c == Quote then 1 else 0)
        else if c == Quote && prev != Backslash then q - 1
        else q
  {
    assert input[..i + 1][..i] == input[..i];
  }

  /** Chunk-boundary invariance: compressing `a + b` in one call gives the
      same bytes and the same state as compressing `a` and then `b` with the
      state that `a` returned. */
  lemma {:induction false} CompactedSplit(a: seq<Byte>, b: seq<Byte>, s: State)
    ensures var ra := Compacted(a, s); var rb := Compacted(b, ra.state);
      Compacted(a + b, s) == Compressed(ra.output + rb.output, rb.state)
    decreases |b|
  {
    if |b| == 0 {
      assert a + b == a;
    } else {
      var n := |b| - 1;
      CompactedSplit(a, b[..n], s);
      assert (a + b)[..|a + b| - 1] == a + b[..n];
      var ra := Compacted(a, s);
      var rn := Compacted(b[..n], ra.state);
      var step := Step(rn.state, b[n]);
      assert ra.output + rn.output + step.output == ra.output + (rn.output + step.output);
    }
  }

  /** Compacting compacted output again changes nothing, from any starting
      state, in particular from the program's initial state. When the stream
      ends inside a string, the two runs also agree on the last byte. */
  lemma {:induction false} CompactIdempotent(input: seq<Byte>, s: State)
    ensures var once := Compacted(input, s); var twice := Compacted(once.output, s);
      && twice.output == once.output
      && twice.state.quotes == once.state.quotes
      && (once.state.quotes != 0 ==> twice.state.last == once.state.last)
    decreases |input|
  {
    if |input| > 0 {
      var n := |input| - 1;
      var c := input[n];
      CompactIdempotent(input[..n], s);
      var once := Compacted(input[..n], s);
      var twice := Compacted(once.output, s);
      var step := Step(once.state, c);
      assert Compacted(input, s) == Compressed(once.output + step.output, step.state);
      if step.output == [] {
        assert once.output + step.output == once.output;
      } else {
        var out := once.output + [c];
        assert out[..|out| - 1] == once.output;
        assert Compacted(out, s) == Compressed(twice.output + Step(twice.state, c).output, Step(twice.state, c).state);
        if once.state.quotes == 0 {
          assert Step(twice.state, c) == step;
        } else {
          assert twice.state == once.state;
        }
      }
    }
  }

  /** The chunk fed to the machine one byte at a time from the front: the
      first byte's transition, then the rest of the chunk from the state it
      leaves. */
  function FrontToBack(input: seq<Byte>, s: State): Compressed
    decreases |input|
  {
    if |input| == 0 then Compressed([], s)
    else
      var first := Step(s, input[0]);
      var rest := FrontToBack(input[1..], first.state);
      Compressed(first.output + rest.output, rest.state)
  }

  /** Feeding bytes one at a time from the front agrees with the
      specification, which is chunk-boundary invariance for one-byte chunks. */
  lemma {:induction false} FrontToBackAgrees(input: seq<Byte>, s: State)
    ensures FrontToBack(input, s) == Compacted(input, s)
    decreases |input|
  {
    if |input| > 0 {
      var head, tail := [input[0]], input[1..];
      var first := Step(s, input[0]);
      assert head[..0] == [];
      assert Compacted(head, s) == Compressed([] + first.output, first.state);
      assert [] + first.output == first.output;
      FrontToBackAgrees(tail, first.state);
      CompactedSplit(head, tail, s);
      assert head + tail == input;
    }
  }

  // The examples below spell bytes in decimal: 34 is a quote, 92 a
  // backslash, 32 a space, 97 and 98 the letters a and b.

  /** An escaped quote does not close a string: `"a\"b"` is copied unchanged
      and the string closes only at its final quote. */
  lemma EscapedQuoteExample()
    ensures Compacted([34, 97, 92, 34, 98, 34], Initial) == Compressed([34, 97, 92, 34, 98, 34], State(0, Quote))
  {
    FrontToBackAgrees([34, 97, 92, 34, 98, 34], Initial);
  }

  /** The one-byte look-back: in `"a\\"` the final quote follows a
      backslash, so the string is taken to be still open. */
  lemma EscapedBackslashExample()
    ensures Compacted([34, 97, 92, 92, 34], Initial) == Compressed([34, 97, 92, 92, 34], State(1, Quote))
  {
    FrontToBackAgrees([34, 97, 92, 92, 34], Initial);
  }

  /** In `" " "` the space inside the first string is kept, the space
      between the strings is dropped, and the stream ends inside a string. */
  lemma SpacesExample()
    ensures Compacted([34, 32, 34, 32, 34], Initial) == Compressed([34, 32, 34, 34], State(1, Quote))
  {
    FrontToBackAgrees([34, 32, 34, 32, 34], Initial);
  }
}
