/**
 verify-widget/blake2b.js: the block loop of the browser's BLAKE2b-256, against section 3.3
 of RFC 7693.  The compression function is an arbitrary function on an arbitrary state.
 */
module Blake2b {
  import opened Bytes
  import opened Results

  type Compress<!S> = (S, ByteString, nat, bool) -> S

  /** One call of the compression function: a block, the byte counter, and the final flag. */
  datatype Call = Call(block: ByteString, counter: nat, final: bool)

  // ---------------------------------------------------------------------------------
  // Section 3.3, without a key
  // ---------------------------------------------------------------------------------

  /** The number of blocks: at least one, even for an empty input. */
  function BlockCount(length: nat): (n: nat)
    ensures n >= 1
    ensures length <= 128 * n && (length > 0 ==> 128 * (n - 1) < length)
  {
    if length == 0 then 1 else (length + 128 - 1) / 128
  }

  /** Block i of the input, padded with zeros. */
  function PaddedBlock(input: ByteString, i: nat): (b: ByteString)
    requires i < BlockCount(|input|)
    ensures |b| == 128
  {
    var start, end := 128 * i, 128 * (i + 1);
    if end <= |input| then input[start..end] else input[start..] + Zeros(end - |input|)
  }

  function CallAt(input: ByteString, i: nat): Call
    requires i < BlockCount(|input|)
  {
    var final := i == BlockCount(|input|) - 1;
    Call(PaddedBlock(input, i), if final then |input| else 128 * (i + 1), final)
  }

  /** The state after the first n calls. */
  function StateAfter<S>(F: Compress<S>, h: S, input: ByteString, n: nat): S
    requires n <= BlockCount(|input|)
  {
    if n == 0 then h
    else
      var c := CallAt(input, n - 1);
      F(StateAfter(F, h, input, n - 1), c.block, c.counter, c.final)
  }

  // ---------------------------------------------------------------------------------
  // The loop
  // ---------------------------------------------------------------------------------

  /** The state after the block loop of `blake2b256`, from the initial state h0. */
  method HashBlocks<S>(F: Compress<S>, h0: S, input: ByteString) returns (h: S)
    ensures h == StateAfter(F, h0, input, BlockCount(|input|))
  {
    hide PaddedBlock, CallAt;
    h := h0;
    var t := 0;
    var off := 0;
    ghost var n := 0;
    if |input| == 0 {
      EmptyBlock(input);
      h := F(h, Zeros(128), 0, true);
    } else {
      while off + 128 < |input|
        invariant off == t == 128 * n < |input|
        invariant n < BlockCount(|input|)
        invariant h == StateAfter(F, h0, input, n)
      {
        FullBlock(input, n);
        t := t + 128;
        h := F(h, input[off..off + 128], t, false);
        off := off + 128;
        n := n + 1;
      }
      var last := input[off..] + Zeros(128 - (|input| - off));
      LastBlock(input, n);
      t := t + (|input| - off);
      h := F(h, last, t, true);
    }
  }

  lemma EmptyBlock(input: ByteString)
    requires input == []
    ensures CallAt(input, 0) == Call(Zeros(128), 0, true)
  {
    assert input[0..] + Zeros(128) == Zeros(128);
  }

  lemma FullBlock(input: ByteString, n: nat)
    requires 128 * (n + 1) < |input|
    ensures n + 1 < BlockCount(|input|)
    ensures CallAt(input, n) == Call(input[128 * n..128 * n + 128], 128 * n + 128, false)
  {}

  lemma LastBlock(input: ByteString, n: nat)
    requires 128 * n < |input| <= 128 * (n + 1)
    ensures n == BlockCount(|input|) - 1
    ensures CallAt(input, n) == Call(input[128 * n..] + Zeros(128 * (n + 1) - |input|), |input|, true)
  {
    if |input| == 128 * (n + 1) {
      assert input[128 * n..] + Zeros(0) == input[128 * n..128 * (n + 1)];
    }
  }

  // ---------------------------------------------------------------------------------
  // What the calls do with the input
  // ---------------------------------------------------------------------------------

  /** The first n blocks put together. */
  function Joined(input: ByteString, n: nat): ByteString
    requires n <= BlockCount(|input|)
  {
    if n == 0 then [] else Joined(input, n - 1) + CallAt(input, n - 1).block
  }

  lemma FullBlockBefore(input: ByteString, n: nat)
    requires n + 1 < BlockCount(|input|)
    ensures 128 * (n + 1) <= |input|
    ensures input[..128 * (n + 1)] == input[..128 * n] + CallAt(input, n).block
  {
    assert input[..128 * (n + 1)] == input[..128 * n] + input[128 * n..128 * (n + 1)];
  }

  lemma {:induction false} JoinedFull(input: ByteString, n: nat)
    requires n < BlockCount(|input|)
    ensures 128 * n <= |input| && Joined(input, n) == input[..128 * n]
  {
    if n > 0 {
      JoinedFull(input, n - 1);
      FullBlockBefore(input, n - 1);
    }
  }

  lemma AfterFullBlocks(input: ByteString, n: nat)
    requires n == BlockCount(|input|) - 1 && 128 * n <= |input|
    ensures input[..128 * n] + CallAt(input, n).block == input + Zeros(128 * (n + 1) - |input|)
  {
    if 128 * (n + 1) == |input| {
      assert input[128 * n..128 * (n + 1)] == input[128 * n..];
      assert input + Zeros(0) == input;
    } else {
      Assoc(input[..128 * n], input[128 * n..], Zeros(128 * (n + 1) - |input|));
    }
    assert input == input[..128 * n] + input[128 * n..];
  }

  /** Every byte is compressed once and in order, followed by less than a block of zeros. */
  lemma BlocksAreTheInput(input: ByteString)
    ensures Joined(input, BlockCount(|input|)) == input + Zeros(128 * BlockCount(|input|) - |input|)
    ensures |input| > 0 ==> 128 * BlockCount(|input|) - |input| < 128
  {
    hide PaddedBlock, CallAt, BlockCount, Zeros;
    var n := BlockCount(|input|) - 1;
    assert Joined(input, n + 1) == Joined(input, n) + CallAt(input, n).block;
    hide Joined;
    JoinedFull(input, n);
    AfterFullBlocks(input, n);
  }

  // ---------------------------------------------------------------------------------
  // The calls that the loop makes
  // ---------------------------------------------------------------------------------

  /** A compression function that keeps a list of its calls. */
  function Note(calls: seq<Call>, block: ByteString, counter: nat, final: bool): seq<Call> {
    calls + [Call(block, counter, final)]
  }

  function BlocksOf(calls: seq<Call>): ByteString {
    if calls == [] then [] else BlocksOf(calls[..|calls| - 1]) + calls[|calls| - 1].block
  }

  /** The state after these calls, whatever the compression function is. */
  function Compressed<S>(F: Compress<S>, h: S, calls: seq<Call>): S {
    if calls == [] then h
    else
      var c := calls[|calls| - 1];
      F(Compressed(F, h, calls[..|calls| - 1]), c.block, c.counter, c.final)
  }

  lemma OneMoreNoted(input: ByteString, n: nat)
    requires 0 < n <= BlockCount(|input|)
    ensures StateAfter(Note, [], input, n) == StateAfter(Note, [], input, n - 1) + [CallAt(input, n - 1)]
  {
    hide CallAt, PaddedBlock;
  }

  lemma {:induction false} NotedCalls(input: ByteString, n: nat)
    requires n <= BlockCount(|input|)
    ensures var calls := StateAfter(Note, [], input, n);
      |calls| == n && BlocksOf(calls) == Joined(input, n) && forall i :: 0 <= i < n ==> calls[i] == CallAt(input, i)
  {
    hide CallAt, PaddedBlock;
    if n > 0 {
      var front, calls := StateAfter(Note, [], input, n - 1), StateAfter(Note, [], input, n);
      NotedCalls(input, n - 1);
      OneMoreNoted(input, n);
      hide StateAfter;
      assert calls[..|calls| - 1] == front;
    }
  }

  /** The same calls give the state of any compression function. */
  lemma {:induction false} StateIsCompressed<S>(F: Compress<S>, h: S, input: ByteString, n: nat)
    requires n <= BlockCount(|input|)
    ensures StateAfter(F, h, input, n) == Compressed(F, h, StateAfter(Note, [], input, n))
  {
    hide CallAt, PaddedBlock;
    if n > 0 {
      StateIsCompressed(F, h, input, n - 1);
      OneMoreNoted(input, n);
      var calls := StateAfter(Note, [], input, n);
      assert calls[..|calls| - 1] == StateAfter(Note, [], input, n - 1);
    }
  }

  /** How many of the first n bytes there are. */
  function Consumed(input: ByteString, n: nat): nat {
    if n <= |input| then n else |input|
  }

  /**
   The calls that the loop makes: blocks of 128 bytes that are the input and then less than a
   block of zeros, each with the number of input bytes so far, and only the last one final.
   */
  method CallsOfHash(input: ByteString) returns (calls: seq<Call>)
    ensures |calls| > 0 && forall i :: 0 <= i < |calls| ==> |calls[i].block| == 128
    ensures 128 * |calls| >= |input| && BlocksOf(calls) == input + Zeros(128 * |calls| - |input|)
    ensures if |input| == 0 then |calls| == 1 else 128 * |calls| - |input| < 128
    ensures forall i :: 0 <= i < |calls| ==> calls[i].counter == Consumed(input, 128 * (i + 1))
    ensures forall i :: 0 <= i < |calls| ==> (calls[i].final <==> i == |calls| - 1)
  {
    calls := HashBlocks(Note, [], input);
    NotedCalls(input, BlockCount(|input|));
    BlocksAreTheInput(input);
  }

  ghost predicate SameCalls(a: ByteString, b: ByteString) {
    && BlockCount(|a|) == BlockCount(|b|)
    && forall i :: 0 <= i < BlockCount(|a|) ==> CallAt(a, i) == CallAt(b, i)
  }

  lemma {:induction false} SameJoined(a: ByteString, b: ByteString, n: nat)
    requires SameCalls(a, b) && n <= BlockCount(|a|)
    ensures Joined(a, n) == Joined(b, n)
  {
    if n > 0 {
      SameJoined(a, b, n - 1);
    }
  }

  /** Different inputs lead to different calls: the padding is unambiguous. */
  lemma CallsDetermineInput(a: ByteString, b: ByteString)
    requires SameCalls(a, b)
    ensures a == b
  {
    var n := BlockCount(|a|);
    assert CallAt(a, n - 1).counter == |a| && CallAt(b, n - 1).counter == |b|;
    hide CallAt, PaddedBlock, BlockCount, Zeros;
    SameJoined(a, b, n);
    BlocksAreTheInput(a);
    BlocksAreTheInput(b);
    hide SameCalls, Joined;
    SplitAt(a, b, Zeros(128 * n - |a|), Zeros(128 * n - |b|));
  }

  // ---------------------------------------------------------------------------------
  // The parameter block
  // ---------------------------------------------------------------------------------

  /** A personalization as it enters the parameter block: cut or padded to 16 bytes. */
  function Personal(personalization: Option<ByteString>): (p: ByteString)
    ensures |p| == 16
  {
    if personalization.None? then Zeros(16)
    else if |personalization.value| >= 16 then personalization.value[..16]
    else personalization.value + Zeros(16 - |personalization.value|)
  }

  /** Digest length 32, no key, fanout and depth 1, and the personalization at offset 48. */
  function ParameterBlock(personalization: Option<ByteString>): (p: ByteString)
    ensures |p| == 64
  {
    [32, 0, 1, 1] + Zeros(44) + Personal(personalization)
  }

  /** The block by offsets: the four bytes of length, key, fanout and depth, zeros, and the personalization. */
  ghost predicate IsParameterBlock(p: ByteString, personalization: Option<ByteString>) {
    && |p| == 64 && p[0] == 32 && p[1] == 0 && p[2] == 1 && p[3] == 1
    && (forall i :: 4 <= i < 48 ==> p[i] == 0)
    && forall i :: 0 <= i < 16 ==>
      p[48 + i] == if personalization.Some? && i < |personalization.value| then personalization.value[i] else 0
  }

  lemma ParameterBlockIs(personalization: Option<ByteString>)
    ensures IsParameterBlock(ParameterBlock(personalization), personalization)
  {}

  /** The loop that copies the personalization, with `|| 0` for what is missing. */
  method BuildParameterBlock(personalization: Option<ByteString>) returns (p: array<byte>)
    ensures fresh(p) && p[..] == ParameterBlock(personalization) && IsParameterBlock(p[..], personalization)
  {
    p := new byte[64](i => 0);
    p[0] := 32;
    p[2] := 1;
    p[3] := 1;
    if personalization.Some? {
      var s := personalization.value;
      for i := 0 to 16
        invariant p.Length == 64
        invariant forall j :: 0 <= j < 48 ==> p[j] == ([32, 0, 1, 1] + Zeros(44))[j]
        invariant forall j :: 48 <= j < 64 ==> p[j] == if j < 48 + i && j < 48 + |s| then s[j - 48] else 0
      {
        p[48 + i] := if i < |s| then s[i] else 0;
      }
    }
    assert p[..48] == [32, 0, 1, 1] + Zeros(44);
    assert p[48..] == Personal(personalization);
    assert p[..] == p[..48] + p[48..];
    ParameterBlockIs(personalization);
  }

  /** Personalizations of 16 bytes are told apart from the first compression on. */
  lemma ParameterBlockSeparates(a: ByteString, b: ByteString)
    requires |a| == 16 && |b| == 16
    ensures ParameterBlock(Some(a)) == ParameterBlock(Some(b)) <==> a == b
  {
    assert a[..16] == a && b[..16] == b;
    if ParameterBlock(Some(a)) == ParameterBlock(Some(b)) {
      SplitAt([32, 0, 1, 1] + Zeros(44), [32, 0, 1, 1] + Zeros(44), a, b);
    }
  }
}
