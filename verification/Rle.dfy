/**
  * The run-length codec: an encoder whose literal runs back up by two bytes when
  * three equal bytes turn up, and a decoder driven by signed counts.
  */
module Rle {

  import opened Bytes

  // ---------------------------------------------------------------------
  // The encoding
  // ---------------------------------------------------------------------

  /** The end of the stretch of bytes equal to the one at count, cut at 127 bytes. */
  function ScanRepeat(s: seq<byte>, count: nat, index: nat): (end: nat)
    requires count < index <= |s| && index - count <= 127
    ensures index <= end <= |s| && end - count <= 127
    ensures forall i :: index <= i < end ==> s[i] == s[count]
    ensures end < |s| && end - count < 127 ==> s[end] != s[count]
    decreases |s| - index
  {
    if index < |s| && index - count < 127 && s[index] == s[count]
    then ScanRepeat(s, count, index + 1)
    else index
  }

  predicate TripleEndsAt(s: seq<byte>, index: nat)
    requires index < |s|
  {
    index > 1 && s[index] == s[index - 1] && s[index] == s[index - 2]
  }

  /** The end of the literal run that starts at count: two bytes back from the first triple. */
  function ScanLiteral(s: seq<byte>, count: nat, index: nat): (end: int)
    requires count < index <= |s| && index - count <= 127
    ensures index - 2 <= end <= |s| && end - count <= 127
    decreases |s| - index
  {
    if index < |s| && index - count < 127 then
      if TripleEndsAt(s, index) then index - 2 else ScanLiteral(s, count, index + 1)
    else index
  }

  /** A literal run is never emptied by backing up: two different bytes come first. */
  lemma {:induction false} LiteralAdvances(s: seq<byte>, count: nat, index: nat)
    requires count < index <= |s| && index - count <= 127
    requires count + 1 < |s| ==> s[count + 1] != s[count]
    ensures count < ScanLiteral(s, count, index)
    decreases |s| - index
  {
    if index < |s| && index - count < 127 && !TripleEndsAt(s, index) {
      LiteralAdvances(s, count, index + 1);
    }
  }

  /** Where the pass of the encoder that starts at count ends. */
  function PassEnd(s: seq<byte>, count: nat): (end: nat)
    requires count < |s|
    ensures count < end <= |s| && end - count <= 127
  {
    var r := ScanRepeat(s, count, count + 1);
    if r == count + 1 then
      LiteralAdvances(s, count, count + 1);
      ScanLiteral(s, count, count + 1)
    else r
  }

  /** A literal run's length as the code stores it: negated, then cut to one byte. */
  function NegatedLength(n: nat): (b: byte)
    requires 1 <= n <= 127
    ensures b == 256 - n
  {
    (0 - n) % 256
  }

  /** The bytes one pass writes: a count and a value, or a negated count and the bytes themselves. */
  function PassOutput(s: seq<byte>, count: nat): (out: seq<byte>)
    requires count < |s|
  {
    var end := PassEnd(s, count);
    if ScanRepeat(s, count, count + 1) == count + 1
    then [NegatedLength(end - count)] + s[count..end]
    else [end - count, s[count]]
  }

  function EncodeFrom(s: seq<byte>, count: nat): (out: seq<byte>)
    requires count <= |s|
    ensures out != []
    decreases |s| - count
  {
    if count == |s| then [0] else PassOutput(s, count) + EncodeFrom(s, PassEnd(s, count))
  }

  function Encode(s: seq<byte>): (out: seq<byte>) {
    EncodeFrom(s, 0)
  }

  /** rle.c:59-64: scan for bytes identical to the first one. */
  method FindRepeatEnd(input: array<byte>, count: nat) returns (index: nat)
    requires count < input.Length
    ensures index == ScanRepeat(input[..], count, count + 1)
  {
    var first := input[count];
    index := count + 1;
    while index < input.Length && index - count < 127 && input[index] == first
      invariant count < index <= input.Length && index - count <= 127
      invariant ScanRepeat(input[..], count, count + 1) == ScanRepeat(input[..], count, index)
    {
      index := index + 1;
    }
  }

  /** rle.c:70-88: see how many bytes to copy, stopping short of three identical ones. */
  method FindLiteralEnd(input: array<byte>, count: nat) returns (index: int)
    requires count < input.Length
    ensures index == ScanLiteral(input[..], count, count + 1)
  {
    index := count + 1;
    while index < input.Length && index - count < 127
      invariant count < index <= input.Length && index - count <= 127
      invariant ScanLiteral(input[..], count, count + 1) == ScanLiteral(input[..], count, index)
      decreases input.Length - index
    {
      if input[index] == input[index - 1] && index > 1 && input[index] == input[index - 2] {
        return index - 2;
      }
      index := index + 1;
    }
  }

  /** rle.c:91-93: write the negated length and the bytes of a literal run. */
  method WriteLiteral(output: array<byte>, out: nat, input: array<byte>, count: nat, index: nat)
    requires output != input && count < index <= input.Length && index - count <= 127 && out + 1 + index - count <= output.Length
    modifies output
    ensures output[..] == Splice(old(output[..]), out, [NegatedLength(index - count)] + input[count..index])
  {
    var head := NegatedLength(index - count);
    output[out] := head;
    SpliceTwice(old(output[..]), out, [head], input[count..index]);
    WriteCopy(output, out + 1, input, count, index - count);
  }

  /** One turn of the outer loop: find the run that starts at count and write it. */
  method WritePass(output: array<byte>, out: nat, input: array<byte>, count: nat)
    returns (index: nat, next: nat)
    requires output != input && count < input.Length
    requires out + |PassOutput(input[..], count)| <= output.Length
    modifies output
    ensures index == PassEnd(input[..], count) && next == out + |PassOutput(input[..], count)|
    ensures output[..] == Splice(old(output[..]), out, PassOutput(input[..], count))
  {
    index := FindRepeatEnd(input, count);
    if index - count == 1 {
      var end := FindLiteralEnd(input, count);
      LiteralAdvances(input[..], count, count + 1);
      index := end;
      assert input[..][count..index] == input[count..index];
      WriteLiteral(output, out, input, count, index);
      next := out + 1 + index - count;
    } else {
      output[out] := index - count;
      output[out + 1] := input[count];
      next := out + 2;
    }
  }

  /** The encoder as it is written: one pass after the other fills the output buffer. */
  method Compress(output: array<byte>, input: array<byte>) returns (n: nat)
    requires output != input
    requires output.Length >= |Encode(input[..])|
    modifies output
    ensures n == |Encode(input[..])|
    ensures output[..] == Splice(old(output[..]), 0, Encode(input[..]))
  {
    ghost var s, blank, done := input[..], output[..], [];
    var out, count := 0, 0;
    UnderStart(Encode(s), blank);
    while count < input.Length
      invariant 0 <= count <= input.Length && input[..] == s && |done| == out
      invariant Under(Encode(s), blank, output[..], done, EncodeFrom(s, count))
    {
      ghost var piece;
      count, out, piece := WriteOn(output, out, input, count, blank, done);
      done := done + piece;
    }
    UnderOn(Encode(s), blank, output[..], done, [0], []);
    WriteRepeat(output, out, 0, 1);
    assert Repeat(0, 1) == [0];
    UnderEnd(Encode(s), blank, output[..], done + [0]);
    n := out + 1;
  }

  /** One turn of the outer loop, and how far the output has come with it. */
  method WriteOn(output: array<byte>, out: nat, input: array<byte>, count: nat, ghost blank: seq<byte>, ghost done: seq<byte>)
    returns (next: nat, nextOut: nat, ghost piece: seq<byte>)
    requires output != input && count < input.Length && out == |done|
    requires Under(Encode(input[..]), blank, output[..], done, EncodeFrom(input[..], count))
    modifies output
    ensures count < next <= input.Length && nextOut == |done + piece|
    ensures Under(Encode(input[..]), blank, output[..], done + piece, EncodeFrom(input[..], next))
  {
    piece := PassOutput(input[..], count);
    UnderOn(Encode(input[..]), blank, output[..], done, piece, EncodeFrom(input[..], PassEnd(input[..], count)));
    next, nextOut := WritePass(output, out, input, count);
  }

  // ---------------------------------------------------------------------
  // The decoding
  // ---------------------------------------------------------------------

  function Repeat(v: byte, n: nat): (r: seq<byte>)
    ensures |r| == n && forall i :: 0 <= i < n ==> r[i] == v
  {
    seq(n, _ => v)
  }

  /** How many bytes of the stream the run at its head takes up. */
  function HeadLength(s: seq<byte>): (n: nat)
    requires s != [] && s[0] != 0
    ensures n >= 2
  {
    if Signed(s[0]) > 0 then 2 else 1 - Signed(s[0])
  }

  /** The bytes that the run at the head of the stream stands for. */
  function HeadBytes(s: seq<byte>): (r: seq<byte>)
    requires s != [] && s[0] != 0 && HeadLength(s) <= |s|
  {
    if Signed(s[0]) > 0 then Repeat(s[1], Signed(s[0])) else s[1..HeadLength(s)]
  }

  /** The two kinds of run in numbers: up to 127 copies of one byte, or 1 to 128 bytes as they are. */
  lemma HeadInNumbers(b: byte, v: byte, bytes: seq<byte>)
    requires b > 0
    ensures b < 128 ==> HeadLength([b, v]) == 2 && HeadBytes([b, v]) == seq(b, _ => v)
    ensures b >= 128 && |bytes| == 256 - b ==> HeadLength([b] + bytes) == |bytes| + 1 && HeadBytes([b] + bytes) == bytes
  {
  }

  datatype Decoded = Decoded(bytes: seq<byte>, consumed: nat)

  /** The decoder, or None when the input ends before the end marker. */
  function Decode(s: seq<byte>): (r: Option<Decoded>)
    ensures r.Some? ==> 0 < r.value.consumed <= |s|
    decreases |s|
  {
    if s == [] then None
    else if s[0] == 0 then Some(Decoded([], 1))
    else if HeadLength(s) > |s| then None
    else
      match Decode(s[HeadLength(s)..])
      case None => None
      case Some(d) => Some(Decoded(HeadBytes(s) + d.bytes, HeadLength(s) + d.consumed))
  }

  /** One turn of the decoder's loop that is not the end marker. */
  method ReadPass(output: array<byte>, out: nat, input: array<byte>, pos: nat)
    returns (next: nat, nextOut: nat)
    requires output != input && pos < input.Length && input[pos] != 0
    requires HeadLength(input[..][pos..]) <= input.Length - pos && out + |HeadBytes(input[..][pos..])| <= output.Length
    modifies output
    ensures next == pos + HeadLength(input[..][pos..]) && nextOut == out + |HeadBytes(input[..][pos..])|
    ensures output[..] == Splice(old(output[..]), out, HeadBytes(input[..][pos..]))
  {
    var count := Signed(input[pos]);
    assert input[..][pos..][0] == input[pos];
    if count > 0 {
      var value := input[pos + 1];
      WriteRepeat(output, out, value, count);
      next, nextOut := pos + 2, out + count;
    } else {
      assert input[..][pos..][1..1 - count] == input[pos + 1..pos + 1 - count];
      WriteCopy(output, out, input, pos + 1, -count);
      next, nextOut := pos + 1 - count, out - count;
    }
  }

  /** Stored bytes and bytes still to come, as decoding goes on. */
  ghost predicate Under(total: seq<byte>, blank: seq<byte>, now: seq<byte>, done: seq<byte>, left: seq<byte>) {
    |total| <= |blank| && total == done + left && now == Splice(blank, 0, done)
  }

  lemma UnderStart(total: seq<byte>, blank: seq<byte>)
    requires |total| <= |blank|
    ensures Under(total, blank, blank, [], total)
  {
  }

  lemma UnderEnd(total: seq<byte>, blank: seq<byte>, now: seq<byte>, done: seq<byte>)
    requires Under(total, blank, now, done, [])
    ensures done == total && now == Splice(blank, 0, total)
  {
  }

  lemma UnderOn(total: seq<byte>, blank: seq<byte>, now: seq<byte>, done: seq<byte>, head: seq<byte>, tail: seq<byte>)
    requires Under(total, blank, now, done, head + tail)
    ensures |done| + |head| <= |now|
    ensures Under(total, blank, Splice(now, |done|, head), done + head, tail)
  {
    SpliceTwice(blank, 0, done, head);
    Associative(done, head, tail);
  }

  /** From position pos on, the stream decodes to the given bytes. */
  ghost predicate Yields(s: seq<byte>, pos: nat, bytes: seq<byte>) {
    pos < |s| && Decode(s[pos..]).Some? && Decode(s[pos..]).value.bytes == bytes
  }

  lemma SplitHead(s: seq<byte>, pos: nat, bytes: seq<byte>) returns (head: seq<byte>, tail: seq<byte>)
    requires Yields(s, pos, bytes) && s[pos] != 0
    ensures HeadLength(s[pos..]) <= |s| - pos && head == HeadBytes(s[pos..]) && bytes == head + tail
    ensures Yields(s, pos + HeadLength(s[pos..]), tail)
  {
    var h := HeadLength(s[pos..]);
    assert s[pos..][h..] == s[pos + h..];
    head, tail := HeadBytes(s[pos..]), Decode(s[pos + h..]).value.bytes;
  }

  /** The decoder as it is written. It needs a complete stream and room for the result. */
  method Expand(output: array<byte>, input: array<byte>) returns (n: nat)
    requires output != input
    requires Decode(input[..]).Some? && output.Length >= |Decode(input[..]).value.bytes|
    modifies output
    ensures n == |Decode(input[..]).value.bytes|
    ensures output[..] == Splice(old(output[..]), 0, Decode(input[..]).value.bytes)
  {
    ghost var s, blank, done := input[..], output[..], [];
    ghost var total := Decode(s).value.bytes;
    ghost var left := total;
    var pos, out := 0, 0;
    assert s[0..] == s;
    UnderStart(total, blank);
    while input[pos] != 0
      invariant 0 <= pos < input.Length && input[..] == s && |done| == out
      invariant Yields(s, pos, left)
      invariant Under(total, blank, output[..], done, left)
      decreases input.Length - pos
    {
      ghost var head;
      pos, out, head, left := ReadOn(output, out, input, pos, total, blank, done, left);
      done := done + head;
    }
    assert left == [];
    n := out;
  }

  method ReadOn(output: array<byte>, out: nat, input: array<byte>, pos: nat,
                ghost total: seq<byte>, ghost blank: seq<byte>, ghost done: seq<byte>, ghost left: seq<byte>)
    returns (next: nat, nextOut: nat, ghost head: seq<byte>, ghost tail: seq<byte>)
    requires output != input && pos < input.Length && input[pos] != 0 && out == |done|
    requires Yields(input[..], pos, left) && Under(total, blank, output[..], done, left)
    modifies output
    ensures pos < next && nextOut == |done + head|
    ensures Yields(input[..], next, tail) && Under(total, blank, output[..], done + head, tail)
  {
    head, tail := SplitHead(input[..], pos, left);
    UnderOn(total, blank, output[..], done, head, tail);
    next, nextOut := ReadPass(output, out, input, pos);
  }

  method WriteRepeat(output: array<byte>, out: nat, value: byte, count: nat)
    requires out + count <= output.Length
    modifies output
    ensures output[..] == Splice(old(output[..]), out, Repeat(value, count))
  {
    var left := count;
    ghost var done: seq<byte> := [];
    while left > 0
      invariant 0 <= left <= count && |done| == count - left && done == Repeat(value, count - left)
      invariant output[..] == Splice(old(output[..]), out, done)
    {
      SpliceNext(old(output[..]), out, done, value);
      RepeatNext(value, |done|);
      output[out + count - left] := value;
      left := left - 1;
      done := done + [value];
    }
  }

  lemma RepeatNext(v: byte, n: nat)
    ensures Repeat(v, n + 1) == Repeat(v, n) + [v]
  {
  }

  method WriteCopy(output: array<byte>, out: nat, input: array<byte>, pos: nat, count: nat)
    requires output != input && out + count <= output.Length && pos + count <= input.Length
    modifies output
    ensures output[..] == Splice(old(output[..]), out, input[pos..pos + count])
  {
    var i := 0;
    ghost var done: seq<byte> := [];
    while i < count
      invariant 0 <= i <= count && |done| == i && done == input[pos..pos + i]
      invariant output[..] == Splice(old(output[..]), out, done)
    {
      SpliceNext(old(output[..]), out, done, input[pos + i]);
      SliceNext(input[..], pos, i);
      output[out + i] := input[pos + i];
      done := done + [input[pos + i]];
      i := i + 1;
    }
  }

  lemma SliceNext(s: seq<byte>, pos: nat, i: nat)
    requires pos + i < |s|
    ensures s[pos..pos + i + 1] == s[pos..pos + i] + [s[pos + i]]
  {
  }

  // ---------------------------------------------------------------------
  // Round trip
  // ---------------------------------------------------------------------

  /** A complete run, and the bytes it stands for. */
  ghost predicate IsRun(run: seq<byte>, bytes: seq<byte>) {
    run != [] && run[0] != 0 && HeadLength(run) == |run| && HeadBytes(run) == bytes
  }

  /** Decoding a run followed by a complete stream puts the run's bytes in front. */
  lemma DecodeRun(run: seq<byte>, bytes: seq<byte>, rest: seq<byte>, d: Decoded)
    requires IsRun(run, bytes) && Decode(rest) == Some(d)
    ensures Decode(run + rest) == Some(Decoded(bytes + d.bytes, |run| + d.consumed))
  {
    var s := run + rest;
    assert s[0] == run[0] && HeadLength(s) == |run|;
    assert s[|run|..] == rest;
    assert HeadBytes(s) == HeadBytes(run);
  }

  /** What one encoder pass writes is one run, and it stands for the bytes the pass covered. */
  lemma PassIsRun(s: seq<byte>, count: nat)
    requires count < |s|
    ensures IsRun(PassOutput(s, count), s[count..PassEnd(s, count)])
  {
    var end, run := PassEnd(s, count), PassOutput(s, count);
    if ScanRepeat(s, count, count + 1) == count + 1 {
      assert Signed(run[0]) == count - end;
      assert run[1..|run|] == s[count..end];
    } else {
      RepeatIsSlice(s, count, end);
    }
  }

  lemma Cut(s: seq<byte>, i: nat, j: nat)
    requires i <= j <= |s|
    ensures s[i..] == s[i..j] + s[j..]
  {
  }

  lemma RepeatIsSlice(s: seq<byte>, count: nat, end: nat)
    requires count < end <= |s| && forall i :: count < i < end ==> s[i] == s[count]
    ensures Repeat(s[count], end - count) == s[count..end]
  {
  }

  /** Whatever follows it, the stream decodes to the bytes, and decoding stops at its end. */
  ghost predicate Restores(stream: seq<byte>, bytes: seq<byte>) {
    forall junk: seq<byte> :: Decode(stream + junk) == Some(Decoded(bytes, |stream|))
  }

  lemma MarkerRestores()
    ensures Restores([0], [])
  {
    forall junk: seq<byte>
      ensures Decode([0] + junk) == Some(Decoded([], 1))
    {
      assert ([0] + junk)[0] == 0;
    }
  }

  lemma RunRestores(run: seq<byte>, bytes: seq<byte>, tail: seq<byte>, more: seq<byte>)
    requires IsRun(run, bytes) && Restores(tail, more)
    ensures Restores(run + tail, bytes + more)
  {
    forall junk: seq<byte>
      ensures Decode((run + tail) + junk) == Some(Decoded(bytes + more, |run + tail|))
    {
      DecodeRun(run, bytes, tail + junk, Decoded(more, |tail|));
      Associative(run, tail, junk);
    }
  }

  /** Decoding from any pass boundary of the encoder yields the rest of the input. */
  lemma {:induction false} RoundTripFrom(s: seq<byte>, count: nat)
    requires count <= |s|
    ensures Restores(EncodeFrom(s, count), s[count..])
    decreases |s| - count
  {
    if count == |s| {
      MarkerRestores();
      assert s[count..] == [];
    } else {
      var end := PassEnd(s, count);
      RoundTripFrom(s, end);
      PassIsRun(s, count);
      RunRestores(PassOutput(s, count), s[count..end], EncodeFrom(s, end), s[end..]);
      Cut(s, count, end);
    }
  }

  /** The round trip: nothing is lost, and decoding stops right behind the end marker. */
  lemma RoundTrip(s: seq<byte>, junk: seq<byte>)
    ensures Decode(Encode(s) + junk) == Some(Decoded(s, |Encode(s)|))
  {
    RoundTripFrom(s, 0);
  }

  /** The two routines run one after the other, through a buffer with whatever else in it. */
  method ThereAndBack(input: array<byte>, packed: array<byte>, output: array<byte>) returns (n: nat)
    requires input != packed && input != output && packed != output
    requires packed.Length >= input.Length + CeilDiv127(input.Length) + 1 && output.Length >= input.Length
    modifies packed, output
    ensures n == input.Length && output[..n] == input[..]
  {
    ghost var s := input[..];
    SizeBound(s);
    var m := Compress(packed, input);
    ghost var junk := packed[..][m..];
    SpliceInFront(old(packed[..]), Encode(s), packed[..]);
    RoundTrip(s, junk);
    n := Expand(output, packed);
    SpliceInFront(old(output[..]), s, output[..]);
  }

  lemma SpliceInFront(s: seq<byte>, b: seq<byte>, r: seq<byte>)
    requires |b| <= |s| && r == Splice(s, 0, b)
    ensures r[..|b|] == b && r == b + r[|b|..]
  {
  }

  /** Different inputs have different encodings, and neither encoding is a prefix of the other. */
  lemma PrefixFree(s: seq<byte>, t: seq<byte>)
    requires Encode(s) <= Encode(t)
    ensures s == t
  {
    var junk := Encode(t)[|Encode(s)|..];
    assert Encode(s) + junk == Encode(t);
    assert Encode(t) + [] == Encode(t);
    RoundTrip(s, junk);
    RoundTrip(t, []);
  }

  // ---------------------------------------------------------------------
  // Size
  // ---------------------------------------------------------------------

  function CeilDiv127(n: nat): (r: nat)
    ensures r * 127 >= n && (n == 0 ==> r == 0)
  {
    (n + 126) / 127
  }

  /** A literal run that ends early stops right in front of three equal bytes. */
  lemma {:induction false} EarlyEnd(s: seq<byte>, count: nat, index: nat)
    requires count < index <= |s| && index - count <= 127
    requires count + 1 < |s| ==> s[count + 1] != s[count]
    ensures var end := ScanLiteral(s, count, index);
            end < |s| && end - count < 127 ==> 0 <= end && end + 2 < |s| && s[end] == s[end + 1] == s[end + 2]
    decreases |s| - index
  {
    if index < |s| && index - count < 127 && !TripleEndsAt(s, index) {
      EarlyEnd(s, count, index + 1);
    }
  }

  /** Three equal bytes, from position k on. */
  predicate TripleAt(s: seq<byte>, k: nat) {
    k + 2 < |s| && s[k] == s[k + 1] == s[k + 2]
  }

  /** A literal run stops at the first triple that the scan gets to see whole, and nowhere else before its limit. */
  lemma {:induction false} FirstTriple(s: seq<byte>, count: nat, index: nat)
    requires count < index <= |s| && index - count <= 127
    requires count + 1 < |s| ==> s[count + 1] != s[count]
    requires forall k :: count <= k < index - 2 ==> !TripleAt(s, k)
    ensures var end := ScanLiteral(s, count, index);
            && (forall k :: count <= k < end && k + 2 - count < 127 ==> !TripleAt(s, k))
            && (end == |s| || end == count + 127 || (0 <= end && TripleAt(s, end) && end + 2 - count < 127))
    decreases |s| - index
  {
    if index < |s| && index - count < 127 && !TripleEndsAt(s, index) {
      FirstTriple(s, count, index + 1);
    }
  }

  /** No literal run contains three equal bytes. */
  lemma NoTripleInLiteral(s: seq<byte>, count: nat, k: nat)
    requires count < |s| && ScanRepeat(s, count, count + 1) == count + 1
    requires count + 2 <= k < PassEnd(s, count)
    ensures !(s[k] == s[k - 1] == s[k - 2])
  {
    FirstTriple(s, count, count + 1);
    assert !TripleAt(s, k - 2);
  }

  /**
    * Everything about one pass. Where two equal bytes start, all the equal ones there, up to 127,
    * are replicated. Elsewhere bytes are copied: up to the first three equal ones in sight, to the end
    * of the input or to 127 bytes, whichever comes first.
    */
  lemma PassIs(s: seq<byte>, count: nat)
    requires count < |s|
    ensures var (end, out) := (PassEnd(s, count), PassOutput(s, count));
            if count + 1 < |s| && s[count + 1] == s[count] then
              && out == [end - count, s[count]] && 2 <= end - count <= 127
              && (forall k :: count <= k < end ==> s[k] == s[count])
              && (end == |s| || end - count == 127 || s[end] != s[count])
            else
              && out == [256 - (end - count)] + s[count..end] && 1 <= end - count <= 127
              && (forall k :: count <= k < end && k + 2 - count < 127 ==> !TripleAt(s, k))
              && (end == |s| || end - count == 127 || (TripleAt(s, end) && end + 2 - count < 127))
  {
    if count + 1 < |s| && s[count + 1] == s[count] {
      RepeatReaches(s, count, count + 1, count + 2);
    } else {
      FirstTriple(s, count, count + 1);
    }
  }

  lemma {:induction false} RepeatReaches(s: seq<byte>, count: nat, index: nat, k: nat)
    requires count < index <= k <= |s| && k - count <= 127
    requires forall i :: index <= i < k ==> s[i] == s[count]
    ensures ScanRepeat(s, count, index) >= k
    decreases |s| - index
  {
    if index < k {
      RepeatReaches(s, count, index + 1, k);
    }
  }

  lemma CutShort(s: seq<byte>, count: nat)
    requires count < |s| && ScanRepeat(s, count, count + 1) == count + 1
    requires PassEnd(s, count) < |s| && PassEnd(s, count) - count < 127
    ensures var end := PassEnd(s, count);
            ScanRepeat(s, end, end + 1) == PassEnd(s, end) >= end + 3
  {
    var end := PassEnd(s, count);
    EarlyEnd(s, count, count + 1);
    RepeatReaches(s, end, end + 1, end + 3);
  }

  /** How long one pass's output is; a pass that is not a literal run covers at least two bytes. */
  lemma PassLength(s: seq<byte>, count: nat)
    requires count < |s|
    ensures var n := PassEnd(s, count) - count;
            if ScanRepeat(s, count, count + 1) == count + 1
            then |PassOutput(s, count)| == 1 + n
            else |PassOutput(s, count)| == 2 <= n
    ensures |EncodeFrom(s, count)| == |PassOutput(s, count)| + |EncodeFrom(s, PassEnd(s, count))|
  {
  }

  /**
    * Never more than one extra byte for each 127 bytes or part of them, and one for the
    * end marker: a literal run cut short by the back-up is paid for by the run that follows it.
    */
  lemma {:induction false} SizeBoundFrom(s: seq<byte>, count: nat)
    requires count <= |s|
    ensures |EncodeFrom(s, count)| <= (|s| - count) + CeilDiv127(|s| - count) + 1
    decreases |s| - count
  {
    if count < |s| {
      var end := PassEnd(s, count);
      PassLength(s, count);
      SizeBoundFrom(s, end);
      if ScanRepeat(s, count, count + 1) == count + 1 && end < |s| && end - count < 127 {
        CutShort(s, count);
        PassLength(s, end);
        SizeBoundFrom(s, PassEnd(s, end));
      }
    }
  }

  lemma SizeBound(s: seq<byte>)
    ensures |Encode(s)| <= |s| + CeilDiv127(|s|) + 1
  {
    SizeBoundFrom(s, 0);
  }

  /** The bound is reached by every input without two equal neighbours. */
  lemma {:induction false} SizeBoundReached(s: seq<byte>, count: nat)
    requires count <= |s|
    requires forall i :: 0 < i < |s| ==> s[i] != s[i - 1]
    ensures |EncodeFrom(s, count)| == (|s| - count) + CeilDiv127(|s| - count) + 1
    decreases |s| - count
  {
    if count < |s| {
      assert ScanRepeat(s, count, count + 1) == count + 1;
      NoTriple(s, count, count + 1);
      SizeBoundReached(s, PassEnd(s, count));
    }
  }

  lemma {:induction false} NoTriple(s: seq<byte>, count: nat, index: nat)
    requires count < index <= |s| && index - count <= 127
    requires forall i :: 0 < i < |s| ==> s[i] != s[i - 1]
    ensures ScanLiteral(s, count, index) == if |s| - count < 127 then |s| else count + 127
    decreases |s| - index
  {
    if index < |s| && index - count < 127 {
      NoTriple(s, count, index + 1);
    }
  }
}
