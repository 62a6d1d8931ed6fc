/**
  * The Fletcher-32 checksum: little-endian 16 bit words, an odd byte carried from one
  * update to the next, and a reduction modulo 65535 that is put off for up to 360 words.
  */
module Fletcher {

  import opened Bytes

  /** A uint32_t. Assigning a sum to it is the claim that the sum does not overflow. */
  type u32 = x: int | 0 <= x < 0x1_0000_0000

  const CHUNK := 360

  // ---------------------------------------------------------------------
  // What is computed
  // ---------------------------------------------------------------------

  function Word(lo: int, hi: int): (w: int) {
    lo + 256 * hi
  }

  /** The little-endian words of a message; an odd last byte is padded with zero. */
  function Words(m: seq<byte>): (w: seq<int>)
    ensures |w| == (|m| + 1) / 2
    ensures forall i :: 0 <= i < |w| ==> 0 <= w[i] <= 65535
  {
    if m == [] then []
    else if |m| == 1 then [m[0]]
    else [Word(m[0], m[1])] + Words(m[2..])
  }

  /** The sum of the first n words. */
  function SumTo(w: seq<int>, n: nat): (r: int)
    requires n <= |w|
  {
    if n == 0 then 0 else SumTo(w, n - 1) + w[n - 1]
  }

  /** The sum of the sums of the first 1, 2, .. n words. */
  function SumsTo(w: seq<int>, n: nat): (r: int)
    requires n <= |w|
  {
    if n == 0 then 0 else SumsTo(w, n - 1) + SumTo(w, n)
  }

  /** The representative of x modulo 65535 among 1 .. 65535. */
  function Canonical(x: int): (r: int)
    ensures 1 <= r <= 65535 && r % 65535 == x % 65535
  {
    if x % 65535 == 0 then 65535 else x % 65535
  }

  function Digest(m: seq<byte>): (d: u32) {
    var w := Words(m);
    Canonical(SumsTo(w, |w|)) * 65536 + Canonical(SumTo(w, |w|))
  }

  // ---------------------------------------------------------------------
  // Arithmetic
  // ---------------------------------------------------------------------

  /** One reduction step: add the high half to the low half. */
  function Fold(x: u32): (r: u32)
    ensures r <= x && (x > 0 ==> r > 0)
    ensures r % 65535 == x % 65535
    ensures r <= 65535 + x / 65536
  {
    FoldKeepsClass(x);
    x % 65536 + x / 65536
  }

  lemma FoldReduces(x: u32)
    ensures x <= 200000 ==> Fold(x) <= 131070
    ensures x <= 131070 ==> Fold(x) <= 65535
  {
  }

  lemma FoldKeepsClass(x: int)
    ensures (x % 65536 + x / 65536) % 65535 == x % 65535
  {
    Multiple(x % 65536 + x / 65536, x / 65536);
  }

  lemma Multiple(x: int, k: int)
    ensures (x + 65535 * k) % 65535 == x % 65535
  {
  }

  lemma AddClass(a: int, b: int, x: int)
    requires a % 65535 == b % 65535
    ensures (a + x) % 65535 == (b + x) % 65535
  {
  }

  lemma AddClasses(a: int, b: int, c: int, d: int)
    requires a % 65535 == b % 65535 && c % 65535 == d % 65535
    ensures (a + c) % 65535 == (b + d) % 65535
  {
  }

  lemma CanonicalIs(r: int, x: int)
    requires 1 <= r <= 65535 && r % 65535 == x % 65535
    ensures r == Canonical(x)
  {
  }

  // ---------------------------------------------------------------------
  // Words of a message that arrives in pieces
  // ---------------------------------------------------------------------

  /** Sums over the first n words depend on those words only. */
  lemma {:induction false} SumsOfPrefix(v: seq<int>, w: seq<int>, n: nat)
    requires n <= |v| && n <= |w| && forall i :: 0 <= i < n ==> v[i] == w[i]
    ensures SumTo(v, n) == SumTo(w, n) && SumsTo(v, n) == SumsTo(w, n)
  {
    if n > 0 {
      SumsOfPrefix(v, w, n - 1);
    }
  }

  // ---------------------------------------------------------------------
  // Bounds
  // ---------------------------------------------------------------------

  function Triangle(i: nat): (t: nat) {
    if i == 0 then 0 else Triangle(i - 1) + i
  }

  lemma {:induction false} TriangleIs(i: nat)
    ensures 2 * Triangle(i) == i * (i + 1)
  {
    if i > 0 {
      TriangleIs(i - 1);
    }
  }

  lemma {:induction false} TriangleGrows(i: nat, n: nat)
    requires i <= n
    ensures Triangle(i) <= Triangle(n)
  {
    if i < n {
      TriangleGrows(i, n - 1);
    }
  }

  /** What the two sums can have grown to after i words of a chunk. */
  ghost predicate Bounded(sum1: int, sum2: int, i: nat) {
    && 1 <= sum1 <= 65895 + 65535 * i
    && 1 <= sum2 <= 131070 + 65895 * i + 65535 * Triangle(i)
  }

  lemma BoundedNext(sum1: int, sum2: int, i: nat, x: int)
    requires Bounded(sum1, sum2, i) && 0 <= x <= 65535
    ensures Bounded(sum1 + x, sum2 + sum1 + x, i + 1)
  {
  }

  /** Up to 360 words stay inside 32 bits, and one reduction step brings the bounds back. */
  lemma BoundedFits(sum1: int, sum2: int, i: nat)
    requires Bounded(sum1, sum2, i) && i <= CHUNK
    ensures sum1 < 0x1_0000_0000 && sum2 < 0x1_0000_0000
    ensures Bounded(Fold(sum1), Fold(sum2), 0)
  {
    TriangleGrows(i, CHUNK);
    TriangleIs(CHUNK);
  }

  /** Running sums that stand for the first n words, i of them added since the last reduction. */
  ghost predicate Stands(sum1: int, sum2: int, w: seq<int>, n: nat, i: nat) {
    && n <= |w|
    && Bounded(sum1, sum2, i)
    && sum1 % 65535 == SumTo(w, n) % 65535
    && sum2 % 65535 == SumsTo(w, n) % 65535
  }

  lemma StandsNext(sum1: int, sum2: int, w: seq<int>, n: nat, i: nat)
    requires Stands(sum1, sum2, w, n, i) && i < CHUNK && n < |w| && 0 <= w[n] <= 65535
    ensures sum1 + w[n] < 0x1_0000_0000 && sum2 + sum1 + w[n] < 0x1_0000_0000
    ensures Stands(sum1 + w[n], sum2 + sum1 + w[n], w, n + 1, i + 1)
  {
    BoundedNext(sum1, sum2, i, w[n]);
    BoundedFits(sum1 + w[n], sum2 + sum1 + w[n], i + 1);
    AddClass(sum1, SumTo(w, n), w[n]);
    AddClasses(sum2, SumsTo(w, n), sum1 + w[n], SumTo(w, n + 1));
  }

  lemma StandsFold(sum1: u32, sum2: u32, w: seq<int>, n: nat, i: nat)
    requires Stands(sum1, sum2, w, n, i) && i <= CHUNK
    ensures Stands(Fold(sum1), Fold(sum2), w, n, 0)
  {
    BoundedFits(sum1, sum2, i);
  }

  // ---------------------------------------------------------------------
  // The context
  // ---------------------------------------------------------------------

  /** A read through the buffer pointer; outside the buffer it returns whatever lies there. */
  function Peek(buf: seq<byte>, i: int, outside: int -> byte): (b: byte) {
    if 0 <= i < |buf| then buf[i] else outside(i)
  }

  function PeekWord(buf: seq<byte>, i: int, outside: int -> byte): (w: int)
    ensures 0 <= w <= 65535
  {
    Word(Peek(buf, i, outside), Peek(buf, i + 1, outside))
  }

  /** Word n is in hand, and the ones after it are found from the pointer on. */
  ghost predicate InBuffer(w: seq<int>, n: nat, buf: seq<byte>, outside: int -> byte, p: int, data: int) {
    && (n < |w| ==> data == w[n])
    && (forall i :: n < i < |w| ==> w[i] == PeekWord(buf, p + 2 * (i - n - 1), outside))
    && (forall i :: n <= i < |w| ==> 0 <= w[i] <= 65535)
  }

  /** The byte that a message leaves over, or -1. */
  function Leftover(m: seq<byte>): (c: int)
    ensures -1 <= c < 256 && (c == -1 <==> |m| % 2 == 0)
  {
    if |m| % 2 == 0 then -1 else m[|m| - 1]
  }

  lemma InBufferNext(w: seq<int>, n: nat, buf: seq<byte>, outside: int -> byte, p: int, data: int)
    requires InBuffer(w, n, buf, outside, p, data)
    ensures InBuffer(w, n + 1, buf, outside, p + 2, PeekWord(buf, p, outside))
  {
    forall i | n + 1 < i < |w|
      ensures w[i] == PeekWord(buf, p + 2 + 2 * (i - (n + 1) - 1), outside)
    {
      assert p + 2 + 2 * (i - (n + 1) - 1) == p + 2 * (i - n - 1);
    }
  }

  class Context {
    var sum1: u32
    var sum2: u32
    var carry: int

    /** The context after a message, however it was cut into pieces. */
    ghost predicate Tracks(m: seq<byte>)
      reads this
    {
      && Stands(sum1, sum2, Words(m), |m| / 2, 0)
      && carry == Leftover(m)
    }

    constructor ()
      ensures Tracks([])
    {
      sum1, sum2, carry := 0xFFFF, 0xFFFF, -1;
    }

    /** The body of the inner loop: both sums grow, and neither overflows. */
    method AddWord(data: int, ghost w: seq<int>, ghost n: nat, ghost i: nat)
      requires Stands(sum1, sum2, w, n, i) && i < CHUNK
      requires n < |w| && data == w[n] && 0 <= data <= 65535
      modifies this`sum1, this`sum2
      ensures Stands(sum1, sum2, w, n + 1, i + 1)
    {
      StandsNext(sum1, sum2, w, n, i);
      sum1 := sum1 + data;
      sum2 := sum2 + sum1;
    }

    /** One turn of the inner loop: a word is added and the next one prefetched. */
    method AddAndFetch(buf: seq<byte>, outside: int -> byte, at: int, first: int, ghost w: seq<int>, ghost n: nat, ghost i: nat)
      returns (p: int, data: int)
      requires Stands(sum1, sum2, w, n, i) && i < CHUNK && n < |w|
      requires InBuffer(w, n, buf, outside, at, first)
      modifies this`sum1, this`sum2
      ensures Stands(sum1, sum2, w, n + 1, i + 1) && InBuffer(w, n + 1, buf, outside, p, data)
    {
      AddWord(first, w, n, i);
      InBufferNext(w, n, buf, outside, at, first);
      data := PeekWord(buf, at, outside);
      p := at + 2;
    }

    /** The reduction after a chunk. */
    method Reduce(ghost w: seq<int>, ghost n: nat, ghost i: nat)
      requires Stands(sum1, sum2, w, n, i) && i <= CHUNK
      modifies this`sum1, this`sum2
      ensures Stands(sum1, sum2, w, n, 0)
    {
      StandsFold(sum1, sum2, w, n, i);
      sum1 := Fold(sum1);
      sum2 := Fold(sum2);
    }

    /** The inner loop with its prefetch, and the reduction that follows it. */
    method AddChunk(buf: seq<byte>, outside: int -> byte, at: int, first: int, count: nat,
                    ghost w: seq<int>, ghost n: nat)
      returns (p: int, data: int)
      requires 0 < count <= CHUNK && n + count <= |w|
      requires Stands(sum1, sum2, w, n, 0) && InBuffer(w, n, buf, outside, at, first)
      modifies this`sum1, this`sum2
      ensures Stands(sum1, sum2, w, n + count, 0) && InBuffer(w, n + count, buf, outside, p, data)
    {
      p, data := at, first;
      var tlen := count;
      ghost var k, i := n, 0;
      while tlen > 0
        invariant 0 <= tlen <= count && i == count - tlen && k == n + i
        invariant Stands(sum1, sum2, w, k, i)
        invariant InBuffer(w, k, buf, outside, p, data)
      {
        p, data := AddAndFetch(buf, outside, p, data, w, k, i);
        tlen := tlen - 1;
        k, i := k + 1, i + 1;
      }
      Reduce(w, k, i);
    }

    /** The outer loop: chunks of at most 360 words. */
    method AddWords(buf: seq<byte>, outside: int -> byte, at: int, first: int, count: nat,
                    ghost w: seq<int>, ghost n: nat)
      requires n + count <= |w|
      requires Stands(sum1, sum2, w, n, 0) && InBuffer(w, n, buf, outside, at, first)
      modifies this`sum1, this`sum2
      ensures Stands(sum1, sum2, w, n + count, 0)
    {
      var l, p, data := count, at, first;
      ghost var k := n;
      while l > 0
        invariant 0 <= l <= count && k == n + count - l
        invariant Stands(sum1, sum2, w, k, 0)
        invariant InBuffer(w, k, buf, outside, p, data)
      {
        var tlen;
        tlen, p, data := AddSome(buf, outside, p, data, l, w, k);
        l := l - tlen;
        k := k + tlen;
      }
    }

    method AddSome(buf: seq<byte>, outside: int -> byte, at: int, first: int, l: nat, ghost w: seq<int>, ghost n: nat)
      returns (tlen: nat, p: int, data: int)
      requires 0 < l && n + l <= |w|
      requires Stands(sum1, sum2, w, n, 0) && InBuffer(w, n, buf, outside, at, first)
      modifies this`sum1, this`sum2
      ensures 0 < tlen <= l
      ensures Stands(sum1, sum2, w, n + tlen, 0) && InBuffer(w, n + tlen, buf, outside, p, data)
    {
      tlen := if l <= CHUNK then l else CHUNK;
      p, data := AddChunk(buf, outside, at, first, tlen, w, n);
    }

    /** fletcher32.c:50-67: pick up the odd byte left over, get hold of the first word, put an odd byte aside. */
    method Begin(buf: seq<byte>, outside: int -> byte, ghost m: seq<byte>) returns (p: int, data: int, count: nat)
      requires carry == Leftover(m)
      modifies this`carry
      ensures carry == Leftover(m + buf)
      ensures |m| / 2 + count == |m + buf| / 2
      ensures InBuffer(WholeWords(m + buf), |m| / 2, buf, outside, p, data)
    {
      WordsInBuffer(m, buf, outside);
      var len := |buf|;
      p, data := 0, 0;
      var last := Peek(buf, len - 1, outside);
      if carry != -1 && len > 0 {
        data := Word(carry, Peek(buf, 0, outside));
        p := 1;
        carry := -1;
        len := len + 1;
      } else if len > 1 {
        data := PeekWord(buf, 0, outside);
        p := 2;
      }
      if len % 2 == 1 {
        carry := last;
      }
      count := len / 2;
    }

    /**
      * One piece of the message. The byte in front of an empty buffer and the words behind
      * the end of a buffer are read, but whatever they are, the result is the same.
      */
    method Update(buf: seq<byte>, outside: int -> byte, ghost m: seq<byte>)
      requires Tracks(m)
      modifies this
      ensures Tracks(m + buf)
    {
      ghost var n, w, k := |m| / 2, WholeWords(m + buf), |m + buf| / 2;
      WholeWordsOfLonger(m, buf);
      StandsForPrefix(sum1, sum2, Words(m), w, n);
      var p, data, count := Begin(buf, outside, m);
      AddWords(buf, outside, p, data, count, w, n);
      StandsForPrefix(sum1, sum2, w, Words(m + buf), k);
    }

    /** The checksum of the whole message; the context is left as it is. */
    method Final(ghost m: seq<byte>) returns (r: u32)
      requires Tracks(m)
      ensures r == Digest(m)
    {
      var s1, s2 := sum1, sum2;
      if carry != -1 {
        LastWord(m);
        StandsNext(s1, s2, Words(m), |m| / 2, 0);
        s1 := s1 + carry;
        s2 := s2 + s1;
        FoldReduces(s1);
        FoldReduces(s2);
        s1 := Fold(s1);
        s2 := Fold(s2);
      }
      FoldReduces(s1);
      FoldReduces(s2);
      s1 := Fold(s1);
      s2 := Fold(s2);
      CanonicalIs(s1, SumTo(Words(m), |Words(m)|));
      CanonicalIs(s2, SumsTo(Words(m), |Words(m)|));
      r := s2 * 65536 + s1;
    }
  }

  /** The words of a message that are complete: an odd last byte is left for later. */
  function WholeWords(m: seq<byte>): (w: seq<int>)
    ensures |w| == |m| / 2
  {
    Words(m)[..|m| / 2]
  }

  lemma {:induction false} WordAt(m: seq<byte>, i: nat)
    requires 2 * i + 1 < |m|
    ensures Words(m)[i] == Word(m[2 * i], m[2 * i + 1])
    decreases |m|
  {
    if i > 0 {
      WordAt(m[2..], i - 1);
    }
  }

  lemma {:induction false} LastWord(m: seq<byte>)
    requires |m| % 2 == 1
    ensures Words(m)[|m| / 2] == m[|m| - 1]
  {
    if |m| > 1 {
      LastWord(m[2..]);
    }
  }

  lemma StandsForPrefix(sum1: int, sum2: int, v: seq<int>, w: seq<int>, n: nat)
    requires Stands(sum1, sum2, v, n, 0)
    requires n <= |w| && forall i :: 0 <= i < n ==> v[i] == w[i]
    ensures Stands(sum1, sum2, w, n, 0)
  {
    SumsOfPrefix(v, w, n);
  }

  lemma WholeWordsOfLonger(m: seq<byte>, b: seq<byte>)
    ensures forall i :: 0 <= i < |m| / 2 ==> Words(m)[i] == WholeWords(m + b)[i]
  {
    forall i | 0 <= i < |m| / 2
      ensures Words(m)[i] == WholeWords(m + b)[i]
    {
      WordAt(m, i);
      WordAt(m + b, i);
    }
  }

  /** The new whole words: the first may start with the odd byte left over, the others lie in the buffer. */
  lemma WordsInBuffer(m: seq<byte>, buf: seq<byte>, outside: int -> byte)
    ensures var (w, n) := (WholeWords(m + buf), |m| / 2);
            if |m| % 2 == 0 then InBuffer(w, n, buf, outside, 2, PeekWord(buf, 0, outside))
            else InBuffer(w, n, buf, outside, 1, Word(m[|m| - 1], Peek(buf, 0, outside)))
  {
    var w, n := WholeWords(m + buf), |m| / 2;
    forall i | n < i < |w|
      ensures w[i] == PeekWord(buf, 2 * i - |m|, outside)
    {
      WordInBuffer(m, buf, outside, i);
    }
    if n < |w| {
      FirstNewWord(m, buf, outside);
    }
  }

  lemma WordInBuffer(m: seq<byte>, buf: seq<byte>, outside: int -> byte, i: nat)
    requires |m| <= 2 * i && i < |m + buf| / 2
    ensures WholeWords(m + buf)[i] == PeekWord(buf, 2 * i - |m|, outside)
  {
    var all := m + buf;
    WordAt(all, i);
    assert all[2 * i] == buf[2 * i - |m|] && all[2 * i + 1] == buf[2 * i + 1 - |m|];
  }

  lemma FirstNewWord(m: seq<byte>, buf: seq<byte>, outside: int -> byte)
    requires |m| / 2 < |m + buf| / 2
    ensures WholeWords(m + buf)[|m| / 2] ==
            if |m| % 2 == 0 then PeekWord(buf, 0, outside) else Word(m[|m| - 1], Peek(buf, 0, outside))
  {
    if |m| % 2 == 0 {
      WordInBuffer(m, buf, outside, |m| / 2);
    } else {
      WordAt(m + buf, |m| / 2);
    }
  }

  // ---------------------------------------------------------------------
  // Whole messages
  // ---------------------------------------------------------------------

  function Flatten(pieces: seq<seq<byte>>): (m: seq<byte>) {
    if pieces == [] then [] else Flatten(pieces[..|pieces| - 1]) + pieces[|pieces| - 1]
  }

  /** However a message is cut into update calls, the checksum is that of the whole message. */
  method Checksum(pieces: seq<seq<byte>>, outside: int -> byte) returns (r: u32)
    ensures r == Digest(Flatten(pieces))
  {
    var f := new Context();
    var i := 0;
    while i < |pieces|
      invariant 0 <= i <= |pieces| && f.Tracks(Flatten(pieces[..i]))
    {
      assert pieces[..i + 1][..i] == pieces[..i];
      f.Update(pieces[i], outside, Flatten(pieces[..i]));
      i := i + 1;
    }
    assert pieces[..i] == pieces;
    r := f.Final(Flatten(pieces));
  }

  // ---------------------------------------------------------------------
  // The digest in terms of bytes
  // ---------------------------------------------------------------------

  /** What a byte counts for: once at even places, 256 times at odd ones. */
  function Value(m: seq<byte>, i: nat): (v: int)
    requires i < |m|
  {
    var b: int := m[i];
    if i % 2 == 0 then b else 256 * b
  }

  function ByteSum(m: seq<byte>, n: nat): (r: int)
    requires n <= |m|
  {
    if n == 0 then 0 else ByteSum(m, n - 1) + Value(m, n - 1)
  }

  /** The same, each byte multiplied by the number of words from its own to the last of so many. */
  function WeightedSum(m: seq<byte>, words: int, n: nat): (r: int)
    requires n <= |m|
  {
    if n == 0 then 0 else WeightedSum(m, words, n - 1) + Value(m, n - 1) * (words - (n - 1) / 2)
  }

  /** Words multiplied by the number of words from their own to the last of so many. */
  function Dot(w: seq<int>, words: int, n: nat): (r: int)
    requires n <= |w|
  {
    if n == 0 then 0 else Dot(w, words, n - 1) + w[n - 1] * (words - (n - 1))
  }

  lemma {:induction false} DotMore(w: seq<int>, words: int, n: nat)
    requires n <= |w|
    ensures Dot(w, words + 1, n) == Dot(w, words, n) + SumTo(w, n)
  {
    if n > 0 {
      DotMore(w, words, n - 1);
      Distribute(w[n - 1], words - (n - 1), 1);
    }
  }

  lemma Distribute(a: int, b: int, c: int)
    ensures a * (b + c) == a * b + a * c
  {
  }

  /** The sum of prefix sums counts every word once for each prefix it is in. */
  lemma {:induction false} SumsAreDot(w: seq<int>, n: nat)
    requires n <= |w|
    ensures SumsTo(w, n) == Dot(w, n, n)
  {
    if n > 0 {
      SumsAreDot(w, n - 1);
      DotMore(w, n - 1, n - 1);
    }
  }

  lemma Places(j: nat)
    ensures (2 * j) % 2 == 0 && (2 * j + 1) % 2 == 1 && 2 * j / 2 == j && (2 * j + 1) / 2 == j
  {
  }

  lemma ValuesOfWord(m: seq<byte>, j: nat)
    requires 2 * j + 1 < |m|
    ensures Value(m, 2 * j) + Value(m, 2 * j + 1) == Words(m)[j]
  {
    WordAt(m, j);
    Places(j);
  }

  lemma {:induction false} SumOfBytes(m: seq<byte>, w: seq<int>, n: nat, k: nat)
    requires w == Words(m) && k == 2 * n <= |m|
    ensures SumTo(w, n) == ByteSum(m, k)
  {
    if n > 0 {
      SumOfBytes(m, w, n - 1, k - 2);
      ValuesOfWord(m, n - 1);
      assert ByteSum(m, k - 1) == ByteSum(m, k - 2) + Value(m, k - 2);
    }
  }

  lemma {:induction false} DotOfBytes(m: seq<byte>, w: seq<int>, words: int, n: nat, k: nat)
    requires w == Words(m) && k == 2 * n <= |m|
    ensures Dot(w, words, n) == WeightedSum(m, words, k)
  {
    if n > 0 {
      DotOfBytes(m, w, words, n - 1, k - 2);
      ValuesOfWord(m, n - 1);
      TwoMore(m, words, n - 1, k - 2);
      Combine(Value(m, k - 2), Value(m, k - 1), words - (n - 1));
    }
  }

  lemma TwoMore(m: seq<byte>, words: int, j: nat, k: nat)
    requires k == 2 * j && k + 2 <= |m|
    ensures WeightedSum(m, words, k + 2) ==
            WeightedSum(m, words, k) + Value(m, k) * (words - j) + Value(m, k + 1) * (words - j)
  {
    assert k / 2 == j && (k + 1) / 2 == j;
    assert WeightedSum(m, words, k + 1) == WeightedSum(m, words, k) + Value(m, k) * (words - j);
  }

  lemma Combine(a: int, b: int, c: int)
    ensures a * c + b * c == (a + b) * c
  {
  }

  /** Both sums over all words, an odd last byte included. */
  lemma WholeSums(m: seq<byte>, w: seq<int>, h: nat)
    requires w == Words(m) && (|m| == 2 * h || |m| == 2 * h + 1)
    ensures SumTo(w, |w|) == ByteSum(m, |m|) && SumsTo(w, |w|) == WeightedSum(m, |w|, |m|)
  {
    SumsAreDot(w, |w|);
    SumOfBytes(m, w, h, 2 * h);
    DotOfBytes(m, w, |w|, h, 2 * h);
    if |m| == 2 * h + 1 {
      LastWordIs(m, w, h);
      OddEnd(m, w, h);
    }
  }

  lemma LastWordIs(m: seq<byte>, w: seq<int>, h: nat)
    requires w == Words(m) && |m| == 2 * h + 1
    ensures |w| == h + 1 && w[h] == m[2 * h]
  {
    LastWord(m);
  }

  lemma OddEnd(m: seq<byte>, w: seq<int>, h: nat)
    requires |m| == 2 * h + 1 && |w| == h + 1 && w[h] == m[2 * h]
    ensures SumTo(w, h + 1) == SumTo(w, h) + m[2 * h] && ByteSum(m, 2 * h + 1) == ByteSum(m, 2 * h) + m[2 * h]
    ensures Dot(w, h + 1, h + 1) == Dot(w, h + 1, h) + m[2 * h]
    ensures WeightedSum(m, h + 1, 2 * h + 1) == WeightedSum(m, h + 1, 2 * h) + m[2 * h]
  {
    Places(h);
    assert Value(m, 2 * h) == m[2 * h];
  }

  /**
    * The digest in terms of the bytes of a message: which half is which, and what each byte
    * contributes to both. Together with the ranges this leaves no other digest.
    */
  lemma DigestOverBytes(m: seq<byte>)
    ensures var (lo, hi, n) := (Digest(m) % 65536, Digest(m) / 65536, |m|);
            && 1 <= lo <= 65535 && lo % 65535 == ByteSum(m, n) % 65535
            && 1 <= hi <= 65535 && hi % 65535 == WeightedSum(m, (n + 1) / 2, n) % 65535
  {
    WholeSums(m, Words(m), |m| / 2);
    DigestHalves(m);
  }

  lemma DigestHalves(m: seq<byte>)
    ensures var w := Words(m);
            Digest(m) % 65536 == Canonical(SumTo(w, |w|)) && Digest(m) / 65536 == Canonical(SumsTo(w, |w|))
  {
    var w := Words(m);
    Halves(Canonical(SumsTo(w, |w|)), Canonical(SumTo(w, |w|)));
  }

  lemma Halves(hi: int, lo: int)
    requires 0 <= lo < 65536
    ensures (hi * 65536 + lo) % 65536 == lo && (hi * 65536 + lo) / 65536 == hi
  {
  }

  lemma {:induction false} WordsPadded(m: seq<byte>)
    requires |m| % 2 == 1
    ensures Words(m + [0]) == Words(m)
  {
    if |m| > 1 {
      assert (m + [0])[2..] == m[2..] + [0];
      WordsPadded(m[2..]);
    }
  }

  /** A zero byte after an odd one changes nothing. */
  lemma ZeroPadded(m: seq<byte>)
    requires |m| % 2 == 1
    ensures Digest(m + [0]) == Digest(m)
  {
    WordsPadded(m);
  }

  // ---------------------------------------------------------------------
  // How far the reduction can be put off
  // ---------------------------------------------------------------------

  function Ones(n: nat): (w: seq<int>)
    ensures |w| == n
  {
    seq(n, _ => 65535)
  }

  lemma {:induction false} SumsOfOnes(n: nat, k: nat)
    requires n <= k
    ensures SumTo(Ones(k), n) == 65535 * n && SumsTo(Ones(k), n) == 65535 * Triangle(n)
  {
    if n > 0 {
      SumsOfOnes(n - 1, k);
    }
  }

  /**
    * 360 is the largest chunk: the second sum of a fresh context after n words of all ones,
    * left unreduced, still fits 32 bits for n = 360 and no longer does for n = 361.
    */
  lemma ChunkIsLargest()
    ensures 0xFFFF + 0xFFFF * 360 + SumsTo(Ones(360), 360) < 0x1_0000_0000
    ensures 0xFFFF + 0xFFFF * 361 + SumsTo(Ones(361), 361) >= 0x1_0000_0000
  {
    SumsOfOnes(360, 360);
    SumsOfOnes(361, 361);
    TriangleIs(360);
    TriangleIs(361);
  }
}
