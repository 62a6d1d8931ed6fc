/**
  * The MD2 message digest of bertos/algo/md2.c: a context that is fed a message in pieces,
  * and the digest of the whole message as sections 3.1 to 3.4 of RFC 1319 define it.
  */
module Md2 {
  /**
    * A substitution of bytes, the way two bytes are combined, the way a round number is added to a
    * byte, and a number of rounds. The equality of the two forms of the digest depends on none of them.
    */
  datatype Cipher = Cipher(perm: bv8 -> bv8, xor: (bv8, bv8) -> bv8, add: (bv8, nat) -> bv8, rounds: nat)

  // The substitution

  /** `md2_perm`, with the product and the rotation cut to eight bits by each assignment. */
  function Perm(i: bv8): (r: bv8) {
    var five: bv8 := i * 5;
    var turned: bv8 := (five >> 2) | (five << 6);
    (turned ^ 172) * 3
  }

  function PermInverse(r: bv8): (i: bv8) {
    var turned: bv8 := (r * 171) ^ 172;
    var five: bv8 := (turned << 2) | (turned >> 6);
    five * 205
  }

  lemma TimesThree(x: bv8)
    ensures x * 3 * 171 == x && x * 171 * 3 == x
  {}

  lemma TimesFive(x: bv8)
    ensures x * 5 * 205 == x && x * 205 * 5 == x
  {}

  lemma Turning(x: bv8)
    ensures (((x >> 2) | (x << 6)) << 2) | (((x >> 2) | (x << 6)) >> 6) == x
    ensures (((x << 2) | (x >> 6)) >> 2) | (((x << 2) | (x >> 6)) << 6) == x
  {}

  lemma Flipping(x: bv8)
    ensures (x ^ 172) ^ 172 == x
  {}

  /** The substitution is a permutation of the bytes: every byte is the image of exactly one. */
  lemma PermIsPermutation(i: bv8, r: bv8)
    ensures Perm(i) == r <==> i == PermInverse(r)
  {
    if Perm(i) == r {
      var five: bv8 := i * 5;
      var turned: bv8 := (five >> 2) | (five << 6);
      TimesThree(turned ^ 172);
      Flipping(turned);
      Turning(five);
      TimesFive(i);
    }
    if i == PermInverse(r) {
      var turned: bv8 := (r * 171) ^ 172;
      var five: bv8 := (turned << 2) | (turned >> 6);
      TimesFive(five);
      Turning(turned);
      Flipping(r * 171);
      TimesThree(r);
    }
  }

  /** Some of its values. */
  lemma PermValues()
    ensures Perm(0) == 4 && Perm(1) == 199 && Perm(2) == 138 && Perm(255) == 246
  {
  }

  /** What the firmware is built with: its own substitution and 18 rounds. */
  const FIRMWARE: Cipher := Cipher(Perm, (a, b) => a ^ b, (t, i) => t + (i % 256) as bv8, 18)

  // The digest of a whole message

  /** Section 3.1: as many bytes as complete the last block, each of them that number. */
  function Padding(length: nat): (p: seq<bv8>)
    ensures (length + |p|) % 16 == 0
    ensures 1 <= |p| <= 16 && forall i :: 0 <= i < |p| ==> p[i] as int == |p|
  {
    var n := 16 - length % 16;
    RoundUp(length, n);
    ByteValue(n);
    seq(n, i => n as bv8)
  }

  lemma RoundUp(length: nat, n: nat)
    requires n == 16 - length % 16
    ensures (length + n) % 16 == 0
  {}

  lemma ByteValue(n: nat)
    requires 1 <= n <= 16
    ensures n as bv8 as int == n
  {
    if n <= 4 {
      assert n == 1 || n == 2 || n == 3 || n == 4;
    } else if n <= 8 {
      assert n == 5 || n == 6 || n == 7 || n == 8;
    } else if n <= 12 {
      assert n == 9 || n == 10 || n == 11 || n == 12;
    } else {
      assert n == 13 || n == 14 || n == 15 || n == 16;
    }
  }

  function Zeros(): (z: seq<bv8>)
    ensures |z| == 16
  {
    seq(16, i => 0)
  }

  datatype Sum = Sum(c: seq<bv8>, l: bv8)

  /**
    * Section 3.2 after the first `n` bytes: every byte goes into the checksum byte at its own
    * position, together with the checksum byte made just before it.
    */
  function SumAfter(s: Cipher, m: seq<bv8>, n: nat): (r: Sum)
    requires n <= |m|
    ensures |r.c| == 16
  {
    if n == 0 then Sum(Zeros(), 0) else
      var before := SumAfter(s, m, n - 1);
      var k := (n - 1) % 16;
      var b := s.xor(before.c[k], s.perm(s.xor(m[n - 1], before.l)));
      Sum(before.c[k := b], b)
  }

  datatype Pass = Pass(x: seq<bv8>, t: bv8)

  /** Section 3.4 inside one block: after `i` whole rounds and `j` bytes of the next. */
  function Mix(s: Cipher, x: seq<bv8>, i: nat, j: nat): (p: Pass)
    requires |x| == 48 && j <= 48
    ensures |p.x| == 48
    decreases i, j
  {
    if j > 0 then
      var before := Mix(s, x, i, j - 1);
      var b := s.xor(before.x[j - 1], s.perm(before.t));
      Pass(before.x[j - 1 := b], b)
    else if i > 0 then
      var before := Mix(s, x, i - 1, 48);
      Pass(before.x, s.add(before.t, i - 1))
    else
      Pass(x, 0)
  }

  function Loaded(s: Cipher, state: seq<bv8>, block: seq<bv8>): (x: seq<bv8>)
    requires |state| == |block| == 16
    ensures |x| == 48
  {
    state + block + seq(16, i requires 0 <= i < 16 => s.xor(state[i], block[i]))
  }

  /** The digest state after the first `q` blocks of a message. */
  function Absorb(s: Cipher, m: seq<bv8>, q: nat): (r: seq<bv8>)
    requires 16 * q <= |m|
    ensures |r| == 16
  {
    if q == 0 then Zeros()
    else Mix(s, Loaded(s, Absorb(s, m, q - 1), m[16 * q - 16..16 * q]), s.rounds, 0).x[..16]
  }

  function Padded(m: seq<bv8>): (p: seq<bv8>)
    ensures |p| == 16 * (|m| / 16 + 1)
  {
    m + Padding(|m|)
  }

  /** The whole of RFC 1319: pad, append the checksum, digest the blocks. */
  function Digest(s: Cipher, m: seq<bv8>): (r: seq<bv8>)
    ensures |r| == 16
  {
    var p := Padded(m);
    Absorb(s, p + SumAfter(s, p, |p|).c, |m| / 16 + 2)
  }

  /** The padding can be told from the message: no two messages are the same once padded. */
  lemma PaddedTells(m: seq<bv8>, w: seq<bv8>)
    ensures Padded(m) == Padded(w) <==> m == w
  {
    var p := Padded(m);
    if p == Padded(w) {
      assert p[|p| - 1] as int == |Padding(|m|)|;
      assert p[|p| - 1] as int == |Padding(|w|)|;
      assert m == p[..|m|] && w == p[..|m|];
    }
  }

  // What the two folds depend on

  ghost predicate Agree(m: seq<bv8>, w: seq<bv8>, n: nat) {
    n <= |m| && n <= |w| && forall i :: 0 <= i < n ==> m[i] == w[i]
  }

  lemma {:induction false} SumOfPrefix(s: Cipher, m: seq<bv8>, w: seq<bv8>, n: nat)
    requires Agree(m, w, n)
    ensures SumAfter(s, m, n) == SumAfter(s, w, n)
  {
    if n > 0 {
      SumOfPrefix(s, m, w, n - 1);
    }
  }

  lemma {:induction false} AbsorbOfPrefix(s: Cipher, m: seq<bv8>, w: seq<bv8>, q: nat)
    requires Agree(m, w, 16 * q)
    ensures Absorb(s, m, q) == Absorb(s, w, q)
  {
    if q > 0 {
      AbsorbOfPrefix(s, m, w, q - 1);
      assert m[16 * q - 16..16 * q] == w[16 * q - 16..16 * q];
    }
  }

  /** Between blocks the byte carried along is the last one of the checksum. */
  lemma CarriedByte(s: Cipher, m: seq<bv8>, q: nat)
    requires 16 * q <= |m|
    ensures SumAfter(s, m, 16 * q).l == SumAfter(s, m, 16 * q).c[15]
  {
    if q > 0 {
      assert (16 * q - 1) % 16 == 15;
    }
  }

  lemma SumNext(s: Cipher, m: seq<bv8>, q: nat, i: nat, n: nat, c: seq<bv8>, x: bv8, l: bv8)
    requires i < 16 && n == 16 * q + i && n < |m|
    requires SumAfter(s, m, n) == Sum(c, l) && m[n] == x
    ensures var b := s.xor(c[i], s.perm(s.xor(x, l))); SumAfter(s, m, n + 1) == Sum(c[i := b], b)
  {
    assert n % 16 == i;
  }

  lemma AbsorbNext(s: Cipher, m: seq<bv8>, q: nat)
    requires 16 * q + 16 <= |m|
    ensures Absorb(s, m, q + 1) == Mix(s, Loaded(s, Absorb(s, m, q), m[16 * q..16 * q + 16]), s.rounds, 0).x[..16]
  {}

  lemma ByteAt(m: seq<bv8>, q: nat, b: seq<bv8>, i: nat)
    requires 16 * q + 16 <= |m| && b == m[16 * q..16 * q + 16] && i < 16
    ensures b[i] == m[16 * q + i]
  {}

  // One block

  method Encrypt(s: Cipher, a: array<bv8>)
    requires a.Length == 48
    modifies a
    ensures a[..] == Mix(s, old(a[..]), s.rounds, 0).x
  {
    ghost var x := a[..];
    var t: bv8 := 0;
    for i := 0 to s.rounds
      invariant a[..] == Mix(s, x, i, 0).x && t == Mix(s, x, i, 0).t
    {
      for j := 0 to 48
        invariant a[..] == Mix(s, x, i, j).x && t == Mix(s, x, i, j).t
      {
        a[j] := s.xor(a[j], s.perm(t));
        t := a[j];
      }
      t := s.add(t, i);
    }
  }

  method SumByte(s: Cipher, checksum: array<bv8>, x: bv8, t: bv8, i: nat, ghost m: seq<bv8>, ghost q: nat, ghost n: nat)
    returns (b: bv8)
    requires checksum.Length == 16 && i < 16 && n == 16 * q + i && n < |m| && m[n] == x
    requires SumAfter(s, m, n) == Sum(checksum[..], t)
    modifies checksum
    ensures SumAfter(s, m, n + 1) == Sum(checksum[..], b)
  {
    SumNext(s, m, q, i, n, checksum[..], x, t);
    checksum[i] := s.xor(checksum[i], s.perm(s.xor(x, t)));
    b := checksum[i];
  }

  method UpdateChecksum(s: Cipher, checksum: array<bv8>, block: array<bv8>, ghost m: seq<bv8>, ghost q: nat)
    requires checksum.Length == block.Length == 16 && checksum != block
    requires 16 * q + 16 <= |m| && block[..] == m[16 * q..16 * q + 16]
    requires checksum[..] == SumAfter(s, m, 16 * q).c
    modifies checksum
    ensures checksum[..] == SumAfter(s, m, 16 * q + 16).c
  {
    CarriedByte(s, m, q);
    var t := checksum[15];
    ghost var n := 16 * q;
    for i := 0 to 16
      invariant n == 16 * q + i
      invariant SumAfter(s, m, n) == Sum(checksum[..], t)
    {
      ByteAt(m, q, block[..], i);
      t := SumByte(s, checksum, block[i], t, i, m, q, n);
      n := n + 1;
    }
  }

  method Load(s: Cipher, a: array<bv8>, state: array<bv8>, block: array<bv8>)
    requires a.Length == 48 && state.Length == block.Length == 16
    requires a != state && a != block
    modifies a
    ensures a[..] == Loaded(s, state[..], block[..])
  {
    forall i | 0 <= i < 16 {
      a[i] := state[i];
    }
    forall i | 16 <= i < 32 {
      a[i] := block[i - 16];
    }
    var j := 32;
    for i := 0 to 16
      invariant j == i + 32
      invariant forall k :: 0 <= k < j ==> a[k] == Loaded(s, state[..], block[..])[k]
    {
      a[j] := s.xor(state[i], block[i]);
      j := j + 1;
    }
  }

  /** `md2_compute`: one more block goes into the state and into the checksum. */
  method Compute(s: Cipher, state: array<bv8>, checksum: array<bv8>, block: array<bv8>, ghost m: seq<bv8>, ghost q: nat)
    requires state.Length == checksum.Length == block.Length == 16
    requires state != checksum && state != block && checksum != block
    requires 16 * q + 16 <= |m| && block[..] == m[16 * q..16 * q + 16]
    requires state[..] == Absorb(s, m, q)
    requires checksum[..] == SumAfter(s, m, 16 * q).c
    modifies state, checksum
    ensures state[..] == Absorb(s, m, q + 1)
    ensures checksum[..] == SumAfter(s, m, 16 * q + 16).c
  {
    var a := new bv8[48];
    Load(s, a, state, block);
    Encrypt(s, a);
    UpdateChecksum(s, checksum, block, m, q);
    CopyFront(state, a);
    AbsorbNext(s, m, q);
  }

  method CopyFront(state: array<bv8>, a: array<bv8>)
    requires state.Length == 16 && a.Length == 48
    modifies state
    ensures state[..] == old(a[..])[..16]
  {
    forall i | 0 <= i < 16 {
      state[i] := a[i];
    }
  }

  // The context

  class Context {
    const cipher: Cipher
    const buffer: array<bv8>
    const state: array<bv8>
    const checksum: array<bv8>
    var counter: nat

    ghost predicate Shape() {
      && buffer.Length == state.Length == checksum.Length == 16
      && buffer != state && buffer != checksum && state != checksum
    }

    /** The context after a message of `q` blocks and `counter` bytes more, a full buffer included. */
    ghost predicate Buffers(m: seq<bv8>, q: nat)
      reads this, buffer, state, checksum
    {
      && Shape() && counter <= 16 && |m| == 16 * q + counter
      && buffer[..counter] == m[16 * q..]
      && state[..] == Absorb(cipher, m, q)
      && checksum[..] == SumAfter(cipher, m, 16 * q).c
    }

    ghost predicate HoldsBlocks(m: seq<bv8>, q: nat)
      reads this, buffer, state, checksum
    {
      counter < 16 && Buffers(m, q)
    }

    /** The context after a message, however it was cut into pieces. */
    ghost predicate Holds(m: seq<bv8>)
      reads this, buffer, state, checksum
    {
      HoldsBlocks(m, |m| / 16)
    }

    constructor (s: Cipher)
      ensures cipher == s && Holds([]) && fresh(buffer) && fresh(state) && fresh(checksum)
    {
      cipher := s;
      buffer := new bv8[16](i => 0);
      state := new bv8[16](i => 0);
      checksum := new bv8[16](i => 0);
      counter := 0;
      new;
      assert state[..] == Zeros();
      assert checksum[..] == Zeros();
    }

    /** The copy in `md2_update`. */
    method Store(src: array<bv8>, p: nat, n: nat)
      requires Shape() && src != buffer
      requires p + n <= src.Length && counter + n <= 16
      modifies buffer
      ensures buffer[..counter + n] == old(buffer[..counter]) + src[p..p + n]
    {
      forall i | 0 <= i < n {
        buffer[counter + i] := src[p + i];
      }
    }

    /** One turn of the loop of `md2_update`: bytes that fit in the buffer, and the block if they fill it. */
    method Take(src: array<bv8>, p: nat, n: nat, ghost m: seq<bv8>, ghost q: nat) returns (ghost r: nat)
      requires HoldsBlocks(m, q) && src != buffer
      requires p + n <= src.Length && n <= 16 - counter
      modifies this, buffer, state, checksum
      ensures HoldsBlocks(m + old(src[p..p + n]), r)
    {
      ghost var piece := src[p..p + n];
      Longer(cipher, m, piece, q);
      Store(src, p, n);
      counter := counter + n;
      r := Empty(m + piece, q);
    }

    /** A full buffer is computed. */
    method Empty(ghost m: seq<bv8>, ghost q: nat) returns (ghost r: nat)
      requires Buffers(m, q)
      modifies this, state, checksum
      ensures HoldsBlocks(m, r)
    {
      r := q;
      if counter >= 16 {
        LastBlock(buffer[..], m, q);
        Compute(cipher, state, checksum, buffer, m, q);
        counter := 0;
        r := q + 1;
      }
    }

    /** As many bytes as fit in the buffer, out of those that are left. */
    method TakeSome(src: array<bv8>, p: nat, left: nat, ghost fed: seq<bv8>, ghost rest: seq<bv8>, ghost q: nat)
      returns (n: nat, ghost r: nat)
      requires HoldsBlocks(fed, q) && src != buffer && 0 < left && p + left <= src.Length && src[..][p..p + left] == rest
      modifies this, buffer, state, checksum
      ensures 0 < n <= left && HoldsBlocks(fed + rest[..n], r)
      ensures n == if left <= 16 - old(counter) then left else 16 - old(counter)
    {
      n := if left <= 16 - counter then left else 16 - counter;
      assert src[p..p + n] == rest[..n];
      r := Take(src, p, n, fed, q);
    }

    /**
      * `md2_update`. The input may be the context's own state or checksum as long as it is
      * used up before they change.
      */
    method Update(src: array<bv8>, at: nat, len: nat, ghost m: seq<bv8>)
      requires Holds(m) && at + len <= src.Length && src != buffer
      requires src == state || src == checksum ==> len <= 16 - counter
      modifies this, buffer, state, checksum
      ensures Holds(m + old(src[at..at + len]))
    {
      ghost var whole, fed, rest := m + src[at..at + len], m, src[at..at + len];
      ghost var q: nat := |m| / 16;
      var p, left := at, len;
      while left > 0
        invariant 0 <= left && p + left == at + len && |rest| == left
        invariant fed + rest == whole
        invariant HoldsBlocks(fed, q)
        invariant left > 0 ==> src[..][p..p + left] == rest
        invariant left > 0 && (src == state || src == checksum) ==> left <= 16 - counter
      {
        ghost var all := src[..];
        var n;
        n, q := TakeSome(src, p, left, fed, rest, q);
        Slices(all, p, n, left);
        Regroup(fed, rest, rest[..n], n);
        fed, rest := fed + rest[..n], rest[n..];
        p := p + n;
        left := left - n;
      }
      Quotient(|fed|, q, counter);
      assert fed == fed + rest;
    }

    method UpdateTo(message: array<bv8>, i: nat, j: nat)
      requires i <= j <= message.Length && Holds(message[..i])
      requires message != buffer && message != state && message != checksum
      modifies this, buffer, state, checksum
      ensures Holds(message[..j])
    {
      Pieces(message[..], i, j);
      Update(message, i, j - i, message[..i]);
    }

    /** The first half of `md2_end`: the last block is filled up with `md2_pad`. */
    method FillUp(ghost m: seq<bv8>)
      requires Holds(m)
      modifies this, buffer, state, checksum
      ensures Holds(Padded(m))
    {
      var buf := new bv8[16];
      var n := 16 - counter;
      forall i | 0 <= i < n {
        buf[i] := n as bv8;
      }
      assert buf[0..n] == Padding(|m|);
      Update(buf, 0, n, m);
    }

    /** `md2_end`: the digest of everything that was fed. */
    method End(ghost m: seq<bv8>) returns (r: array<bv8>)
      requires Holds(m)
      modifies this, buffer, state, checksum
      ensures r == state && r[..] == Digest(cipher, m)
    {
      FillUp(m);
      ghost var p := Padded(m);
      ghost var c := checksum[..];
      Whole(c);
      PaddedBlocks(m);
      Update(checksum, 0, 16, p);
      DigestIs(cipher, m, c);
      r := state;
    }
  }

  /** The digest of a message that is fed in pieces, wherever it is cut. */
  method DigestInPieces(s: Cipher, message: array<bv8>, cuts: seq<nat>) returns (r: array<bv8>)
    requires Ascending(cuts, message.Length)
    ensures r[..] == Digest(s, message[..])
  {
    var context := new Context(s);
    var at: nat := 0;
    var ends := cuts + [message.Length];
    for i := 0 to |ends|
      invariant fresh(context) && fresh(context.buffer) && fresh(context.state) && fresh(context.checksum)
      invariant context.cipher == s
      invariant at <= message.Length && forall k :: i <= k < |ends| ==> at <= ends[k]
      invariant i == |ends| ==> at == message.Length
      invariant context.Holds(message[..at])
    {
      context.UpdateTo(message, at, ends[i]);
      at := ends[i];
    }
    assert message[..at] == message[..];
    r := context.End(message[..]);
  }

  /**
    * The digest as the firmware computes it: that of every cipher with 18 rounds whose combination
    * is the exclusive or and whose substitution has the firmware's values.
    */
  method FirmwareDigest(message: array<bv8>, cuts: seq<nat>) returns (r: array<bv8>)
    requires Ascending(cuts, message.Length)
    ensures forall s :: LikeFirmware(s) ==> r[..] == Digest(s, message[..])
  {
    r := DigestInPieces(FIRMWARE, message, cuts);
    forall s | LikeFirmware(s)
      ensures r[..] == Digest(s, message[..])
    {
      FirmwareIsAlike(s);
      DigestAlike(FIRMWARE, s, message[..]);
    }
  }

  ghost predicate LikeFirmware(s: Cipher) {
    && s.rounds == 18
    && (forall a, b {:trigger s.xor(a, b)} :: s.xor(a, b) == a ^ b)
    && (forall t, i {:trigger s.add(t, i)} :: s.add(t, i) == t + (i % 256) as bv8)
    && (forall i {:trigger s.perm(i)} :: s.perm(i) == Perm(i))
  }

  /** Two ciphers with the same values. */
  ghost predicate Alike(s: Cipher, u: Cipher) {
    && s.rounds == u.rounds
    && (forall a, b {:trigger s.xor(a, b)} :: s.xor(a, b) == u.xor(a, b))
    && (forall t, i {:trigger s.add(t, i)} :: s.add(t, i) == u.add(t, i))
    && (forall i {:trigger s.perm(i)} :: s.perm(i) == u.perm(i))
  }

  lemma FirmwareIsAlike(s: Cipher)
    requires LikeFirmware(s)
    ensures Alike(FIRMWARE, s)
  {
    assert FIRMWARE.rounds == 18;
    assert forall a, b {:trigger FIRMWARE.xor(a, b)} :: FIRMWARE.xor(a, b) == a ^ b;
  }

  lemma AlikeAt(s: Cipher, u: Cipher, a: bv8, b: bv8, i: nat)
    requires Alike(s, u)
    ensures s.xor(a, b) == u.xor(a, b) && s.perm(b) == u.perm(b) && s.add(b, i) == u.add(b, i)
  {}

  lemma {:induction false} MixAlike(s: Cipher, u: Cipher, x: seq<bv8>, i: nat, j: nat)
    requires Alike(s, u) && |x| == 48 && j <= 48
    ensures Mix(s, x, i, j) == Mix(u, x, i, j)
    decreases i, j
  {
    if j > 0 {
      MixAlike(s, u, x, i, j - 1);
      var before := Mix(s, x, i, j - 1);
      AlikeAt(s, u, before.x[j - 1], before.t, 0);
      AlikeAt(s, u, before.x[j - 1], s.perm(before.t), 0);
    } else if i > 0 {
      MixAlike(s, u, x, i - 1, 48);
      AlikeAt(s, u, 0, Mix(s, x, i - 1, 48).t, i - 1);
    }
  }

  lemma {:induction false} SumAlike(s: Cipher, u: Cipher, m: seq<bv8>, n: nat)
    requires Alike(s, u) && n <= |m|
    ensures SumAfter(s, m, n) == SumAfter(u, m, n)
  {
    if n > 0 {
      SumAlike(s, u, m, n - 1);
      var before := SumAfter(s, m, n - 1);
      var x := s.xor(m[n - 1], before.l);
      AlikeAt(s, u, m[n - 1], before.l, 0);
      AlikeAt(s, u, x, x, 0);
      AlikeAt(s, u, before.c[(n - 1) % 16], s.perm(x), 0);
    }
  }

  lemma LoadedAlike(s: Cipher, u: Cipher, state: seq<bv8>, block: seq<bv8>)
    requires Alike(s, u) && |state| == |block| == 16
    ensures Loaded(s, state, block) == Loaded(u, state, block)
  {
    forall i | 0 <= i < 16
      ensures s.xor(state[i], block[i]) == u.xor(state[i], block[i])
    {
      AlikeAt(s, u, state[i], block[i], 0);
    }
  }

  lemma {:induction false} AbsorbAlike(s: Cipher, u: Cipher, m: seq<bv8>, q: nat)
    requires Alike(s, u) && 16 * q <= |m|
    ensures Absorb(s, m, q) == Absorb(u, m, q)
  {
    if q > 0 {
      var block := m[16 * q - 16..16 * q];
      AbsorbAlike(s, u, m, q - 1);
      LoadedAlike(s, u, Absorb(s, m, q - 1), block);
      MixAlike(s, u, Loaded(s, Absorb(s, m, q - 1), block), s.rounds, 0);
    }
  }

  /** The digest depends on the values of a cipher and on nothing else. */
  lemma DigestAlike(s: Cipher, u: Cipher, m: seq<bv8>)
    requires Alike(s, u)
    ensures Digest(s, m) == Digest(u, m)
  {
    var p := Padded(m);
    SumAlike(s, u, p, |p|);
    AbsorbAlike(s, u, p + SumAfter(s, p, |p|).c, |m| / 16 + 2);
  }

  // The same as recurrences

  /** Byte j after i rounds: its value one round before, combined with the substitute of what was made just before it. */
  function Cell(s: Cipher, x: seq<bv8>, i: nat, j: nat): (b: bv8)
    requires |x| == 48 && j < 48
    decreases i, j
  {
    if i == 0 then x[j] else
      var t := if j > 0 then Cell(s, x, i, j - 1) else if i == 1 then 0 else s.add(Cell(s, x, i - 1, 47), i - 2);
      s.xor(Cell(s, x, i - 1, j), s.perm(t))
  }

  /** During round i + 1, the bytes in front of j are done and the others are as the last round left them. */
  ghost predicate InRound(s: Cipher, x: seq<bv8>, i: nat, j: nat, p: Pass)
    requires |x| == 48 && j <= 48
  {
    && |p.x| == 48
    && (forall k {:trigger p.x[k]} :: 0 <= k < j ==> p.x[k] == Cell(s, x, i + 1, k))
    && (forall k {:trigger p.x[k]} :: j <= k < 48 ==> p.x[k] == Cell(s, x, i, k))
    && p.t == if j > 0 then Cell(s, x, i + 1, j - 1) else if i == 0 then 0 else s.add(Cell(s, x, i, 47), i - 1)
  }

  lemma {:induction false} MixIsCells(s: Cipher, x: seq<bv8>, i: nat, j: nat)
    requires |x| == 48 && j <= 48
    ensures InRound(s, x, i, j, Mix(s, x, i, j))
    decreases i, j
  {
    if j > 0 {
      MixIsCells(s, x, i, j - 1);
      InRoundNext(s, x, i, j - 1, Mix(s, x, i, j - 1));
    } else if i > 0 {
      MixIsCells(s, x, i - 1, 48);
      InRoundTurn(s, x, i - 1, Mix(s, x, i - 1, 48));
    }
  }

  lemma CellIs(s: Cipher, x: seq<bv8>, i: nat, j: nat, p: Pass)
    requires |x| == 48 && j < 48 && InRound(s, x, i, j, p)
    ensures s.xor(p.x[j], s.perm(p.t)) == Cell(s, x, i + 1, j)
  {
    assert p.x[j] == Cell(s, x, i, j);
  }

  lemma InRoundNext(s: Cipher, x: seq<bv8>, i: nat, j: nat, p: Pass)
    requires |x| == 48 && j < 48 && InRound(s, x, i, j, p)
    ensures var b := s.xor(p.x[j], s.perm(p.t)); InRound(s, x, i, j + 1, Pass(p.x[j := b], b))
  {
    CellIs(s, x, i, j, p);
  }

  lemma InRoundTurn(s: Cipher, x: seq<bv8>, i: nat, p: Pass)
    requires |x| == 48 && InRound(s, x, i, 48, p)
    ensures InRound(s, x, i + 1, 0, Pass(p.x, s.add(p.t, i)))
  {
  }

  /** The state, the block and their combination, side by side. */
  ghost predicate SideBySide(s: Cipher, x: seq<bv8>, state: seq<bv8>, m: seq<bv8>, q: nat)
    requires |state| == 16 && 16 * q + 16 <= |m|
  {
    && |x| == 48
    && forall k {:trigger state[k]} :: 0 <= k < 16 ==>
         x[k] == state[k] && x[16 + k] == m[16 * q + k] && x[32 + k] == s.xor(state[k], m[16 * q + k])
  }

  /** One block more, byte by byte. */
  lemma AbsorbIsCells(s: Cipher, m: seq<bv8>, q: nat, x: seq<bv8>, k: nat)
    requires 16 * q + 16 <= |m| && SideBySide(s, x, Absorb(s, m, q), m, q) && k < 16
    ensures Absorb(s, m, 0)[k] == 0
    ensures Absorb(s, m, q + 1)[k] == Cell(s, x, s.rounds, k)
  {
    AbsorbNext(s, m, q);
    SideBySideIsLoaded(s, x, Absorb(s, m, q), m, q);
    MixIsCells(s, x, s.rounds, 0);
  }

  lemma SideBySideIsLoaded(s: Cipher, x: seq<bv8>, state: seq<bv8>, m: seq<bv8>, q: nat)
    requires |state| == 16 && 16 * q + 16 <= |m| && SideBySide(s, x, state, m, q)
    ensures x == Loaded(s, state, m[16 * q..16 * q + 16])
  {
    var y := Loaded(s, state, m[16 * q..16 * q + 16]);
    forall i | 0 <= i < 48
      ensures x[i] == y[i]
    {
      var k := if i < 16 then i else if i < 32 then i - 16 else i - 32;
      assert x[k] == state[k] && x[16 + k] == m[16 * q + k] && x[32 + k] == s.xor(state[k], m[16 * q + k]);
    }
  }

  /** The checksum byte made for byte n: the one made 16 bytes before, combined with a substitute. */
  function Trace(s: Cipher, m: seq<bv8>, n: nat): (b: bv8)
    requires n < |m|
  {
    s.xor(if n < 16 then 0 else Trace(s, m, n - 16), s.perm(s.xor(m[n], if n == 0 then 0 else Trace(s, m, n - 1))))
  }

  ghost predicate InBlock(s: Cipher, m: seq<bv8>, q: nat, i: nat, r: Sum)
    requires i <= 16 && 16 * q + i <= |m|
  {
    && |r.c| == 16
    && (forall k {:trigger r.c[k]} :: 0 <= k < i ==> r.c[k] == Trace(s, m, 16 * q + k))
    && (forall k {:trigger r.c[k]} :: i <= k < 16 ==> r.c[k] == if q == 0 then 0 else Trace(s, m, 16 * q - 16 + k))
    && r.l == if 16 * q + i == 0 then 0 else Trace(s, m, 16 * q + i - 1)
  }

  lemma TraceIs(s: Cipher, m: seq<bv8>, q: nat, i: nat, n: nat, r: Sum)
    requires i < 16 && n == 16 * q + i && n < |m| && InBlock(s, m, q, i, r)
    ensures Trace(s, m, n) == s.xor(r.c[i], s.perm(s.xor(m[n], r.l)))
  {
    if q > 0 {
      assert r.c[i] == Trace(s, m, 16 * q - 16 + i);
    }
  }

  lemma InBlockNext(s: Cipher, m: seq<bv8>, q: nat, i: nat, n: nat, r: Sum, b: bv8)
    requires i < 16 && n == 16 * q + i && n < |m| && InBlock(s, m, q, i, r) && b == Trace(s, m, n)
    ensures InBlock(s, m, q, i + 1, Sum(r.c[i := b], b))
  {
  }

  lemma InBlockTurn(s: Cipher, m: seq<bv8>, q: nat, r: Sum)
    requires 16 * q + 16 <= |m| && InBlock(s, m, q, 16, r)
    ensures InBlock(s, m, q + 1, 0, r)
  {
  }

  lemma TraceStep(s: Cipher, m: seq<bv8>, q: nat, i: nat, n: nat)
    requires i < 16 && n == 16 * q + i && n < |m| && InBlock(s, m, q, i, SumAfter(s, m, n))
    ensures InBlock(s, m, q, i + 1, SumAfter(s, m, n + 1))
  {
    var before := SumAfter(s, m, n);
    SumNext(s, m, q, i, n, before.c, m[n], before.l);
    TraceIs(s, m, q, i, n, before);
    InBlockNext(s, m, q, i, n, before, Trace(s, m, n));
  }

  lemma {:induction false} SumIsTrace(s: Cipher, m: seq<bv8>, q: nat, i: nat, n: nat)
    requires i <= 16 && n == 16 * q + i <= |m|
    ensures InBlock(s, m, q, i, SumAfter(s, m, n))
    decreases q, i
  {
    if i > 0 {
      SumIsTrace(s, m, q, i - 1, n - 1);
      TraceStep(s, m, q, i - 1, n - 1);
    } else if q > 0 {
      SumIsTrace(s, m, q - 1, 16, n);
      InBlockTurn(s, m, q - 1, SumAfter(s, m, n));
    }
  }

  /** The checksum of whole blocks is what was made for the last sixteen bytes. */
  lemma ChecksumIsTrace(s: Cipher, m: seq<bv8>, q: nat, k: nat)
    requires |m| == 16 * q && q > 0 && k < 16
    ensures SumAfter(s, m, |m|).c[k] == Trace(s, m, |m| - 16 + k)
  {
    SumIsTrace(s, m, q, 0, |m|);
  }

  /** Sixteen bytes that are what was made for the last sixteen. */
  ghost predicate LastSixteen(s: Cipher, p: seq<bv8>, c: seq<bv8>) {
    |p| >= 16 && |c| == 16 && forall k {:trigger c[k]} :: 0 <= k < 16 ==> c[k] == Trace(s, p, |p| - 16 + k)
  }

  /** The digest, once more: the blocks of the padded message and then its checksum as a block of its own. */
  lemma DigestIsLastBlock(s: Cipher, m: seq<bv8>, c: seq<bv8>)
    requires LastSixteen(s, Padded(m), c)
    ensures Digest(s, m) == Absorb(s, Padded(m) + c, |m| / 16 + 2)
  {
    ChecksumIs(s, Padded(m), |m| / 16 + 1, c);
  }

  lemma ChecksumIs(s: Cipher, p: seq<bv8>, q: nat, c: seq<bv8>)
    requires |p| == 16 * q && LastSixteen(s, p, c)
    ensures c == SumAfter(s, p, |p|).c
  {
    var sum := SumAfter(s, p, |p|).c;
    forall k | 0 <= k < 16
      ensures c[k] == sum[k]
    {
      ChecksumIsTrace(s, p, q, k);
    }
  }

  ghost predicate Ascending(cuts: seq<nat>, length: nat) {
    && (forall i :: 0 <= i < |cuts| ==> cuts[i] <= length)
    && (forall i, k :: 0 <= i < k < |cuts| ==> cuts[i] <= cuts[k])
  }

  lemma Pieces(m: seq<bv8>, i: nat, j: nat)
    requires i <= j <= |m|
    ensures m[..i] + m[i..i + (j - i)] == m[..j]
  {}

  /** What a longer message has in common with the one fed so far. */
  lemma Longer(s: Cipher, m: seq<bv8>, piece: seq<bv8>, q: nat)
    requires 16 * q <= |m|
    ensures Absorb(s, m, q) == Absorb(s, m + piece, q)
    ensures SumAfter(s, m, 16 * q) == SumAfter(s, m + piece, 16 * q)
    ensures (m + piece)[16 * q..] == m[16 * q..] + piece
  {
    AbsorbOfPrefix(s, m, m + piece, q);
    SumOfPrefix(s, m, m + piece, 16 * q);
  }

  lemma Regroup(fed: seq<bv8>, rest: seq<bv8>, piece: seq<bv8>, n: nat)
    requires n <= |rest| && piece == rest[..n]
    ensures fed + rest == fed + piece + rest[n..]
  {
    assert rest == piece + rest[n..];
  }

  lemma LastBlock(b: seq<bv8>, m: seq<bv8>, q: nat)
    requires |b| == 16 && |m| == 16 * q + 16 && b[..16] == m[16 * q..]
    ensures b == m[16 * q..16 * q + 16]
  {}

  lemma PaddedBlocks(m: seq<bv8>)
    ensures |Padded(m)| % 16 == 0 && |Padded(m)| / 16 == |m| / 16 + 1
  {}

  lemma DigestIs(s: Cipher, m: seq<bv8>, c: seq<bv8>)
    requires c == SumAfter(s, Padded(m), 16 * (|Padded(m)| / 16)).c
    ensures Absorb(s, Padded(m) + c, |Padded(m) + c| / 16) == Digest(s, m)
  {
    PaddedBlocks(m);
  }

  lemma Slices(s: seq<bv8>, p: nat, n: nat, left: nat)
    requires n <= left && p + left <= |s|
    ensures s[p..p + left][n..] == s[p + n..p + left]
  {}

  lemma Whole(c: seq<bv8>)
    requires |c| == 16
    ensures c[0..16] == c
  {}

  lemma Quotient(length: nat, q: nat, c: nat)
    requires length == 16 * q + c && c < 16
    ensures length / 16 == q
  {}
}
