/**
  * The Tiny Encryption Algorithm of bertos/algo/tea.c: the two loops that work in place on a
  * block of two words, for every number of rounds, and why each undoes the other.
  */
module Tea {
  type word = w: int | 0 <= w < 0x1_0000_0000

  const DELTA: word := 0x9E37_79B9
  const ROUNDS: nat := 32

  function Plus(a: word, b: word): (r: word) {
    (a + b) % 0x1_0000_0000
  }

  function Minus(a: word, b: word): (r: word) {
    (a - b) % 0x1_0000_0000
  }

  datatype Key = Key(k0: word, k1: word, k2: word, k3: word)

  /** What a round computes from a half, the sum and two key words. */
  type Mixer = (word, word, word, word) -> word

  /** The exclusive or of two numbers, bit by bit from the lowest. */
  function Xor(a: nat, b: nat): (r: nat)
    decreases a + b
  {
    if a == 0 && b == 0 then 0 else (a + b) % 2 + 2 * Xor(a / 2, b / 2)
  }

  /** `tea_func`. That the loops undo each other depends on nothing in it. */
  function Func(x: word, sum: word, a: word, b: word): (r: word) {
    var p, q, s := Plus(x * 16 % 0x1_0000_0000, a), Plus(x, sum), Plus(x / 32, b);
    XorFits(p, q);
    XorFits(Xor(p, q), s);
    Xor(Xor(p, q), s)
  }

  function Pow2(n: nat): (p: nat) {
    if n == 0 then 1 else 2 * Pow2(n - 1)
  }

  lemma {:induction false} XorRange(a: nat, b: nat, n: nat)
    requires a < Pow2(n) && b < Pow2(n)
    ensures Xor(a, b) < Pow2(n)
  {
    if n > 0 && (a != 0 || b != 0) {
      XorRange(a / 2, b / 2, n - 1);
    }
  }

  lemma Pow2Word()
    ensures Pow2(32) == 0x1_0000_0000
  {
    assert Pow2(8) == 256;
    assert Pow2(16) == 65536;
    assert Pow2(24) == 0x100_0000;
  }

  lemma XorFits(a: word, b: word)
    ensures Xor(a, b) < 0x1_0000_0000
  {
    Pow2Word();
    XorRange(a, b, 32);
  }

  function Bit(x: nat, i: nat): (b: nat) {
    if i == 0 then x % 2 else Bit(x / 2, i - 1)
  }

  /** Each bit of an exclusive or is the sum of the two bits without carry. */
  lemma {:induction false} XorBits(a: nat, b: nat, i: nat)
    ensures Bit(Xor(a, b), i) == (Bit(a, i) + Bit(b, i)) % 2
  {
    XorHalves(a, b);
    if i == 0 {
      Parity(a, b);
      Parity(b, a % 2);
    } else {
      XorBits(a / 2, b / 2, i - 1);
    }
  }

  lemma XorHalves(a: nat, b: nat)
    ensures Xor(a, b) % 2 == (a + b) % 2 && Xor(a, b) / 2 == Xor(a / 2, b / 2)
  {
    if a != 0 || b != 0 {
      Halved((a + b) % 2, Xor(a / 2, b / 2));
    }
  }

  lemma Halved(r: nat, q: nat)
    requires r < 2
    ensures (r + 2 * q) % 2 == r && (r + 2 * q) / 2 == q
  {
  }

  lemma ThreeBits(p: nat, q: nat, s: nat, i: nat)
    ensures Bit(Xor(Xor(p, q), s), i) == (Bit(p, i) + Bit(q, i) + Bit(s, i)) % 2
  {
    XorBits(p, q, i);
    XorBits(Xor(p, q), s, i);
    Parity(Bit(p, i) + Bit(q, i), Bit(s, i));
  }

  lemma Parity(x: nat, y: nat)
    ensures (x % 2 + y) % 2 == (x + y) % 2
  {
  }

  /** `tea_func` in products and quotients modulo 2 to the 32. */
  lemma FuncIs(x: word, sum: word, a: word, b: word)
    ensures Func(x, sum, a, b) ==
            Xor(Xor((16 * x + a) % 0x1_0000_0000, (x + sum) % 0x1_0000_0000), (x / 32 + b) % 0x1_0000_0000)
  {
    Shifted(x, a);
  }

  /** Each of its bits is the sum of three bits without carry. */
  lemma FuncBits(x: word, sum: word, a: word, b: word, i: nat)
    ensures var (p, q, s) := ((16 * x + a) % 0x1_0000_0000, (x + sum) % 0x1_0000_0000, (x / 32 + b) % 0x1_0000_0000);
            Bit(Func(x, sum, a, b), i) == (Bit(p, i) + Bit(q, i) + Bit(s, i)) % 2
  {
    FuncIs(x, sum, a, b);
    ThreeBits((16 * x + a) % 0x1_0000_0000, (x + sum) % 0x1_0000_0000, (x / 32 + b) % 0x1_0000_0000, i);
  }

  lemma Shifted(x: word, a: word)
    ensures Plus(x * 16 % 0x1_0000_0000, a) == (16 * x + a) % 0x1_0000_0000
  {
  }

  /** The variables of the two loops: the halves of the block and the running sum. */
  datatype Vars = Vars(y: word, z: word, sum: word)

  function EncRound(f: Mixer, k: Key, v: Vars): (r: Vars) {
    var sum := Plus(v.sum, DELTA);
    var y := Plus(v.y, f(v.z, sum, k.k0, k.k1));
    var z := Plus(v.z, f(y, sum, k.k2, k.k3));
    Vars(y, z, sum)
  }

  function DecRound(f: Mixer, k: Key, v: Vars): (r: Vars) {
    var z := Minus(v.z, f(v.y, v.sum, k.k2, k.k3));
    var y := Minus(v.y, f(z, v.sum, k.k0, k.k1));
    Vars(y, z, Minus(v.sum, DELTA))
  }

  /** The variables after `n` turns of the loop of `tea_enc`. */
  function Encrypted(f: Mixer, k: Key, v: Vars, n: nat): (r: Vars) {
    if n == 0 then v else EncRound(f, k, Encrypted(f, k, v, n - 1))
  }

  /** The variables after `n` turns of the loop of `tea_dec`. */
  function Decrypted(f: Mixer, k: Key, v: Vars, n: nat): (r: Vars) {
    if n == 0 then v else DecRound(f, k, Decrypted(f, k, v, n - 1))
  }

  lemma EncryptedNext(f: Mixer, k: Key, v: Vars, i: nat)
    ensures Encrypted(f, k, v, i + 1) == EncRound(f, k, Encrypted(f, k, v, i))
  {}

  lemma DecryptedNext(f: Mixer, k: Key, v: Vars, i: nat)
    ensures Decrypted(f, k, v, i + 1) == DecRound(f, k, Decrypted(f, k, v, i))
  {}

  lemma PlusIs(a: word, b: word)
    ensures Plus(a, b) == if a + b < 0x1_0000_0000 then a + b else a + b - 0x1_0000_0000
  {}

  lemma MinusIs(a: word, b: word)
    ensures Minus(a, b) == if a >= b then a - b else a - b + 0x1_0000_0000
  {}

  lemma PlusMinus(a: word, b: word)
    ensures Minus(Plus(a, b), b) == a && Plus(Minus(a, b), b) == a
  {
    PlusIs(a, b);
    MinusIs(Plus(a, b), b);
    MinusIs(a, b);
    PlusIs(Minus(a, b), b);
  }

  /** A round is undone by the other kind of round, in both orders. */
  lemma RoundsUndo(f: Mixer, k: Key, v: Vars)
    ensures DecRound(f, k, EncRound(f, k, v)) == v
    ensures EncRound(f, k, DecRound(f, k, v)) == v
  {
    PlusMinus(v.sum, DELTA);
    var e := EncRound(f, k, v);
    PlusMinus(v.z, f(e.y, e.sum, k.k2, k.k3));
    PlusMinus(v.y, f(v.z, e.sum, k.k0, k.k1));
    var d := DecRound(f, k, v);
    PlusMinus(v.y, f(d.z, v.sum, k.k0, k.k1));
    PlusMinus(v.z, f(v.y, v.sum, k.k2, k.k3));
  }

  /** The last turn may as well be the first. */
  lemma {:induction false} FirstDecRound(f: Mixer, k: Key, v: Vars, n: nat)
    ensures Decrypted(f, k, v, n + 1) == Decrypted(f, k, DecRound(f, k, v), n)
  {
    if n != 0 {
      FirstDecRound(f, k, v, n - 1);
    }
  }

  lemma {:induction false} FirstEncRound(f: Mixer, k: Key, v: Vars, n: nat)
    ensures Encrypted(f, k, v, n + 1) == Encrypted(f, k, EncRound(f, k, v), n)
  {
    if n != 0 {
      FirstEncRound(f, k, v, n - 1);
    }
  }

  lemma {:induction false} DecryptedUndoes(f: Mixer, k: Key, v: Vars, n: nat)
    ensures Decrypted(f, k, Encrypted(f, k, v, n), n) == v
  {
    if n != 0 {
      var e := Encrypted(f, k, v, n - 1);
      RoundsUndo(f, k, e);
      FirstDecRound(f, k, EncRound(f, k, e), n - 1);
      DecryptedUndoes(f, k, v, n - 1);
    }
  }

  lemma {:induction false} EncryptedUndoes(f: Mixer, k: Key, v: Vars, n: nat)
    ensures Encrypted(f, k, Decrypted(f, k, v, n), n) == v
  {
    if n != 0 {
      var d := Decrypted(f, k, v, n - 1);
      RoundsUndo(f, k, d);
      FirstEncRound(f, k, DecRound(f, k, d), n - 1);
      EncryptedUndoes(f, k, v, n - 1);
    }
  }

  // The running sum

  /** The sum after n additions: where the decryption has to start. */
  function Start(n: nat): (s: word) {
    if n == 0 then 0 else Plus(Start(n - 1), DELTA)
  }

  /** `DELTA * n` in 32 bits. */
  function Product(n: nat): (s: word) {
    (0x9E37_79B9 * n) % 0x1_0000_0000
  }

  lemma Reduced(x: int, y: int)
    requires y == x + 0x9E37_79B9
    ensures Plus(x % 0x1_0000_0000, DELTA) == y % 0x1_0000_0000
  {}

  lemma ProductNext(n: nat)
    ensures Product(n + 1) == Plus(Product(n), DELTA)
  {
    Reduced(0x9E37_79B9 * n, 0x9E37_79B9 * (n + 1));
  }

  /** The product that the decryption starts from is the sum that the encryption ends with. */
  lemma {:induction false} ProductIsStart(n: nat)
    ensures Product(n) == Start(n)
  {
    if n != 0 {
      ProductNext(n - 1);
      ProductIsStart(n - 1);
    }
  }

  lemma StartBack(n: nat)
    ensures Minus(Start(n + 1), DELTA) == Start(n)
  {
    PlusMinus(Start(n), DELTA);
  }

  /** The sums of the encryption climb to where the decryption starts. */
  lemma {:induction false} SumsClimb(f: Mixer, k: Key, v: Vars, n: nat)
    requires v.sum == 0
    ensures Encrypted(f, k, v, n).sum == Start(n)
  {
    if n != 0 {
      SumsClimb(f, k, v, n - 1);
    }
  }

  /** From there the sums of the decryption fall through the same values. */
  lemma {:induction false} SumsFall(f: Mixer, k: Key, v: Vars, n: nat, i: nat)
    requires i <= n && v.sum == Start(n)
    ensures Decrypted(f, k, v, i).sum == Start(n - i)
  {
    if i != 0 {
      StartBack(n - i);
      SumsFall(f, k, v, n, i - 1);
    }
  }

  // The block in memory

  datatype Cpu = LittleEndian | BigEndian

  function Joined(a: int, b: int, c: int, d: int): (x: int) {
    a * 0x100_0000 + b * 0x1_0000 + c * 256 + d
  }

  ghost predicate Bytes(a: int, b: int, c: int, d: int) {
    0 <= a < 256 && 0 <= b < 256 && 0 <= c < 256 && 0 <= d < 256
  }

  lemma BytesJoined(a: int, b: int, c: int, d: int, x: int)
    requires Bytes(a, b, c, d) && x == Joined(a, b, c, d)
    ensures x % 256 == d && x / 256 % 256 == c && x / 0x1_0000 % 256 == b && x / 0x100_0000 == a
  {
    assert x / 256 == a * 0x1_0000 + b * 256 + c;
    assert x / 0x1_0000 == a * 256 + b;
  }

  lemma JoinedBytes(x: word)
    ensures Bytes(x / 0x100_0000, x / 0x1_0000 % 256, x / 256 % 256, x % 256)
    ensures x == Joined(x / 0x100_0000, x / 0x1_0000 % 256, x / 256 % 256, x % 256)
  {
    assert x / 256 / 256 == x / 0x1_0000;
    assert x / 0x1_0000 / 256 == x / 0x100_0000;
  }

  function Swapped(x: word): (r: word) {
    Joined(x % 256, x / 256 % 256, x / 0x1_0000 % 256, x / 0x100_0000)
  }

  /** `cpu_to_le32`, which is also `le32_to_cpu`. */
  function Le32(cpu: Cpu, x: word): (r: word) {
    if cpu == BigEndian then Swapped(x) else x
  }

  lemma SwappedTwice(x: word)
    ensures Swapped(Swapped(x)) == x
  {
    JoinedBytes(x);
    BytesJoined(x % 256, x / 256 % 256, x / 0x1_0000 % 256, x / 0x100_0000, Swapped(x));
  }

  function KeyOf(cpu: Cpu, k: seq<word>): (r: Key)
    requires |k| == 4
  {
    Key(Le32(cpu, k[0]), Le32(cpu, k[1]), Le32(cpu, k[2]), Le32(cpu, k[3]))
  }

  function Loaded(cpu: Cpu, v: seq<word>, sum: word): (r: Vars)
    requires |v| == 2
  {
    Vars(Le32(cpu, v[0]), Le32(cpu, v[1]), sum)
  }

  function Stored(cpu: Cpu, v: Vars): (r: seq<word>)
    ensures |r| == 2
  {
    [Le32(cpu, v.y), Le32(cpu, v.z)]
  }

  function Enciphered(cpu: Cpu, f: Mixer, v: seq<word>, k: seq<word>, n: nat): (r: seq<word>)
    requires |v| == 2 && |k| == 4
    ensures |r| == 2
  {
    Stored(cpu, Encrypted(f, KeyOf(cpu, k), Loaded(cpu, v, 0), n))
  }

  function Deciphered(cpu: Cpu, f: Mixer, v: seq<word>, k: seq<word>, n: nat): (r: seq<word>)
    requires |v| == 2 && |k| == 4
    ensures |r| == 2
  {
    Stored(cpu, Decrypted(f, KeyOf(cpu, k), Loaded(cpu, v, Start(n)), n))
  }

  lemma StoredLoaded(cpu: Cpu, w: Vars, v: seq<word>)
    requires |v| == 2
    ensures Loaded(cpu, Stored(cpu, w), w.sum) == w
    ensures Stored(cpu, Loaded(cpu, v, w.sum)) == v
  {
    SwappedTwice(w.y);
    SwappedTwice(w.z);
    SwappedTwice(v[0]);
    SwappedTwice(v[1]);
  }

  method EncipherRound(cpu: Cpu, f: Mixer, k: array<word>, y0: word, z0: word, sum0: word, ghost key: Key)
    returns (y: word, z: word, sum: word)
    requires k.Length == 4 && key == KeyOf(cpu, k[..])
    ensures Vars(y, z, sum) == EncRound(f, key, Vars(y0, z0, sum0))
  {
    sum := Plus(sum0, DELTA);
    y := Plus(y0, f(z0, sum, Le32(cpu, k[0]), Le32(cpu, k[1])));
    z := Plus(z0, f(y, sum, Le32(cpu, k[2]), Le32(cpu, k[3])));
  }

  method DecipherRound(cpu: Cpu, f: Mixer, k: array<word>, y0: word, z0: word, sum0: word, ghost key: Key)
    returns (y: word, z: word, sum: word)
    requires k.Length == 4 && key == KeyOf(cpu, k[..])
    ensures Vars(y, z, sum) == DecRound(f, key, Vars(y0, z0, sum0))
  {
    z := Minus(z0, f(y0, sum0, Le32(cpu, k[2]), Le32(cpu, k[3])));
    y := Minus(y0, f(z, sum0, Le32(cpu, k[0]), Le32(cpu, k[1])));
    sum := Minus(sum0, DELTA);
  }

  /** The loop of `tea_enc`. */
  method EncipherLoop(cpu: Cpu, f: Mixer, k: array<word>, rounds: nat, y0: word, z0: word) returns (y: word, z: word)
    requires k.Length == 4
    ensures var r := Encrypted(f, KeyOf(cpu, k[..]), Vars(y0, z0, 0), rounds); y == r.y && z == r.z
  {
    var sum: word := 0;
    y, z := y0, z0;
    var n := rounds;
    ghost var i: nat, key, first := 0, KeyOf(cpu, k[..]), Vars(y0, z0, 0);
    while n > 0
      invariant 0 <= n <= rounds && i == rounds - n
      invariant Vars(y, z, sum) == Encrypted(f, key, first, i)
    {
      EncryptedNext(f, key, first, i);
      y, z, sum := EncipherRound(cpu, f, k, y, z, sum, key);
      n := n - 1;
      i := i + 1;
    }
  }

  /** The loop of `tea_dec`. */
  method DecipherLoop(cpu: Cpu, f: Mixer, k: array<word>, rounds: nat, y0: word, z0: word) returns (y: word, z: word)
    requires k.Length == 4
    ensures var r := Decrypted(f, KeyOf(cpu, k[..]), Vars(y0, z0, Start(rounds)), rounds); y == r.y && z == r.z
  {
    var sum := Product(rounds);
    ProductIsStart(rounds);
    y, z := y0, z0;
    var n := rounds;
    ghost var i: nat, key, first := 0, KeyOf(cpu, k[..]), Vars(y0, z0, sum);
    while n > 0
      invariant 0 <= n <= rounds && i == rounds - n
      invariant Vars(y, z, sum) == Decrypted(f, key, first, i)
    {
      DecryptedNext(f, key, first, i);
      y, z, sum := DecipherRound(cpu, f, k, y, z, sum, key);
      n := n - 1;
      i := i + 1;
    }
  }

  /** `tea_enc`, with the number of rounds as a parameter. */
  method Encipher(cpu: Cpu, f: Mixer, v: array<word>, k: array<word>, rounds: nat)
    requires v.Length == 2 && k.Length == 4
    modifies v
    ensures v[..] == Enciphered(cpu, f, old(v[..]), k[..], rounds)
  {
    var y, z := EncipherLoop(cpu, f, k, rounds, Le32(cpu, v[0]), Le32(cpu, v[1]));
    v[0] := Le32(cpu, y);
    v[1] := Le32(cpu, z);
  }

  /** `tea_dec`, with the number of rounds as a parameter. */
  method Decipher(cpu: Cpu, f: Mixer, v: array<word>, k: array<word>, rounds: nat)
    requires v.Length == 2 && k.Length == 4
    modifies v
    ensures v[..] == Deciphered(cpu, f, old(v[..]), k[..], rounds)
  {
    var y, z := DecipherLoop(cpu, f, k, rounds, Le32(cpu, v[0]), Le32(cpu, v[1]));
    v[0] := Le32(cpu, y);
    v[1] := Le32(cpu, z);
  }

  /** Decryption undoes encryption, for every block, key, number of rounds and byte order. */
  lemma DecipherUndoesEncipher(cpu: Cpu, f: Mixer, v: seq<word>, k: seq<word>, n: nat)
    requires |v| == 2 && |k| == 4
    ensures Deciphered(cpu, f, Enciphered(cpu, f, v, k, n), k, n) == v
  {
    var key, first := KeyOf(cpu, k), Loaded(cpu, v, 0);
    SumsClimb(f, key, first, n);
    StoredLoaded(cpu, Encrypted(f, key, first, n), v);
    DecryptedUndoes(f, key, first, n);
    StoredLoaded(cpu, first, v);
  }

  /** And encryption undoes decryption, so that each is a permutation of the blocks. */
  lemma EncipherUndoesDecipher(cpu: Cpu, f: Mixer, v: seq<word>, k: seq<word>, n: nat)
    requires |v| == 2 && |k| == 4
    ensures Enciphered(cpu, f, Deciphered(cpu, f, v, k, n), k, n) == v
  {
    var key, first := KeyOf(cpu, k), Loaded(cpu, v, Start(n));
    var last := Decrypted(f, key, first, n);
    SumsEnd(f, key, first, n);
    StoredLoaded(cpu, last, v);
    EncryptedUndoes(f, key, first, n);
    StoredLoaded(cpu, first, v);
  }

  lemma SumsEnd(f: Mixer, k: Key, v: Vars, n: nat)
    requires v.sum == Start(n)
    ensures Decrypted(f, k, v, n).sum == 0
  {
    SumsFall(f, k, v, n, n);
  }

  /** The two loops run one after the other leave the block as it was. */
  method ThereAndBack(cpu: Cpu, f: Mixer, v: array<word>, k: array<word>, rounds: nat)
    requires v.Length == 2 && k.Length == 4
    modifies v
    ensures v[..] == old(v[..])
  {
    DecipherUndoesEncipher(cpu, f, v[..], k[..], rounds);
    Encipher(cpu, f, v, k, rounds);
    Decipher(cpu, f, v, k, rounds);
  }

  /** `tea_enc` as the firmware has it, with `tea_func` and 32 rounds. */
  method FirmwareEncipher(cpu: Cpu, v: array<word>, k: array<word>)
    requires v.Length == 2 && k.Length == 4
    modifies v
    ensures v[..] == Enciphered(cpu, Func, old(v[..]), k[..], 32)
  {
    Encipher(cpu, Func, v, k, ROUNDS);
  }

  /** `tea_dec` as the firmware has it. */
  method FirmwareDecipher(cpu: Cpu, v: array<word>, k: array<word>)
    requires v.Length == 2 && k.Length == 4
    modifies v
    ensures v[..] == Deciphered(cpu, Func, old(v[..]), k[..], 32)
  {
    Decipher(cpu, Func, v, k, ROUNDS);
  }

  /** Round n + 1 in numbers: which half is changed with which key words, in which order, and by which sum. */
  lemma RoundInNumbers(f: Mixer, k: Key, v: Vars, n: nat)
    requires v.sum == 0
    ensures var (before, after) := (Encrypted(f, k, v, n), Encrypted(f, k, v, n + 1));
            var sum: word := (0x9E37_79B9 * (n + 1)) % 0x1_0000_0000;
            && after.y == (before.y + f(before.z, sum, k.k0, k.k1)) % 0x1_0000_0000
            && after.z == (before.z + f(after.y, sum, k.k2, k.k3)) % 0x1_0000_0000
  {
    EncryptedNext(f, k, v, n);
    SumsClimb(f, k, v, n + 1);
    ProductIsStart(n + 1);
  }

  /** On a little-endian processor the words of block and key are taken and left as they are. */
  lemma WordsAsTheyAre(f: Mixer, v: seq<word>, k: seq<word>, n: nat)
    requires |v| == 2 && |k| == 4
    ensures var r := Encrypted(f, Key(k[0], k[1], k[2], k[3]), Vars(v[0], v[1], 0), n);
            Enciphered(LittleEndian, f, v, k, n) == [r.y, r.z]
  {
  }

  /** The same with `tea_func` and 32 rounds, as the firmware has it. */
  method FirmwareThereAndBack(cpu: Cpu, v: array<word>, k: array<word>)
    requires v.Length == 2 && k.Length == 4
    modifies v
    ensures v[..] == old(v[..])
  {
    ThereAndBack(cpu, Func, v, k, ROUNDS);
  }

  function InOrder(cpu: Cpu, v: seq<word>): (r: seq<word>)
    ensures |r| == |v|
  {
    seq(|v|, i requires 0 <= i < |v| => Le32(cpu, v[i]))
  }

  /** The same bytes in memory are turned into the same bytes on either kind of processor. */
  lemma SameOnEitherCpu(cpu: Cpu, f: Mixer, v: seq<word>, k: seq<word>, n: nat)
    requires |v| == 2 && |k| == 4
    ensures Enciphered(cpu, f, InOrder(cpu, v), InOrder(cpu, k), n) == InOrder(cpu, Enciphered(LittleEndian, f, v, k, n))
    ensures Deciphered(cpu, f, InOrder(cpu, v), InOrder(cpu, k), n) == InOrder(cpu, Deciphered(LittleEndian, f, v, k, n))
  {
    forall i | 0 <= i < 2
      ensures Swapped(Swapped(v[i])) == v[i]
    {
      SwappedTwice(v[i]);
    }
    forall i | 0 <= i < 4
      ensures Swapped(Swapped(k[i])) == k[i]
    {
      SwappedTwice(k[i]);
    }
    assert KeyOf(cpu, InOrder(cpu, k)) == KeyOf(LittleEndian, k);
  }
}
