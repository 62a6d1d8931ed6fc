/**
  * What the modules have in common: bytes, optional values, and sequences in which a stretch
  * is replaced.
  */
module Bytes {

  type byte = x: int | 0 <= x < 256

  /** A byte read as a signed char. */
  function Signed(b: byte): (r: int)
    ensures -128 <= r < 128 && (r - b) % 256 == 0
  {
    if b < 128 then b else b - 256
  }

  /** What is left of a number in a signed variable of 32 bits. */
  function Int32(x: int): (r: int)
    ensures -0x8000_0000 <= r < 0x8000_0000
    ensures -0x8000_0000 <= x < 0x8000_0000 ==> r == x
  {
    (x + 0x8000_0000) % 0x1_0000_0000 - 0x8000_0000
  }

  lemma Int32Repeats(x: int, k: int)
    ensures Int32(x + 0x1_0000_0000 * k) == Int32(x)
  {
    Turns(x + 0x8000_0000, k);
  }

  lemma Turns(x: int, k: int)
    ensures (x + 0x1_0000_0000 * k) % 0x1_0000_0000 == x % 0x1_0000_0000
  {
  }

  lemma Int32Is(x: int) returns (k: int)
    ensures Int32(x) == x + 0x1_0000_0000 * k
  {
    k := -((x + 0x8000_0000) / 0x1_0000_0000);
  }

  /** The difference of two wrapped numbers is theirs as long as it fits. */
  lemma Int32Difference(x: int, y: int)
    requires -0x8000_0000 <= x - y < 0x8000_0000
    ensures Int32(Int32(x) - Int32(y)) == x - y
  {
    var k := Int32Is(x);
    var l := Int32Is(y);
    Int32Repeats(x - y, k - l);
  }

  /** A letter in upper case, as toupper gives it. */
  function ToUpper(c: byte): (r: byte) {
    if 'a' as int <= c <= 'z' as int then c - 32 else c
  }

  /** The same character, or the same letter in the other case. */
  predicate SameLetter(c: byte, d: byte) {
    c == d || (65 <= c <= 90 && d == c + 32) || (65 <= d <= 90 && c == d + 32)
  }

  /** Two characters are one in upper case exactly when they are the same but for the case of a letter. */
  lemma ToUpperTells(c: byte, d: byte)
    ensures ToUpper(c) == ToUpper(d) <==> SameLetter(c, d)
    ensures ToUpper(c) == c || (97 <= c <= 122 && ToUpper(c) == c - 32)
  {
  }

  datatype Option<+T> = None | Some(value: T)

  lemma Associative<T>(a: seq<T>, b: seq<T>, c: seq<T>)
    ensures (a + b) + c == a + (b + c)
  {
  }

  /** The sequence with the stretch from pos on replaced. */
  function Splice<T>(s: seq<T>, pos: nat, b: seq<T>): (r: seq<T>)
    requires pos + |b| <= |s|
    ensures |r| == |s|
  {
    s[..pos] + b + s[pos + |b|..]
  }

  lemma SpliceTwice<T>(s: seq<T>, pos: nat, a: seq<T>, b: seq<T>)
    requires pos + |a| + |b| <= |s|
    ensures Splice(Splice(s, pos, a), pos + |a|, b) == Splice(s, pos, a + b)
  {
  }

  lemma SpliceNext<T>(s: seq<T>, pos: nat, b: seq<T>, v: T)
    requires pos + |b| < |s|
    ensures Splice(s, pos, b)[pos + |b| := v] == Splice(s, pos, b + [v])
  {
  }
}
