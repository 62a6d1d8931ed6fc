/**
  * What the digipeater's hash is worth: the polynomial it evaluates, and that no single changed
  * byte of source, destination or payload leaves it as it was.
  */
module DigiHash {
  import opened Bytes
  import opened Digi

  /** The numbers that are hashed: call characters as signed bytes, SSIDs and payload as unsigned ones. */
  function Values(m: Msg): (v: seq<int>)
    requires WellFormed(m)
    ensures |v| == 14 + |m.info|
  {
    Signs(m.src.name) + [m.src.ssid] + Signs(m.dst.name) + [m.dst.ssid] + Plain(m.info)
  }

  function Signs(s: seq<byte>): (v: seq<int>)
    ensures |v| == |s| && forall i :: 0 <= i < |s| ==> v[i] == Signed(s[i])
  {
    seq(|s|, i requires 0 <= i < |s| => Signed(s[i]))
  }

  function Plain(s: seq<byte>): (v: seq<int>)
    ensures |v| == |s| && forall i :: 0 <= i < |s| ==> v[i] == s[i]
  {
    seq(|s|, i requires 0 <= i < |s| => s[i] as int)
  }

  /** The hash of a sequence of numbers, one step for each. */
  function Fold(h: int, v: seq<int>, n: nat): (r: int)
    requires n <= |v|
  {
    if n == 0 then h else (Fold(h, v, n - 1) * 31 + v[n - 1]) % 65536
  }

  lemma {:induction false} FoldOfPrefix(h: int, v: seq<int>, w: seq<int>, n: nat)
    requires n <= |v| && n <= |w| && forall i :: 0 <= i < n ==> v[i] == w[i]
    ensures Fold(h, v, n) == Fold(h, w, n)
  {
    if n > 0 {
      FoldOfPrefix(h, v, w, n - 1);
    }
  }

  lemma {:induction false} FoldJoin(h: int, a: seq<int>, b: seq<int>, n: nat)
    requires n <= |b|
    ensures Fold(h, a + b, |a| + n) == Fold(Fold(h, a, |a|), b, n)
  {
    if n == 0 {
      FoldOfPrefix(h, a + b, a, |a|);
    } else {
      FoldJoin(h, a, b, n - 1);
      assert (a + b)[|a| + n - 1] == b[n - 1];
    }
  }

  lemma {:induction false} NameIsFold(h: int, name: seq<byte>, n: nat)
    requires n <= |name|
    ensures HashName(h, name, n) == Fold(h, Signs(name), n)
  {
    if n > 0 {
      NameIsFold(h, name, n - 1);
    }
  }

  lemma {:induction false} InfoIsFold(h: int, info: seq<byte>, n: nat)
    requires n <= |info|
    ensures HashInfo(h, info, n) == Fold(h, Plain(info), n)
  {
    if n > 0 {
      InfoIsFold(h, info, n - 1);
    }
  }

  lemma CallIsFold(h: int, c: Call)
    requires |c.name| == 6
    ensures HashCall(h, c) == Fold(h, Signs(c.name) + [c.ssid], 7)
  {
    NameIsFold(h, c.name, |c.name|);
    FoldJoin(h, Signs(c.name), [c.ssid], 1);
    FoldOne(Fold(h, Signs(c.name), |c.name|), c.ssid);
  }

  lemma FoldOne(h: int, x: int)
    ensures Fold(h, [x], 1) == (h * 31 + x) % 65536
  {
    assert Fold(h, [x], 0) == h;
  }

  lemma HashIsFold(m: Msg)
    requires WellFormed(m)
    ensures Hash(m) == Fold(0, Values(m), |Values(m)|)
  {
    var a, b, c := Signs(m.src.name) + [m.src.ssid], Signs(m.dst.name) + [m.dst.ssid], Plain(m.info);
    CallIsFold(0, m.src);
    CallIsFold(HashCall(0, m.src), m.dst);
    InfoIsFold(HashCall(HashCall(0, m.src), m.dst), m.info, |m.info|);
    FoldJoin(0, a, b, |b|);
    FoldJoin(0, a + b, c, |c|);
    assert Values(m) == (a + b) + c;
  }

  // ---------------------------------------------------------------------
  // One changed byte
  // ---------------------------------------------------------------------

  /** 31 has an inverse modulo 65536, so that no two hashes are ever merged. */
  lemma StepKeepsApart(h: int, g: int, x: int)
    requires 0 <= h < 65536 && 0 <= g < 65536 && (h * 31 + x) % 65536 == (g * 31 + x) % 65536
    ensures h == g
  {
    var q := (h * 31 + x) / 65536 - (g * 31 + x) / 65536;
    assert 31 * (h - g) == 65536 * q;
    assert h - g == 65536 * (31711 * q - 15 * (h - g));
  }

  lemma StepTells(h: int, x: int, y: int)
    requires -65536 < x - y < 65536 && (h * 31 + x) % 65536 == (h * 31 + y) % 65536
    ensures x == y
  {
  }

  lemma FoldRange(h: int, v: seq<int>, n: nat)
    requires 0 <= h < 65536 && n <= |v|
    ensures 0 <= Fold(h, v, n) < 65536
  {
  }

  lemma {:induction false} FoldApart(h: int, v: seq<int>, w: seq<int>, i: nat, n: nat)
    requires 0 <= h < 65536 && i < n <= |v| == |w| && -65536 < v[i] - w[i] < 65536 && v[i] != w[i]
    requires forall k :: 0 <= k < |v| && k != i ==> v[k] == w[k]
    ensures Fold(h, v, n) != Fold(h, w, n)
  {
    FoldRange(h, v, n - 1);
    FoldRange(h, w, n - 1);
    if n == i + 1 {
      FoldOfPrefix(h, v, w, i);
      if Fold(h, v, n) == Fold(h, w, n) {
        StepTells(Fold(h, v, i), v[i], w[i]);
      }
    } else {
      FoldApart(h, v, w, i, n - 1);
      if Fold(h, v, n) == Fold(h, w, n) {
        StepKeepsApart(Fold(h, v, n - 1), Fold(h, w, n - 1), v[n - 1]);
      }
    }
  }

  /** Source, destination and payload as one string of bytes. */
  function Content(m: Msg): (b: seq<byte>)
    requires WellFormed(m)
    ensures |b| == 14 + |m.info|
  {
    m.src.name + [m.src.ssid] + m.dst.name + [m.dst.ssid] + m.info
  }

  lemma ValueAt(m: Msg, i: nat)
    requires WellFormed(m) && i < |Content(m)|
    ensures Values(m)[i] == if i < 6 || 7 <= i < 13 then Signed(Content(m)[i]) else Content(m)[i]
  {
  }

  /** Messages that differ in exactly one byte of source, destination or payload have different hashes. */
  lemma OneByteTold(m: Msg, w: Msg, i: nat)
    requires WellFormed(m) && WellFormed(w) && i < |Content(m)| == |Content(w)| && Content(m)[i] != Content(w)[i]
    requires forall k :: 0 <= k < |Content(m)| && k != i ==> Content(m)[k] == Content(w)[k]
    ensures Hash(m) != Hash(w)
  {
    HashIsFold(m);
    HashIsFold(w);
    forall k | 0 <= k < |Content(m)| && k != i
      ensures Values(m)[k] == Values(w)[k]
    {
      ValueAt(m, k);
      ValueAt(w, k);
    }
    ValueAt(m, i);
    ValueAt(w, i);
    FoldApart(0, Values(m), Values(w), i, |Values(m)|);
  }

  // ---------------------------------------------------------------------
  // The polynomial
  // ---------------------------------------------------------------------

  function Power31(n: nat): (p: int) {
    if n == 0 then 1 else 31 * Power31(n - 1)
  }

  /** Each number times 31 to the power of how many follow it. */
  function Polynomial(v: seq<int>): (r: int) {
    if v == [] then 0 else v[0] * Power31(|v| - 1) + Polynomial(v[1..])
  }

  lemma {:induction false} FoldIsPolynomial(h: int, v: seq<int>)
    requires v != []
    ensures Fold(h, v, |v|) == (h * Power31(|v|) + Polynomial(v)) % 65536
    decreases |v|
  {
    var x, rest := v[0], v[1..];
    assert v == [x] + rest;
    FoldJoin(h, [x], rest, |rest|);
    FoldOne(h, x);
    if rest == [] {
      assert Power31(1) == 31;
    } else {
      FoldIsPolynomial((h * 31 + x) % 65536, rest);
      FrontStep(h, x, Power31(|rest|), Polynomial(rest));
    }
  }

  lemma FrontStep(h: int, x: int, p: int, r: int)
    ensures ((h * 31 + x) % 65536 * p + r) % 65536 == (h * (31 * p) + (x * p + r)) % 65536
  {
    var a := h * 31 + x;
    var q := a / 65536;
    Turns65536(a % 65536 * p + r, q * p);
    Products(h, x, p, a, q);
  }

  lemma Products(h: int, x: int, p: int, a: int, q: int)
    requires a == h * 31 + x && q == a / 65536
    ensures a % 65536 * p + 65536 * (q * p) == h * (31 * p) + x * p
  {
    assert a % 65536 + 65536 * q == a;
    assert a % 65536 * p + 65536 * (q * p) == (a % 65536 + 65536 * q) * p;
    assert (h * 31 + x) * p == h * (31 * p) + x * p;
  }

  lemma Turns65536(x: int, k: int)
    ensures (x + 65536 * k) % 65536 == x % 65536
  {
  }

  /** The hash is the polynomial in 31 whose coefficients are the numbers of the message, modulo 65536. */
  lemma HashIsPolynomial(m: Msg)
    requires WellFormed(m)
    ensures Hash(m) == Polynomial(Values(m)) % 65536
  {
    HashIsFold(m);
    FoldIsPolynomial(0, Values(m));
  }
}
