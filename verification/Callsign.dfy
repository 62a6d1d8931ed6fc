/**
  * Callsigns as text, after TinyAPRS/utils.c: a call of up to six characters and an SSID whose
  * top bit says that the station has repeated the packet, such as "BG5HHP-7" or "WIDE1-1*".
  */
module Callsign {
  import opened Bytes

  const DASH: byte := 45
  const STAR: byte := 42

  /** The value of an `AX25Call`: six bytes of call, unused ones zero, and the SSID. */
  datatype Station = Station(call: seq<byte>, ssid: byte)

  ghost predicate WellSized(s: Station) {
    |s.call| == 6
  }

  // The text of a station

  /** Where a string ends: at its first zero byte, or where the buffer does. */
  function Length(s: seq<byte>): (n: nat)
    ensures n <= |s| && (n < |s| ==> s[n] == 0)
    ensures forall i :: 0 <= i < n ==> s[i] != 0
  {
    if s == [] || s[0] == 0 then 0 else 1 + Length(s[1..])
  }

  /** The SSID without its top bit. */
  function Number(ssid: byte): (n: byte)
    ensures n < 128
  {
    ssid % 128
  }

  function NumberText(n: byte): (t: seq<byte>)
    requires n < 128
  {
    if n == 0 then [] else if n < 10 then [DASH, n + 48] else [DASH, n / 10 + 48, n % 10 + 48]
  }

  function StarText(ssid: byte): (t: seq<byte>) {
    if ssid >= 128 then [STAR] else []
  }

  function Suffix(ssid: byte): (t: seq<byte>) {
    NumberText(Number(ssid)) + StarText(ssid)
  }

  function Text(s: Station): (t: seq<byte>)
    requires WellSized(s)
  {
    s.call[..Length(s.call)] + Suffix(s.ssid)
  }

  /** The part of a buffer that is parsed: up to its end, with the length cut to eight bits. */
  function Kept(buf: seq<byte>): (t: seq<byte>) {
    buf[..Length(buf) % 256]
  }

  lemma KeptIs(buf: seq<byte>, n: nat)
    requires Length(buf) == n < 256
    ensures Kept(buf) == buf[..n]
  {}

  // The station a text names

  /** The first dash, or the end of the text. */
  function Dash(t: seq<byte>): (d: nat)
    ensures d <= |t| && (d < |t| ==> t[d] == DASH)
    ensures forall i :: 0 <= i < d ==> t[i] != DASH
  {
    if t == [] || t[0] == DASH then 0 else 1 + Dash(t[1..])
  }

  function CallOf(t: seq<byte>): (c: seq<byte>)
    ensures |c| == 6
  {
    var d := Dash(t);
    seq(6, i requires 0 <= i < 6 => if i < d then ToUpper(t[i]) else 0)
  }

  /** The digits of a text as a decimal number in eight bits; whatever is no digit is passed over. */
  function Decimal(t: seq<byte>): (n: byte) {
    if t == [] then 0 else
      var n, c := Decimal(t[..|t| - 1]), t[|t| - 1];
      if 48 <= c <= 57 then (n * 10 + (c - 48)) % 256 else n
  }

  lemma DecimalNext(t: seq<byte>, a: nat, i: nat)
    requires a <= i < |t|
    ensures var n, c := Decimal(t[a..i]), t[i];
      Decimal(t[a..i + 1]) == if 48 <= c <= 57 then (n * 10 + (c - 48)) % 256 else n
  {
    assert t[a..i + 1][..i - a] == t[a..i];
  }

  function SsidOf(t: seq<byte>): (n: byte) {
    var d := Dash(t);
    if d < |t| then Decimal(t[d + 1..]) else 0
  }

  function StationOf(t: seq<byte>): (s: Station)
    ensures WellSized(s)
  {
    Station(CallOf(t), SsidOf(t))
  }

  // The two directions

  /** What a call must be for its text to lead back to it. */
  predicate Plain(call: seq<byte>)
    requires |call| == 6
  {
    var n := Length(call);
    && (forall i :: 0 <= i < n ==> call[i] != DASH && ToUpper(call[i]) == call[i])
    && (forall i :: n <= i < 6 ==> call[i] == 0)
  }

  lemma {:induction false} DashAfter(a: seq<byte>, b: seq<byte>)
    requires forall i :: 0 <= i < |a| ==> a[i] != DASH
    ensures Dash(a + b) == |a| + Dash(b)
  {
    if a != [] {
      assert (a + b)[1..] == a[1..] + b;
      DashAfter(a[1..], b);
    } else {
      assert a + b == b;
    }
  }

  /** The number written after the dash is read back, up to two digits. */
  lemma SsidBack(ssid: byte)
    ensures Dash(Suffix(ssid)) == (if Number(ssid) == 0 then |Suffix(ssid)| else 0)
    ensures SsidOf(Suffix(ssid)) == if Number(ssid) < 100 then Number(ssid) else Number(ssid) % 10
  {
    var n := Number(ssid);
    var t := Suffix(ssid);
    if n == 0 {
    } else {
      assert t[0] == DASH;
      DigitsBack(n, t[1..]);
    }
  }

  lemma DigitsBack(n: byte, t: seq<byte>)
    requires 0 < n < 128
    requires t == NumberText(n)[1..] || t == NumberText(n)[1..] + [STAR]
    ensures Decimal(t) == if n < 100 then n else n % 10
  {
    var digits := NumberText(n)[1..];
    if n < 10 {
      assert digits == [n + 48];
      DecimalOne(n + 48);
    } else {
      assert digits == [n / 10 + 48, n % 10 + 48];
      DecimalTwo(n / 10 + 48, n % 10 + 48);
    }
    if t != digits {
      assert t[..|t| - 1] == digits;
    }
  }

  lemma DecimalOne(c: byte)
    ensures Decimal([c]) == if 48 <= c <= 57 then c - 48 else 0
  {
    assert [c][..0] == [];
  }

  lemma DecimalTwo(b: byte, c: byte)
    requires 48 <= c <= 57
    ensures Decimal([b, c]) == if 48 <= b <= 57 then (b - 48) * 10 + (c - 48) else c - 48
  {
    assert [b, c][..1] == [b];
    DecimalOne(b);
  }

  lemma DashInText(s: Station)
    requires WellSized(s)
    requires forall i :: 0 <= i < Length(s.call) ==> s.call[i] != DASH
    ensures Dash(Text(s)) == Length(s.call) + Dash(Suffix(s.ssid))
    ensures SsidOf(Text(s)) == SsidOf(Suffix(s.ssid))
  {
    var name, t := s.call[..Length(s.call)], Suffix(s.ssid);
    DashAfter(name, t);
    SsidAfter(name, t);
  }

  lemma SsidAfter(name: seq<byte>, t: seq<byte>)
    requires Dash(name + t) == |name| + Dash(t)
    ensures SsidOf(name + t) == SsidOf(t)
  {
    var d := Dash(t);
    if d < |t| {
      assert (name + t)[|name| + d + 1..] == t[d + 1..];
    }
  }

  /** A dash inside the call is never read back. */
  lemma DashBreaks(s: Station, k: nat)
    requires WellSized(s) && k < Length(s.call) && s.call[k] == DASH
    ensures CallOf(Text(s)) != s.call
  {
    var t := Text(s);
    var d := Dash(t);
    assert t[k] == DASH;
    assert d <= k;
    assert t[d] == s.call[d];
    assert CallOf(t)[d] == 0;
  }

  lemma Forth(s: Station)
    requires WellSized(s) && Plain(s.call) && s.ssid <= 99
    ensures StationOf(Text(s)) == s
  {
    DashInText(s);
    SsidBack(s.ssid);
    assert CallOf(Text(s)) == s.call;
  }

  lemma Back(s: Station)
    requires WellSized(s) && StationOf(Text(s)) == s
    ensures Plain(s.call) && s.ssid <= 99
  {
    var n := Length(s.call);
    forall i | 0 <= i < n
      ensures s.call[i] != DASH
    {
      if s.call[i] == DASH {
        DashBreaks(s, i);
      }
    }
    DashInText(s);
    SsidBack(s.ssid);
    var c := CallOf(Text(s));
    assert Dash(Text(s)) == n;
    forall i | 0 <= i < 6
      ensures if i < n then ToUpper(s.call[i]) == s.call[i] else s.call[i] == 0
    {
      assert c[i] == s.call[i];
    }
  }

  /** Printing a station and parsing the text gives the station back exactly in these cases. */
  lemma RoundTripIff(s: Station)
    requires WellSized(s)
    ensures StationOf(Text(s)) == s <==> Plain(s.call) && s.ssid <= 99
  {
    if StationOf(Text(s)) == s {
      Back(s);
    }
    if Plain(s.call) && s.ssid <= 99 {
      Forth(s);
    }
  }

  lemma CallOfIsPlain(t: seq<byte>)
    requires Length(t) == |t|
    ensures Plain(CallOf(t))
  {
    var c, d := CallOf(t), Dash(t);
    var n := Length(c);
    if n < 6 {
      assert c[n] == if n < d then ToUpper(t[n]) else 0;
      assert n >= d;
    }
    forall i | 0 <= i < 6
      ensures if i < n then c[i] != DASH && ToUpper(c[i]) == c[i] else c[i] == 0
    {
      assert c[i] == if i < d then ToUpper(t[i]) else 0;
    }
  }

  /** Whatever text was parsed, the station prints and parses to itself again, up to SSID 99. */
  lemma ParsedIsStable(t: seq<byte>)
    requires Length(t) == |t|
    ensures StationOf(Text(StationOf(t))) == StationOf(t) <==> SsidOf(t) <= 99
  {
    CallOfIsPlain(t);
    RoundTripIff(StationOf(t));
  }

  /** The text with its terminator takes ten bytes, and eleven in a single case. */
  lemma TextFits(s: Station)
    requires WellSized(s)
    ensures |Text(s)| + 1 <= 11
    ensures |Text(s)| + 1 <= 10 <==> !(Length(s.call) == 6 && Number(s.ssid) >= 10 && s.ssid >= 128)
  {}

  lemma {:induction false} LengthIs(s: seq<byte>, n: nat)
    requires n < |s| && s[n] == 0 && forall i :: 0 <= i < n ==> s[i] != 0
    ensures Length(s) == n
  {}

  lemma NoZeroInside(s: Station, i: nat)
    requires WellSized(s) && i < |Text(s)|
    ensures Text(s)[i] != 0
  {
    var n := Length(s.call);
    if i >= n {
      assert Text(s)[i] == Suffix(s.ssid)[i - n];
    }
  }

  lemma Terminated(t: seq<byte>, buf: seq<byte>)
    requires |t| < |buf| && buf[..|t| + 1] == t + [0]
    requires forall i :: 0 <= i < |t| ==> t[i] != 0
    ensures Length(buf) == |t| && buf[..|t|] == t
  {
    var n := |t|;
    assert buf[n] == buf[..n + 1][n];
    forall i | 0 <= i < n
      ensures buf[i] == t[i]
    {
      assert buf[i] == buf[..n + 1][i];
    }
    LengthIs(buf, n);
  }

  /** A buffer that a station was printed to is parsed as the text of the station, and no more. */
  lemma BufferHoldsText(s: Station, buf: seq<byte>)
    requires WellSized(s) && |Text(s)| < |buf| && buf[..|Text(s)| + 1] == Text(s) + [0]
    ensures Length(buf) < |buf| && Kept(buf) == Text(s)
  {
    forall i | 0 <= i < |Text(s)|
      ensures Text(s)[i] != 0
    {
      NoZeroInside(s, i);
    }
    TextFits(s);
    Terminated(Text(s), buf);
    KeptIs(buf, |Text(s)|);
  }

  // Letters and numbers

  /** What follows the call, in numbers: a dash and one or two digits, and a star behind them for the top bit. */
  lemma SuffixInNumbers(n: byte)
    requires n < 128
    ensures Suffix(n) == if n == 0 then [] else if n < 10 then [45, 48 + n] else [45, 48 + n / 10, 48 + n % 10]
    ensures Suffix(128 + n) == Suffix(n) + [42]
  {
  }

  /** Of a call longer than six characters the first six are taken, and its SSID is read all the same. */
  lemma LongCallIsCut(t: seq<byte>)
    requires Dash(t) > 6
    ensures StationOf(t) == StationOf(t[..6] + t[Dash(t)..])
  {
    var d := Dash(t);
    var u := t[..6] + t[d..];
    DashAfter(t[..6], t[d..]);
    assert CallOf(t) == CallOf(u);
    if d < |t| {
      assert u[7..] == t[d + 1..];
    }
  }

  /** Whatever is no digit is passed over in an SSID. */
  lemma {:induction false} OnlyDigitsCount(a: seq<byte>, c: byte, b: seq<byte>)
    requires !(48 <= c <= 57)
    ensures Decimal(a + [c] + b) == Decimal(a + b)
    decreases |b|
  {
    if b == [] {
      assert (a + [c] + b)[..|a|] == a && a + b == a;
    } else {
      var n := |b| - 1;
      assert (a + [c] + b)[..|a| + 1 + n] == a + [c] + b[..n];
      assert (a + b)[..|a| + n] == a + b[..n];
      OnlyDigitsCount(a, c, b[..n]);
    }
  }

  /** An SSID of three digits wraps at 256. */
  lemma ThreeDigits(x: byte, y: byte, z: byte)
    requires x < 10 && y < 10 && z < 10
    ensures Decimal([48 + x, 48 + y, 48 + z]) == (100 * x + 10 * y + z) % 256
  {
    assert [48 + x, 48 + y, 48 + z][..2] == [48 + x, 48 + y];
    DecimalTwo(48 + x, 48 + y);
  }

  /** The same text but for the case of its letters. */
  ghost predicate SameText(t: seq<byte>, u: seq<byte>) {
    |t| == |u| && forall i :: 0 <= i < |t| ==> SameLetter(t[i], u[i])
  }

  lemma {:induction false} SameDash(t: seq<byte>, u: seq<byte>)
    requires SameText(t, u)
    ensures Dash(t) == Dash(u)
  {
    if t != [] && t[0] != DASH {
      SameDash(t[1..], u[1..]);
    }
  }

  lemma {:induction false} SameDecimal(t: seq<byte>, u: seq<byte>)
    requires SameText(t, u)
    ensures Decimal(t) == Decimal(u)
  {
    if t != [] {
      var n := |t| - 1;
      SameDecimal(t[..n], u[..n]);
      assert SameLetter(t[n], u[n]);
    }
  }

  /** Texts that differ only in the case of their letters name the same station, in upper case. */
  lemma AnyCase(t: seq<byte>, u: seq<byte>)
    requires SameText(t, u)
    ensures StationOf(t) == StationOf(u)
    ensures forall i :: 0 <= i < 6 ==> !(97 <= StationOf(t).call[i] <= 122)
  {
    SameDash(t, u);
    var d := Dash(t);
    forall i | 0 <= i < 6 && i < d
      ensures ToUpper(t[i]) == ToUpper(u[i])
    {
      ToUpperTells(t[i], u[i]);
    }
    assert CallOf(t) == CallOf(u);
    if d < |t| {
      SameDecimal(t[d + 1..], u[d + 1..]);
    }
  }

  // The structure and its two operations

  method Put(buf: array<byte>, i: nat, c: byte) returns (j: nat)
    requires i < buf.Length
    modifies buf
    ensures j == i + 1 && buf[..j] == old(buf[..i]) + [c]
    ensures forall k :: j <= k < buf.Length ==> buf[k] == old(buf[k])
  {
    buf[i] := c;
    j := i + 1;
  }

  /** The dash and the digits of an SSID. */
  method PutNumber(buf: array<byte>, i: nat, number: byte) returns (j: nat)
    requires number < 128 && i + |NumberText(number)| <= buf.Length
    modifies buf
    ensures j == i + |NumberText(number)| && buf[..j] == old(buf[..i]) + NumberText(number)
    ensures forall k :: j <= k < buf.Length ==> buf[k] == old(buf[k])
  {
    j := i;
    if number > 0 {
      j := Put(buf, j, DASH);
      if number < 10 {
        j := Put(buf, j, number + 48);
      } else {
        var s := number / 10;
        j := Put(buf, j, s + 48);
        j := Put(buf, j, number - s * 10 + 48);
      }
    }
  }

  class Call {
    const call: array<byte>
    var ssid: byte

    ghost predicate Valid() {
      call.Length == 6
    }

    ghost function Value(): (s: Station)
      requires Valid()
      reads this, call
      ensures WellSized(s)
    {
      Station(call[..], ssid)
    }

    constructor ()
      ensures Valid() && fresh(call)
    {
      call := new byte[6];
      ssid := 0;
    }

    /** The first loop of `ax25call_to_string`: the call up to its first zero byte. */
    method CopyName(buf: array<byte>) returns (i: nat)
      requires Valid() && buf != call && Length(call[..]) <= buf.Length
      modifies buf
      ensures i == Length(call[..]) && buf[..i] == call[..i]
      ensures forall k :: i <= k < buf.Length ==> buf[k] == old(buf[k])
    {
      i := 0;
      while i < 6
        invariant i <= Length(call[..])
        invariant buf[..i] == call[..i]
        invariant forall k :: i <= k < buf.Length ==> buf[k] == old(buf[k])
      {
        if call[i] == 0 {
          break;
        }
        buf[i] := call[i];
        i := i + 1;
      }
    }

    /** `ax25call_to_string`. The buffer must be large enough, as in the C code. */
    method ToString(buf: array<byte>) returns (n: nat)
      requires Valid() && buf != call && |Text(Value())| < buf.Length
      modifies buf
      ensures n == |Text(Value())| + 1 && buf[..n] == Text(Value()) + [0]
      ensures forall k :: n <= k < buf.Length ==> buf[k] == old(buf[k])
    {
      ghost var name := call[..Length(call[..])];
      var i := CopyName(buf);
      i := PutNumber(buf, i, Number(ssid));
      if ssid >= 128 {
        i := Put(buf, i, STAR);
      }
      Associative(name, NumberText(Number(ssid)), StarText(ssid));
      n := Put(buf, i, 0);
    }

    /** The value of the structure once the first `i` characters are parsed. */
    ghost predicate Parsed(t: seq<byte>, i: nat, state: nat)
      requires Valid() && i <= |t|
      reads this, call
    {
      && state == (if i <= Dash(t) then 0 else 1)
      && (forall k :: 0 <= k < 6 ==> call[k] == if k < i && k < Dash(t) then ToUpper(t[k]) else 0)
      && ssid == if i <= Dash(t) then 0 else Decimal(t[Dash(t) + 1..i])
    }

    /** The body of the loop of `ax25call_from_string`. */
    method Parse(c: byte, i: nat, state: nat, ghost t: seq<byte>) returns (next: nat)
      requires Valid() && i < |t| && t[i] == c && Parsed(t, i, state)
      modifies this, call
      ensures Parsed(t, i + 1, next)
    {
      next := state;
      if state == 0 {
        if c == DASH {
          next := 1;
          assert Dash(t) == i;
          assert t[i + 1..i + 1] == [];
        } else if i < 6 {
          call[i] := ToUpper(c);
        }
      } else {
        DecimalNext(t, Dash(t) + 1, i);
        if 48 <= c <= 57 {
          ssid := (ssid * 10 + (c - 48)) % 256;
        }
      }
    }

    method Clear(ghost t: seq<byte>)
      requires Valid()
      modifies this, call
      ensures Parsed(t, 0, 0)
    {
      forall k | 0 <= k < 6 {
        call[k] := 0;
      }
      ssid := 0;
    }

    /** `ax25call_from_string`. Only eight bits of the length of the text are kept. */
    method FromString(buf: array<byte>)
      requires Valid() && buf != call && Length(buf[..]) < buf.Length
      modifies this, call
      ensures Value() == StationOf(Kept(buf[..]))
    {
      ParseUpTo(buf, Length(buf[..]) % 256);
    }

    method ParseUpTo(buf: array<byte>, len: nat)
      requires Valid() && buf != call && len <= Length(buf[..])
      modifies this, call
      ensures Value() == StationOf(buf[..len])
    {
      ghost var t := buf[..len];
      Clear(t);
      var i, state := 0, 0;
      while i < len && buf[i] != 0
        invariant i <= len
        invariant Parsed(t, i, state)
      {
        state := Parse(buf[i], i, state, t);
        i := i + 1;
      }
      ParsedAll(t, state);
    }

    lemma ParsedAll(t: seq<byte>, state: nat)
      requires Valid() && Parsed(t, |t|, state)
      ensures Value() == StationOf(t)
    {
      assert call[..] == CallOf(t);
      if Dash(t) < |t| {
        assert t[Dash(t) + 1..|t|] == t[Dash(t) + 1..];
      }
    }
  }

  /** Printing one station and parsing the text into another copies it, exactly in these cases. */
  method PrintAndParse(a: Call, buf: array<byte>, b: Call)
    requires a.Valid() && b.Valid() && buf.Length >= 11
    requires a != b && a.call != b.call && buf != a.call && buf != b.call
    modifies buf, b, b.call
    ensures b.Value() == a.Value() <==> Plain(a.call[..]) && a.ssid <= 99
  {
    ghost var s := a.Value();
    TextFits(s);
    var n := a.ToString(buf);
    BufferHoldsText(s, buf[..]);
    b.FromString(buf);
    RoundTripIff(s);
  }
}
