/**
  * KISS framing on the serial line: an encoder that escapes, and a decoder that is fed
  * one byte at a time together with the time of its arrival.
  */
module Kiss {

  import opened Bytes

  const FEND: byte := 0xC0
  const FESC: byte := 0xDB
  const TFEND: byte := 0xDC
  const TFESC: byte := 0xDD

  /** The size of the buffer shared with the serial reader, and two seconds in timer ticks. */
  const BUF_LEN := 330
  const TIMEOUT := 2000

  // ---------------------------------------------------------------------
  // The clock: a signed 32 bit tick counter that wraps around
  // ---------------------------------------------------------------------

  function Tick(time: int): (t: int) {
    Int32(time)
  }

  /** The decoder's test for silence, on wrapped readings. */
  predicate Late(time: int, rxTick: int) {
    Tick(Tick(time) - rxTick) > TIMEOUT
  }

  /** Up to two seconds of true time are never late, wherever the counter wraps. */
  lemma InTime(stored: int, now: int)
    requires 0 <= now - stored <= TIMEOUT
    ensures !Late(now, Tick(stored))
  {
    Int32Difference(now, stored);
  }

  // ---------------------------------------------------------------------
  // The decoder
  // ---------------------------------------------------------------------

  /** The bytes collected so far, the escape flag and the tick of the last stored byte. */
  datatype Decoder = Decoder(acc: seq<byte>, escaped: bool, rxTick: int)

  datatype Timed = Timed(c: byte, at: int)

  /** The sanity checks on arrival of a byte: silence, and a buffer about to overflow. */
  function Checked(d: Decoder, at: int): (r: Decoder)
    ensures |r.acc| <= |d.acc| && r.escaped == d.escaped && r.rxTick == d.rxTick
  {
    if d.acc != [] && Late(at, d.rxTick) then d.(acc := [])
    else if |d.acc| >= BUF_LEN - 2 then d.(acc := [])
    else d
  }

  function Unescaped(c: byte, escaped: bool): (r: byte) {
    if escaped && c == TFESC then FESC
    else if escaped && c == TFEND then FEND
    else c
  }

  /** Storing a byte. The length is kept in eight bits, so the 256th byte empties the frame. */
  function Stored(acc: seq<byte>, c: byte): (r: seq<byte>)
    ensures |r| == (|acc| + 1) % 256 || |acc| > 255
  {
    if |acc| >= 255 then [] else acc + [c]
  }

  /** One byte, once the checks are done. */
  function Step(d: Decoder, b: Timed): (r: Decoder) {
    if b.c == FEND then Decoder([], false, d.rxTick)
    else if b.c == FESC then d.(escaped := true)
    else Decoder(Stored(d.acc, Unescaped(b.c, d.escaped)), false, Tick(b.at))
  }

  /** The frame that a byte completes then, if any. */
  function Given(d: Decoder, c: byte): (r: seq<seq<byte>>)
    ensures |r| <= 1
  {
    if c == FEND && !d.escaped && d.acc != [] then [d.acc] else []
  }

  function Next(d: Decoder, b: Timed): (r: Decoder) {
    Step(Checked(d, b.at), b)
  }

  function Delivery(d: Decoder, b: Timed): (r: seq<seq<byte>>)
    ensures |r| <= 1
  {
    Given(Checked(d, b.at), b.c)
  }

  /** The decoder as it is written, around a buffer and an eight bit length. */
  class Reader {
    const buf: array<byte>
    var readLen: nat
    var escaped: bool
    var rxTick: int

    ghost predicate InBuffer()
      reads this
    {
      buf.Length == BUF_LEN && readLen <= BUF_LEN
    }

    ghost predicate Valid()
      reads this
    {
      InBuffer() && readLen < 256
    }

    ghost function View(): (d: Decoder)
      requires InBuffer()
      reads this, buf
    {
      Decoder(buf[..readLen], escaped, rxTick)
    }

    constructor ()
      ensures Valid() && View() == Decoder([], false, 0) && fresh(buf)
    {
      buf := new byte[BUF_LEN];
      readLen, escaped, rxTick := 0, false, 0;
    }

    /** One poll of the serial line; without a byte nothing happens. */
    method Poll(input: Option<byte>, now: int) returns (frames: seq<seq<byte>>)
      requires Valid()
      modifies this, buf
      ensures Valid()
      ensures input.None? ==> View() == old(View()) && frames == []
      ensures input.Some? ==>
                View() == Next(old(View()), Timed(input.value, now)) &&
                frames == Delivery(old(View()), Timed(input.value, now))
    {
      frames := [];
      if input.None? {
        return;
      }
      SanityChecks(now);
      frames := Take(input.value, now);
    }

    /** The buffer would be about to overflow at 328 bytes, which a length of eight bits never reaches. */
    method SanityChecks(now: int)
      requires InBuffer()
      modifies this`readLen
      ensures InBuffer() && readLen <= old(readLen) && View() == Checked(old(View()), now)
    {
      if readLen != 0 && Late(now, rxTick) {
        readLen := 0;
      }
      if readLen >= buf.Length - 2 {
        readLen := 0;
      }
    }

    /** The byte itself, once the checks are done. */
    method Take(input: byte, now: int) returns (frames: seq<seq<byte>>)
      requires Valid()
      modifies this, buf
      ensures Valid() && View() == Step(old(View()), Timed(input, now)) && frames == Given(old(View()), input)
    {
      var c := input;
      frames := [];
      if c == FEND {
        if !escaped && readLen > 0 {
          frames := [buf[..readLen]];
        }
        readLen := 0;
        escaped := false;
        return;
      } else if c == FESC {
        escaped := true;
        return;
      } else if c == TFESC {
        if escaped {
          escaped := false;
          c := FESC;
        }
      } else if c == TFEND {
        if escaped {
          escaped := false;
          c := FEND;
        }
      } else if escaped {
        escaped := false;
      }
      Store(c, now);
    }

    method Store(c: byte, now: int)
      requires Valid()
      modifies this`readLen, this`rxTick, buf
      ensures Valid() && View() == Decoder(Stored(old(View()).acc, c), escaped, Tick(now))
    {
      buf[readLen] := c;
      readLen := (readLen + 1) % 256;
      rxTick := Tick(now);
    }
  }

  // ---------------------------------------------------------------------
  // Streams
  // ---------------------------------------------------------------------

  /** The decoder after the first n bytes of a stream. */
  function Feed(d: Decoder, s: seq<Timed>, n: nat): (r: Decoder)
    requires n <= |s|
  {
    if n == 0 then d else Next(Feed(d, s, n - 1), s[n - 1])
  }

  /** The frames delivered while the first n bytes arrive. */
  function Frames(d: Decoder, s: seq<Timed>, n: nat): (r: seq<seq<byte>>)
    requires n <= |s|
  {
    if n == 0 then [] else Frames(d, s, n - 1) + Delivery(Feed(d, s, n - 1), s[n - 1])
  }

  predicate Clean(d: Decoder) {
    d.acc == [] && !d.escaped
  }

  /** The decoder's length never leaves eight bits, so no frame is longer than 255 bytes. */
  lemma {:induction false} LengthFits(d: Decoder, s: seq<Timed>, n: nat)
    requires |d.acc| <= 255 && n <= |s|
    ensures |Feed(d, s, n).acc| <= 255
    ensures forall f :: f in Frames(d, s, n) ==> 0 < |f| <= 255
  {
    if n > 0 {
      LengthFits(d, s, n - 1);
    }
  }

  // ---------------------------------------------------------------------
  // The encoder
  // ---------------------------------------------------------------------

  function Escape(c: byte): (r: seq<byte>) {
    if c == FEND then [FESC, TFEND] else if c == FESC then [FESC, TFESC] else [c]
  }

  function EscapeAll(s: seq<byte>): (r: seq<byte>) {
    if s == [] then [] else Escape(s[0]) + EscapeAll(s[1..])
  }

  /** Port in the high half, command in the low half. */
  function Header(port: nat, cmd: nat): (h: byte) {
    port % 16 * 16 + cmd % 16
  }

  function Encode(header: byte, payload: seq<byte>): (r: seq<byte>) {
    [FEND, header] + EscapeAll(payload) + [FEND]
  }

  lemma {:induction false} EscapeAppend(a: seq<byte>, b: seq<byte>)
    ensures EscapeAll(a + b) == EscapeAll(a) + EscapeAll(b)
    decreases |a|
  {
    if a == [] {
      assert a + b == b;
    } else {
      assert (a + b)[0] == a[0] && (a + b)[1..] == a[1..] + b;
      EscapeAppend(a[1..], b);
    }
  }

  lemma EscapeNext(s: seq<byte>, i: nat)
    requires i < |s|
    ensures EscapeAll(s[..i + 1]) == EscapeAll(s[..i]) + Escape(s[i])
  {
    assert s[..i + 1] == s[..i] + [s[i]];
    EscapeAppend(s[..i], [s[i]]);
    assert EscapeAll([s[i]]) == Escape(s[i]);
  }

  lemma Regroup(a: seq<byte>, b: seq<byte>, c: seq<byte>, d: seq<byte>)
    ensures a + b + c + d == a + (b + c + d)
  {
  }

  /** The line towards the host, as the bytes put on it so far. */
  class Serial {
    var sent: seq<byte>

    constructor ()
      ensures sent == []
    {
      sent := [];
    }

    method Put(c: byte)
      modifies this
      ensures sent == old(sent) + [c]
    {
      sent := sent + [c];
    }

    method Begin(port: nat, cmd: nat)
      modifies this
      ensures sent == old(sent) + [FEND, Header(port, cmd)]
    {
      Put(FEND);
      Put(port % 16 * 16 + cmd % 16);
    }

    method Send(buf: seq<byte>)
      modifies this
      ensures sent == old(sent) + EscapeAll(buf)
    {
      var i := 0;
      while i < |buf|
        invariant 0 <= i <= |buf|
        invariant sent == old(sent) + EscapeAll(buf[..i])
      {
        ghost var before := sent;
        EscapeNext(buf, i);
        Associative(old(sent), EscapeAll(buf[..i]), Escape(buf[i]));
        var c := buf[i];
        if c == FEND {
          Put(FESC);
          Put(TFEND);
        } else {
          Put(c);
          if c == FESC {
            Put(TFESC);
          }
        }
        assert sent == before + Escape(c);
        i := i + 1;
      }
      assert buf[..i] == buf;
    }

    method End()
      modifies this
      ensures sent == old(sent) + [FEND]
    {
      Put(FEND);
    }

    /** kiss_send_to_serial: one frame. */
    method SendFrame(port: nat, cmd: nat, buf: seq<byte>)
      modifies this
      ensures sent == old(sent) + Encode(Header(port, cmd), buf)
    {
      Regroup(sent, [FEND, Header(port, cmd)], EscapeAll(buf), [FEND]);
      Begin(port, cmd);
      Send(buf);
      End();
    }
  }

  // ---------------------------------------------------------------------
  // In numbers
  // ---------------------------------------------------------------------

  /** The wire form as the KISS specification gives it. */
  lemma WireInNumbers(c: byte, port: nat, cmd: nat, payload: seq<byte>)
    requires port < 16 && cmd < 16
    ensures Escape(0xC0) == [0xDB, 0xDC] && Escape(0xDB) == [0xDB, 0xDD]
    ensures c != 0xC0 && c != 0xDB ==> Escape(c) == [c]
    ensures Encode(Header(port, cmd), payload) == [0xC0, 16 * port + cmd] + EscapeAll(payload) + [0xC0]
    ensures EscapeAll([c] + payload) == Escape(c) + EscapeAll(payload)
  {
    assert ([c] + payload)[1..] == payload;
  }

  /** The silence after which a frame is given up: more than 2000 ticks, up to where the counter has wrapped half. */
  lemma LateIff(stored: int, now: int)
    requires 0 <= now - stored < 0x8000_0000
    ensures Late(now, Tick(stored)) <==> now - stored > 2000
  {
    Int32Difference(now, stored);
  }

  /** The byte after an escape: two of them stand for others, the rest for themselves; a delimiter drops the frame. */
  lemma AfterEscapeInNumbers(d: Decoder, c: byte, at: int)
    requires d.escaped && |d.acc| < 255
    ensures Step(d, Timed(0xDC, at)).acc == d.acc + [0xC0] && Step(d, Timed(0xDD, at)).acc == d.acc + [0xDB]
    ensures c != 0xC0 && c != 0xDB && c != 0xDC && c != 0xDD ==> Step(d, Timed(c, at)).acc == d.acc + [c]
    ensures c != 0xC0 && c != 0xDB ==> !Step(d, Timed(c, at)).escaped && Step(d, Timed(c, at)).rxTick == Tick(at)
    ensures Given(d, 0xC0) == [] && Clean(Step(d, Timed(0xC0, at))) && Step(d, Timed(0xDB, at)) == d
  {
  }

  // ---------------------------------------------------------------------
  // From the encoder to the decoder
  // ---------------------------------------------------------------------

  /** The stream carries these bytes from position i on. */
  ghost predicate Carries(s: seq<Timed>, i: nat, bytes: seq<byte>) {
    i + |bytes| <= |s| && forall k :: 0 <= k < |bytes| ==> s[i + k].c == bytes[k]
  }

  lemma CarriesSplit(s: seq<Timed>, i: nat, a: seq<byte>, b: seq<byte>)
    requires Carries(s, i, a + b)
    ensures Carries(s, i, a) && Carries(s, i + |a|, b)
  {
    forall k | 0 <= k < |a|
      ensures s[i + k].c == a[k]
    {
      assert (a + b)[k] == a[k];
    }
    forall k | 0 <= k < |b|
      ensures s[i + |a| + k].c == b[k]
    {
      assert (a + b)[|a| + k] == b[k];
      assert s[i + (|a| + k)].c == b[k];
    }
  }

  /** When the last byte to be stored arrived, if there was one since the last delimiter. */
  function LastStored(s: seq<Timed>, n: nat): (r: Option<int>)
    requires n <= |s|
  {
    if n == 0 || s[n - 1].c == FEND then None
    else if s[n - 1].c == FESC then LastStored(s, n - 1)
    else Some(s[n - 1].at)
  }

  /** From position i on, no byte comes too late after the last stored byte of its frame. */
  ghost predicate Punctual(s: seq<Timed>, i: nat) {
    forall k :: i <= k < |s| && LastStored(s, k).Some? ==> !Late(s[k].at, Tick(LastStored(s, k).value))
  }

  /** In true time: the clock does not run backwards and leaves no gap over two seconds. */
  ghost predicate NoGaps(s: seq<Timed>, i: nat) {
    forall k :: i <= k < |s| && LastStored(s, k).Some? ==> 0 <= s[k].at - LastStored(s, k).value <= TIMEOUT
  }

  lemma NoGapsIsPunctual(s: seq<Timed>, i: nat)
    requires NoGaps(s, i)
    ensures Punctual(s, i)
  {
    forall k | i <= k < |s| && LastStored(s, k).Some?
      ensures !Late(s[k].at, Tick(LastStored(s, k).value))
    {
      InTime(LastStored(s, k).value, s[k].at);
    }
  }

  /** Inside a frame: what has been collected, and when its last byte came. */
  ghost predicate Inside(d: Decoder, acc: seq<byte>, last: Option<int>) {
    d.acc == acc && !d.escaped && (acc == [] <==> last.None?) && (last.Some? ==> d.rxTick == Tick(last.value))
  }

  /** A byte that arrives in time passes the sanity checks. */
  lemma InsideChecked(d: Decoder, acc: seq<byte>, last: Option<int>, at: int)
    requires Inside(d, acc, last) && |acc| <= 255
    requires last.Some? ==> !Late(at, Tick(last.value))
    ensures Checked(d, at) == d
  {
  }

  /** Between two positions nothing is delivered and the frame grows to acc. */
  ghost predicate Grown(d: Decoder, s: seq<Timed>, i: nat, j: nat, acc: seq<byte>) {
    i <= j <= |s| && Inside(Feed(d, s, j), acc, LastStored(s, j)) && Frames(d, s, j) == Frames(d, s, i)
  }

  /** A byte that is stored as it is. */
  lemma PlainByte(d: Decoder, s: seq<Timed>, h: nat, i: nat, j: nat, acc: seq<byte>, c: byte)
    requires Punctual(s, i) && i < |s| && j == i + 1 && s[i].c == c && c != FEND && c != FESC && |acc| < 255
    requires Grown(d, s, h, i, acc)
    ensures Grown(d, s, h, j, acc + [c])
  {
    InsideChecked(Feed(d, s, i), acc, LastStored(s, i), s[i].at);
  }

  /** The same inside a frame with an escape pending. */
  ghost predicate Pending(d: Decoder, s: seq<Timed>, h: nat, i: nat, acc: seq<byte>) {
    && h <= i <= |s| && Feed(d, s, i).escaped && Frames(d, s, i) == Frames(d, s, h)
    && Inside(Feed(d, s, i).(escaped := false), acc, LastStored(s, i))
  }

  lemma EscapeMark(d: Decoder, s: seq<Timed>, h: nat, i: nat, j: nat, acc: seq<byte>)
    requires Punctual(s, i) && i < |s| && j == i + 1 && s[i].c == FESC && |acc| < 255
    requires Grown(d, s, h, i, acc)
    ensures Pending(d, s, h, j, acc)
  {
    InsideChecked(Feed(d, s, i), acc, LastStored(s, i), s[i].at);
  }

  lemma AfterEscape(d: Decoder, s: seq<Timed>, h: nat, i: nat, j: nat, acc: seq<byte>, c: byte)
    requires Punctual(s, i) && i < |s| && j == i + 1 && |acc| < 255
    requires (s[i].c == TFEND || s[i].c == TFESC) && c == Unescaped(s[i].c, true)
    requires Pending(d, s, h, i, acc)
    ensures Grown(d, s, h, j, acc + [c])
  {
    var e := Feed(d, s, i);
    InsideChecked(e.(escaped := false), acc, LastStored(s, i), s[i].at);
    assert Checked(e, s[i].at) == e;
  }

  /** An escape and the byte that stands for the escaped one. */
  lemma EscapedByte(d: Decoder, s: seq<Timed>, h: nat, i: nat, j: nat, acc: seq<byte>, c: byte)
    requires Punctual(s, i) && i + 1 < |s| && j == i + 2 && s[i].c == FESC && |acc| < 255
    requires s[i + 1].c == TFEND || s[i + 1].c == TFESC
    requires Grown(d, s, h, i, acc) && c == Unescaped(s[i + 1].c, true)
    ensures Grown(d, s, h, j, acc + [c])
  {
    var k := i + 1;
    EscapeMark(d, s, h, i, k, acc);
    PunctualLater(s, i, k);
    AfterEscape(d, s, h, k, j, acc, c);
  }

  /** The wire form of a byte: itself, or an escape and what stands for it. */
  lemma WireForm(s: seq<Timed>, i: nat, c: byte)
    requires Carries(s, i, Escape(c))
    ensures i < |s|
    ensures if c == FEND || c == FESC then
              && i + 1 < |s| && |Escape(c)| == 2 && s[i].c == FESC
              && (s[i + 1].c == TFEND || s[i + 1].c == TFESC) && Unescaped(s[i + 1].c, true) == c
            else |Escape(c)| == 1 && s[i].c == c
  {
    assert s[i + 0].c == Escape(c)[0];
    if |Escape(c)| == 2 {
      assert s[i + 1].c == Escape(c)[1];
    }
  }

  /** The wire form of one payload byte adds that byte to the frame and delivers nothing. */
  lemma OneByte(d: Decoder, s: seq<Timed>, h: nat, i: nat, j: nat, acc: seq<byte>, c: byte)
    requires Punctual(s, i) && Carries(s, i, Escape(c)) && |acc| < 255
    requires Grown(d, s, h, i, acc) && j == i + |Escape(c)|
    ensures Grown(d, s, h, j, acc + [c])
  {
    WireForm(s, i, c);
    if |Escape(c)| == 2 {
      EscapedByte(d, s, h, i, j, acc, c);
    } else {
      PlainByte(d, s, h, i, j, acc, c);
    }
  }

  lemma {:induction false} PayloadBytes(d: Decoder, s: seq<Timed>, h: nat, i: nat, j: nat,
                                        acc: seq<byte>, payload: seq<byte>)
    requires Punctual(s, i) && Carries(s, i, EscapeAll(payload)) && |acc| + |payload| <= 255
    requires Grown(d, s, h, i, acc) && j == i + |EscapeAll(payload)|
    ensures Grown(d, s, h, j, acc + payload)
    decreases |payload|
  {
    if payload == [] {
      assert acc + payload == acc;
    } else {
      var c := payload[0];
      var k := PayloadSplit(s, i, j, payload);
      PunctualLater(s, i, k);
      OneByte(d, s, h, i, k, acc, c);
      PayloadBytes(d, s, h, k, j, acc + [c], payload[1..]);
      HeadFirst(acc, payload);
    }
  }

  /** Where the first byte of a payload ends on the wire. */
  lemma PayloadSplit(s: seq<Timed>, i: nat, j: nat, payload: seq<byte>) returns (k: nat)
    requires payload != [] && Carries(s, i, EscapeAll(payload)) && j == i + |EscapeAll(payload)|
    ensures i <= k && k == i + |Escape(payload[0])| && Carries(s, i, Escape(payload[0]))
    ensures Carries(s, k, EscapeAll(payload[1..])) && j == k + |EscapeAll(payload[1..])|
  {
    k := i + |Escape(payload[0])|;
    CarriesSplit(s, i, Escape(payload[0]), EscapeAll(payload[1..]));
  }

  lemma PunctualLater(s: seq<Timed>, i: nat, k: nat)
    requires i <= k && Punctual(s, i)
    ensures Punctual(s, k)
  {
  }

  lemma HeadFirst(a: seq<byte>, b: seq<byte>)
    requires b != []
    ensures a + [b[0]] + b[1..] == a + b
  {
  }

  // ---------------------------------------------------------------------
  // Frames
  // ---------------------------------------------------------------------

  datatype Frame = Frame(header: byte, payload: seq<byte>)

  /** The header goes out unescaped, and a frame's length has to fit eight bits. */
  predicate Sendable(f: Frame) {
    f.header != FEND && f.header != FESC && |f.payload| <= 254
  }

  function Content(f: Frame): (r: seq<byte>) {
    [f.header] + f.payload
  }

  function Contents(fs: seq<Frame>): (r: seq<seq<byte>>) {
    if fs == [] then [] else [Content(fs[0])] + Contents(fs[1..])
  }

  function EncodeAll(fs: seq<Frame>): (r: seq<byte>) {
    if fs == [] then [] else Encode(fs[0].header, fs[0].payload) + EncodeAll(fs[1..])
  }

  /** Between frames: nothing collected, nothing pending. */
  ghost predicate Between(d: Decoder, s: seq<Timed>, i: nat) {
    i <= |s| && Clean(Feed(d, s, i)) && LastStored(s, i).None?
  }

  /** Whatever state the decoder is in, a delimiter puts it between frames. */
  lemma Resync(d: Decoder, s: seq<Timed>, i: nat)
    requires i < |s| && s[i].c == FEND
    ensures Between(d, s, i + 1)
  {
  }

  /** Frames seen from one position to another, both between frames. */
  ghost predicate Brings(d: Decoder, s: seq<Timed>, i: nat, j: nat, more: seq<seq<byte>>) {
    i <= j <= |s| && Between(d, s, j) && Frames(d, s, j) == Frames(d, s, i) + more
  }

  lemma ClosingByte(d: Decoder, s: seq<Timed>, h: nat, i: nat, j: nat, acc: seq<byte>)
    requires Punctual(s, i) && i < |s| && j == i + 1 && s[i].c == FEND && acc != [] && |acc| <= 255
    requires Grown(d, s, h, i, acc)
    ensures Brings(d, s, h, j, [acc])
  {
    InsideChecked(Feed(d, s, i), acc, LastStored(s, i), s[i].at);
  }

  lemma OpeningByte(d: Decoder, s: seq<Timed>, i: nat)
    requires i < |s| && s[i].c == FEND && Between(d, s, i)
    ensures Grown(d, s, i, i + 1, [])
  {
  }

  lemma CarriesOne(s: seq<Timed>, i: nat, c: byte)
    requires Carries(s, i, [c])
    ensures s[i].c == c
  {
    assert s[i + 0].c == [c][0];
  }

  /** Where the parts of a frame lie on the wire. */
  lemma Layout(s: seq<Timed>, i: nat, j: nat, f: Frame)
    requires Carries(s, i, Encode(f.header, f.payload)) && j == i + |Encode(f.header, f.payload)|
    ensures i + 3 <= j <= |s| && s[i].c == FEND && s[i + 1].c == f.header && s[j - 1].c == FEND
    ensures Carries(s, i + 2, EscapeAll(f.payload)) && j - 1 == i + 2 + |EscapeAll(f.payload)|
  {
    var wire := EscapeAll(f.payload);
    CarriesSplit(s, i, [FEND, f.header] + wire, [FEND]);
    CarriesSplit(s, i, [FEND, f.header], wire);
    assert [FEND, f.header] == [FEND] + [f.header];
    CarriesSplit(s, i, [FEND], [f.header]);
    CarriesOne(s, i, FEND);
    CarriesOne(s, i + 1, f.header);
    CarriesOne(s, j - 1, FEND);
  }

  lemma OneFrame(d: Decoder, s: seq<Timed>, i: nat, j: nat, f: Frame)
    requires Sendable(f) && Between(d, s, i) && Punctual(s, i)
    requires Carries(s, i, Encode(f.header, f.payload)) && j == i + |Encode(f.header, f.payload)|
    ensures Brings(d, s, i, j, [Content(f)])
  {
    Layout(s, i, j, f);
    var e := j - 1;
    PunctualLater(s, i, e);
    WithoutEnd(d, s, i, e, f);
    ClosingByte(d, s, i, e, j, Content(f));
  }

  lemma HeaderByte(d: Decoder, s: seq<Timed>, i: nat, f: Frame)
    requires Sendable(f) && Between(d, s, i) && Punctual(s, i)
    requires i + 1 < |s| && s[i].c == FEND && s[i + 1].c == f.header
    ensures Grown(d, s, i, i + 2, [f.header])
  {
    OpeningByte(d, s, i);
    PunctualLater(s, i, i + 1);
    PlainByte(d, s, i, i + 1, i + 2, [], f.header);
    assert [] + [f.header] == [f.header];
  }

  /** A frame up to its closing delimiter is collected and not yet delivered. */
  lemma WithoutEnd(d: Decoder, s: seq<Timed>, i: nat, j: nat, f: Frame)
    requires Sendable(f) && Between(d, s, i) && Punctual(s, i)
    requires i + 1 < |s| && s[i].c == FEND && s[i + 1].c == f.header
    requires Carries(s, i + 2, EscapeAll(f.payload)) && j == i + 2 + |EscapeAll(f.payload)|
    ensures Grown(d, s, i, j, Content(f))
  {
    HeaderByte(d, s, i, f);
    PunctualLater(s, i, i + 2);
    PayloadBytes(d, s, i, i + 2, j, [f.header], f.payload);
  }

  lemma BringsMore(d: Decoder, s: seq<Timed>, i: nat, k: nat, j: nat, f: seq<byte>, rest: seq<seq<byte>>)
    requires i <= |s| && Brings(d, s, i, k, [f]) && Brings(d, s, k, j, rest)
    ensures Brings(d, s, i, j, [f] + rest)
  {
    FramesJoin(Frames(d, s, i), f, rest);
  }

  lemma FramesJoin(a: seq<seq<byte>>, b: seq<byte>, c: seq<seq<byte>>)
    ensures (a + [b]) + c == a + ([b] + c)
  {
  }

  lemma {:induction false} AllFrames(d: Decoder, s: seq<Timed>, i: nat, j: nat, fs: seq<Frame>)
    requires forall f :: f in fs ==> Sendable(f)
    requires Between(d, s, i) && Punctual(s, i)
    requires Carries(s, i, EncodeAll(fs)) && j == i + |EncodeAll(fs)|
    ensures Brings(d, s, i, j, Contents(fs))
    decreases |fs|
  {
    if fs == [] {
      assert Frames(d, s, i) + [] == Frames(d, s, i);
    } else {
      var k := FramesSplit(s, i, j, fs);
      OneFrame(d, s, i, k, fs[0]);
      PunctualLater(s, i, k);
      AllFrames(d, s, k, j, fs[1..]);
      BringsMore(d, s, i, k, j, Content(fs[0]), Contents(fs[1..]));
    }
  }

  /** Where the first frame ends on the wire. */
  lemma FramesSplit(s: seq<Timed>, i: nat, j: nat, fs: seq<Frame>) returns (k: nat)
    requires fs != [] && Carries(s, i, EncodeAll(fs)) && j == i + |EncodeAll(fs)|
    ensures var wire := Encode(fs[0].header, fs[0].payload);
            && i <= k && k == i + |wire| && Carries(s, i, wire)
            && Carries(s, k, EncodeAll(fs[1..])) && j == k + |EncodeAll(fs[1..])|
  {
    var wire := Encode(fs[0].header, fs[0].payload);
    k := i + |wire|;
    CarriesSplit(s, i, wire, EncodeAll(fs[1..]));
  }

  /**
    * From any decoder state and after any bytes that end in a delimiter, the encodings of
    * any list of frames deliver exactly those frames, in order, if no gap between stored
    * bytes exceeds two seconds.
    */
  lemma Delivered(d: Decoder, s: seq<Timed>, i: nat, fs: seq<Frame>)
    requires forall f :: f in fs ==> Sendable(f)
    requires 0 < i <= |s| && s[i - 1].c == FEND && NoGaps(s, i)
    requires Carries(s, i, EncodeAll(fs)) && |s| == i + |EncodeAll(fs)|
    ensures Frames(d, s, |s|) == Frames(d, s, i) + Contents(fs)
  {
    Resync(d, s, i - 1);
    NoGapsIsPunctual(s, i);
    AllFrames(d, s, i, |s|, fs);
  }

  lemma OneDelivered(d: Decoder, s: seq<Timed>, i: nat, f: Frame, wire: seq<byte>)
    requires Sendable(f) && 0 < i <= |s| && s[i - 1].c == FEND && NoGaps(s, i)
    requires wire == Encode(f.header, f.payload) && Carries(s, i, wire) && |s| == i + |wire|
    ensures Frames(d, s, |s|) == Frames(d, s, i) + [Content(f)]
  {
    Resync(d, s, i - 1);
    NoGapsIsPunctual(s, i);
    OneFrame(d, s, i, |s|, f);
  }

  /** Bytes as they arrive, each at the time the clock shows for its number. */
  function Stamped(bytes: seq<byte>, clock: nat -> int): (s: seq<Timed>)
    ensures |s| == |bytes| && forall i :: 0 <= i < |s| ==> s[i] == Timed(bytes[i], clock(i))
  {
    seq(|bytes|, i requires 0 <= i < |bytes| => Timed(bytes[i], clock(i)))
  }

  /** Every byte of a stream is polled. */
  method PollAll(reader: Reader, bytes: seq<byte>, clock: nat -> int) returns (got: seq<seq<byte>>)
    requires reader.Valid()
    modifies reader, reader.buf
    ensures reader.Valid()
    ensures var s := Stamped(bytes, clock);
            reader.View() == Feed(old(reader.View()), s, |s|) && got == Frames(old(reader.View()), s, |s|)
  {
    ghost var s, d := Stamped(bytes, clock), reader.View();
    got := [];
    for i := 0 to |bytes|
      invariant reader.Valid()
      invariant reader.View() == Feed(d, s, i) && got == Frames(d, s, i)
    {
      var more := reader.Poll(Some(bytes[i]), clock(i));
      got := got + more;
    }
  }

  lemma HeaderParts(h: byte)
    ensures Header(h / 16, h % 16) == h
  {
  }

  /** Every frame of a list is sent, one after the other. */
  method SendAll(serial: Serial, fs: seq<Frame>)
    modifies serial
    ensures serial.sent == old(serial.sent) + EncodeAll(fs)
  {
    ghost var before, left := serial.sent, fs;
    for i := 0 to |fs|
      invariant left == fs[i..]
      invariant before + EncodeAll(fs) == serial.sent + EncodeAll(left)
    {
      var f := fs[i];
      HeaderParts(f.header);
      Associative(serial.sent, Encode(f.header, f.payload), EncodeAll(left[1..]));
      serial.SendFrame(f.header / 16, f.header % 16, f.payload);
      left := left[1..];
    }
  }

  /** The encoder and the decoder together: what is sent into a decoder between frames comes out of it. */
  method ThereAndBack(reader: Reader, fs: seq<Frame>, clock: nat -> int) returns (got: seq<seq<byte>>)
    requires reader.Valid() && Clean(reader.View())
    requires forall f :: f in fs ==> Sendable(f)
    requires NoGaps(Stamped(EncodeAll(fs), clock), 0)
    modifies reader, reader.buf
    ensures reader.Valid() && Clean(reader.View()) && got == Contents(fs)
  {
    var serial := new Serial();
    SendAll(serial, fs);
    assert serial.sent == EncodeAll(fs);
    Relayed(reader.View(), fs, clock);
    got := PollAll(reader, serial.sent, clock);
  }

  lemma Relayed(d: Decoder, fs: seq<Frame>, clock: nat -> int)
    requires Clean(d) && forall f :: f in fs ==> Sendable(f)
    requires NoGaps(Stamped(EncodeAll(fs), clock), 0)
    ensures var s := Stamped(EncodeAll(fs), clock);
            Clean(Feed(d, s, |s|)) && Frames(d, s, |s|) == Contents(fs)
  {
    var s := Stamped(EncodeAll(fs), clock);
    NoGapsIsPunctual(s, 0);
    AllFrames(d, s, 0, |s|, fs);
    assert [] + Contents(fs) == Contents(fs);
  }

  // ---------------------------------------------------------------------
  // Exactly when a frame gets through
  // ---------------------------------------------------------------------

  function Total(frames: seq<seq<byte>>): (n: nat) {
    if frames == [] then 0 else Total(frames[..|frames| - 1]) + |frames[|frames| - 1]|
  }

  /** How many of the first n wire bytes can be stored: all but delimiters and escapes. */
  function Storable(s: seq<Timed>, n: nat): (r: nat)
    requires n <= |s|
  {
    if n == 0 then 0 else Storable(s, n - 1) + if s[n - 1].c == FEND || s[n - 1].c == FESC then 0 else 1
  }

  /** Bytes delivered and bytes in the buffer. */
  ghost function Held(d: Decoder, s: seq<Timed>, n: nat): (r: nat)
    requires n <= |s|
  {
    Total(Frames(d, s, n)) + |Feed(d, s, n).acc|
  }

  lemma TotalNext(fs: seq<seq<byte>>, more: seq<seq<byte>>)
    requires |more| <= 1
    ensures Total(fs + more) == Total(fs) + if more == [] then 0 else |more[0]|
  {
    if more == [] {
      assert fs + more == fs;
    } else {
      assert (fs + more)[..|fs|] == fs;
    }
  }

  /** One byte: what is held grows by at most the byte itself, and loses the buffer if it comes too late. */
  lemma HeldStep(d: Decoder, s: seq<Timed>, n: nat)
    requires n < |s|
    ensures Held(d, s, n + 1) <= Held(d, s, n) + Storable(s, n + 1) - Storable(s, n)
    ensures Feed(d, s, n).acc != [] && Late(s[n].at, Feed(d, s, n).rxTick) ==>
              Held(d, s, n + 1) < Held(d, s, n) + Storable(s, n + 1) - Storable(s, n)
  {
    TotalNext(Frames(d, s, n), Delivery(Feed(d, s, n), s[n]));
  }

  /** The decoder invents nothing: it never holds more than was there to be stored. */
  lemma {:induction false} HeldBound(d: Decoder, s: seq<Timed>, m: nat, n: nat)
    requires m <= n <= |s|
    ensures Held(d, s, n) <= Held(d, s, m) + Storable(s, n) - Storable(s, m)
    decreases n - m
  {
    if m < n {
      var k := m + 1;
      HeldStep(d, s, m);
      HeldBound(d, s, k, n);
    }
  }

  /** A byte that comes too late after the last one its frame stored. */
  predicate TooLate(s: seq<Timed>, k: nat)
    requires k < |s|
  {
    LastStored(s, k).Some? && Late(s[k].at, Tick(LastStored(s, k).value))
  }

  lemma {:induction false} FirstTooLate(s: seq<Timed>, k: nat) returns (m: nat)
    requires k < |s| && TooLate(s, k)
    ensures m <= k && TooLate(s, m) && forall i :: 0 <= i < m ==> !TooLate(s, i)
  {
    if i: nat :| i < k && TooLate(s, i) {
      m := FirstTooLate(s, i);
    } else {
      m := k;
    }
  }

  lemma {:induction false} StorableGrows(s: seq<Timed>, m: nat, n: nat)
    requires m <= n <= |s|
    ensures Storable(s, m) <= Storable(s, n)
    decreases n
  {
    if m < n {
      StorableGrows(s, m, n - 1);
    }
  }

  /** Until the first late byte, a stored byte of the frame is still in the buffer. */
  lemma {:induction false} StillThere(d: Decoder, s: seq<Timed>, k: nat)
    requires Clean(d) && k <= |s| && Storable(s, k) <= 255
    requires forall i :: 0 <= i < k ==> !TooLate(s, i)
    ensures LastStored(s, k).Some? ==> Feed(d, s, k).acc != [] && Feed(d, s, k).rxTick == Tick(LastStored(s, k).value)
  {
    if k > 0 {
      StorableGrows(s, k - 1, k);
      StillThere(d, s, k - 1);
      HeldBound(d, s, 0, k - 1);
      assert !TooLate(s, k - 1);
    }
  }

  lemma StorableByte(s: seq<Timed>, i: nat, j: nat, c: byte)
    requires Carries(s, i, Escape(c)) && j == i + |Escape(c)|
    ensures Storable(s, j) == Storable(s, i) + 1
  {
    assert s[i + 0].c == Escape(c)[0];
    if |Escape(c)| == 2 {
      assert s[i + 1].c == Escape(c)[1];
    }
  }

  lemma {:induction false} StorablePayload(s: seq<Timed>, i: nat, j: nat, payload: seq<byte>)
    requires Carries(s, i, EscapeAll(payload)) && j == i + |EscapeAll(payload)|
    ensures Storable(s, j) == Storable(s, i) + |payload|
    decreases |payload|
  {
    if payload != [] {
      var c, rest := payload[0], payload[1..];
      var k := i + |Escape(c)|;
      CarriesSplit(s, i, Escape(c), EscapeAll(rest));
      StorableByte(s, i, k, c);
      StorablePayload(s, k, j, rest);
    }
  }

  lemma StorableFrame(s: seq<Timed>, f: Frame)
    requires Carries(s, 0, Encode(f.header, f.payload)) && |s| == |Encode(f.header, f.payload)|
    ensures Storable(s, |s|) == |f.payload| + if f.header == FEND || f.header == FESC then 0 else 1
  {
    Layout(s, 0, |s|, f);
    assert Storable(s, 1) == 0;
    StorablePayload(s, 2, |s| - 1, f.payload);
  }

  lemma LateLoses(d: Decoder, s: seq<Timed>, k: nat)
    requires Clean(d) && k < |s| && TooLate(s, k) && Storable(s, |s|) <= 255
    ensures Held(d, s, |s|) < Storable(s, |s|)
  {
    var m := FirstTooLate(s, k);
    StorableGrows(s, m, |s|);
    StillThere(d, s, m);
    HeldBound(d, s, 0, m);
    HeldStep(d, s, m);
    HeldBound(d, s, m + 1, |s|);
  }

  lemma NotPunctual(s: seq<Timed>) returns (k: nat)
    requires !Punctual(s, 0)
    ensures k < |s| && TooLate(s, k)
  {
    k :| k < |s| && LastStored(s, k).Some? && Late(s[k].at, Tick(LastStored(s, k).value));
  }

  lemma OnlyIfSendable(d: Decoder, s: seq<Timed>, f: Frame)
    requires Clean(d) && Frames(d, s, |s|) == [Content(f)]
    requires Carries(s, 0, Encode(f.header, f.payload)) && |s| == |Encode(f.header, f.payload)|
    ensures Sendable(f) && Punctual(s, 0)
  {
    LengthFits(d, s, |s|);
    assert Content(f) in Frames(d, s, |s|);
    TotalNext([], [Content(f)]);
    assert [] + [Content(f)] == [Content(f)];
    StorableFrame(s, f);
    HeldBound(d, s, 0, |s|);
    if !Punctual(s, 0) {
      var k := NotPunctual(s);
      LateLoses(d, s, k);
    }
  }

  /**
    * A frame on its own comes out whole exactly when its header needs no escape, its length
    * fits eight bits and no byte of it comes too late.
    */
  lemma GetsThroughIff(d: Decoder, s: seq<Timed>, f: Frame)
    requires Clean(d)
    requires Carries(s, 0, Encode(f.header, f.payload)) && |s| == |Encode(f.header, f.payload)|
    ensures Frames(d, s, |s|) == [Content(f)] <==> Sendable(f) && Punctual(s, 0)
  {
    if Sendable(f) && Punctual(s, 0) {
      OneFrame(d, s, 0, |s|, f);
      assert [] + [Content(f)] == [Content(f)];
    }
    if Frames(d, s, |s|) == [Content(f)] {
      OnlyIfSendable(d, s, f);
    }
  }
}
