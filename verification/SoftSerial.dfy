/**
  * The receive ring of the software serial port. The interrupt handler appends at the
  * tail; the reader takes from the head and may be interrupted between any two accesses.
  */
module SoftSerial {

  import opened Bytes

  const SIZE := 32

  /** The unread bytes of a ring, oldest first. */
  function Queue(buf: seq<byte>, head: nat, tail: nat): (q: seq<byte>)
    requires |buf| == SIZE && head < SIZE && tail < SIZE
    ensures |q| == Count(head, tail)
  {
    if head <= tail then buf[head..tail] else buf[head..] + buf[..tail]
  }

  /** The number of unread bytes. */
  function Count(head: nat, tail: nat): (n: nat)
    requires head < SIZE && tail < SIZE
    ensures n < SIZE && (n == 0 <==> head == tail)
  {
    if head <= tail then tail - head else tail + SIZE - head
  }

  function Next(i: nat): (r: nat)
    requires i < SIZE
    ensures r < SIZE
  {
    if i == SIZE - 1 then 0 else i + 1
  }

  /** Both as the code computes them. */
  lemma Modulo(i: nat, head: nat, tail: nat)
    requires i < SIZE && head < SIZE && tail < SIZE
    ensures (i + 1) % SIZE == Next(i) && (tail + SIZE - head) % SIZE == Count(head, tail)
  {
    assert (i + 1) % 32 == Next(i) && (tail + 32 - head) % 32 == Count(head, tail);
  }

  /** Storing at the tail appends, and leaves every unread byte as it is, unless the ring is full. */
  lemma Push(buf: seq<byte>, head: nat, tail: nat, d: byte)
    requires |buf| == SIZE && head < SIZE && tail < SIZE && Next(tail) != head
    ensures Queue(buf[tail := d], head, Next(tail)) == Queue(buf, head, tail) + [d]
  {
    var after := buf[tail := d];
    if tail == SIZE - 1 {
      assert after[head..] == buf[head..tail] + [d];
    } else {
      assert after[..tail + 1] == buf[..tail] + [d];
    }
  }

  /** The ring counts as full exactly when it holds 31 bytes. */
  lemma FullIff(head: nat, tail: nat)
    requires head < SIZE && tail < SIZE
    ensures Next(tail) == head <==> Count(head, tail) == 31
  {
  }

  /** Moving the head on drops the oldest byte, and that byte is the one found at the head. */
  lemma Pop(buf: seq<byte>, head: nat, tail: nat)
    requires |buf| == SIZE && head < SIZE && tail < SIZE && head != tail
    ensures Queue(buf, head, tail) == [buf[head]] + Queue(buf, Next(head), tail)
  {
    if head < tail {
      Cut(buf, head, tail);
    } else if head < SIZE - 1 {
      Cut(buf, head, SIZE);
      Associative([buf[head]], buf[head + 1..], buf[..tail]);
    } else {
      assert buf[head..] == [buf[head]];
    }
  }

  lemma Cut(s: seq<byte>, i: nat, j: nat)
    requires i < j <= |s|
    ensures s[i..j] == [s[i]] + s[i + 1..j]
  {
  }

  /** What is accepted of a burst of arrivals by a queue that has room for some of them. */
  function Accepted(room: nat, burst: seq<byte>): (r: seq<byte>)
    ensures |r| == if |burst| <= room then |burst| else room
    ensures r <= burst
  {
    if |burst| <= room then burst else burst[..room]
  }

  class Port {
    const buffer: array<byte>
    var head: nat
    var tail: nat
    var overflow: bool
    ghost var accepted: seq<byte>
    ghost var taken: seq<byte>

    /** What has been accepted is what has been read, followed by what is in the ring. */
    ghost predicate Valid()
      reads this, buffer
    {
      && buffer.Length == SIZE && head < SIZE && tail < SIZE
      && accepted == taken + Queue(buffer[..], head, tail)
    }

    ghost function Unread(): (q: seq<byte>)
      requires Valid()
      reads this, buffer
    {
      Queue(buffer[..], head, tail)
    }

    constructor ()
      ensures Valid() && accepted == [] && taken == [] && !overflow && fresh(buffer)
    {
      buffer := new byte[SIZE](_ => 0);
      head, tail, overflow, accepted, taken := 0, 0, false, [], [];
    }

    /** The interrupt: a byte has come in. It is lost exactly when 31 bytes are unread. */
    method Receive(d: byte)
      requires Valid()
      modifies this`tail, this`overflow, this`accepted, buffer
      ensures Valid()
      ensures if |old(Unread())| < SIZE - 1
              then Unread() == old(Unread()) + [d] && accepted == old(accepted) + [d] && overflow == old(overflow)
              else Unread() == old(Unread()) && accepted == old(accepted) && overflow
    {
      FullIff(head, tail);
      if Forward(tail) != head {
        Push(buffer[..], head, tail, d);
        Associative(taken, Queue(buffer[..], head, tail), [d]);
        buffer[tail] := d;
        tail := Forward(tail);
        accepted := accepted + [d];
      } else {
        overflow := true;
      }
    }

    /** Since the unread and the accepted bytes were these, some more have come in, as many as there is room for kept. */
    ghost predicate Took(unread: seq<byte>, known: seq<byte>, since: seq<byte>)
      reads this, buffer
    {
      && Valid() && |unread| < SIZE
      && Unread() == unread + Accepted(SIZE - 1 - |unread|, since)
      && accepted == known + Accepted(SIZE - 1 - |unread|, since)
    }

    /** One more interrupt. */
    method ReceiveNext(d: byte, ghost unread: seq<byte>, ghost known: seq<byte>, ghost since: seq<byte>)
      requires Took(unread, known, since)
      modifies this`tail, this`overflow, this`accepted, buffer
      ensures Took(unread, known, since + [d]) && old(Unread()) <= Unread()
      ensures overflow == (old(overflow) || |unread| + |since| + 1 >= SIZE)
    {
      ghost var room: nat := SIZE - 1 - |unread|;
      AcceptedNext(room, since, d);
      Associative(unread, Accepted(room, since), [d]);
      Associative(known, Accepted(room, since), [d]);
      Receive(d);
    }

    /** Interrupts in a gap between two accesses of the reader, on top of those since it started. */
    method Gap(burst: seq<byte>, ghost unread: seq<byte>, ghost known: seq<byte>, ghost since: seq<byte>)
      returns (ghost all: seq<byte>)
      requires Took(unread, known, since)
      modifies this`tail, this`overflow, this`accepted, buffer
      ensures Took(unread, known, all) && all == since + burst && old(Unread()) <= Unread()
      ensures overflow == (old(overflow) || (burst != [] && |unread| + |since| + |burst| >= SIZE))
    {
      all := since;
      var i := 0;
      ghost var start := Unread();
      while i < |burst|
        invariant 0 <= i <= |burst| && all == since + burst[..i]
        invariant Took(unread, known, all) && start <= Unread()
        invariant overflow == (old(overflow) || (i > 0 && |unread| + |since| + i >= SIZE))
      {
        OneMore(since, burst, i);
        ghost var before := Unread();
        ReceiveNext(burst[i], unread, known, all);
        PrefixOn(start, before, Unread());
        all := all + [burst[i]];
        i := i + 1;
      }
      assert burst[..i] == burst;
    }

    /** Any number of interrupts: as many bytes are accepted as there is room for. */
    method Interrupts(burst: seq<byte>)
      requires Valid()
      modifies this`tail, this`overflow, this`accepted, buffer
      ensures Took(old(Unread()), old(accepted), burst) && |old(Unread())| <= |Unread()| && old(accepted) <= accepted
      ensures overflow == (old(overflow) || |old(Unread())| + |burst| >= SIZE)
    {
      Nothing(Unread());
      Nothing(accepted);
      ghost var all := Gap(burst, Unread(), accepted, []);
      Nothing(burst);
    }

    /** Take the byte that was found at the head out of the ring. */
    method Advance(n: nat, d: byte)
      requires Valid() && Unread() != [] && n == head && d == Unread()[0]
      modifies this`head, this`taken
      ensures Valid() && taken == old(taken) + [d] && Unread() == old(Unread())[1..]
    {
      Pop(buffer[..], head, tail);
      ghost var rest := Queue(buffer[..], Next(head), tail);
      assert Unread()[1..] == rest && Unread()[0] == d;
      Associative(taken, [d], rest);
      head := Forward(n);
      taken := taken + [d];
    }

    /**
      * hw_softser_read, access by access, with arbitrary interrupts in every gap; which of head and
      * tail is read first for the comparison is left to the compiler. It finds the port empty only
      * if nothing was unread when the tail was read; otherwise it returns the oldest byte. Bytes
      * that come in meanwhile are kept as room allows.
      */
    method Read(gaps: seq<seq<byte>>, headFirst: bool) returns (r: int)
      requires Valid() && |gaps| == 5
      modifies this, buffer
      ensures Valid()
      ensures r == -1 <==> old(Unread()) + (if headFirst then gaps[0] else []) == []
      ensures r == -1 ==> taken == old(taken) && Took(old(Unread()), old(accepted), gaps[0])
      ensures r != -1 ==>
                && 0 <= r < 256 && r == (old(Unread()) + gaps[0])[0]
                && taken == old(taken) + [r]
                && accepted == old(accepted) + Accepted(SIZE - 1 - |old(Unread())|, gaps[0] + gaps[1] + gaps[2] + gaps[3] + gaps[4])
    {
      ghost var q, a := Unread(), accepted;
      var empty := Compare(gaps[0], headFirst);
      if empty {
        return -1;
      }
      var d, n := Grab(gaps, q, a);
      ghost var oldest := Unread()[0];
      ghost var since := Gap(gaps[4], q, a, gaps[0] + gaps[1] + gaps[2] + gaps[3]);
      assert Unread()[0] == oldest;
      Advance(n, d);
      r := d;
    }

    /** The comparison of head and tail, with interrupts between the two accesses. */
    method Compare(burst: seq<byte>, headFirst: bool) returns (empty: bool)
      requires Valid()
      modifies this`tail, this`overflow, this`accepted, buffer
      ensures Took(old(Unread()), old(accepted), burst)
      ensures empty <==> old(Unread()) + (if headFirst then burst else []) == []
      ensures !empty ==> Unread() != [] && Unread()[0] == (old(Unread()) + burst)[0]
    {
      if headFirst {
        var h := head;
        Interrupts(burst);
        empty := h == tail;
      } else {
        var t := tail;
        Interrupts(burst);
        empty := head == t;
      }
    }

    /** The byte at the head, and the head once more, with interrupts between the accesses. */
    method Grab(gaps: seq<seq<byte>>, ghost q: seq<byte>, ghost a: seq<byte>) returns (d: byte, n: nat)
      requires |gaps| == 5 && Took(q, a, gaps[0]) && Unread() != []
      modifies this`tail, this`overflow, this`accepted, buffer
      ensures Took(q, a, gaps[0] + gaps[1] + gaps[2] + gaps[3])
      ensures n == head && Unread() != [] && Unread()[0] == d == old(Unread()[0])
    {
      ghost var oldest := Unread()[0];
      ghost var since := Gap(gaps[1], q, a, gaps[0]);
      var i := head;
      since := Gap(gaps[2], q, a, since);
      assert Unread()[0] == oldest;
      Pop(buffer[..], head, tail);
      d := buffer[i];
      since := Gap(gaps[3], q, a, since);
      assert Unread()[0] == oldest;
      n := head;
    }

    /** hw_softser_avail: never more than can be read, in whichever order head and tail are read. */
    method Available(burst: seq<byte>, headFirst: bool) returns (n: nat)
      requires Valid()
      modifies this`tail, this`overflow, this`accepted, buffer
      ensures Valid() && |old(Unread())| <= n <= |Unread()|
      ensures old(accepted) <= accepted
    {
      if headFirst {
        var h := head;
        Interrupts(burst);
        n := Distance(h, tail);
      } else {
        var t := tail;
        Interrupts(burst);
        n := Distance(head, t);
      }
    }
  }

  /** The expression that moves either index on. */
  function Forward(i: nat): (r: nat)
    requires i < SIZE
    ensures r == Next(i)
  {
    Modulo(i, 0, 0);
    (i + 1) % SIZE
  }

  /** The expression of hw_softser_avail. */
  function Distance(head: nat, tail: nat): (n: nat)
    requires head < SIZE && tail < SIZE
    ensures n == Count(head, tail)
  {
    Modulo(0, head, tail);
    (tail + SIZE - head) % SIZE
  }

  lemma AcceptedNext(room: nat, since: seq<byte>, d: byte)
    ensures Accepted(room, since + [d]) == Accepted(room, since) + if |since| < room then [d] else []
  {
  }

  lemma OneMore(since: seq<byte>, burst: seq<byte>, i: nat)
    requires i < |burst|
    ensures since + burst[..i + 1] == since + burst[..i] + [burst[i]]
  {
  }

  lemma PrefixOn(a: seq<byte>, b: seq<byte>, c: seq<byte>)
    requires a <= b <= c
    ensures a <= c
  {
  }

  lemma Nothing(s: seq<byte>)
    ensures s + [] == s && [] + s == s
  {
  }

  // ---------------------------------------------------------------------
  // Whole sessions
  // ---------------------------------------------------------------------

  /** A call of the reader with its gaps, a look at the count, or a stretch without the reader. */
  datatype Call = ReadCall(gaps: seq<seq<byte>>, headFirst: bool) | AvailCall(burst: seq<byte>, headFirst: bool) | Idle(burst: seq<byte>)

  predicate GapsFit(c: Call) {
    c.ReadCall? ==> |c.gaps| == 5
  }

  /**
    * Any session: what the reader got, in order, followed by what is still in the ring, is
    * what was accepted, and nothing accepted is ever lost or changed.
    */
  method Session(port: Port, calls: seq<Call>) returns (got: seq<byte>)
    requires port.Valid() && forall i :: 0 <= i < |calls| ==> GapsFit(calls[i])
    modifies port, port.buffer
    ensures port.Valid() && port.taken == old(port.taken) + got
    ensures old(port.accepted) <= port.accepted
    ensures port.accepted == old(port.taken) + got + port.Unread()
  {
    got := [];
    for i := 0 to |calls|
      invariant port.Valid() && port.taken == old(port.taken) + got
      invariant old(port.accepted) <= port.accepted
    {
      match calls[i]
      case ReadCall(gaps, headFirst) =>
        assert GapsFit(calls[i]);
        var r := port.Read(gaps, headFirst);
        if r != -1 {
          Associative(old(port.taken), got, [r]);
          got := got + [r];
        }
      case AvailCall(burst, headFirst) =>
        var n := port.Available(burst, headFirst);
      case Idle(burst) =>
        port.Interrupts(burst);
    }
  }
}
