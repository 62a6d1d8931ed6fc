/**
  * The digipeater: WIDEn-N path rewriting, and a ring of eight records that keeps a
  * message from being repeated again within 15 seconds.
  */
module Digi {

  import opened Bytes

  /** A reading of the clock in seconds, as the 32 bit unsigned number it is stored in. */
  type seconds = x: int | 0 <= x < 0x1_0000_0000

  const MAX_RPT := 8
  const CACHE_SIZE := 8
  const DUP_INTERVAL := 15

  datatype Call = Call(name: seq<byte>, ssid: byte)

  datatype Entry = Entry(call: Call, repeated: bool)

  /** A message: two addresses, the repeater path with its has-been-repeated flags, and the payload. */
  datatype Msg = Msg(src: Call, dst: Call, path: seq<Entry>, info: seq<byte>)

  predicate WellFormed(m: Msg) {
    && |m.src.name| == 6 && |m.dst.name| == 6
    && |m.path| <= MAX_RPT
    && forall i :: 0 <= i < |m.path| ==> |m.path[i].call.name| == 6
  }

  // ---------------------------------------------------------------------
  // Path entries
  // ---------------------------------------------------------------------

  /** A comparison of the first five characters that ignores case. */
  predicate IsWide(c: Call)
    requires |c.name| == 6
  {
    && ToUpper(c.name[0]) == 'W' as int && ToUpper(c.name[1]) == 'I' as int
    && ToUpper(c.name[2]) == 'D' as int && ToUpper(c.name[3]) == 'E' as int
    && (c.name[4] == '1' as int || c.name[4] == '2' as int || c.name[4] == '3' as int)
  }

  predicate Counts(e: Entry)
    requires |e.call.name| == 6
  {
    IsWide(e.call) && !e.repeated
  }

  predicate Eligible(e: Entry)
    requires |e.call.name| == 6
  {
    IsWide(e.call) && e.call.ssid > 0 && !e.repeated
  }

  /** The first entry that asks for a repeat, or the length of the path. */
  function FirstFrom(path: seq<Entry>, i: nat): (r: nat)
    requires i <= |path| && forall k :: 0 <= k < |path| ==> |path[k].call.name| == 6
    ensures i <= r <= |path|
    ensures forall k :: i <= k < r ==> !Eligible(path[k])
    ensures r < |path| ==> Eligible(path[r])
    decreases |path| - i
  {
    if i == |path| || Eligible(path[i]) then i else FirstFrom(path, i + 1)
  }

  /** What is left of the hop count: the SSIDs of the entries that have not been repeated. */
  function BudgetTo(path: seq<Entry>, n: nat): (r: nat)
    requires n <= |path| && forall k :: 0 <= k < |path| ==> |path[k].call.name| == 6
  {
    if n == 0 then 0 else BudgetTo(path, n - 1) + Share(path[n - 1])
  }

  function Share(e: Entry): (r: nat)
    requires |e.call.name| == 6
  {
    if Counts(e) then e.call.ssid else 0
  }

  function Budget(m: Msg): (r: nat)
    requires WellFormed(m)
  {
    BudgetTo(m.path, |m.path|)
  }

  // ---------------------------------------------------------------------
  // The rewrite
  // ---------------------------------------------------------------------

  /** The entry handed on to the next digipeater: one hop less, the name cut to five characters. */
  function Onward(e: Entry): (r: Entry)
    requires |e.call.name| == 6 && e.call.ssid > 1
  {
    Entry(Call(e.call.name[..5] + [0], e.call.ssid - 1), false)
  }

  /** Whether a message that asks for a repeat at entry i has room for it. */
  predicate HasRoom(m: Msg, i: nat)
    requires i < |m.path|
  {
    m.path[i].call.ssid > 1 ==> i < MAX_RPT - 1
  }

  /** The path as it goes out: this station, marked repeated, and behind it what is left of the hops. */
  function NewPath(path: seq<Entry>, i: nat, mycall: Call): (r: seq<Entry>)
    requires i < |path| && |path[i].call.name| == 6
  {
    var done := path[..i] + [Entry(mycall, true)];
    if path[i].call.ssid <= 1 then done + path[i + 1..]
    else done + [Onward(path[i])] + if i + 1 < |path| then path[i + 2..] else []
  }

  function Rewritten(m: Msg, i: nat, mycall: Call): (r: Msg)
    requires WellFormed(m) && i < |m.path| && |mycall.name| == 6
  {
    m.(path := NewPath(m.path, i, mycall))
  }

  lemma {:induction false} BudgetOfPrefix(p: seq<Entry>, q: seq<Entry>, n: nat)
    requires forall k :: 0 <= k < |p| ==> |p[k].call.name| == 6
    requires forall k :: 0 <= k < |q| ==> |q[k].call.name| == 6
    requires n <= |p| && n <= |q| && forall k :: 0 <= k < n ==> p[k] == q[k]
    ensures BudgetTo(p, n) == BudgetTo(q, n)
  {
    if n > 0 {
      BudgetOfPrefix(p, q, n - 1);
    }
  }

  /** From n on the two paths agree, so their budgets differ by what they differ by at n. */
  lemma {:induction false} BudgetOfSuffix(p: seq<Entry>, q: seq<Entry>, n: nat, m: nat)
    requires forall k :: 0 <= k < |p| ==> |p[k].call.name| == 6
    requires forall k :: 0 <= k < |q| ==> |q[k].call.name| == 6
    requires n <= m <= |p| == |q| && forall k :: n <= k < m ==> p[k] == q[k]
    ensures BudgetTo(p, m) - BudgetTo(q, m) == BudgetTo(p, n) - BudgetTo(q, n)
    decreases m
  {
    if n < m {
      BudgetOfSuffix(p, q, n, m - 1);
    }
  }

  lemma NewPathShape(path: seq<Entry>, i: nat, mycall: Call)
    requires i < |path| <= MAX_RPT && |mycall.name| == 6
    requires forall k :: 0 <= k < |path| ==> |path[k].call.name| == 6
    requires path[i].call.ssid > 1 ==> i < MAX_RPT - 1
    ensures var q := NewPath(path, i, mycall);
            && |q| == (if path[i].call.ssid > 1 && i + 1 == |path| then |path| + 1 else |path|)
            && |q| <= MAX_RPT
            && (forall k :: 0 <= k < |q| ==> |q[k].call.name| == 6)
            && (forall k :: 0 <= k < i ==> q[k] == path[k])
            && q[i] == Entry(mycall, true)
            && (path[i].call.ssid > 1 ==> q[i + 1] == Onward(path[i]))
            && (path[i].call.ssid <= 1 && i + 1 < |path| ==> q[i + 1] == path[i + 1])
            && (forall k :: i + 2 <= k < |path| ==> q[k] == path[k])
  {
  }

  /** A repeat always costs at least one hop, even when it overwrites the next entry of the path. */
  lemma RepeatCostsAHop(m: Msg, i: nat, mycall: Call)
    requires WellFormed(m) && i < |m.path| && Eligible(m.path[i]) && HasRoom(m, i) && |mycall.name| == 6
    ensures WellFormed(Rewritten(m, i, mycall))
    ensures Budget(Rewritten(m, i, mycall)) < Budget(m)
  {
    NewPathShape(m.path, i, mycall);
    if m.path[i].call.ssid > 1 {
      HandedOn(m.path, NewPath(m.path, i, mycall), i);
    } else {
      UsedUp(m.path, NewPath(m.path, i, mycall), i);
    }
  }

  /** The last hop of an entry is used up. */
  lemma UsedUp(p: seq<Entry>, q: seq<Entry>, i: nat)
    requires forall k :: 0 <= k < |p| ==> |p[k].call.name| == 6
    requires forall k :: 0 <= k < |q| ==> |q[k].call.name| == 6
    requires i < |p| == |q| && Eligible(p[i]) && q[i].repeated
    requires forall k :: 0 <= k < |p| && k != i ==> q[k] == p[k]
    ensures BudgetTo(q, |q|) < BudgetTo(p, |p|)
  {
    BudgetOfPrefix(p, q, i);
    BudgetOfSuffix(p, q, i + 1, |p|);
  }

  /** The hops left of an entry go to the next one, which may be new or take the place of another. */
  lemma HandedOn(p: seq<Entry>, q: seq<Entry>, i: nat)
    requires forall k :: 0 <= k < |p| ==> |p[k].call.name| == 6
    requires forall k :: 0 <= k < |q| ==> |q[k].call.name| == 6
    requires i < |p| && Eligible(p[i]) && p[i].call.ssid > 1 && |q| == (if i + 1 == |p| then |p| + 1 else |p|)
    requires q[i].repeated && q[i + 1].call.ssid == p[i].call.ssid - 1
    requires forall k :: 0 <= k < i || i + 2 <= k < |p| ==> q[k] == p[k]
    ensures BudgetTo(q, |q|) < BudgetTo(p, |p|)
  {
    BudgetOfPrefix(p, q, i);
    assert BudgetTo(q, i + 1) == BudgetTo(q, i);
    assert BudgetTo(q, i + 2) <= BudgetTo(p, i) + p[i].call.ssid - 1;
    assert BudgetTo(p, i + 1) == BudgetTo(p, i) + p[i].call.ssid;
    if i + 1 < |p| {
      BudgetOfSuffix(p, q, i + 2, |p|);
    }
  }

  /** The names that ask for repeats, in numbers: WIDE1, WIDE2 and WIDE3, in either case, whatever follows. */
  lemma WideIff(c: Call)
    requires |c.name| == 6
    ensures IsWide(c) <==>
            && (c.name[0] == 87 || c.name[0] == 119) && (c.name[1] == 73 || c.name[1] == 105)
            && (c.name[2] == 68 || c.name[2] == 100) && (c.name[3] == 69 || c.name[3] == 101)
            && 49 <= c.name[4] <= 51
  {
  }

  /** Whether an entry is wanted does not depend on the case of its letters. */
  lemma WideInAnyCase(c: Call, d: Call)
    requires |c.name| == |d.name| == 6 && forall i :: 0 <= i < 6 ==> SameLetter(c.name[i], d.name[i])
    ensures IsWide(c) <==> IsWide(d)
  {
    WideIff(c);
    WideIff(d);
  }

  /** What is handed on is still wanted: the same five characters, one hop less, not yet repeated. */
  lemma HandedOnIsWanted(m: Msg, i: nat, mycall: Call)
    requires WellFormed(m) && |mycall.name| == 6 && i == FirstFrom(m.path, 0) < 7
    requires i < |m.path| && m.path[i].call.ssid > 1
    ensures var (p, q) := (m.path, Rewritten(m, i, mycall).path);
            && WellFormed(Rewritten(m, i, mycall)) && i + 1 < |q|
            && q[i] == Entry(mycall, true) && Eligible(q[i + 1]) && FirstFrom(q, 0) == i + 1
            && q[i + 1].call.name[..5] == p[i].call.name[..5] && q[i + 1].call.ssid == p[i].call.ssid - 1
  {
    NewPathShape(m.path, i, mycall);
    var q := NewPath(m.path, i, mycall);
    WideIff(q[i + 1].call);
    WideIff(m.path[i].call);
  }

  /** A path has eight places: the last of them can still be repeated, but not handed on. */
  lemma RoomInNumbers(m: Msg, i: nat)
    requires WellFormed(m) && i < |m.path|
    ensures |m.path| <= 8 && (HasRoom(m, i) <==> i < 7 || m.path[i].call.ssid <= 1)
  {
  }

  // ---------------------------------------------------------------------
  // The hash
  // ---------------------------------------------------------------------

  function HashName(h: int, name: seq<byte>, n: nat): (r: int)
    requires n <= |name|
  {
    if n == 0 then h else (HashName(h, name, n - 1) * 31 + Signed(name[n - 1])) % 65536
  }

  function HashInfo(h: int, info: seq<byte>, n: nat): (r: int)
    requires n <= |info|
  {
    if n == 0 then h else (HashInfo(h, info, n - 1) * 31 + info[n - 1]) % 65536
  }

  function HashCall(h: int, c: Call): (r: int)
    requires |c.name| == 6
  {
    (HashName(h, c.name, 6) * 31 + c.ssid) % 65536
  }

  /** Source, destination and payload, but not the path. */
  function Hash(m: Msg): (r: int)
    requires WellFormed(m)
  {
    HashInfo(HashCall(HashCall(0, m.src), m.dst), m.info, |m.info|)
  }

  predicate SameContent(m: Msg, n: Msg) {
    m.src == n.src && m.dst == n.dst && m.info == n.info
  }

  // ---------------------------------------------------------------------
  // One node
  // ---------------------------------------------------------------------

  datatype Record = Record(hash: int, time: seconds)

  /** All records a node has ever made, with blank ones in front of the first. */
  function Recorded(h: seq<Record>, k: int): (r: Record)
    requires k < |h|
  {
    if k < 0 then Record(0, 0) else h[k]
  }

  /** Same hash, and less than 15 seconds old by unsigned subtraction. */
  predicate Matches(r: Record, hash: int, now: seconds) {
    r.hash == hash && (now - r.time) % 0x1_0000_0000 < DUP_INTERVAL
  }

  /** No record from number m on matches. */
  ghost predicate NoneFrom(h: seq<Record>, m: int, hash: int, now: seconds) {
    forall k :: m <= k < |h| ==> !Matches(Recorded(h, k), hash, now)
  }

  /** The slot that the search looks at is that of the record it means. */
  lemma SlotOf(n: nat, cacheIndex: int, i: int, k: int)
    requires n > 0 && cacheIndex == (n - 1) % 8 + 1 && k == n - 8 + i - 1
    ensures (cacheIndex - 1 + i) % 8 == k % 8
  {
    Eights(n - 1 + i, -((n - 1) / 8));
    Eights(n - 1 + i, -1);
  }

  lemma Eights(x: int, q: int)
    ensures (x + 8 * q) % 8 == x % 8
  {
  }

  /** One of the last eight records matches. A node that has made no record does not look. */
  ghost predicate Duplicate(h: seq<Record>, hash: int, now: seconds) {
    h != [] && exists k :: |h| - CACHE_SIZE <= k < |h| && Matches(Recorded(h, k), hash, now)
  }

  /** Some entry of the path asks for a repeat. */
  predicate Wants(m: Msg)
    requires WellFormed(m)
  {
    FirstFrom(m.path, 0) < |m.path|
  }

  /** A message is taken up when it asks for a repeat and is not a duplicate. */
  ghost predicate TakenUp(h: seq<Record>, m: Msg, now: seconds)
    requires WellFormed(m)
  {
    Wants(m) && !Duplicate(h, Hash(m), now)
  }

  /** The node's records after a message: what is taken up is recorded. */
  ghost function Noted(h: seq<Record>, m: Msg, now: seconds): (r: seq<Record>)
    requires WellFormed(m)
    ensures h <= r && |r| <= |h| + 1
  {
    if TakenUp(h, m, now) then h + [Record(Hash(m), now)] else h
  }

  /** What the node sends: what is taken up is repeated if its path has room. */
  ghost function Repeated(h: seq<Record>, m: Msg, mycall: Call, now: seconds): (r: Option<Msg>)
    requires WellFormed(m) && |mycall.name| == 6
    ensures r.Some? ==> TakenUp(h, m, now) && SameContent(m, r.value)
  {
    if TakenUp(h, m, now) && HasRoom(m, FirstFrom(m.path, 0))
    then Some(Rewritten(m, FirstFrom(m.path, 0), mycall))
    else None
  }

  /** The index after n records: the number of the slot of the last one, counted from one. */
  function IndexAfter(n: nat): (i: nat) {
    if n == 0 then 0 else (n - 1) % 8 + 1
  }

  lemma IndexMoves(n: nat)
    ensures IndexAfter(n + 1) == (if IndexAfter(n) + 1 > 8 then IndexAfter(n) + 1 - 8 else IndexAfter(n) + 1)
    ensures IndexAfter(n + 1) - 1 == n % 8
  {
  }

  /** Eight slots that hold the last eight records, each at its number modulo eight. */
  ghost predicate Ring(slots: seq<Record>, h: seq<Record>) {
    |slots| == 8 && forall k :: |h| - 8 <= k < |h| ==> slots[k % 8] == Recorded(h, k)
  }

  lemma RingMoves(slots: seq<Record>, h: seq<Record>, r: Record)
    requires Ring(slots, h)
    ensures Ring(slots[|h| % 8 := r], h + [r])
  {
    forall k | |h| - 7 <= k < |h|
      ensures k % 8 != |h| % 8
    {
      Apart(k, |h|);
    }
  }

  lemma Apart(k: int, n: int)
    requires n - 7 <= k < n
    ensures k % 8 != n % 8
  {
  }

  /** A message as the code holds it: eight slots for the path, of which the first few are in use. */
  class Packet {
    var src: Call
    var dst: Call
    var info: seq<byte>
    const slots: array<Entry>
    var count: nat

    ghost predicate Valid()
      reads this, slots
    {
      slots.Length == MAX_RPT && count <= MAX_RPT && WellFormed(View())
    }

    ghost function View(): (m: Msg)
      requires slots.Length == MAX_RPT && count <= MAX_RPT
      reads this, slots
    {
      Msg(src, dst, slots[..count], info)
    }

    constructor (m: Msg)
      requires WellFormed(m)
      ensures Valid() && View() == m && fresh(slots)
    {
      src, dst, info, count := m.src, m.dst, m.info, |m.path|;
      slots := new Entry[MAX_RPT](i => if 0 <= i < |m.path| then m.path[i] else Entry(Call([], 0), false));
    }

    method CalcHash() returns (hash: int)
      requires Valid()
      ensures hash == Hash(View())
    {
      hash := 0;
      for i := 0 to 6
        invariant hash == HashName(0, src.name, i)
      {
        hash := (hash * 31 + Signed(src.name[i])) % 65536;
      }
      hash := (hash * 31 + src.ssid) % 65536;
      ghost var h := hash;
      for i := 0 to 6
        invariant hash == HashName(h, dst.name, i)
      {
        hash := (hash * 31 + Signed(dst.name[i])) % 65536;
      }
      hash := (hash * 31 + dst.ssid) % 65536;
      h := hash;
      for i := 0 to |info|
        invariant hash == HashInfo(h, info, i)
      {
        hash := (hash * 31 + info[i]) % 65536;
      }
    }
  }

  class Node {
    const mycall: Call
    const cache: array<Record>
    var cacheIndex: nat
    ghost var history: seq<Record>

    /** The ring holds the last eight records, each at its number modulo eight. */
    ghost predicate Valid()
      reads this, cache
    {
      && |mycall.name| == 6
      && cache.Length == CACHE_SIZE
      && cacheIndex == IndexAfter(|history|)
      && Ring(cache[..], history)
    }

    constructor (mycall: Call)
      requires |mycall.name| == 6
      ensures Valid() && this.mycall == mycall && history == [] && fresh(cache)
    {
      this.mycall := mycall;
      cache := new Record[CACHE_SIZE](_ => Record(0, 0));
      cacheIndex, history := 0, [];
    }

    /** Look from the latest record backwards. */
    method Search(hash: int, now: seconds) returns (dup: bool)
      requires Valid()
      ensures dup == Duplicate(history, hash, now)
    {
      dup := false;
      var i := CACHE_SIZE;
      while cacheIndex > 0 && i > 0 && !dup
        invariant 0 <= i <= CACHE_SIZE
        invariant !dup && history != [] ==> NoneFrom(history, |history| - CACHE_SIZE + i, hash, now)
        invariant dup ==> Duplicate(history, hash, now)
      {
        dup := Compare(i, hash, now);
        i := i - 1;
      }
    }

    /** The record that is looked at with i to go. */
    method Compare(i: nat, hash: int, now: seconds) returns (dup: bool)
      requires Valid() && cacheIndex > 0 && 0 < i <= CACHE_SIZE
      requires NoneFrom(history, |history| - CACHE_SIZE + i, hash, now)
      ensures history != [] && (dup ==> Duplicate(history, hash, now))
      ensures !dup ==> NoneFrom(history, |history| - CACHE_SIZE + i - 1, hash, now)
    {
      var j := (cacheIndex - 1 + i) % CACHE_SIZE;
      ghost var k := |history| - CACHE_SIZE + i - 1;
      SlotOf(|history|, cacheIndex, i, k);
      assert cache[k % 8] == Recorded(history, k);
      dup := Matches(cache[j], hash, now);
    }

    /** A message that is new is recorded. */
    method CheckDuplicated(msg: Packet, now: seconds) returns (dup: bool)
      requires Valid() && msg.Valid()
      modifies this, cache
      ensures Valid() && msg.View() == old(msg.View())
      ensures dup == Duplicate(old(history), Hash(msg.View()), now)
      ensures history == old(history) + if dup then [] else [Record(Hash(msg.View()), now)]
    {
      var hash := msg.CalcHash();
      dup := Search(hash, now);
      if !dup {
        Append(hash, now);
      }
    }

    method Append(hash: int, now: seconds)
      requires Valid()
      modifies this`cacheIndex, this`history, cache
      ensures Valid() && history == old(history) + [Record(hash, now)]
    {
      IndexMoves(|history|);
      RingMoves(cache[..], history, Record(hash, now));
      cacheIndex := cacheIndex + 1;
      if cacheIndex > CACHE_SIZE {
        cacheIndex := cacheIndex - CACHE_SIZE;
      }
      ghost var slots := cache[..];
      cache[cacheIndex - 1] := Record(hash, now);
      assert cache[..] == slots[|history| % 8 := Record(hash, now)];
      history := history + [Record(hash, now)];
    }

    /** Replace the eligible entry by this station, and hand on what is left of its hops. */
    method RewritePath(msg: Packet, i: nat)
      requires |mycall.name| == 6 && msg.Valid() && i < msg.count && Eligible(msg.slots[i]) && HasRoom(msg.View(), i)
      modifies msg`count, msg.slots
      ensures msg.Valid() && msg.View() == Rewritten(old(msg.View()), i, mycall)
    {
      ghost var before := msg.View();
      NewPathShape(before.path, i, mycall);
      var sta := msg.slots[i];
      if sta.call.ssid > 1 {
        msg.slots[i + 1] := Onward(sta);
        if i == msg.count - 1 {
          msg.count := msg.count + 1;
        }
      }
      msg.slots[i] := Entry(mycall, true);
      assert msg.slots[..msg.count] == NewPath(before.path, i, mycall);
    }

    /**
      * One received message. The node reacts as specified; a message that is not repeated
      * is left as it was, except that one without room for its hops has lost one of them.
      */
    method HandleMessage(msg: Packet, now: seconds) returns (sent: bool)
      requires Valid() && msg.Valid()
      modifies this, cache, msg`count, msg.slots
      ensures Valid() && msg.Valid()
      ensures history == Noted(old(history), old(msg.View()), now)
      ensures var r := Repeated(old(history), old(msg.View()), mycall, now);
              && sent == r.Some?
              && (sent ==> msg.View() == r.value)
              && (!sent && history == old(history) ==> msg.View() == old(msg.View()))
              && (!sent && history != old(history) ==> msg.View() == Spoiled(old(msg.View())))
    {
      ghost var m := msg.View();
      var i := 0;
      while i < msg.count && !Eligible(msg.slots[i])
        invariant 0 <= i <= msg.count && FirstFrom(m.path, 0) == FirstFrom(m.path, i)
      {
        i := i + 1;
      }
      if i == msg.count {
        return false;
      }
      var dup := CheckDuplicated(msg, now);
      if dup {
        return false;
      }
      var sta := msg.slots[i];
      if sta.call.ssid > 1 && i >= MAX_RPT - 1 {
        msg.slots[i] := Entry(Call(sta.call.name, sta.call.ssid - 1), sta.repeated);
        assert msg.slots[..msg.count] == m.path[i := msg.slots[i]];
        return false;
      }
      RewritePath(msg, i);
      return true;
    }
  }

  /** What is left of a message that was dropped for lack of room. */
  function Spoiled(m: Msg): (r: Msg)
    requires WellFormed(m)
  {
    var i := FirstFrom(m.path, 0);
    if i == |m.path| then m
    else
      var e := m.path[i];
      m.(path := m.path[i := Entry(Call(e.call.name, e.call.ssid - 1), e.repeated)])
  }

  /** A message dropped for lack of room has lost exactly one hop and nothing else. */
  lemma SpoiledCosts(m: Msg)
    requires WellFormed(m) && Wants(m) && !HasRoom(m, FirstFrom(m.path, 0))
    ensures WellFormed(Spoiled(m)) && SameContent(m, Spoiled(m)) && |Spoiled(m).path| == |m.path| == 8
    ensures Budget(Spoiled(m)) == Budget(m) - 1
    ensures forall k :: 0 <= k < 8 && k != FirstFrom(m.path, 0) ==> Spoiled(m).path[k] == m.path[k]
  {
    var i, p, q := FirstFrom(m.path, 0), m.path, Spoiled(m).path;
    BudgetOfPrefix(p, q, i);
    BudgetOfSuffix(p, q, i + 1, |p|);
  }

  // ---------------------------------------------------------------------
  // Duplicates over whole runs
  // ---------------------------------------------------------------------

  /** A record the node has made is among the last eight and matches. */
  ghost predicate RecentlyRecorded(h: seq<Record>, hash: int, now: seconds) {
    exists k :: 0 <= k < |h| && |h| - CACHE_SIZE <= k && Matches(h[k], hash, now)
  }

  /**
    * Exactly when a message counts as a duplicate: one of the last eight records matches, or
    * the blank slots of a ring that is not full yet do, for a hash of zero in the first 15 seconds.
    */
  lemma DuplicateIff(h: seq<Record>, hash: int, now: seconds)
    ensures Duplicate(h, hash, now) <==>
            RecentlyRecorded(h, hash, now) || (0 < |h| < CACHE_SIZE && hash == 0 && now < DUP_INTERVAL)
  {
    if Duplicate(h, hash, now) {
      var k :| |h| - CACHE_SIZE <= k < |h| && Matches(Recorded(h, k), hash, now);
      if k >= 0 {
        assert Matches(h[k], hash, now);
      }
    }
    if RecentlyRecorded(h, hash, now) {
      var k :| 0 <= k < |h| && |h| - CACHE_SIZE <= k && Matches(h[k], hash, now);
      assert Matches(Recorded(h, k), hash, now);
    }
    if 0 < |h| < CACHE_SIZE && hash == 0 && now < DUP_INTERVAL {
      assert Matches(Recorded(h, -1), hash, now);
    }
  }

  /** What is recorded: nothing that does not ask for a repeat, and everything new that does, room or not. */
  lemma RecordedIff(h: seq<Record>, m: Msg, mycall: Call, now: seconds)
    requires WellFormed(m) && |mycall.name| == 6
    ensures var i := FirstFrom(m.path, 0);
            && (i == |m.path| ==> Noted(h, m, now) == h && Repeated(h, m, mycall, now) == None)
            && (i < |m.path| && Duplicate(h, Hash(m), now) ==> Noted(h, m, now) == h && Repeated(h, m, mycall, now) == None)
            && (i < |m.path| && !Duplicate(h, Hash(m), now) ==>
                  && Noted(h, m, now) == h + [Record(Hash(m), now)]
                  && (Repeated(h, m, mycall, now).Some? <==> i < 7 || m.path[i].call.ssid <= 1))
  {
  }

  /** Records that are all at least 15 seconds old make no duplicates. */
  lemma OldRecordsDoNotCount(h: seq<Record>, hash: int, now: seconds)
    requires now >= 15 && forall k :: 0 <= k < |h| ==> h[k].time + 15 <= now
    ensures !Duplicate(h, hash, now)
  {
    DuplicateIff(h, hash, now);
  }

  /** Less than 15 seconds after it was recorded as one of the last eight, a message is a duplicate. */
  lemma RecentRecordCounts(h: seq<Record>, p: nat, now: seconds)
    requires |h| - 8 <= p < |h| && h[p].time <= now < h[p].time + 15
    ensures Duplicate(h, h[p].hash, now)
  {
    RecentRecordBlocks(h, p, h[p].hash, now);
  }

  /** A message between blank calls that asks for one repeat. */
  function Probe(info: seq<byte>): (m: Msg)
    ensures WellFormed(m)
  {
    var blank := Call([0, 0, 0, 0, 0, 0], 0);
    var wide := Call(['W' as int, 'I' as int, 'D' as int, 'E' as int, '1' as int, 0], 1);
    Msg(blank, blank, [Entry(wide, false)], info)
  }

  lemma ProbeIsWanted(info: seq<byte>)
    ensures Wants(Probe(info))
  {
    assert Eligible(Probe(info).path[0]);
  }

  lemma {:induction false} BlankName(name: seq<byte>, n: nat)
    requires n <= |name| && forall i :: 0 <= i < n ==> name[i] == 0
    ensures HashName(0, name, n) == 0
  {
    if n > 0 {
      BlankName(name, n - 1);
    }
  }

  lemma BlankCall(c: Call)
    requires |c.name| == 6 && c.ssid == 0 && forall i :: 0 <= i < 6 ==> c.name[i] == 0
    ensures HashCall(0, c) == 0
  {
    BlankName(c.name, 6);
  }

  lemma ProbeHash(info: seq<byte>)
    ensures Hash(Probe(info)) == HashInfo(0, info, |info|)
  {
    BlankCall(Probe(info).src);
  }

  /**
    * A node starts, repeats a message with the payload 1, and is then sent one without payload. It
    * takes the second for a duplicate although it has recorded nothing like it.
    */
  lemma BlankSlotMatches()
    ensures var (first, second) := (Probe([1]), Probe([]));
            var h := Noted([], first, 0);
            && TakenUp([], first, 0) && Wants(second) && !SameContent(first, second)
            && !RecentlyRecorded(h, Hash(second), 0) && !TakenUp(h, second, 0)
  {
    ProbeIsWanted([1]);
    ProbeIsWanted([]);
    ProbeHash([1]);
    ProbeHash([]);
    assert HashInfo(0, [1], 1) == 1;
    var h := Noted([], Probe([1]), 0);
    assert h == [Record(1, 0)];
    DuplicateIff(h, 0, 0);
  }

  datatype Event = Event(m: Msg, now: seconds)

  ghost predicate Run(events: seq<Event>) {
    && (forall i :: 0 <= i < |events| ==> WellFormed(events[i].m))
    && (forall i, j :: 0 <= i <= j < |events| ==> events[i].now <= events[j].now)
  }

  /** The node's records before event n. */
  ghost function Before(events: seq<Event>, n: nat): (h: seq<Record>)
    requires Run(events) && n <= |events|
  {
    if n == 0 then [] else Noted(Before(events, n - 1), events[n - 1].m, events[n - 1].now)
  }

  lemma PrefixOfPrefix(a: seq<Record>, b: seq<Record>, c: seq<Record>)
    requires a <= b && b <= c
    ensures a <= c
  {
  }

  lemma {:induction false} RecordsAreKept(events: seq<Event>, a: nat, b: nat)
    requires Run(events) && a <= b <= |events|
    ensures Before(events, a) <= Before(events, b)
    decreases b
  {
    if a < b {
      var c := b - 1;
      RecordsAreKept(events, a, c);
      OneMoreEvent(events, c);
      PrefixOfPrefix(Before(events, a), Before(events, c), Before(events, b));
    }
  }

  lemma OneMoreEvent(events: seq<Event>, c: nat)
    requires Run(events) && c < |events|
    ensures Before(events, c) <= Before(events, c + 1)
  {
    assert Before(events, c + 1) == Noted(Before(events, c), events[c].m, events[c].now);
  }

  /** A record among the last eight, less than 15 seconds old, makes its message a duplicate. */
  lemma RecentRecordBlocks(h: seq<Record>, p: nat, hash: int, now: seconds)
    requires p < |h| && h[p].hash == hash && h[p].time <= now < h[p].time + DUP_INTERVAL
    ensures |h| - CACHE_SIZE <= p ==> Duplicate(h, hash, now)
  {
    assert Matches(Recorded(h, p), hash, now);
  }

  /** What is recorded for a message that is taken up. */
  lemma RecordedAs(events: seq<Event>, a: nat, b: nat, hash: int)
    requires Run(events) && a < b <= |events| && TakenUp(Before(events, a), events[a].m, events[a].now)
    requires hash == Hash(events[a].m)
    ensures |Before(events, a + 1)| == |Before(events, a)| + 1 <= |Before(events, b)|
    ensures Before(events, b)[|Before(events, a)|] == Record(hash, events[a].now)
  {
    var c := a + 1;
    assert Before(events, c) == Before(events, a) + [Record(hash, events[a].now)];
    RecordsAreKept(events, c, b);
  }

  /**
    * In every run, two messages with the same source, destination and payload are both
    * repeated less than 15 seconds apart only if eight records were made in between.
    */
  lemma NoEarlyRepeat(events: seq<Event>, mycall: Call, a: nat, b: nat)
    requires Run(events) && a < b < |events| && |mycall.name| == 6
    requires SameContent(events[a].m, events[b].m)
    requires events[b].now - events[a].now < DUP_INTERVAL
    requires Repeated(Before(events, a), events[a].m, mycall, events[a].now).Some?
    requires Repeated(Before(events, b), events[b].m, mycall, events[b].now).Some?
    ensures |Before(events, b)| >= |Before(events, a + 1)| + CACHE_SIZE
  {
    var hash := Hash(events[a].m);
    RecordedAs(events, a, b, hash);
    RecentRecordBlocks(Before(events, b), |Before(events, a)|, hash, events[b].now);
  }

  /** A repeat heard back within 15 seconds, from this node or through others, is not taken up again. */
  lemma EchoIsDropped(h: seq<Record>, m: Msg, echo: Msg, mycall: Call, now: seconds, later: seconds)
    requires WellFormed(m) && WellFormed(echo) && |mycall.name| == 6
    requires Repeated(h, m, mycall, now).Some? && SameContent(Repeated(h, m, mycall, now).value, echo)
    requires now <= later < now + DUP_INTERVAL
    ensures !TakenUp(Noted(h, m, now), echo, later)
  {
    RecentRecordBlocks(Noted(h, m, now), |h|, Hash(m), later);
  }
}
