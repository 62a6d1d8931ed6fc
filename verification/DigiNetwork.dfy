/**
  * A network of any number of digipeaters. Every message on the air may be heard by any
  * of them, in any order and at any time; whatever happens, the repeating dies out.
  */
module DigiNetwork {
  import opened Bytes
  import opened Digi

  /** A transmission on its way to one station, and how many repeats led to it. */
  datatype Flight = Flight(m: Msg, station: nat, hops: nat)

  /** The stations' calls, their records, and the transmissions still to be heard. */
  datatype Net = Net(calls: seq<Call>, records: seq<seq<Record>>, air: seq<Flight>)

  ghost predicate Valid(n: Net) {
    && |n.calls| == |n.records|
    && (forall i :: 0 <= i < |n.calls| ==> |n.calls[i].name| == 6)
    && (forall i :: 0 <= i < |n.air| ==> WellFormed(n.air[i].m) && n.air[i].station < |n.calls|)
  }

  /** One station hears one transmission; if it repeats it, the given stations will hear the repeat. */
  datatype Choice = Choice(which: nat, now: seconds, heard: seq<nat>)

  ghost predicate Possible(n: Net, c: Choice) {
    && c.which < |n.air|
    && |c.heard| <= |n.calls|
    && forall i :: 0 <= i < |c.heard| ==> c.heard[i] < |n.calls|
  }

  function Spread(m: Msg, hops: nat, heard: seq<nat>): (r: seq<Flight>)
    ensures |r| == |heard| && forall i :: 0 <= i < |r| ==> r[i] == Flight(m, heard[i], hops)
  {
    seq(|heard|, i requires 0 <= i < |heard| => Flight(m, heard[i], hops))
  }

  /** The transmissions that a choice adds: none, or one for each station that hears the repeat. */
  ghost function NewFlights(n: Net, c: Choice): (r: seq<Flight>)
    requires Valid(n) && Possible(n, c)
  {
    var f := n.air[c.which];
    match Repeated(n.records[f.station], f.m, n.calls[f.station], c.now)
    case None => []
    case Some(m) => Spread(m, f.hops + 1, c.heard)
  }

  function Without(air: seq<Flight>, i: nat): (r: seq<Flight>)
    requires i < |air|
    ensures |r| == |air| - 1
    ensures forall k :: 0 <= k < |r| ==> r[k] == air[if k < i then k else k + 1]
  {
    air[..i] + air[i + 1..]
  }

  ghost function Step(n: Net, c: Choice): (r: Net)
    requires Valid(n) && Possible(n, c)
  {
    var f := n.air[c.which];
    Net(n.calls,
        n.records[f.station := Noted(n.records[f.station], f.m, c.now)],
        Without(n.air, c.which) + NewFlights(n, c))
  }

  /** A repeat is well formed and has fewer hops left. */
  lemma RepeatCosts(h: seq<Record>, m: Msg, mycall: Call, now: seconds)
    requires WellFormed(m) && |mycall.name| == 6 && Repeated(h, m, mycall, now).Some?
    ensures WellFormed(Repeated(h, m, mycall, now).value)
    ensures Budget(Repeated(h, m, mycall, now).value) < Budget(m)
  {
    RepeatCostsAHop(m, FirstFrom(m.path, 0), mycall);
  }

  /** Every new flight is well formed, one hop on, and has fewer hops left than the one it comes from. */
  lemma NewFlightsCost(n: Net, c: Choice)
    requires Valid(n) && Possible(n, c)
    ensures forall i :: 0 <= i < |NewFlights(n, c)| ==>
              var g := NewFlights(n, c)[i];
              && WellFormed(g.m) && g.station < |n.calls|
              && g.hops == n.air[c.which].hops + 1 && Budget(g.m) < Budget(n.air[c.which].m)
  {
    var f := n.air[c.which];
    if Repeated(n.records[f.station], f.m, n.calls[f.station], c.now).Some? {
      RepeatCosts(n.records[f.station], f.m, n.calls[f.station], c.now);
    }
  }

  /** Hops made and hops left never exceed the original hop count. */
  ghost predicate Within(n: Net, budget: nat)
    requires Valid(n)
  {
    forall i :: 0 <= i < |n.air| ==> n.air[i].hops + Budget(n.air[i].m) <= budget
  }

  lemma StepKeeps(n: Net, c: Choice, budget: nat)
    requires Valid(n) && Possible(n, c) && Within(n, budget)
    ensures Valid(Step(n, c)) && Within(Step(n, c), budget) && Step(n, c).calls == n.calls
  {
    NewFlightsCost(n, c);
  }

  // ---------------------------------------------------------------------
  // Runs
  // ---------------------------------------------------------------------

  ghost predicate Runs(n: Net, cs: seq<Choice>)
    requires Valid(n)
    decreases |cs|
  {
    cs == [] || (Possible(n, cs[0]) && Valid(Step(n, cs[0])) && Runs(Step(n, cs[0]), cs[1..]))
  }

  ghost function After(n: Net, cs: seq<Choice>): (r: Net)
    requires Valid(n) && Runs(n, cs)
    decreases |cs|
  {
    if cs == [] then n else After(Step(n, cs[0]), cs[1..])
  }

  /** No chain of repeats is longer than the hop count the message started with. */
  lemma {:induction false} ChainsAreShort(n: Net, cs: seq<Choice>, budget: nat)
    requires Valid(n) && Within(n, budget) && Runs(n, cs)
    ensures Valid(After(n, cs))
    ensures forall i :: 0 <= i < |After(n, cs).air| ==> After(n, cs).air[i].hops <= budget
    decreases |cs|
  {
    if cs != [] {
      StepKeeps(n, cs[0], budget);
      ChainsAreShort(Step(n, cs[0]), cs[1..], budget);
    }
  }

  // ---------------------------------------------------------------------
  // The repeating dies out
  // ---------------------------------------------------------------------

  function Power(b: nat, e: nat): (r: nat) {
    if e == 0 then 1 else b * Power(b, e - 1)
  }

  lemma {:induction false} PowerGrows(b: nat, d: nat, e: nat)
    requires b > 0 && d <= e
    ensures 0 < Power(b, d) <= Power(b, e)
    decreases e
  {
    if d < e {
      PowerGrows(b, d, e - 1);
      AtLeastOnce(b, Power(b, e - 1));
    } else if e > 0 {
      PowerGrows(b, e - 1, e - 1);
    }
  }

  lemma AtLeastOnce(b: nat, x: nat)
    requires b > 0
    ensures x <= b * x
  {
  }

  /** Each flight weighs one more than the number of stations, to the power of its hops left. */
  ghost function Weight(air: seq<Flight>, b: nat): (r: nat)
    requires forall i :: 0 <= i < |air| ==> WellFormed(air[i].m)
  {
    if air == [] then 0 else Weight(air[..|air| - 1], b) + Power(b, Budget(air[|air| - 1].m))
  }

  lemma {:induction false} WeightAppend(a: seq<Flight>, c: seq<Flight>, b: nat)
    requires forall i :: 0 <= i < |a| ==> WellFormed(a[i].m)
    requires forall i :: 0 <= i < |c| ==> WellFormed(c[i].m)
    ensures Weight(a + c, b) == Weight(a, b) + Weight(c, b)
    decreases |c|
  {
    if c == [] {
      assert a + c == a;
    } else {
      var last := |c| - 1;
      assert (a + c)[..|a + c| - 1] == a + c[..last];
      WeightAppend(a, c[..last], b);
    }
  }

  lemma {:induction false} WeightOfSpread(m: Msg, hops: nat, heard: seq<nat>, b: nat)
    requires WellFormed(m)
    ensures Weight(Spread(m, hops, heard), b) == |heard| * Power(b, Budget(m))
    decreases |heard|
  {
    if heard != [] {
      var last := |heard| - 1;
      assert Spread(m, hops, heard)[..last] == Spread(m, hops, heard[..last]);
      WeightOfSpread(m, hops, heard[..last], b);
    }
  }

  lemma {:induction false} WeightWithout(air: seq<Flight>, i: nat, b: nat)
    requires i < |air| && forall k :: 0 <= k < |air| ==> WellFormed(air[k].m)
    ensures Weight(Without(air, i), b) + Power(b, Budget(air[i].m)) == Weight(air, b)
    decreases |air|
  {
    var last := |air| - 1;
    if i == last {
      assert Without(air, i) == air[..last];
    } else {
      assert Without(air, i)[..last - 1] == Without(air[..last], i);
      WeightWithout(air[..last], i, b);
    }
  }

  /** Fewer than b copies with fewer hops left weigh less than one with more. */
  lemma CopiesWeighLess(copies: nat, b: nat, d: nat, e: nat)
    requires copies < b && d < e
    ensures copies * Power(b, d) < Power(b, e)
  {
    PowerGrows(b, d, e - 1);
    var p, q := Power(b, d), Power(b, e - 1);
    Product(copies, b, p, q);
  }

  lemma Product(c: nat, b: nat, p: nat, q: nat)
    requires c < b && 0 < p <= q
    ensures c * p < b * q
  {
    assert c * p <= c * q;
    assert c * q < b * q;
  }

  lemma NewFlightsWeighLess(n: Net, c: Choice, b: nat)
    requires Valid(n) && Possible(n, c) && b == |n.calls| + 1
    ensures forall i :: 0 <= i < |NewFlights(n, c)| ==> WellFormed(NewFlights(n, c)[i].m)
    ensures Weight(NewFlights(n, c), b) < Power(b, Budget(n.air[c.which].m))
  {
    var f := n.air[c.which];
    var h, mycall := n.records[f.station], n.calls[f.station];
    PowerGrows(b, 0, Budget(f.m));
    if Repeated(h, f.m, mycall, c.now).Some? {
      var m := Repeated(h, f.m, mycall, c.now).value;
      RepeatCosts(h, f.m, mycall, c.now);
      WeightOfSpread(m, f.hops + 1, c.heard, b);
      CopiesWeighLess(|c.heard|, b, Budget(m), Budget(f.m));
    }
  }

  lemma StepWeighsLess(n: Net, c: Choice, b: nat)
    requires Valid(n) && Possible(n, c) && Valid(Step(n, c)) && b == |n.calls| + 1
    ensures Weight(Step(n, c).air, b) < Weight(n.air, b)
  {
    NewFlightsWeighLess(n, c, b);
    WeightWithout(n.air, c.which, b);
    WeightAppend(Without(n.air, c.which), NewFlights(n, c), b);
  }

  /**
    * However the stations hear each other, and even with their duplicate rings ignored or
    * full, a run is no longer than the weight of what was on the air when it began.
    */
  lemma {:induction false} DiesOut(n: Net, cs: seq<Choice>)
    requires Valid(n) && Runs(n, cs)
    ensures |cs| <= Weight(n.air, |n.calls| + 1)
    decreases |cs|
  {
    if cs != [] {
      StepWeighsLess(n, cs[0], |n.calls| + 1);
      DiesOut(Step(n, cs[0]), cs[1..]);
    }
  }

  /** One message, sent once and heard by some of the stations. */
  lemma OneMessageDiesOut(n: Net, m: Msg, heard: seq<nat>, cs: seq<Choice>)
    requires Valid(n) && WellFormed(m) && n.air == Spread(m, 0, heard) && |heard| <= |n.calls|
    requires Runs(n, cs)
    ensures |cs| <= |n.calls| * Power(|n.calls| + 1, Budget(m))
    ensures Valid(After(n, cs))
    ensures forall i :: 0 <= i < |After(n, cs).air| ==> After(n, cs).air[i].hops <= Budget(m)
  {
    DiesOut(n, cs);
    WeightOfSpread(m, 0, heard, |n.calls| + 1);
    Scale(|heard|, |n.calls|, Power(|n.calls| + 1, Budget(m)));
    ChainsAreShort(n, cs, Budget(m));
  }

  lemma Scale(a: nat, b: nat, k: nat)
    requires a <= b
    ensures a * k <= b * k
  {
  }

  // ---------------------------------------------------------------------
  // How far a message gets
  // ---------------------------------------------------------------------

  /** WIDE1, WIDE2 or WIDE3 with a number of hops. */
  function Wide(digit: byte, hops: byte): (e: Entry)
    requires 1 <= digit <= 3
    ensures |e.call.name| == 6
  {
    Entry(Call([87, 73, 68, 69, 48 + digit, 0], hops), false)
  }

  /** The calls of the first k stations of a line, each marked repeated. */
  function Marked(calls: seq<Call>, k: nat): (p: seq<Entry>)
    requires k <= |calls|
    ensures |p| == k && forall i :: 0 <= i < k ==> p[i] == Entry(calls[i], true)
  {
    seq(k, i requires 0 <= i < k => Entry(calls[i], true))
  }

  /** A message that started with WIDEn-N alone, after k stations of a line. */
  function Along(m: Msg, digit: byte, hops: byte, calls: seq<Call>, k: nat): (r: Msg)
    requires 1 <= digit <= 3 && k <= |calls| && k <= hops
  {
    m.(path := Marked(calls, k) + if k < hops then [Wide(digit, hops - k)] else [])
  }

  /** How many stations repeat it: as many as it has hops, but a path of eight holds no more than seven and a rest. */
  function Reach(hops: byte): (r: nat)
    ensures r <= hops
  {
    if hops <= 8 then hops else 7
  }

  ghost predicate Line(m: Msg, digit: byte, hops: byte, calls: seq<Call>) {
    && WellFormed(m) && 1 <= digit <= 3 && 1 <= hops && Reach(hops) < |calls|
    && forall i :: 0 <= i < |calls| ==> |calls[i].name| == 6
  }

  lemma AlongShape(m: Msg, digit: byte, hops: byte, calls: seq<Call>, k: nat)
    requires Line(m, digit, hops, calls) && k <= Reach(hops)
    ensures var a := Along(m, digit, hops, calls, k);
            && WellFormed(a) && FirstFrom(a.path, 0) == k && SameContent(m, a)
            && (k < hops ==> k < |a.path| && a.path[k] == Wide(digit, hops - k) && |a.path| == k + 1)
            && (k == hops ==> |a.path| == k)
  {
    var a := Along(m, digit, hops, calls, k);
    forall i | 0 <= i < k
      ensures a.path[i] == Entry(calls[i], true)
    {
    }
    if k < hops {
      assert a.path[k] == Wide(digit, hops - k);
      WideIff(a.path[k].call);
      assert Eligible(a.path[k]);
    }
  }

  lemma {:induction false} NothingLeft(p: seq<Entry>, n: nat)
    requires n <= |p| && (forall i :: 0 <= i < |p| ==> |p[i].call.name| == 6) && forall i :: 0 <= i < n ==> p[i].repeated
    ensures BudgetTo(p, n) == 0
  {
    if n > 0 {
      NothingLeft(p, n - 1);
    }
  }

  /** Hops left and stations passed make up the hops it started with. */
  lemma AlongBudget(m: Msg, digit: byte, hops: byte, calls: seq<Call>, k: nat)
    requires Line(m, digit, hops, calls) && k <= Reach(hops)
    ensures WellFormed(Along(m, digit, hops, calls, k)) && Budget(Along(m, digit, hops, calls, k)) == hops - k
  {
    AlongShape(m, digit, hops, calls, k);
    var p := Along(m, digit, hops, calls, k).path;
    forall i | 0 <= i < k
      ensures p[i].repeated
    {
      assert p[i] == Marked(calls, k)[i];
    }
    NothingLeft(p, k);
    if k < hops {
      WideIff(p[k].call);
    }
  }

  lemma OnwardIsWide(digit: byte, hops: byte)
    requires 1 <= digit <= 3 && hops > 1
    ensures Onward(Wide(digit, hops)) == Wide(digit, hops - 1)
  {
    var name := Wide(digit, hops).call.name;
    assert name[..5] + [0] == name;
  }

  lemma LastEntryRepeated(p: seq<Entry>, e: Entry, mycall: Call)
    requires |e.call.name| == 6
    ensures NewPath(p + [e], |p|, mycall) == p + [Entry(mycall, true)] + if e.call.ssid > 1 then [Onward(e)] else []
  {
    assert (p + [e])[..|p|] == p;
  }

  lemma MarkedNext(calls: seq<Call>, k: nat)
    requires k < |calls|
    ensures Marked(calls, k) + [Entry(calls[k], true)] == Marked(calls, k + 1)
  {
  }

  lemma AlongPath(m: Msg, digit: byte, hops: byte, calls: seq<Call>, k: nat)
    requires Line(m, digit, hops, calls) && k < Reach(hops)
    ensures |Along(m, digit, hops, calls, k).path| == k + 1
    ensures NewPath(Along(m, digit, hops, calls, k).path, k, calls[k]) == Along(m, digit, hops, calls, k + 1).path
  {
    LastEntryRepeated(Marked(calls, k), Wide(digit, hops - k), calls[k]);
    MarkedNext(calls, k);
    if hops - k > 1 {
      OnwardIsWide(digit, hops - k);
    }
  }

  /** A station that has just started knows no duplicates. */
  lemma FreshStation(a: Msg, mycall: Call, now: seconds)
    requires WellFormed(a) && |mycall.name| == 6
    ensures var i := FirstFrom(a.path, 0);
            Repeated([], a, mycall, now) ==
            if i < |a.path| && HasRoom(a, i) then Some(Rewritten(a, i, mycall)) else None
  {
  }

  lemma RoomAlong(m: Msg, digit: byte, hops: byte, calls: seq<Call>, k: nat)
    requires Line(m, digit, hops, calls) && k <= Reach(hops)
    ensures var a := Along(m, digit, hops, calls, k); k < |a.path| && HasRoom(a, k) <==> k < Reach(hops)
  {
    AlongShape(m, digit, hops, calls, k);
  }

  /** Each station that has just started repeats it and marks itself, as far as the reach goes; the next does not. */
  lemma RepeatedAlong(m: Msg, digit: byte, hops: byte, calls: seq<Call>, k: nat, now: seconds)
    requires Line(m, digit, hops, calls) && k <= Reach(hops)
    ensures var a := Along(m, digit, hops, calls, k);
            && WellFormed(a)
            && Repeated([], a, calls[k], now) ==
               if k < Reach(hops) then Some(Along(m, digit, hops, calls, k + 1)) else None
  {
    AlongShape(m, digit, hops, calls, k);
    RoomAlong(m, digit, hops, calls, k);
    FreshStation(Along(m, digit, hops, calls, k), calls[k], now);
    if k < Reach(hops) {
      AlongPath(m, digit, hops, calls, k);
    }
  }

  /** The network while the message is on its way to station k, which has not heard it yet, nor have those behind it. */
  ghost predicate OnItsWay(n: Net, m: Msg, digit: byte, hops: byte, k: nat) {
    && Line(m, digit, hops, n.calls) && k <= Reach(hops) && |n.records| == |n.calls|
    && n.air == [Flight(Along(m, digit, hops, n.calls, k), k, k)]
    && forall i :: k <= i < |n.records| ==> n.records[i] == []
  }

  lemma OnItsWayIsValid(n: Net, m: Msg, digit: byte, hops: byte, k: nat)
    requires OnItsWay(n, m, digit, hops, k)
    ensures Valid(n)
  {
    AlongShape(m, digit, hops, n.calls, k);
  }

  /** The next station hears the repeat, and nobody else. */
  function Onwards(k: nat, now: seconds): (c: Choice) {
    Choice(0, now, [k + 1])
  }

  lemma OneFlight(n: Net, m: Msg, digit: byte, hops: byte, k: nat, now: seconds)
    requires OnItsWay(n, m, digit, hops, k) && k < Reach(hops) && Valid(n) && Possible(n, Onwards(k, now))
    ensures NewFlights(n, Onwards(k, now)) == [Flight(Along(m, digit, hops, n.calls, k + 1), k + 1, k + 1)]
  {
    RepeatedAlong(m, digit, hops, n.calls, k, now);
    assert n.records[k] == [];
  }

  lemma OnlyOne(n: Net, c: Choice, f: Flight)
    requires Valid(n) && Possible(n, c) && |n.air| == 1 && NewFlights(n, c) == [f]
    ensures Step(n, c).air == [f] && Step(n, c).calls == n.calls && |Step(n, c).records| == |n.records|
    ensures forall i :: 0 <= i < |n.records| && i != n.air[c.which].station ==> Step(n, c).records[i] == n.records[i]
  {
    assert Without(n.air, c.which) == [];
  }

  lemma OnItsWayStep(n: Net, m: Msg, digit: byte, hops: byte, k: nat, now: seconds)
    requires OnItsWay(n, m, digit, hops, k) && k < Reach(hops)
    ensures Valid(n) && Possible(n, Onwards(k, now)) && Step(n, Onwards(k, now)).calls == n.calls
    ensures OnItsWay(Step(n, Onwards(k, now)), m, digit, hops, k + 1)
  {
    OnItsWayIsValid(n, m, digit, hops, k);
    OneFlight(n, m, digit, hops, k, now);
    OnlyOne(n, Onwards(k, now), Flight(Along(m, digit, hops, n.calls, k + 1), k + 1, k + 1));
  }

  lemma OneMoreStep(n: Net, c: Choice, rest: seq<Choice>)
    requires Valid(n) && Possible(n, c) && Valid(Step(n, c)) && Runs(Step(n, c), rest)
    ensures Runs(n, [c] + rest) && After(n, [c] + rest) == After(Step(n, c), rest)
  {
    assert ([c] + rest)[1..] == rest;
  }

  /** A run after which the message is on its way to the first station that will not repeat it. */
  ghost predicate Reaches(n: Net, cs: seq<Choice>, m: Msg, digit: byte, hops: byte) {
    && Line(m, digit, hops, n.calls) && Valid(n) && Runs(n, cs)
    && After(n, cs).air == [Flight(Along(m, digit, hops, n.calls, Reach(hops)), Reach(hops), Reach(hops))]
  }

  /**
    * The bound on chains is reached: along a line of stations that hear only their neighbours, a
    * message with WIDEn-N is repeated by N of them, up to eight, and by seven for more.
    */
  lemma {:induction false} ChainReachesBound(n: Net, m: Msg, digit: byte, hops: byte, k: nat, now: seconds)
    returns (cs: seq<Choice>)
    requires OnItsWay(n, m, digit, hops, k)
    ensures Reaches(n, cs, m, digit, hops) && |cs| == Reach(hops) - k
    decreases Reach(hops) - k
  {
    OnItsWayIsValid(n, m, digit, hops, k);
    if k == Reach(hops) {
      cs := [];
    } else {
      OnItsWayStep(n, m, digit, hops, k, now);
      var c := Onwards(k, now);
      var rest := ChainReachesBound(Step(n, c), m, digit, hops, k + 1, now);
      OneMoreStep(n, c, rest);
      cs := [c] + rest;
    }
  }
}
