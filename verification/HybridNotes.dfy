/** The event stream of a Hybrid decoder with an empty byte table, annotated with how the events of one byte of one
    report belong together: at most one byte event, then the lowest bit, then the upper bits that flipped. The
    annotations are not on the wire; what a listener can recover of them is the subject of module HybridWire. */
module HybridNotes {
  import opened Bits
  import opened Sequences
  import opened Protocol
  import opened ByteView

  /** For an upper bit: whether it is the first or the last of its group, whether the group was sent with a byte event,
      how far it and the bits after it in its group move the 7-bit value, and the value the group ends on. */
  datatype Note = Note(event: Event, first: bool, last: bool, loud: bool, tail: int, end: nat)

  predicate IsByte(m: Note, c: nat) {
    m.event.index == c && m.event.view == OfByte
  }

  predicate IsBit(m: Note, c: nat, k: nat) {
    m.event.index == c && m.event.view == OfBit(k)
  }

  predicate IsUpper(m: Note, c: nat) {
    m.event.index == c && m.event.view.OfBit? && 1 <= m.event.view.bit < 8
  }

  /** The weight of bit k in the 7-bit value. */
  function Weight(k: nat): nat
    requires k >= 1
  {
    Pow2(k - 1)
  }

  function Move(k: nat, up: bool): int
    requires k >= 1
  {
    if up then Weight(k) else 0 - Weight(k)
  }

  function Abs(x: int): nat {
    if x >= 0 then x else -x
  }

  // ---------- The 7-bit value as the sum of its bits ----------

  /** b >> k */
  function Shift(b: nat, k: nat): nat
    decreases k
  {
    if k == 0 then b else Shift(b / 2, k - 1)
  }

  lemma {:induction false} ShiftOnce(b: nat, k: nat)
    ensures Shift(b, k) == 2 * Shift(b, k + 1) + (if Bit(b, k) then 1 else 0)
    decreases k
  {
    if k > 0 {
      ShiftOnce(b / 2, k - 1);
    }
  }

  lemma {:induction false} ShiftOut(b: nat, k: nat)
    requires b < Pow2(k)
    ensures Shift(b, k) == 0
    decreases k
  {
    if k > 0 {
      ShiftOut(b / 2, k - 1);
    }
  }

  /** How far the flips of bits k to 7 move the 7-bit value. */
  function TailSum(p: uint8, c: uint8, k: nat): int
    requires 1 <= k <= 8
    decreases 8 - k
  {
    if k == 8 then 0
    else (if Bit(p, k) != Bit(c, k) then Move(k, Bit(c, k)) else 0) + TailSum(p, c, k + 1)
  }

  lemma {:induction false} TailSumIsShift(p: uint8, c: uint8, k: nat)
    requires 1 <= k <= 8
    ensures TailSum(p, c, k) == Pow2(k - 1) * (Shift(c, k) - Shift(p, k))
    decreases 8 - k
  {
    hide Bit, Shift;
    if k == 8 {
      assert Pow2(8) == 256;
      ShiftOut(p, 8);
      ShiftOut(c, 8);
    } else {
      TailSumIsShift(p, c, k + 1);
      ShiftOnce(p, k);
      ShiftOnce(c, k);
      var w, x: int, y: int := Pow2(k - 1), Shift(c, k + 1), Shift(p, k + 1);
      assert Pow2(k) == 2 * w;
      Factor(w, x - y, if Bit(c, k) then 1 else 0, if Bit(p, k) then 1 else 0);
    }
  }

  lemma Factor(w: nat, z: int, b: int, a: int)
    ensures w * (2 * z + b - a) == 2 * w * z + w * b - w * a
  {
  }

  lemma TailSumFromOne(p: uint8, c: uint8)
    ensures TailSum(p, c, 1) == V7(c) - V7(p)
  {
    hide TailSum;
    TailSumIsShift(p, c, 1);
    assert Shift(c, 1) == c / 2 && Shift(p, 1) == p / 2 && Pow2(0) == 1;
  }

  /** A flip of bit k is not undone by flips of higher bits. */
  lemma TailSumAtLeast(p: uint8, c: uint8, k: nat)
    requires 1 <= k < 8 && Bit(p, k) != Bit(c, k)
    ensures Abs(TailSum(p, c, k)) >= Weight(k)
  {
    hide TailSum, Shift, Bit;
    TailSumIsShift(p, c, k);
    ShiftOnce(p, k);
    ShiftOnce(c, k);
    AtLeastOnce(Pow2(k - 1), Shift(c, k) - Shift(p, k));
  }

  lemma {:induction false} AtLeastOnce(w: nat, z: int)
    requires z != 0
    ensures z > 0 ==> w * z >= w
    ensures z < 0 ==> w * z <= 0 - w
    decreases Abs(z)
  {
    if z > 1 {
      AtLeastOnce(w, z - 1);
      assert w * z == w * (z - 1) + w;
    } else if z < -1 {
      AtLeastOnce(w, z + 1);
      assert w * z == w * (z + 1) - w;
    }
  }

  /** A value that ends on 127 has all its upper bits set, one that ends on 0 none. */
  lemma BitsAtTheEnds(b: uint8, k: nat)
    requires 1 <= k < 8
    ensures V7(b) == 127 ==> Bit(b, k)
    ensures V7(b) == 0 ==> !Bit(b, k)
  {
    if V7(b) == 127 {
      assert b == 254 || b == 255;
      assert b / 2 == 127;
      LowOnes(7, k - 1);
      assert Pow2(7) == 128;
    } else if V7(b) == 0 {
      assert b / 2 == 0;
      BitOfZero(k - 1);
    }
  }

  lemma {:induction false} LowOnes(n: nat, k: nat)
    requires k < n
    ensures Bit(Pow2(n) - 1, k)
    decreases k
  {
    if k > 0 {
      LowOnes(n - 1, k - 1);
      assert (Pow2(n) - 1) / 2 == Pow2(n - 1) - 1;
    }
  }

  // ---------- Annotating one byte of one report ----------

  function UpperNotes(s: Settings, c: nat, p: uint8, cur: uint8, k: nat, first: bool): seq<Note>
    requires 1 <= k <= 8
    decreases 8 - k
  {
    if k == 8 then []
    else if Bit(p, k) == Bit(cur, k) then UpperNotes(s, c, p, cur, k + 1, first)
    else
      var rest := UpperNotes(s, c, p, cur, k + 1, false);
      [Note(BitEvent(s, c, k, Bit(cur, k)), first, rest == [], Delta(p, cur) > s.deadzone, TailSum(p, cur, k), V7(cur))]
      + rest
  }

  function LowNotes(s: Settings, c: nat, p: uint8, cur: uint8): seq<Note> {
    (if Delta(p, cur) > s.deadzone
     then [Note(Event(c, OfByte, FallbackAddress(s.base, c), V7(cur)), false, false, true, 0, V7(cur))] else [])
    + (if Bit(p, 0) != Bit(cur, 0)
       then [Note(BitEvent(s, c, 0, Bit(cur, 0)), false, false, false, 0, V7(cur))] else [])
  }

  function PairNotes(s: Settings, c: nat, p: uint8, cur: uint8): seq<Note> {
    LowNotes(s, c, p, cur) + UpperNotes(s, c, p, cur, 1, true)
  }

  function EventsOf(ns: seq<Note>): seq<Event> {
    seq(|ns|, q requires 0 <= q < |ns| => ns[q].event)
  }

  predicate Plain(s: Settings) {
    s.mode == HybridMode && s.byteMap == [] && forall e | e in s.bitMap :: !e.invert
  }

  lemma {:induction false} FoundInTable(table: seq<BitMapEntry>, i: nat, k: nat)
    ensures FindBitMapping(table, i, k).Some? ==> FindBitMapping(table, i, k).value in table
  {
    if table != [] {
      FoundInTable(table[1..], i, k);
    }
  }

  lemma PlainValue(s: Settings, c: nat, k: nat, on: bool)
    requires Plain(s)
    ensures var e := BitEvent(s, c, k, on);
            e.index == c && e.view == OfBit(k) && e.address == BitAddress(s, c, k) && e.value == OnOff(on)
  {
    hide BitAddress;
    FoundInTable(s.bitMap, c, k);
  }

  lemma UpperStep(s: Settings, c: nat, p: uint8, cur: uint8, k: nat, first: bool)
    requires 1 <= k <= 8
    ensures k == 8 ==> UpperNotes(s, c, p, cur, k, first) == []
    ensures k < 8 && Bit(p, k) == Bit(cur, k) ==>
      UpperNotes(s, c, p, cur, k, first) == UpperNotes(s, c, p, cur, k + 1, first)
    ensures k < 8 && Bit(p, k) != Bit(cur, k) ==>
      var ns, rest := UpperNotes(s, c, p, cur, k, first), UpperNotes(s, c, p, cur, k + 1, false);
      ns != [] && ns[0].event == BitEvent(s, c, k, Bit(cur, k)) && ns == [ns[0]] + rest
  {
    hide BitEvent, Bit, TailSum, Delta, V7;
  }

  lemma {:induction false} UpperEvents(s: Settings, c: nat, p: uint8, cur: uint8, k: nat, first: bool)
    requires Plain(s) && 1 <= k <= 8
    ensures BitEvents(s, c, p, cur, k) + EventsOf(UpperNotes(s, c, p, cur, k, first)) == BitEvents(s, c, p, cur, 8)
    decreases 8 - k
  {
    hide BitEvent, Bit, BitEvents, TailSum, Delta, EventsOf, UpperNotes;
    UpperStep(s, c, p, cur, k, first);
    if k == 8 {
      NoEvents();
    } else {
      BitEventsStep(s, c, p, cur, k + 1);
      if Bit(p, k) == Bit(cur, k) {
        UpperEvents(s, c, p, cur, k + 1, first);
      } else {
        UpperEvents(s, c, p, cur, k + 1, false);
        var rest := UpperNotes(s, c, p, cur, k + 1, false);
        var e := BitEvent(s, c, k, Bit(cur, k));
        EventsOfCons(UpperNotes(s, c, p, cur, k, first)[0], rest);
        assert BitEvents(s, c, p, cur, k) + ([e] + EventsOf(rest)) == BitEvents(s, c, p, cur, k + 1) + EventsOf(rest);
      }
    }
  }

  lemma NoEvents()
    ensures EventsOf([]) == []
  {
  }

  lemma EventsOfCons(m: Note, ns: seq<Note>)
    ensures EventsOf([m] + ns) == [m.event] + EventsOf(ns)
  {
  }

  lemma EventsOfAppend(a: seq<Note>, b: seq<Note>)
    ensures EventsOf(a + b) == EventsOf(a) + EventsOf(b)
  {
  }

  lemma PairEventsNoted(s: Settings, c: nat, p: uint8, cur: uint8)
    requires Plain(s)
    ensures EventsOf(PairNotes(s, c, p, cur)) == PairEvents(s, c, p, cur)
  {
    hide BitEvents, ByteEvents, LowNotes, UpperNotes, EventsOf;
    LowEvents(s, c, p, cur);
    EventsOfAppend(LowNotes(s, c, p, cur), UpperNotes(s, c, p, cur, 1, true));
    UpperEvents(s, c, p, cur, 1, true);
    var bytes, one := ByteEvents(s, c, p, cur), BitEvents(s, c, p, cur, 1);
    var upper := EventsOf(UpperNotes(s, c, p, cur, 1, true));
    assert bytes + one + upper == bytes + (one + upper);
  }

  lemma LowEvents(s: Settings, c: nat, p: uint8, cur: uint8)
    requires Plain(s)
    ensures EventsOf(LowNotes(s, c, p, cur)) == ByteEvents(s, c, p, cur) + BitEvents(s, c, p, cur, 1)
  {
    hide BitEvent, Bit, Delta, FallbackAddress, V7;
    BitEventsStep(s, c, p, cur, 1);
    BitEventsStep(s, c, p, cur, 0);
  }

  // ---------- What holds around every note ----------

  /** The facts of an upper bit that do not look left. */
  predicate UpperRight(s: Settings, ns: seq<Note>, q: nat, c: nat)
    requires q < |ns| && IsUpper(ns[q], c)
  {
    var m := ns[q];
    var k := m.event.view.bit;
    && m.event.address == BitAddress(s, c, k)
    && (m.event.value == 0 || m.event.value == 127)
    && (m.end == 127 ==> m.event.value == 127)
    && (m.end == 0 ==> m.event.value == 0)
    && Abs(m.tail) >= Weight(k)
    && (m.last ==> m.tail == Move(k, m.event.value == 127))
    && (!m.last ==>
          && q + 1 < |ns| && IsUpper(ns[q + 1], c) && !ns[q + 1].first && ns[q + 1].event.view.bit > k
          && ns[q + 1].loud == m.loud && ns[q + 1].end == m.end
          && m.tail == Move(k, m.event.value == 127) + ns[q + 1].tail)
    && (m.first ==> (m.loud <==> Abs(m.tail) > s.deadzone))
  }

  /** The facts of an upper bit that look left: who comes before it in its group. */
  predicate UpperLeft(ns: seq<Note>, q: nat, c: nat)
    requires q < |ns| && IsUpper(ns[q], c)
  {
    var m := ns[q];
    && (!m.first ==> q > 0 && IsUpper(ns[q - 1], c) && !ns[q - 1].last)
    && (m.first && m.loud ==>
          || (q > 0 && IsByte(ns[q - 1], c) && ns[q - 1].event.value == m.end)
          || (q > 1 && IsBit(ns[q - 1], c, 0) && IsByte(ns[q - 2], c) && ns[q - 2].event.value == m.end))
  }

  /** A byte event announces a loud group. */
  predicate ByteRight(s: Settings, ns: seq<Note>, q: nat, c: nat)
    requires q < |ns| && IsByte(ns[q], c)
  {
    && ns[q].event.address == FallbackAddress(s.base, c) && ns[q].event.value < 128
    && (|| (q + 1 < |ns| && LoudFirst(ns[q + 1], c))
        || (q + 2 < |ns| && IsBit(ns[q + 1], c, 0) && LoudFirst(ns[q + 2], c)))
  }

  predicate LoudFirst(m: Note, c: nat) {
    IsUpper(m, c) && m.first && m.loud
  }

  predicate Local(s: Settings, ns: seq<Note>, q: nat)
    requires q < |ns|
  {
    var m := ns[q];
    var c := m.event.index;
    match m.event.view
    case OfByte => ByteRight(s, ns, q, c)
    case OfBit(k) =>
      if k == 0 then m.event.address == BitAddress(s, c, 0) && (m.event.value == 0 || m.event.value == 127)
      else k < 8 && UpperRight(s, ns, q, c) && UpperLeft(ns, q, c)
  }

  predicate AllLocal(s: Settings, ns: seq<Note>) {
    forall q | 0 <= q < |ns| :: Local(s, ns, q)
  }

  lemma LocalExtends(s: Settings, a: seq<Note>, b: seq<Note>, q: nat)
    requires q < |a| && Local(s, a, q)
    ensures Local(s, a + b, q)
  {
    hide BitAddress, FallbackAddress, Weight;
    var ns := a + b;
    assert ns[q] == a[q];
    assert q + 1 < |a| ==> ns[q + 1] == a[q + 1];
    assert q + 2 < |a| ==> ns[q + 2] == a[q + 2];
    assert q > 0 ==> ns[q - 1] == a[q - 1];
    assert q > 1 ==> ns[q - 2] == a[q - 2];
  }

  lemma LocalShifts(s: Settings, a: seq<Note>, b: seq<Note>, q: nat)
    requires q < |b| && Local(s, b, q)
    ensures Local(s, a + b, |a| + q)
  {
    hide BitAddress, FallbackAddress, Weight;
    var ns, r := a + b, |a| + q;
    assert ns[r] == b[q];
    assert q + 1 < |b| ==> ns[r + 1] == b[q + 1];
    assert q + 2 < |b| ==> ns[r + 2] == b[q + 2];
    assert q > 0 ==> ns[r - 1] == b[q - 1];
    assert q > 1 ==> ns[r - 2] == b[q - 2];
  }

  lemma LocalAppend(s: Settings, a: seq<Note>, b: seq<Note>)
    requires AllLocal(s, a) && AllLocal(s, b)
    ensures AllLocal(s, a + b)
  {
    hide Local;
    forall q | 0 <= q < |a + b|
      ensures Local(s, a + b, q)
    {
      if q < |a| {
        LocalExtends(s, a, b, q);
      } else {
        LocalShifts(s, a, b, q - |a|);
      }
    }
  }

  /** What the upper notes from bit k on are, as a list of their own. */
  ghost predicate Chain(s: Settings, c: nat, us: seq<Note>, k: nat, first: bool, loud: bool, end: nat) {
    forall q | 0 <= q < |us| ::
      && IsUpper(us[q], c) && us[q].event.view.bit >= k && us[q].loud == loud && us[q].end == end
      && (us[q].first <==> first && q == 0)
      && (us[q].last <==> q == |us| - 1)
      && (!us[q].first || (us[q].loud <==> Abs(us[q].tail) > s.deadzone))
      && UpperRight(s, us, q, c)
  }

  lemma ChainCons(s: Settings, c: nat, m: Note, us: seq<Note>, k: nat)
    requires Chain(s, c, us, k + 1, false, m.loud, m.end)
    requires IsUpper(m, c) && m.event.view.bit == k && (m.last <==> us == []) && UpperRight(s, [m] + us, 0, c)
    ensures Chain(s, c, [m] + us, k, m.first, m.loud, m.end)
  {
    hide BitAddress, Weight, UpperRight;
    var all := [m] + us;
    forall q | 0 <= q < |all|
      ensures && IsUpper(all[q], c) && all[q].event.view.bit >= k && all[q].loud == m.loud && all[q].end == m.end
              && (all[q].first <==> m.first && q == 0)
              && (all[q].last <==> q == |all| - 1)
              && (!all[q].first || (all[q].loud <==> Abs(all[q].tail) > s.deadzone))
              && UpperRight(s, all, q, c)
    {
      if q == 0 {
        FirstIsLoudIff(s, all, c);
      } else {
        assert all[q] == us[q - 1];
        RightShifts(s, [m], us, q - 1, c);
      }
    }
  }

  lemma FirstIsLoudIff(s: Settings, ns: seq<Note>, c: nat)
    requires ns != [] && IsUpper(ns[0], c) && UpperRight(s, ns, 0, c)
    ensures ns[0].first ==> (ns[0].loud <==> Abs(ns[0].tail) > s.deadzone)
  {
  }

  lemma RightShifts(s: Settings, low: seq<Note>, us: seq<Note>, q: nat, c: nat)
    requires q < |us| && IsUpper(us[q], c) && UpperRight(s, us, q, c)
    ensures IsUpper((low + us)[|low| + q], c) && UpperRight(s, low + us, |low| + q, c)
  {
    hide BitAddress, Weight;
    var ns, r := low + us, |low| + q;
    assert ns[r] == us[q];
    assert q + 1 < |us| ==> ns[r + 1] == us[q + 1];
  }

  /** `whole` says that the group starts at bit k or above: then its total movement decides whether it is loud. */
  lemma {:induction false} UpperChain(s: Settings, c: nat, p: uint8, cur: uint8, k: nat, first: bool)
    requires Plain(s) && 1 <= k <= 8
    requires first ==> TailSum(p, cur, k) == V7(cur) - V7(p)
    ensures var us := UpperNotes(s, c, p, cur, k, first);
            && Chain(s, c, us, k, first, Delta(p, cur) > s.deadzone, V7(cur))
            && (us == [] ==> TailSum(p, cur, k) == 0)
            && (us != [] ==> us[0].tail == TailSum(p, cur, k))
    decreases 8 - k
  {
    hide BitEvent, Bit, BitAddress, Weight, UpperRight, Delta, V7, TailSum;
    if k == 8 {
      TailSumEnds(p, cur);
    } else {
      hide Chain;
      TailSumStep(p, cur, k);
      if Bit(p, k) == Bit(cur, k) {
        UpperChain(s, c, p, cur, k + 1, first);
        ChainWeaken(s, c, UpperNotes(s, c, p, cur, k + 1, first), k, first, Delta(p, cur) > s.deadzone, V7(cur));
      } else {
        UpperChain(s, c, p, cur, k + 1, false);
        var us := UpperNotes(s, c, p, cur, k, first);
        var m, rest := us[0], UpperNotes(s, c, p, cur, k + 1, false);
        assert us == [m] + rest;
        NoteRight(s, c, p, cur, k, first);
        ChainCons(s, c, m, rest, k);
      }
    }
  }

  lemma TailSumEnds(p: uint8, c: uint8)
    ensures TailSum(p, c, 8) == 0
  {
  }

  lemma TailSumStep(p: uint8, c: uint8, k: nat)
    requires 1 <= k < 8
    ensures Bit(p, k) == Bit(c, k) ==> TailSum(p, c, k) == TailSum(p, c, k + 1)
  {
  }

  lemma ChainWeaken(s: Settings, c: nat, us: seq<Note>, k: nat, first: bool, loud: bool, end: nat)
    requires Chain(s, c, us, k + 1, first, loud, end)
    ensures Chain(s, c, us, k, first, loud, end)
  {
    hide UpperRight;
  }

  lemma NoteRight(s: Settings, c: nat, p: uint8, cur: uint8, k: nat, first: bool)
    requires Plain(s) && 1 <= k < 8 && Bit(p, k) != Bit(cur, k)
    requires first ==> TailSum(p, cur, k) == V7(cur) - V7(p)
    requires var rest := UpperNotes(s, c, p, cur, k + 1, false);
             && Chain(s, c, rest, k + 1, false, Delta(p, cur) > s.deadzone, V7(cur))
             && (rest == [] ==> TailSum(p, cur, k + 1) == 0) && (rest != [] ==> rest[0].tail == TailSum(p, cur, k + 1))
    ensures var us := UpperNotes(s, c, p, cur, k, first);
            us != [] && IsUpper(us[0], c) && us[0].event.view.bit == k && UpperRight(s, us, 0, c)
              && (us[0].last <==> UpperNotes(s, c, p, cur, k + 1, false) == [])
              && us[0].loud == (Delta(p, cur) > s.deadzone) && us[0].end == V7(cur) && us[0].first == first
  {
    PlainValue(s, c, k, Bit(cur, k));
    TailSumAtLeast(p, cur, k);
    BitsAtTheEnds(cur, k);
    DeltaIsGap(p, cur);
    hide BitEvent, Bit, BitAddress, Weight, V7, Delta;
  }

  lemma DeltaIsGap(p: uint8, cur: uint8)
    ensures Delta(p, cur) == Abs(V7(cur) - V7(p))
  {
  }

  lemma PairParts(s: Settings, c: nat, p: uint8, cur: uint8)
    requires Plain(s)
    ensures var us, loud := UpperNotes(s, c, p, cur, 1, true), Delta(p, cur) > s.deadzone;
            && Chain(s, c, us, 1, true, loud, V7(cur)) && Lead(s, c, LowNotes(s, c, p, cur), loud, V7(cur))
            && V7(cur) < 128 && (loud ==> us != [])
  {
    TailSumFromOne(p, cur);
    DeltaIsGap(p, cur);
    hide LowNotes, UpperNotes, TailSum, V7, Delta, Chain, Lead;
    UpperChain(s, c, p, cur, 1, true);
    LowShape(s, c, p, cur);
  }

  lemma PairLocal(s: Settings, c: nat, p: uint8, cur: uint8)
    requires Plain(s)
    ensures AllLocal(s, PairNotes(s, c, p, cur))
  {
    hide LowNotes, UpperNotes, V7, Delta, Chain, Lead, Local;
    PairParts(s, c, p, cur);
    var low, us := LowNotes(s, c, p, cur), UpperNotes(s, c, p, cur, 1, true);
    forall q | 0 <= q < |low + us|
      ensures Local(s, low + us, q)
    {
      if q >= |low| {
        GroupLocal(s, c, low, us, q - |low|, Delta(p, cur) > s.deadzone, V7(cur));
      } else {
        LowLocal(s, c, low, us, q, Delta(p, cur) > s.deadzone, V7(cur));
      }
    }
  }

  /** The notes before the group: a byte event exactly if the group is loud, and perhaps the lowest bit. */
  ghost predicate Lead(s: Settings, c: nat, low: seq<Note>, loud: bool, end: nat) {
    && |low| <= 2
    && (loud ==> low != [] && IsByte(low[0], c) && low[0].event.address == FallbackAddress(s.base, c)
                 && low[0].event.value == end)
    && (forall q | (if loud then 1 else 0) <= q < |low| ::
          IsBit(low[q], c, 0) && low[q].event.address == BitAddress(s, c, 0)
          && (low[q].event.value == 0 || low[q].event.value == 127))
    && (!loud ==> |low| <= 1)
  }

  lemma LowShape(s: Settings, c: nat, p: uint8, cur: uint8)
    requires Plain(s)
    ensures Lead(s, c, LowNotes(s, c, p, cur), Delta(p, cur) > s.deadzone, V7(cur)) && V7(cur) < 128
  {
    PlainValue(s, c, 0, Bit(cur, 0));
    assert V7(cur) < 128;
    hide BitEvent, Bit, BitAddress, FallbackAddress, Delta, V7;
  }

  lemma GroupLocal(s: Settings, c: nat, low: seq<Note>, us: seq<Note>, q: nat, loud: bool, end: nat)
    requires Lead(s, c, low, loud, end) && Chain(s, c, us, 1, true, loud, end) && q < |us|
    ensures Local(s, low + us, |low| + q)
  {
    hide BitAddress, FallbackAddress, Weight, UpperRight;
    var ns, r := low + us, |low| + q;
    assert ns[r] == us[q];
    assert q > 0 ==> ns[r - 1] == us[q - 1];
    RightShifts(s, low, us, q, c);
    if q == 0 && loud {
      assert ns[0] == low[0];
      assert |low| == 2 ==> ns[1] == low[1];
    }
    assert UpperLeft(ns, r, c);
  }

  lemma LowLocal(s: Settings, c: nat, low: seq<Note>, us: seq<Note>, q: nat, loud: bool, end: nat)
    requires Lead(s, c, low, loud, end) && Chain(s, c, us, 1, true, loud, end) && q < |low| && end < 128
    requires loud ==> us != []
    ensures Local(s, low + us, q)
  {
    hide BitAddress, FallbackAddress, Weight, UpperRight;
    var ns := low + us;
    assert ns[q] == low[q];
    if us != [] {
      assert ns[|low|] == us[0];
    }
    assert |low| == 2 ==> ns[1] == low[1];
  }

  // ---------- Annotating a run ----------

  function DiffNotes(s: Settings, prev: seq<uint8>, cur: seq<uint8>, n: nat): seq<Note>
    requires n <= |prev| && n <= |cur|
  {
    if n == 0 then [] else DiffNotes(s, prev, cur, n - 1) + PairNotes(s, n - 1, prev[n - 1], cur[n - 1])
  }

  function RunNotes(s: Settings, reports: seq<seq<uint8>>): seq<Note> {
    if |reports| <= 1 then []
    else
      var prev, cur := reports[|reports| - 2], reports[|reports| - 1];
      RunNotes(s, reports[..|reports| - 1]) + DiffNotes(s, prev, cur, Min(|prev|, |cur|))
  }

  lemma {:induction false} DiffLocal(s: Settings, prev: seq<uint8>, cur: seq<uint8>, n: nat)
    requires Plain(s) && n <= |prev| && n <= |cur|
    ensures AllLocal(s, DiffNotes(s, prev, cur, n)) && EventsOf(DiffNotes(s, prev, cur, n)) == DiffUpTo(s, prev, cur, n)
  {
    hide PairNotes, PairEvents, Local, EventsOf, DiffUpTo;
    PairStep(s, prev, cur, n);
    if n == 0 {
      NoEvents();
    } else {
      var p, c := prev[n - 1], cur[n - 1];
      DiffLocal(s, prev, cur, n - 1);
      PairLocal(s, n - 1, p, c);
      PairEventsNoted(s, n - 1, p, c);
      LocalAppend(s, DiffNotes(s, prev, cur, n - 1), PairNotes(s, n - 1, p, c));
      EventsOfAppend(DiffNotes(s, prev, cur, n - 1), PairNotes(s, n - 1, p, c));
    }
  }

  /** The annotated run: its events are the stream, and every note has the right neighbours. */
  lemma {:induction false} RunLocal(s: Settings, reports: seq<seq<uint8>>)
    requires Plain(s)
    ensures AllLocal(s, RunNotes(s, reports)) && EventsOf(RunNotes(s, reports)) == Stream(s, reports)
  {
    hide DiffNotes, Local, EventsOf, DiffUpTo, Stream;
    if |reports| <= 1 {
      StreamOfOne(s, reports);
      NoEvents();
    } else {
      var n := |reports|;
      var init, prev, cur := reports[..n - 1], reports[n - 2], reports[n - 1];
      StreamStep(s, reports);
      RunLocal(s, init);
      var m := Min(|prev|, |cur|);
      DiffLocal(s, prev, cur, m);
      LocalAppend(s, RunNotes(s, init), DiffNotes(s, prev, cur, m));
      EventsOfAppend(RunNotes(s, init), DiffNotes(s, prev, cur, m));
    }
  }

  // ---------- Byte events and loud groups are equally many ----------

  function CountBytes(ns: seq<Note>, c: nat): nat {
    if ns == [] then 0 else CountBytes(ns[..|ns| - 1], c) + if IsByte(ns[|ns| - 1], c) then 1 else 0
  }

  function CountLoud(ns: seq<Note>, c: nat): nat {
    if ns == [] then 0 else CountLoud(ns[..|ns| - 1], c) + if LoudFirst(ns[|ns| - 1], c) then 1 else 0
  }

  lemma {:induction false} CountAppend(a: seq<Note>, b: seq<Note>, c: nat)
    ensures CountBytes(a + b, c) == CountBytes(a, c) + CountBytes(b, c)
    ensures CountLoud(a + b, c) == CountLoud(a, c) + CountLoud(b, c)
    decreases |b|
  {
    if b == [] {
      assert a + b == a;
    } else {
      assert (a + b)[..|a + b| - 1] == a + b[..|b| - 1];
      CountAppend(a, b[..|b| - 1], c);
    }
  }

  lemma CountChain(s: Settings, c: nat, us: seq<Note>, k: nat, first: bool, loud: bool, end: nat, at: nat)
    requires Chain(s, c, us, k, first, loud, end)
    ensures CountBytes(us, at) == 0
    ensures CountLoud(us, at) == if us != [] && first && loud && at == c then 1 else 0
  {
    hide UpperRight;
    CountPrefix(s, c, us, k, first, loud, end, at, |us|);
    assert us[..|us|] == us;
  }

  lemma {:induction false} CountPrefix(s: Settings, c: nat, us: seq<Note>, k: nat, first: bool, loud: bool, end: nat,
                                       at: nat, n: nat)
    requires Chain(s, c, us, k, first, loud, end) && n <= |us|
    ensures CountBytes(us[..n], at) == 0
    ensures CountLoud(us[..n], at) == if n > 0 && first && loud && at == c then 1 else 0
  {
    hide UpperRight;
    if n > 0 {
      assert us[..n][..n - 1] == us[..n - 1] && us[..n][n - 1] == us[n - 1];
      CountPrefix(s, c, us, k, first, loud, end, at, n - 1);
    }
  }

  lemma CountLead(s: Settings, c: nat, low: seq<Note>, loud: bool, end: nat, at: nat)
    requires Lead(s, c, low, loud, end)
    ensures CountBytes(low, at) == (if loud && at == c then 1 else 0) && CountLoud(low, at) == 0
  {
    hide BitAddress, FallbackAddress;
    if |low| == 1 {
      assert low[..0] == [];
    } else if |low| == 2 {
      assert low[..1] == [low[0]] && low[..1][..0] == [];
      assert CountBytes(low[..1], at) == if loud && at == c then 1 else 0;
    }
  }

  lemma CountPair(s: Settings, c: nat, p: uint8, cur: uint8, at: nat)
    requires Plain(s)
    ensures CountBytes(PairNotes(s, c, p, cur), at) == CountLoud(PairNotes(s, c, p, cur), at)
  {
    hide LowNotes, UpperNotes, V7, Delta, Chain, Lead, CountBytes, CountLoud;
    PairParts(s, c, p, cur);
    var low, us, loud := LowNotes(s, c, p, cur), UpperNotes(s, c, p, cur, 1, true), Delta(p, cur) > s.deadzone;
    CountAppend(low, us, at);
    CountLead(s, c, low, loud, V7(cur), at);
    CountChain(s, c, us, 1, true, loud, V7(cur), at);
  }

  lemma {:induction false} CountDiff(s: Settings, prev: seq<uint8>, cur: seq<uint8>, n: nat, at: nat)
    requires Plain(s) && n <= |prev| && n <= |cur|
    ensures CountBytes(DiffNotes(s, prev, cur, n), at) == CountLoud(DiffNotes(s, prev, cur, n), at)
  {
    hide PairNotes;
    if n > 0 {
      CountDiff(s, prev, cur, n - 1, at);
      CountPair(s, n - 1, prev[n - 1], cur[n - 1], at);
      CountAppend(DiffNotes(s, prev, cur, n - 1), PairNotes(s, n - 1, prev[n - 1], cur[n - 1]), at);
    }
  }

  lemma {:induction false} CountRun(s: Settings, reports: seq<seq<uint8>>, at: nat)
    requires Plain(s)
    ensures CountBytes(RunNotes(s, reports), at) == CountLoud(RunNotes(s, reports), at)
  {
    hide DiffNotes;
    if |reports| > 1 {
      var n := |reports|;
      var init, prev, cur := reports[..n - 1], reports[n - 2], reports[n - 1];
      CountRun(s, init, at);
      CountDiff(s, prev, cur, Min(|prev|, |cur|), at);
      CountAppend(RunNotes(s, init), DiffNotes(s, prev, cur, Min(|prev|, |cur|)), at);
    }
  }

  // ---------- Every note is about a byte that the reports have ----------

  predicate Within(ns: seq<Note>, n: nat) {
    forall m | m in ns :: m.event.index < n
  }

  lemma {:induction false} UpperWithin(s: Settings, c: nat, p: uint8, cur: uint8, k: nat, first: bool)
    requires 1 <= k <= 8
    ensures forall m | m in UpperNotes(s, c, p, cur, k, first) :: m.event.index == c
    decreases 8 - k
  {
    hide Bit, BitAddress, TailSum, Delta, V7;
    if k < 8 {
      UpperWithin(s, c, p, cur, k + 1, first);
      UpperWithin(s, c, p, cur, k + 1, false);
    }
  }

  lemma PairWithin(s: Settings, c: nat, p: uint8, cur: uint8)
    ensures forall m | m in PairNotes(s, c, p, cur) :: m.event.index == c
  {
    UpperWithin(s, c, p, cur, 1, true);
    hide UpperNotes, Bit, BitAddress, FallbackAddress, Delta, V7;
    assert forall m | m in LowNotes(s, c, p, cur) :: m.event.index == c;
  }

  lemma {:induction false} DiffWithin(s: Settings, prev: seq<uint8>, cur: seq<uint8>, n: nat)
    requires n <= |prev| && n <= |cur|
    ensures Within(DiffNotes(s, prev, cur, n), n)
  {
    hide PairNotes;
    if n > 0 {
      DiffWithin(s, prev, cur, n - 1);
      PairWithin(s, n - 1, prev[n - 1], cur[n - 1]);
    }
  }

  lemma {:induction false} RunWithin(s: Settings, reports: seq<seq<uint8>>, n: nat)
    requires forall r | r in reports :: |r| == n
    ensures Within(RunNotes(s, reports), n)
  {
    hide DiffNotes;
    if |reports| > 1 {
      var k := |reports|;
      RunWithin(s, reports[..k - 1], n);
      assert reports[k - 2] in reports && reports[k - 1] in reports;
      DiffWithin(s, reports[k - 2], reports[k - 1], n);
    }
  }
}
