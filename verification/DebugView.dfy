/** The debug printout of src/main.cpp, and its agreement with the decoder. */
module DebugView {
  import opened Bits
  import opened Sequences
  import opened Protocol
  import opened BitView

  /** One printed bit: byte, bit and the value after the change. */
  datatype Triple = Triple(index: nat, bit: nat, on: bool)

  /** One printed line. */
  datatype Line = Line(index: nat, previous: uint8, current: uint8, bits: seq<Triple>)

  function BitsOf(i: nat, p: uint8, c: uint8, n: nat): seq<Triple> {
    if n == 0 then []
    else if Bit(p, n - 1) != Bit(c, n - 1) then BitsOf(i, p, c, n - 1) + [Triple(i, n - 1, Bit(c, n - 1))]
    else BitsOf(i, p, c, n - 1)
  }

  function ChangedBytes(previous: seq<uint8>, current: seq<uint8>, n: nat): nat
    requires n <= |previous| && n <= |current|
  {
    if n == 0 then 0
    else ChangedBytes(previous, current, n - 1) + if previous[n - 1] != current[n - 1] then 1 else 0
  }

  predicate IsPrinted(p: uint8, c: uint8, buttonsOnly: bool) {
    p != c && (buttonsOnly ==> Popcount(Xor(p, c)) == 1)
  }

  function LinesUpTo(previous: seq<uint8>, current: seq<uint8>, buttonsOnly: bool, n: nat): seq<Line>
    requires n <= |previous| && n <= |current|
  {
    if n == 0 then []
    else
      var rest, p, c := LinesUpTo(previous, current, buttonsOnly, n - 1), previous[n - 1], current[n - 1];
      if IsPrinted(p, c, buttonsOnly) then rest + [Line(n - 1, p, c, BitsOf(n - 1, p, c, 8))] else rest
  }

  function DebugLines(previous: seq<uint8>, current: seq<uint8>, buttonsOnly: bool): seq<Line> {
    var n := Min(|previous|, |current|);
    if buttonsOnly && ChangedBytes(previous, current, n) > 2 then []
    else LinesUpTo(previous, current, buttonsOnly, n)
  }

  method PrintInputDeltas(previous: seq<uint8>, current: seq<uint8>, buttonsOnly: bool) returns (lines: seq<Line>)
    ensures lines == DebugLines(previous, current, buttonsOnly)
  {
    hide Bit, Xor, Popcount;
    lines := [];
    var byteCount := Min(|previous|, |current|);
    var changedBytes := 0;
    for i := 0 to byteCount
      invariant changedBytes == ChangedBytes(previous, current, i)
    {
      if previous[i] != current[i] {
        changedBytes := changedBytes + 1;
      }
    }
    if buttonsOnly && changedBytes > 2 {
      return;
    }
    for i := 0 to byteCount
      invariant lines == LinesUpTo(previous, current, buttonsOnly, i)
    {
      var prev, cur := previous[i], current[i];
      XorOfBytes(prev, cur);
      XorIsZeroIffEqual(prev, cur);
      var diff: uint8 := Xor(prev, cur);
      if diff == 0 {
        continue;
      }
      if buttonsOnly && Popcount(diff) != 1 {
        continue;
      }
      var bits := [];
      for bit := 0 to 8
        invariant bits == BitsOf(i, prev, cur, bit)
      {
        BitOfXor(prev, cur, bit);
        if !Bit(diff, bit) {
          continue;
        }
        bits := bits + [Triple(i, bit, Bit(cur, bit))];
      }
      lines := lines + [Line(i, prev, cur, bits)];
    }
  }

  // ---------- Agreement with the decoder ----------

  function Triples(lines: seq<Line>): seq<Triple> {
    if lines == [] then [] else Triples(lines[..|lines| - 1]) + lines[|lines| - 1].bits
  }

  /** What a bit event says about the device: its mapping's inversion undone. */
  function TripleOf(s: Settings, e: Event): Triple {
    match e.view
    case OfBit(k) => Triple(e.index, k, (e.value == 127) != Inverted(s, e.index, k))
    case OfByte => Triple(e.index, 8, false)
  }

  function TriplesOf(s: Settings, es: seq<Event>): seq<Triple> {
    seq(|es|, j requires 0 <= j < |es| => TripleOf(s, es[j]))
  }

  lemma TriplesOfAppend(s: Settings, a: seq<Event>, b: seq<Event>)
    ensures TriplesOf(s, a + b) == TriplesOf(s, a) + TriplesOf(s, b)
  {
    hide TripleOf;
  }

  lemma {:induction false} TriplesAppend(a: seq<Line>, b: seq<Line>)
    ensures Triples(a + b) == Triples(a) + Triples(b)
    decreases |b|
  {
    if b == [] {
      assert a + b == a;
    } else {
      assert (a + b)[..|a + b| - 1] == a + b[..|b| - 1];
      TriplesAppend(a, b[..|b| - 1]);
    }
  }

  lemma TripleOfBitEvent(s: Settings, i: nat, k: nat, on: bool)
    ensures TripleOf(s, BitEvent(s, i, k, on)) == Triple(i, k, on)
  {
  }

  lemma {:induction false} BitsAgree(s: Settings, i: nat, p: uint8, c: uint8, n: nat)
    requires HasBitView(s.mode)
    ensures TriplesOf(s, BitEvents(s, i, p, c, n)) == BitsOf(i, p, c, n)
  {
    hide Bit, BitEvent, TripleOf;
    if n > 0 {
      BitsAgree(s, i, p, c, n - 1);
      var e := BitEvent(s, i, n - 1, Bit(c, n - 1));
      TripleOfBitEvent(s, i, n - 1, Bit(c, n - 1));
      TriplesOfAppend(s, BitEvents(s, i, p, c, n - 1), [e]);
    }
  }

  lemma {:induction false} NoBitsIfEqual(i: nat, b: uint8, n: nat)
    ensures BitsOf(i, b, b, n) == []
  {
    if n > 0 {
      NoBitsIfEqual(i, b, n - 1);
    }
  }

  lemma TriplesSnoc(lines: seq<Line>, l: Line)
    ensures Triples(lines + [l]) == Triples(lines) + l.bits
  {
    assert (lines + [l])[..|lines|] == lines;
  }

  lemma {:induction false} LinesAgree(s: Settings, previous: seq<uint8>, current: seq<uint8>, n: nat)
    requires s.mode == BitMode && n <= |previous| && n <= |current|
    ensures Triples(LinesUpTo(previous, current, false, n)) == TriplesOf(s, DiffUpTo(s, previous, current, n))
  {
    hide DiffUpTo, PairEvents, BitsOf, Triples, TriplesOf, LinesUpTo;
    PairStep(s, previous, current, n);
    if n == 0 {
      NothingPrinted(s, previous, current);
    } else {
      LinesStep(previous, current, false, n);
      var p, c := previous[n - 1], current[n - 1];
      LinesAgree(s, previous, current, n - 1);
      TriplesOfAppend(s, DiffUpTo(s, previous, current, n - 1), PairEvents(s, n - 1, p, c));
      PairAgrees(s, n - 1, p, c);
      NoBitsIfEqual(n - 1, p, 8);
      TriplesSnoc(LinesUpTo(previous, current, false, n - 1), Line(n - 1, p, c, BitsOf(n - 1, p, c, 8)));
    }
  }

  lemma NothingPrinted(s: Settings, previous: seq<uint8>, current: seq<uint8>)
    ensures Triples(LinesUpTo(previous, current, false, 0)) == [] && TriplesOf(s, []) == []
  {
  }

  lemma PairAgrees(s: Settings, i: nat, p: uint8, c: uint8)
    requires s.mode == BitMode
    ensures TriplesOf(s, PairEvents(s, i, p, c)) == BitsOf(i, p, c, 8)
  {
    hide ByteEvents, BitEvents, TripleOf, BitsOf;
    NoByteEventsInBitMode(s, i, p, c);
    BitsAgree(s, i, p, c, 8);
    assert PairEvents(s, i, p, c) == BitEvents(s, i, p, c, 8);
  }

  /** Without the button filter, the printed (byte, bit, value) triples are exactly the Bit-mode events of the same
      pair of reports, in the same order, whatever the mapping table. */
  lemma DebugAgrees(s: Settings, previous: seq<uint8>, current: seq<uint8>)
    requires s.mode == BitMode
    ensures Triples(DebugLines(previous, current, false)) == TriplesOf(s, Diff(s, previous, current))
  {
    LinesAgree(s, previous, current, Min(|previous|, |current|));
  }

  // ---------- Buttons only ----------

  lemma {:induction false} FewLines(previous: seq<uint8>, current: seq<uint8>, n: nat)
    requires n <= |previous| && n <= |current|
    ensures |LinesUpTo(previous, current, true, n)| <= ChangedBytes(previous, current, n)
    ensures forall l | l in LinesUpTo(previous, current, true, n) ::
              l.index < n && l.previous == previous[l.index] && l.current == current[l.index] && |l.bits| == 1
  {
    hide BitsOf, Popcount, Xor;
    if n > 0 {
      var p, c := previous[n - 1], current[n - 1];
      FewLines(previous, current, n - 1);
      BitsOfCount(n - 1, p, c, 8);
      PopcountOfBytes(p, c);
    }
  }

  lemma {:induction false} BitsOfCount(i: nat, p: uint8, c: uint8, n: nat)
    ensures |BitsOf(i, p, c, n)| == FlippedBits(p, c, n)
  {
    if n > 0 {
      BitsOfCount(i, p, c, n - 1);
    }
  }

  lemma {:induction false} LinesSubsequence(previous: seq<uint8>, current: seq<uint8>, n: nat)
    requires n <= |previous| && n <= |current|
    ensures Subsequence(LinesUpTo(previous, current, true, n), LinesUpTo(previous, current, false, n))
  {
    hide BitsOf, Popcount, Xor;
    if n > 0 {
      LinesSubsequence(previous, current, n - 1);
      var a, b := LinesUpTo(previous, current, true, n - 1), LinesUpTo(previous, current, false, n - 1);
      var p, c := previous[n - 1], current[n - 1];
      var l := Line(n - 1, p, c, BitsOf(n - 1, p, c, 8));
      hide LinesUpTo, Subsequence;
      OneMoreLine(a, b, l);
      LinesStep(previous, current, true, n);
      LinesStep(previous, current, false, n);
    } else {
      SubsequenceRefl<Line>([]);
    }
  }

  lemma LinesStep(previous: seq<uint8>, current: seq<uint8>, buttonsOnly: bool, n: nat)
    requires 0 < n <= |previous| && n <= |current|
    ensures var rest, p, c := LinesUpTo(previous, current, buttonsOnly, n - 1), previous[n - 1], current[n - 1];
            LinesUpTo(previous, current, buttonsOnly, n) ==
            if IsPrinted(p, c, buttonsOnly) then rest + [Line(n - 1, p, c, BitsOf(n - 1, p, c, 8))] else rest
  {
    hide BitsOf, IsPrinted;
  }

  lemma OneMoreLine(a: seq<Line>, b: seq<Line>, l: Line)
    requires Subsequence(a, b)
    ensures Subsequence(a, b + [l]) && Subsequence(a + [l], b + [l])
  {
    assert (b + [l])[..|b|] == b;
    assert (a + [l])[..|a|] == a;
  }

  /** With the button filter at most two lines are printed; each shows a byte that differs in exactly one bit, and
      they are among the lines printed without the filter, in the same order. */
  lemma ButtonsOnly(previous: seq<uint8>, current: seq<uint8>)
    ensures var lines := DebugLines(previous, current, true);
            && |lines| <= 2
            && Subsequence(lines, DebugLines(previous, current, false))
            && (forall l | l in lines :: l.index < |previous| && l.index < |current| && |l.bits| == 1
                  && l.previous == previous[l.index] && l.current == current[l.index])
  {
    var n := Min(|previous|, |current|);
    FewLines(previous, current, n);
    LinesSubsequence(previous, current, n);
  }

  // ---------- What is printed, byte by byte and bit by bit ----------

  /** Bit k is the only one in which the two bytes differ. */
  ghost predicate FlipsOnly(p: uint8, c: uint8, k: nat) {
    forall j: nat | j < 8 :: Bit(p, j) != Bit(c, j) <==> j == k
  }

  /** No three bytes of the common prefix change. */
  ghost predicate AtMostTwoChange(previous: seq<uint8>, current: seq<uint8>) {
    forall x: nat, y: nat, z: nat | x < y < z < |previous| && z < |current| ::
      previous[x] == current[x] || previous[y] == current[y] || previous[z] == current[z]
  }

  /** The line shows a byte that changed, its two values, and the bits that differ, from the lowest, with their new
      values; under the button filter there is only one such bit. */
  ghost predicate IsLineOf(l: Line, previous: seq<uint8>, current: seq<uint8>, buttonsOnly: bool) {
    && l.index < |previous| && l.index < |current|
    && l.previous == previous[l.index] && l.current == current[l.index] && l.previous != l.current
    && AreFlips(l.bits, l.index, l.previous, l.current, 8)
    && (buttonsOnly ==> exists k: nat :: k < 8 && FlipsOnly(l.previous, l.current, k)
                                         && l.bits == [Triple(l.index, k, Bit(l.current, k))])
  }

  /** One line for every byte that changed, in order; under the button filter, only if at most two bytes changed, and
      only for bytes that differ in a single bit. */
  ghost predicate IsPrintout(lines: seq<Line>, previous: seq<uint8>, current: seq<uint8>, buttonsOnly: bool) {
    && (forall a, b | 0 <= a < b < |lines| :: lines[a].index < lines[b].index)
    && (forall l | l in lines :: IsLineOf(l, previous, current, buttonsOnly))
    && (buttonsOnly && lines != [] ==> AtMostTwoChange(previous, current))
    && (forall i: nat | i < |previous| && i < |current| && previous[i] != current[i]
                        && (buttonsOnly ==> AtMostTwoChange(previous, current)
                                            && exists k: nat :: k < 8 && FlipsOnly(previous[i], current[i], k)) ::
          exists l :: l in lines && l.index == i)
  }

  lemma {:induction false} FlipCounts(p: nat, c: nat, n: nat, k: nat)
    requires k < n && Bit(p, k) != Bit(c, k)
    ensures FlippedBits(p, c, n) >= 1
    ensures forall j: nat | j < n && j != k && Bit(p, j) != Bit(c, j) :: FlippedBits(p, c, n) >= 2
  {
    hide Bit;
    if k < n - 1 {
      FlipCounts(p, c, n - 1, k);
    } else {
      forall j: nat | j < n - 1 && Bit(p, j) != Bit(c, j)
        ensures FlippedBits(p, c, n - 1) >= 1
      {
        FlipCounts(p, c, n - 1, j);
      }
    }
  }

  lemma {:induction false} LastFlip(p: nat, c: nat, n: nat) returns (k: nat)
    requires FlippedBits(p, c, n) > 0
    ensures k < n && Bit(p, k) != Bit(c, k)
  {
    hide Bit;
    if Bit(p, n - 1) != Bit(c, n - 1) {
      k := n - 1;
    } else {
      k := LastFlip(p, c, n - 1);
    }
  }

  lemma {:induction false} NoOtherFlip(p: nat, c: nat, n: nat, k: nat)
    requires forall j: nat | j < n && j != k :: Bit(p, j) == Bit(c, j)
    ensures FlippedBits(p, c, n) <= if k < n then 1 else 0
  {
    hide Bit;
    if n > 0 {
      NoOtherFlip(p, c, n - 1, k);
    }
  }

  /** The test by population count finds the bytes that differ in a single bit. */
  lemma PopcountIsOneFlip(p: uint8, c: uint8)
    ensures Popcount(Xor(p, c)) == 1 <==> exists k: nat :: k < 8 && FlipsOnly(p, c, k)
  {
    hide Bit, FlippedBits, Popcount, Xor;
    PopcountOfBytes(p, c);
    if FlippedBits(p, c, 8) == 1 {
      var k := LastFlip(p, c, 8);
      FlipCounts(p, c, 8, k);
      assert FlipsOnly(p, c, k);
    }
    if k: nat :| k < 8 && FlipsOnly(p, c, k) {
      FlipCounts(p, c, 8, k);
      NoOtherFlip(p, c, 8, k);
    }
  }

  /** The bits below n that differ, from the lowest, with their new values. */
  ghost predicate AreFlips(bits: seq<Triple>, i: nat, p: uint8, c: uint8, n: nat) {
    && (forall a, b | 0 <= a < b < |bits| :: bits[a].bit < bits[b].bit)
    && (forall t | t in bits :: t.index == i && t.bit < n && t.on == Bit(c, t.bit))
    && (forall k: nat | k < n :: Bit(p, k) != Bit(c, k) <==> Triple(i, k, Bit(c, k)) in bits)
  }

  lemma OneMoreFlip(bits: seq<Triple>, i: nat, p: uint8, c: uint8, n: nat)
    requires AreFlips(bits, i, p, c, n) && Bit(p, n) != Bit(c, n)
    ensures AreFlips(bits + [Triple(i, n, Bit(c, n))], i, p, c, n + 1)
  {
    hide Bit;
  }

  lemma NoMoreFlip(bits: seq<Triple>, i: nat, p: uint8, c: uint8, n: nat)
    requires AreFlips(bits, i, p, c, n) && Bit(p, n) == Bit(c, n)
    ensures AreFlips(bits, i, p, c, n + 1)
  {
    hide Bit;
  }

  lemma BitsStep(i: nat, p: uint8, c: uint8, n: nat)
    ensures n == 0 ==> AreFlips(BitsOf(i, p, c, n), i, p, c, n)
    ensures n > 0 ==>
              var rest := BitsOf(i, p, c, n - 1);
              BitsOf(i, p, c, n)
              == if Bit(p, n - 1) != Bit(c, n - 1) then rest + [Triple(i, n - 1, Bit(c, n - 1))] else rest
  {
    hide Bit;
  }

  lemma {:induction false} BitsOfMeaning(i: nat, p: uint8, c: uint8, n: nat)
    ensures AreFlips(BitsOf(i, p, c, n), i, p, c, n)
  {
    hide Bit, AreFlips, BitsOf;
    BitsStep(i, p, c, n);
    if n > 0 {
      BitsOfMeaning(i, p, c, n - 1);
      if Bit(p, n - 1) != Bit(c, n - 1) {
        OneMoreFlip(BitsOf(i, p, c, n - 1), i, p, c, n - 1);
      } else {
        NoMoreFlip(BitsOf(i, p, c, n - 1), i, p, c, n - 1);
      }
    }
  }

  lemma {:induction false} BitsOfOneFlip(i: nat, p: uint8, c: uint8, k: nat, n: nat)
    requires k < 8 && n <= 8 && FlipsOnly(p, c, k)
    ensures BitsOf(i, p, c, n) == if k < n then [Triple(i, k, Bit(c, k))] else []
  {
    hide Bit;
    if n > 0 {
      BitsOfOneFlip(i, p, c, k, n - 1);
    }
  }

  lemma PrintedLine(previous: seq<uint8>, current: seq<uint8>, i: nat, buttonsOnly: bool)
    requires i < |previous| && i < |current| && IsPrinted(previous[i], current[i], buttonsOnly)
    ensures IsLineOf(Line(i, previous[i], current[i], BitsOf(i, previous[i], current[i], 8)), previous, current,
                     buttonsOnly)
  {
    hide Bit, BitsOf, Popcount, Xor;
    var p, c := previous[i], current[i];
    BitsOfMeaning(i, p, c, 8);
    if buttonsOnly {
      PopcountIsOneFlip(p, c);
      var k: nat :| k < 8 && FlipsOnly(p, c, k);
      BitsOfOneFlip(i, p, c, k, 8);
    }
  }

  /** One line for each of the first n bytes that is printed, in order. */
  ghost predicate AreLines(lines: seq<Line>, previous: seq<uint8>, current: seq<uint8>, buttonsOnly: bool, n: nat)
    requires n <= |previous| && n <= |current|
  {
    && (forall a, b | 0 <= a < b < |lines| :: lines[a].index < lines[b].index)
    && (forall l | l in lines :: l.index < n && IsLineOf(l, previous, current, buttonsOnly))
    && (forall i: nat | i < n && IsPrinted(previous[i], current[i], buttonsOnly) ::
          exists l :: l in lines && l.index == i)
  }

  lemma OneMorePrinted(lines: seq<Line>, previous: seq<uint8>, current: seq<uint8>, buttonsOnly: bool, n: nat, l: Line)
    requires n < |previous| && n < |current| && AreLines(lines, previous, current, buttonsOnly, n)
    requires l.index == n && IsLineOf(l, previous, current, buttonsOnly)
    ensures AreLines(lines + [l], previous, current, buttonsOnly, n + 1)
  {
    hide IsLineOf, IsPrinted;
    var all := lines + [l];
    assert l in all && forall x | x in lines :: x in all;
  }

  lemma {:induction false} LinesMeaning(previous: seq<uint8>, current: seq<uint8>, buttonsOnly: bool, n: nat)
    requires n <= |previous| && n <= |current|
    ensures AreLines(LinesUpTo(previous, current, buttonsOnly, n), previous, current, buttonsOnly, n)
  {
    hide IsPrinted, IsLineOf, BitsOf;
    if n > 0 {
      LinesMeaning(previous, current, buttonsOnly, n - 1);
      LinesStep(previous, current, buttonsOnly, n);
      hide LinesUpTo;
      if IsPrinted(previous[n - 1], current[n - 1], buttonsOnly) {
        hide AreLines;
        PrintedLine(previous, current, n - 1, buttonsOnly);
        OneMorePrinted(LinesUpTo(previous, current, buttonsOnly, n - 1), previous, current, buttonsOnly, n - 1,
                       Line(n - 1, previous[n - 1], current[n - 1], BitsOf(n - 1, previous[n - 1], current[n - 1], 8)));
      }
    }
  }

  /** The bytes that changed among the first n, in order. */
  lemma {:induction false} WhichChanged(previous: seq<uint8>, current: seq<uint8>, n: nat) returns (at: seq<nat>)
    requires n <= |previous| && n <= |current|
    ensures |at| == ChangedBytes(previous, current, n) && forall a, b | 0 <= a < b < |at| :: at[a] < at[b]
    ensures forall i: nat :: i in at <==> i < n && previous[i] != current[i]
  {
    at := [];
    if n > 0 {
      at := WhichChanged(previous, current, n - 1);
      if previous[n - 1] != current[n - 1] {
        assert forall a | 0 <= a < |at| :: at[a] in at;
        at := at + [n - 1];
      }
    }
  }

  lemma AtMostTwoIff(previous: seq<uint8>, current: seq<uint8>)
    ensures AtMostTwoChange(previous, current) <==> ChangedBytes(previous, current, Min(|previous|, |current|)) <= 2
  {
    hide ChangedBytes;
    var at := WhichChanged(previous, current, Min(|previous|, |current|));
    if |at| > 2 {
      assert at[0] in at && at[1] in at && at[2] in at && at[0] < at[1] < at[2];
      assert !AtMostTwoChange(previous, current);
    }
  }

  /** The printout of one pair of packets, with and without the button filter. */
  lemma DebugLinesMeaning(previous: seq<uint8>, current: seq<uint8>, buttonsOnly: bool)
    ensures IsPrintout(DebugLines(previous, current, buttonsOnly), previous, current, buttonsOnly)
  {
    hide LinesUpTo, ChangedBytes, Popcount, Xor, FlipsOnly, IsLineOf, AtMostTwoChange;
    AtMostTwoIff(previous, current);
    LinesMeaning(previous, current, buttonsOnly, Min(|previous|, |current|));
    forall i: nat | i < |previous| && i < |current|
      ensures IsPrinted(previous[i], current[i], buttonsOnly) <==>
              previous[i] != current[i]
              && (buttonsOnly ==> exists k: nat :: k < 8 && FlipsOnly(previous[i], current[i], k))
    {
      PopcountIsOneFlip(previous[i], current[i]);
    }
  }
}
