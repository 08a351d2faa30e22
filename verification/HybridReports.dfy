/** Hybrid mode over whole runs: when the messages determine the report. */
module HybridReports {
  import opened Bits
  import opened Sequences
  import opened Midi
  import opened Protocol
  import opened Addressing
  import opened BitView
  import opened HybridNotes
  import opened HybridWire

  // ---------- Counting the flips of one bit ----------

  function CountBit(ns: seq<Note>, i: nat, k: nat): nat {
    if ns == [] then 0 else CountBit(ns[..|ns| - 1], i, k) + if IsBit(ns[|ns| - 1], i, k) then 1 else 0
  }

  function CountOn(ns: seq<Note>, a: Address): nat {
    if ns == [] then 0 else CountOn(ns[..|ns| - 1], a) + if ns[|ns| - 1].event.address == a then 1 else 0
  }

  lemma {:induction false} CountIsValues(ns: seq<Note>, i: nat, k: nat)
    ensures |ValuesAt(EventsOf(ns), i, OfBit(k))| == CountBit(ns, i, k)
  {
    hide EventsOf, ValuesAt;
    if ns == [] {
      NoEvents();
      ValuesAtNothing(i, OfBit(k));
    } else {
      var init, m := ns[..|ns| - 1], ns[|ns| - 1];
      CountIsValues(init, i, k);
      assert ns == init + [m];
      EventsOfAppend(init, [m]);
      OneEvent(m);
      ValuesAtSnoc(EventsOf(init), m.event, i, OfBit(k));
    }
  }

  lemma OneEvent(m: Note)
    ensures EventsOf([m]) == [m.event]
  {
  }

  /** Where the runs agree, a bit that does not share the address of byte 0 is the same bit in both. */
  lemma SameBitElsewhere(s: Settings, n: nat, ns: seq<Note>, ms: seq<Note>, q: nat, i: nat, k: nat)
    requires Alike(s, n, ns, ms) && q < |ns| && Agree(s, ns, ms, q) && k < 8
    requires BitAddress(s, i, k) != FallbackAddress(s.base, 0) && IsBit(ns[q], i, k)
    ensures IsBit(ms[q], i, k)
  {
    hide Separable, Local, BitAddress, FallbackAddress, UpperRight, UpperLeft, Weight, Alike, Starts;
    AlikeIsSymmetric(s, n, ns, ms);
    AtNote(s, n, ns, ms, q);
    AtNote(s, n, ms, ns, q);
    BitNote(s, ns, q);
    BitNote(s, ms, q);
    SameBit(s, n, ns, ms, q);
  }

  lemma BothAgree(s: Settings, n: nat, ns: seq<Note>, ms: seq<Note>, q: nat)
    requires Alike(s, n, ns, ms) && AgreeFrom(s, ns, ms, 0) && q < |ns|
    ensures |ns| == |ms| && Alike(s, n, ms, ns) && Agree(s, ns, ms, q) && Agree(s, ms, ns, q)
  {
    AlikeIsSymmetric(s, n, ns, ms);
    AgreeIsSymmetric(s, n, ns, ms, 0);
    hide Separable, AllLocal, Within, Agree;
  }

  lemma SameBitIff(s: Settings, n: nat, ns: seq<Note>, ms: seq<Note>, q: nat, i: nat, k: nat)
    requires Alike(s, n, ns, ms) && AgreeFrom(s, ns, ms, 0) && q < |ns| && k < 8
    requires BitAddress(s, i, k) != FallbackAddress(s.base, 0)
    ensures |ns| == |ms| && (IsBit(ns[q], i, k) <==> IsBit(ms[q], i, k))
  {
    BothAgree(s, n, ns, ms, q);
    if IsBit(ns[q], i, k) {
      SameBitElsewhere(s, n, ns, ms, q, i, k);
    } else if IsBit(ms[q], i, k) {
      SameBitElsewhere(s, n, ms, ns, q, i, k);
    }
  }

  lemma {:induction false} SameCountElsewhere(s: Settings, n: nat, ns: seq<Note>, ms: seq<Note>, t: nat, i: nat, k: nat)
    requires Alike(s, n, ns, ms) && AgreeFrom(s, ns, ms, 0) && t <= |ns| && k < 8
    requires BitAddress(s, i, k) != FallbackAddress(s.base, 0)
    ensures CountBit(ns[..t], i, k) == CountBit(ms[..t], i, k)
  {
    hide Alike, AgreeFrom, BitAddress, FallbackAddress;
    if t > 0 {
      SameCountElsewhere(s, n, ns, ms, t - 1, i, k);
      SameBitIff(s, n, ns, ms, t - 1, i, k);
      assert ns[..t][..t - 1] == ns[..t - 1] && ms[..t][..t - 1] == ms[..t - 1];
    }
  }

  lemma SameLoud(s: Settings, n: nat, ns: seq<Note>, ms: seq<Note>, q: nat, c: nat)
    requires Alike(s, n, ns, ms) && q < |ns| && Agree(s, ns, ms, q) && LoudFirst(ns[q], c)
    ensures LoudFirst(ms[q], c)
  {
    SameUpper(s, n, ns, ms, q, c);
    hide Alike, BitAddress, FallbackAddress, UpperRight, UpperLeft;
  }

  lemma SameLoudIff(s: Settings, n: nat, ns: seq<Note>, ms: seq<Note>, q: nat, c: nat)
    requires Alike(s, n, ns, ms) && AgreeFrom(s, ns, ms, 0) && q < |ns|
    ensures |ns| == |ms| && (LoudFirst(ns[q], c) <==> LoudFirst(ms[q], c))
  {
    BothAgree(s, n, ns, ms, q);
    if LoudFirst(ns[q], c) {
      SameLoud(s, n, ns, ms, q, c);
    } else if LoudFirst(ms[q], c) {
      SameLoud(s, n, ms, ns, q, c);
    }
  }

  lemma {:induction false} SameCountLoud(s: Settings, n: nat, ns: seq<Note>, ms: seq<Note>, t: nat, c: nat)
    requires Alike(s, n, ns, ms) && AgreeFrom(s, ns, ms, 0) && t <= |ns|
    ensures CountLoud(ns[..t], c) == CountLoud(ms[..t], c)
  {
    hide Alike, AgreeFrom, LoudFirst;
    if t > 0 {
      SameCountLoud(s, n, ns, ms, t - 1, c);
      SameLoudIff(s, n, ns, ms, t - 1, c);
      assert ns[..t][..t - 1] == ns[..t - 1] && ms[..t][..t - 1] == ms[..t - 1];
    }
  }

  lemma {:induction false} SameCountOn(s: Settings, n: nat, ns: seq<Note>, ms: seq<Note>, t: nat, a: Address)
    requires Alike(s, n, ns, ms) && t <= |ns|
    ensures CountOn(ns[..t], a) == CountOn(ms[..t], a)
  {
    hide Separable, Local, AllLocal, Within;
    if t > 0 {
      SameCountOn(s, n, ns, ms, t - 1, a);
      assert ns[..t][..t - 1] == ns[..t - 1] && ms[..t][..t - 1] == ms[..t - 1];
    }
  }

  /** What is on the address of byte 0: its byte messages, and its lowest bit if that has the same address. */
  lemma OnTheSharedAddress(s: Settings, n: nat, ns: seq<Note>, ms: seq<Note>, q: nat)
    requires Alike(s, n, ns, ms) && q < |ns| && BitAddress(s, 0, 0) == FallbackAddress(s.base, 0)
    ensures ns[q].event.address == FallbackAddress(s.base, 0) <==> IsByte(ns[q], 0) || IsBit(ns[q], 0, 0)
  {
    hide Separable, Local, BitAddress, FallbackAddress, UpperRight, UpperLeft, Weight, Alike, ByteRight;
    AtNote(s, n, ns, ms, q);
    if ns[q].event.view.OfByte? {
      ByteNote(s, ns, q);
      if ns[q].event.address == FallbackAddress(s.base, 0) {
        SameByte(s, n, 0, ns[q].event.index);
      }
    } else {
      BitNote(s, ns, q);
      if ns[q].event.address == FallbackAddress(s.base, 0) {
        SharedOnlyWithOwn(s, n, 0, ns[q].event.index, ns[q].event.view.bit);
      }
    }
  }

  lemma {:induction false} SharedTally(s: Settings, n: nat, ns: seq<Note>, ms: seq<Note>, t: nat)
    requires Alike(s, n, ns, ms) && t <= |ns| && BitAddress(s, 0, 0) == FallbackAddress(s.base, 0)
    ensures CountOn(ns[..t], FallbackAddress(s.base, 0)) == CountBit(ns[..t], 0, 0) + CountBytes(ns[..t], 0)
  {
    if t > 0 {
      SharedTally(s, n, ns, ms, t - 1);
      assert ns[..t][..t - 1] == ns[..t - 1];
      OnTheSharedAddress(s, n, ns, ms, t - 1);
      hide Alike, BitAddress, FallbackAddress;
    }
  }

  lemma SameLength(s: Settings, n: nat, ns: seq<Note>, ms: seq<Note>)
    requires Alike(s, n, ns, ms)
    ensures |ns| == |ms| && Separable(s, n)
  {
    hide Separable, AllLocal, Within;
  }

  /** In two runs that agree, every bit flips equally often. */
  lemma SameFlips(s: Settings, n: nat, ns: seq<Note>, ms: seq<Note>, i: nat, k: nat)
    requires Alike(s, n, ns, ms) && AgreeFrom(s, ns, ms, 0) && i < n && k < 8
    requires CountBytes(ns, 0) == CountLoud(ns, 0) && CountBytes(ms, 0) == CountLoud(ms, 0)
    ensures CountBit(ns, i, k) == CountBit(ms, i, k)
  {
    hide Separable, AllLocal, Within, BitAddress, FallbackAddress, CountBit, CountLoud, CountOn, CountBytes, AgreeFrom;
    var t, a := |ns|, FallbackAddress(s.base, 0);
    AlikeIsSymmetric(s, n, ns, ms);
    SameLength(s, n, ns, ms);
    assert ns[..t] == ns && ms[..t] == ms;
    hide Alike;
    if BitAddress(s, i, k) != a {
      SameCountElsewhere(s, n, ns, ms, t, i, k);
    } else {
      SharedOnlyWithOwn(s, n, 0, i, k);
      SameCountLoud(s, n, ns, ms, t, 0);
      SameCountOn(s, n, ns, ms, t, a);
      SharedTally(s, n, ns, ms, t);
      SharedTally(s, n, ms, ns, t);
    }
  }

  // ---------- From equal messages to equal reports ----------

  lemma MessageIsInjective(e: Event, f: Event)
    requires e.address.channel < 16 && e.address.controller < 128 && e.value < 128
    requires f.address.channel < 16 && f.address.controller < 128 && f.value < 128
    requires MessageOf(e) == MessageOf(f)
    ensures e.address == f.address && e.value == f.value
  {
    var x, y := MessageOf(e), MessageOf(f);
    assert x[0] == y[0] && x[1] == y[1] && x[2] == y[2];
  }

  lemma NoteInRange(s: Settings, ns: seq<Note>, q: nat)
    requires AllLocal(s, ns) && q < |ns|
    ensures var e := ns[q].event; e.address.channel < 16 && e.address.controller < 128 && e.value < 128
  {
    hide BitAddress, FallbackAddress, UpperRight, UpperLeft, Local;
    assert Local(s, ns, q);
    match ns[q].event.view
    case OfByte =>
      ByteNote(s, ns, q);
      FallbackInRange(s.base, ns[q].event.index);
    case OfBit(k) =>
      BitNote(s, ns, q);
      BitAddressInRange(s, ns[q].event.index, k);
  }

  lemma FallbackInRange(base: uint8, i: nat)
    ensures FallbackAddress(base, i).channel < 16 && FallbackAddress(base, i).controller < 128
  {
  }

  lemma SameAtEveryPosition(s: Settings, ns: seq<Note>, ms: seq<Note>)
    requires AllLocal(s, ns) && AllLocal(s, ms) && Wire(EventsOf(ns)) == Wire(EventsOf(ms))
    ensures SameOnWire(ns, ms)
  {
    hide AllLocal, MessageOf;
    assert |Wire(EventsOf(ns))| == |ns| && |Wire(EventsOf(ms))| == |ms|;
    forall q | 0 <= q < |ns|
      ensures ns[q].event.address == ms[q].event.address && ns[q].event.value == ms[q].event.value
    {
      NoteInRange(s, ns, q);
      NoteInRange(s, ms, q);
      assert Wire(EventsOf(ns))[q] == MessageOf(ns[q].event) && Wire(EventsOf(ms))[q] == MessageOf(ms[q].event);
      MessageIsInjective(ns[q].event, ms[q].event);
    }
  }

  /** Messages alone tell which bit is meant, in any two runs of n-byte reports with the same messages. */
  ghost predicate Telling(s: Settings, n: nat) {
    forall ns: seq<Note>, ms: seq<Note> |
      AllLocal(s, ns) && AllLocal(s, ms) && Within(ns, n) && Within(ms, n) && SameOnWire(ns, ms) ::
      Resolved(ns, ms)
  }

  predicate SameOnWire(ns: seq<Note>, ms: seq<Note>) {
    && |ns| == |ms|
    && forall q | 0 <= q < |ns| :: ns[q].event.address == ms[q].event.address && ns[q].event.value == ms[q].event.value
  }

  lemma AlikeFromWire(s: Settings, n: nat, a: seq<seq<uint8>>, b: seq<seq<uint8>>)
    requires Separable(s, n) && Telling(s, n) && FixedRun(a, n) && FixedRun(b, n)
    requires Wire(Stream(s, a)) == Wire(Stream(s, b))
    ensures Alike(s, n, RunNotes(s, a), RunNotes(s, b)) && |RunNotes(s, a)| == |RunNotes(s, b)|
  {
    hide Stream, Wire, AllLocal, EventsOf, RunNotes, Within, Resolved;
    assert Plain(s);
    hide Separable;
    RunLocal(s, a);
    RunLocal(s, b);
    RunWithin(s, a, n);
    RunWithin(s, b, n);
    SameAtEveryPosition(s, RunNotes(s, a), RunNotes(s, b));
  }

  lemma SameFinalBit(s: Settings, n: nat, j: nat, a: seq<seq<uint8>>, b: seq<seq<uint8>>, i: nat, k: nat)
    requires Separable(s, n) && Telling(s, n) && s.deadzone + 1 == Pow2(j) && i < n && k < 8
    requires FixedRun(a, n) && FixedRun(b, n) && a[0] == b[0] && Wire(Stream(s, a)) == Wire(Stream(s, b))
    ensures Bit(LastOf(a)[i], k) == Bit(LastOf(b)[i], k)
  {
    hide Stream, Wire, AllLocal, EventsOf, RunNotes, Alike, AgreeFrom, Pow2, ValuesAt, Bit, Inverted;
    assert Plain(s);
    var ns, ms := RunNotes(s, a), RunNotes(s, b);
    RunLocal(s, a);
    RunLocal(s, b);
    AlikeFromWire(s, n, a, b);
    hide Separable, Telling;
    AgreeEverywhere(s, n, j, ns, ms, 0);
    CountRun(s, a, 0);
    CountRun(s, b, 0);
    SameFlips(s, n, ns, ms, i, k);
    CountIsValues(ns, i, k);
    CountIsValues(ms, i, k);
    Alternation(s, a, i, k);
    Alternation(s, b, i, k);
  }

  /** If bytes can be told apart, bits too, and the deadzone plus one is a power of two, then baseline and messages
      determine the last report. */
  lemma HybridDetermines(s: Settings, n: nat, j: nat)
    requires Separable(s, n) && Telling(s, n) && s.deadzone + 1 == Pow2(j)
    ensures WireDeterminesReport(s, n)
  {
    hide Separable, Telling, Stream, Wire, Pow2, Bit;
    forall a: seq<seq<uint8>>, b: seq<seq<uint8>> | FixedRun(a, n) && FixedRun(b, n) && a[0] == b[0]
      && Wire(Stream(s, a)) == Wire(Stream(s, b))
      ensures LastOf(a) == LastOf(b)
    {
      var x, y := LastOf(a), LastOf(b);
      assert x in a && y in b;
      forall i | 0 <= i < n
        ensures x[i] == y[i]
      {
        forall k | 0 <= k < 8
          ensures Bit(x[i], k) == Bit(y[i], k)
        {
          SameFinalBit(s, n, j, a, b, i, k);
        }
        BytesEqualIfBitsEqual(x[i], y[i]);
      }
    }
  }
}
