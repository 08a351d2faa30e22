/** Hybrid mode merges the other two modes without losing, adding or reordering anything. */
module HybridView {
  import opened Bits
  import opened Sequences
  import opened Protocol

  /** The events that come from the byte view (or from the bit view), in order. */
  function OfView(es: seq<Event>, bytes: bool): seq<Event> {
    if es == [] then []
    else
      var rest, e := OfView(es[..|es| - 1], bytes), es[|es| - 1];
      if (e.view == OfByte) == bytes then rest + [e] else rest
  }

  lemma {:induction false} OfViewAppend(a: seq<Event>, b: seq<Event>, bytes: bool)
    ensures OfView(a + b, bytes) == OfView(a, bytes) + OfView(b, bytes)
    decreases |b|
  {
    if b == [] {
      assert a + b == a;
    } else {
      assert (a + b)[..|a + b| - 1] == a + b[..|b| - 1];
      OfViewAppend(a, b[..|b| - 1], bytes);
    }
  }

  function InMode(s: Settings, m: InputDecodeMode): Settings {
    s.(mode := m)
  }

  lemma OfViewSmall(es: seq<Event>, bytes: bool)
    requires |es| <= 1 && forall e | e in es :: e.view == OfByte
    ensures OfView(es, bytes) == if bytes then es else []
  {
    if es != [] {
      assert es[..0] == [] && es == [] + [es[0]];
    }
  }

  lemma ByteEventsByMode(s: Settings, i: nat, prev: uint8, cur: uint8)
    ensures OfView(ByteEvents(InMode(s, HybridMode), i, prev, cur), true)
         == ByteEvents(InMode(s, ByteMode), i, prev, cur)
    ensures OfView(ByteEvents(InMode(s, HybridMode), i, prev, cur), false) == []
    ensures ByteEvents(InMode(s, BitMode), i, prev, cur) == []
  {
    hide OfView, FindByteMapping, FallbackAddress, MappedAddress, Delta, V7, Clamp7;
    var es := ByteEvents(InMode(s, HybridMode), i, prev, cur);
    assert es == ByteEvents(InMode(s, ByteMode), i, prev, cur);
    OfViewSmall(es, true);
    OfViewSmall(es, false);
  }

  lemma {:induction false} BitEventsByMode(s: Settings, i: nat, prev: uint8, cur: uint8, n: nat)
    ensures OfView(BitEvents(InMode(s, HybridMode), i, prev, cur, n), false)
         == BitEvents(InMode(s, BitMode), i, prev, cur, n)
    ensures OfView(BitEvents(InMode(s, HybridMode), i, prev, cur, n), true) == []
    ensures BitEvents(InMode(s, ByteMode), i, prev, cur, n) == []
  {
    hide Bit;
    if n > 0 {
      BitEventsByMode(s, i, prev, cur, n - 1);
      var rest := BitEvents(InMode(s, HybridMode), i, prev, cur, n - 1);
      var e := BitEvent(InMode(s, HybridMode), i, n - 1, Bit(cur, n - 1));
      assert e == BitEvent(InMode(s, BitMode), i, n - 1, Bit(cur, n - 1));
      hide BitEvent;
      assert (rest + [e])[..|rest|] == rest;
    }
  }

  lemma {:induction false} DiffByMode(s: Settings, prev: seq<uint8>, cur: seq<uint8>, n: nat)
    requires n <= |prev| && n <= |cur|
    ensures OfView(DiffUpTo(InMode(s, HybridMode), prev, cur, n), true) == DiffUpTo(InMode(s, ByteMode), prev, cur, n)
    ensures OfView(DiffUpTo(InMode(s, HybridMode), prev, cur, n), false) == DiffUpTo(InMode(s, BitMode), prev, cur, n)
  {
    hide ByteEvents, BitEvents;
    if n > 0 {
      var h, p, c := InMode(s, HybridMode), prev[n - 1], cur[n - 1];
      DiffByMode(s, prev, cur, n - 1);
      ByteEventsByMode(s, n - 1, p, c);
      BitEventsByMode(s, n - 1, p, c, 8);
      DiffStep(h, prev, cur, n);
      DiffStep(InMode(s, ByteMode), prev, cur, n);
      DiffStep(InMode(s, BitMode), prev, cur, n);
      hide DiffUpTo, OfView;
      var before := DiffUpTo(h, prev, cur, n - 1);
      var bytes, bits := ByteEvents(h, n - 1, p, c), BitEvents(h, n - 1, p, c, 8);
      OfViewAppend(before, bytes, true);
      OfViewAppend(before + bytes, bits, true);
      OfViewAppend(before, bytes, false);
      OfViewAppend(before + bytes, bits, false);
    }
  }

  /** Faithful merge: over any run, the byte events of a Hybrid decoder are exactly the Byte-mode output, and its bit
      events exactly the Bit-mode output. */
  lemma {:induction false} HybridIsMerge(s: Settings, reports: seq<seq<uint8>>)
    ensures OfView(Stream(InMode(s, HybridMode), reports), true) == Stream(InMode(s, ByteMode), reports)
    ensures OfView(Stream(InMode(s, HybridMode), reports), false) == Stream(InMode(s, BitMode), reports)
  {
    var h, n := InMode(s, HybridMode), |reports|;
    if n > 1 {
      var init, prev, cur := reports[..n - 1], reports[n - 2], reports[n - 1];
      HybridIsMerge(s, init);
      DiffByMode(s, prev, cur, Min(|prev|, |cur|));
      hide OfView, DiffUpTo;
      OfViewAppend(Stream(h, init), Diff(h, prev, cur), true);
      OfViewAppend(Stream(h, init), Diff(h, prev, cur), false);
    }
  }

  // ---------- Order within one report ----------

  /** Byte first, then its bits from the lowest. */
  function Key(e: Event): nat {
    e.index * 9 + match e.view { case OfByte => 0 case OfBit(k) => 1 + k }
  }

  /** Strictly increasing keys between lo and hi. */
  ghost predicate Increasing(es: seq<Event>, lo: nat, hi: nat) {
    && (forall j | 0 <= j < |es| :: lo <= Key(es[j]) < hi)
    && (forall j, l | 0 <= j < l < |es| :: Key(es[j]) < Key(es[l]))
  }

  lemma IncreasingAppend(a: seq<Event>, b: seq<Event>, lo: nat, mid: nat, hi: nat)
    requires lo <= mid <= hi && Increasing(a, lo, mid) && Increasing(b, mid, hi)
    ensures Increasing(a + b, lo, hi)
  {
  }

  lemma {:induction false} BitKeysIncrease(s: Settings, i: nat, prev: uint8, cur: uint8, n: nat)
    ensures Increasing(BitEvents(s, i, prev, cur, n), i * 9 + 1, i * 9 + 1 + n)
  {
    hide Bit;
    if n > 0 {
      BitKeysIncrease(s, i, prev, cur, n - 1);
    }
  }

  lemma ByteKey(s: Settings, i: nat, prev: uint8, cur: uint8)
    ensures Increasing(ByteEvents(s, i, prev, cur), i * 9, i * 9 + 1)
  {
  }

  /** Within one report the keys (byte, view, bit) strictly increase, so no byte or bit is sent twice. */
  lemma {:induction false} KeysIncrease(s: Settings, prev: seq<uint8>, cur: seq<uint8>, n: nat)
    requires n <= |prev| && n <= |cur|
    ensures Increasing(DiffUpTo(s, prev, cur, n), 0, n * 9)
  {
    hide DiffUpTo, ByteEvents, BitEvents;
    if n == 0 {
      DiffStep(s, prev, cur, 0);
    } else {
      hide Increasing;
      var p, c := prev[n - 1], cur[n - 1];
      KeysIncrease(s, prev, cur, n - 1);
      BitKeysIncrease(s, n - 1, p, c, 8);
      ByteKey(s, n - 1, p, c);
      DiffStep(s, prev, cur, n);
      var before := DiffUpTo(s, prev, cur, n - 1);
      var bytes, bits := ByteEvents(s, n - 1, p, c), BitEvents(s, n - 1, p, c, 8);
      IncreasingAppend(before, bytes, 0, (n - 1) * 9, (n - 1) * 9 + 1);
      IncreasingAppend(before + bytes, bits, 0, (n - 1) * 9 + 1, n * 9);
    }
  }
}
