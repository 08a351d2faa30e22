/** What a listener can know of a Hybrid decoder. Byte and bit messages share addresses and carry no mark of where they
    come from; nevertheless, as long as two bits can be told apart, the messages determine the report exactly if the
    deadzone plus one is a power of two.

    The reason: a byte message is followed by the bits of its group, and it can be mistaken for a bit only if its value
    is 0 or 127, so that all flips of the group go the same way. If the deadzone is one less than a power of two, such
    a group exceeds it only by a single bit that already does, and no other way of grouping the same flips can then do
    without a byte message. Otherwise a loud group can be split into two silent ones. */
module HybridWire {
  import opened Bits
  import opened Protocol
  import opened Addressing
  import opened ByteView
  import opened HybridNotes

  /** Bytes have distinct addresses, and a byte shares its address with no bit but the one of its own index. */
  ghost predicate Separable(s: Settings, n: nat) {
    && Plain(s) && DistinctBytes(s.base, n)
    && forall c: nat, i: nat, k: nat | c < n && i < n && k < 8 && BitAddress(s, i, k) == FallbackAddress(s.base, c) ::
         i * 8 + k == c
  }

  /** A message that is a bit in both runs is the same bit in both. */
  predicate Resolved(ns: seq<Note>, ms: seq<Note>)
    requires |ns| == |ms|
  {
    forall q | 0 <= q < |ns| && ns[q].event.view.OfBit? && ms[q].event.view.OfBit? ::
      ns[q].event.index == ms[q].event.index && ns[q].event.view == ms[q].event.view
  }

  /** Two annotated runs that look the same on the wire. */
  ghost predicate Alike(s: Settings, n: nat, ns: seq<Note>, ms: seq<Note>) {
    && Separable(s, n) && AllLocal(s, ns) && AllLocal(s, ms) && Within(ns, n) && Within(ms, n)
    && |ns| == |ms| && Resolved(ns, ms)
    && forall q | 0 <= q < |ns| :: ns[q].event.address == ms[q].event.address && ns[q].event.value == ms[q].event.value
  }

  lemma AlikeIsSymmetric(s: Settings, n: nat, ns: seq<Note>, ms: seq<Note>)
    requires Alike(s, n, ns, ms)
    ensures Alike(s, n, ms, ns)
  {
    hide Separable, AllLocal, Within;
  }

  predicate Starts(m: Note) {
    LoudFirst(m, m.event.index)
  }

  /** At position q both runs have a byte message or both a bit, unless it is on the address of byte 0; and both start a
      loud group or neither does. */
  predicate Agree(s: Settings, ns: seq<Note>, ms: seq<Note>, q: nat)
    requires q < |ns| == |ms|
  {
    && (ns[q].event.address != FallbackAddress(s.base, 0) ==> (ns[q].event.view.OfByte? <==> ms[q].event.view.OfByte?))
    && (Starts(ns[q]) <==> Starts(ms[q]))
  }

  predicate AgreeFrom(s: Settings, ns: seq<Note>, ms: seq<Note>, from: nat)
    requires |ns| == |ms|
  {
    forall q | from <= q < |ns| :: Agree(s, ns, ms, q)
  }

  lemma AgreeIsSymmetric(s: Settings, n: nat, ns: seq<Note>, ms: seq<Note>, from: nat)
    requires Alike(s, n, ns, ms) && AgreeFrom(s, ns, ms, from)
    ensures AgreeFrom(s, ms, ns, from)
  {
    hide Separable, AllLocal, Within, Starts, FallbackAddress;
    forall q | from <= q < |ns|
      ensures Agree(s, ms, ns, q)
    {
      assert Agree(s, ns, ms, q);
    }
  }

  // ---------- Reading one position ----------

  /** The local facts of one note. */
  lemma AtNote(s: Settings, n: nat, ns: seq<Note>, ms: seq<Note>, q: nat)
    requires Alike(s, n, ns, ms) && q < |ns|
    ensures |ns| == |ms| && Local(s, ns, q) && ns[q].event.index < n && Separable(s, n)
    ensures ns[q].event.address == ms[q].event.address && ns[q].event.value == ms[q].event.value
  {
    hide Separable, Local;
    assert ns[q] in ns;
  }

  lemma BitNote(s: Settings, ns: seq<Note>, q: nat)
    requires q < |ns| && Local(s, ns, q) && ns[q].event.view.OfBit?
    ensures ns[q].event.view.bit < 8 && ns[q].event.address == BitAddress(s, ns[q].event.index, ns[q].event.view.bit)
    ensures ns[q].event.value == 0 || ns[q].event.value == 127
    ensures ns[q].event.view.bit >= 1 ==>
      var c := ns[q].event.index;
      IsUpper(ns[q], c) && UpperRight(s, ns, q, c) && UpperLeft(ns, q, c)
  {
    hide BitAddress, FallbackAddress, UpperLeft, Weight;
  }

  lemma ByteNote(s: Settings, ns: seq<Note>, q: nat)
    requires q < |ns| && Local(s, ns, q) && ns[q].event.view.OfByte?
    ensures ByteRight(s, ns, q, ns[q].event.index) && ns[q].event.address == FallbackAddress(s.base, ns[q].event.index)
  {
    hide BitAddress, FallbackAddress;
  }

  lemma SharedOnlyWithOwn(s: Settings, n: nat, c: nat, i: nat, k: nat)
    requires Separable(s, n) && c < n && i < n && k < 8 && BitAddress(s, i, k) == FallbackAddress(s.base, c)
    ensures i * 8 + k == c
  {
  }

  lemma SameBit(s: Settings, n: nat, ns: seq<Note>, ms: seq<Note>, q: nat)
    requires Alike(s, n, ns, ms) && q < |ns| && ns[q].event.view.OfBit? && ms[q].event.view.OfBit?
    ensures ns[q].event.index == ms[q].event.index && ns[q].event.view == ms[q].event.view
  {
    hide Separable, AllLocal, Within;
  }

  lemma SameByte(s: Settings, n: nat, c: nat, d: nat)
    requires Separable(s, n) && c < n && d < n && FallbackAddress(s.base, c) == FallbackAddress(s.base, d)
    ensures c == d
  {
    hide FallbackAddress, BitAddress;
  }

  /** An upper bit of one run is the same upper bit in the other, where they agree. */
  lemma SameUpper(s: Settings, n: nat, ns: seq<Note>, ms: seq<Note>, q: nat, c: nat)
    requires Alike(s, n, ns, ms) && q < |ns| && Agree(s, ns, ms, q) && IsUpper(ns[q], c)
    ensures IsUpper(ms[q], c) && ms[q].event.view == ns[q].event.view
    ensures UpperRight(s, ns, q, c) && UpperLeft(ns, q, c) && UpperRight(s, ms, q, c) && UpperLeft(ms, q, c)
    ensures ms[q].event.value == ns[q].event.value
  {
    hide Separable, Local, BitAddress, FallbackAddress, UpperRight, UpperLeft, Weight, Alike, AllLocal, Within;
    AlikeIsSymmetric(s, n, ns, ms);
    AtNote(s, n, ns, ms, q);
    AtNote(s, n, ms, ns, q);
    BitNote(s, ns, q);
    if ns[q].event.address == FallbackAddress(s.base, 0) {
      SharedOnlyWithOwn(s, n, 0, c, ns[q].event.view.bit);
    }
    BitNote(s, ms, q);
    SameBit(s, n, ns, ms, q);
  }

  // ---------- From the right: byte messages ----------

  /** A byte message not on the address of byte 0 is a byte message in the other run, if the runs agree after it. */
  lemma ByteStep(s: Settings, n: nat, ns: seq<Note>, ms: seq<Note>, p: nat)
    requires Alike(s, n, ns, ms) && p < |ns| && AgreeFrom(s, ns, ms, p + 1)
    requires ns[p].event.view.OfByte? && ns[p].event.address != FallbackAddress(s.base, 0)
    ensures ms[p].event.view.OfByte?
  {
    hide Separable, Local, BitAddress, FallbackAddress, UpperRight, Weight;
    var c := ns[p].event.index;
    AlikeIsSymmetric(s, n, ns, ms);
    AtNote(s, n, ns, ms, p);
    AtNote(s, n, ms, ns, p);
    ByteNote(s, ns, p);
    assert c != 0;
    if ms[p].event.view.OfBit? {
      BitNote(s, ms, p);
      if IsBit(ms[p], c, 0) {
        SharedOnlyWithOwn(s, n, c, c, 0);
      }
      if p + 1 < |ns| && LoudFirst(ns[p + 1], c) {
        assert Agree(s, ns, ms, p + 1);
        SameUpper(s, n, ns, ms, p + 1, c);
        assert false;
      } else {
        assert Agree(s, ns, ms, p + 1) && Agree(s, ns, ms, p + 2);
        SameUpper(s, n, ns, ms, p + 2, c);
        AtNote(s, n, ns, ms, p + 1);
        BitNote(s, ns, p + 1);
        if ns[p + 1].event.address == FallbackAddress(s.base, 0) {
          SharedOnlyWithOwn(s, n, 0, c, 0);
        }
        assert false;
      }
    }
  }

  // ---------- From the right: loud groups ----------

  /** A byte message faces a byte message of the same byte, or a bit, and then its value is 0 or 127. */
  lemma FacingAByte(s: Settings, n: nat, ns: seq<Note>, ms: seq<Note>, q: nat, c: nat)
    requires Alike(s, n, ns, ms) && q < |ns| && IsByte(ns[q], c)
    ensures ms[q].event.view.OfByte? ==> IsByte(ms[q], c) && ByteRight(s, ms, q, c)
    ensures ms[q].event.view.OfBit? ==> ns[q].event.value == 0 || ns[q].event.value == 127
  {
    hide Separable, Local, BitAddress, FallbackAddress, UpperRight, UpperLeft, Weight, Alike, ByteRight;
    AlikeIsSymmetric(s, n, ns, ms);
    AtNote(s, n, ns, ms, q);
    AtNote(s, n, ms, ns, q);
    ByteNote(s, ns, q);
    if ms[q].event.view.OfByte? {
      ByteNote(s, ms, q);
      SameByte(s, n, c, ms[q].event.index);
    } else {
      BitNote(s, ms, q);
    }
  }

  /** A lowest bit faces the same bit, or the message of a byte. */
  lemma FacingALowestBit(s: Settings, n: nat, ns: seq<Note>, ms: seq<Note>, q: nat, c: nat)
    requires Alike(s, n, ns, ms) && q < |ns| && IsBit(ns[q], c, 0)
    ensures if ms[q].event.view.OfBit? then IsBit(ms[q], c, 0) else ByteRight(s, ms, q, ms[q].event.index)
  {
    hide Separable, Local, BitAddress, FallbackAddress, UpperRight, UpperLeft, Weight, Alike, ByteRight;
    AlikeIsSymmetric(s, n, ns, ms);
    AtNote(s, n, ns, ms, q);
    AtNote(s, n, ms, ns, q);
    BitNote(s, ns, q);
    if ms[q].event.view.OfByte? {
      ByteNote(s, ms, q);
    } else {
      BitNote(s, ms, q);
      SameBit(s, n, ns, ms, q);
    }
  }

  /** If a loud group starts at p in one run but not in the other, the other starts a silent one there, and its own byte
      message, taken for a bit there, has the value 0 or 127. */
  lemma TakenForABit(s: Settings, n: nat, ns: seq<Note>, ms: seq<Note>, p: nat, c: nat)
    requires Alike(s, n, ns, ms) && p < |ns| && Agree0(s, ns, ms, p)
    requires LoudFirst(ns[p], c) && !LoudFirst(ms[p], c)
    ensures IsUpper(ms[p], c) && ms[p].first && !ms[p].loud && (ns[p].end == 0 || ns[p].end == 127)
  {
    hide Separable, BitAddress, FallbackAddress, UpperRight, Weight, AllLocal, Local, Within;
    SameUpper0(s, n, ns, ms, p, c);
    NotAContinuation(s, n, ns, ms, p - 1, c);
    assert ms[p].first;
    if IsByte(ns[p - 1], c) && ns[p - 1].event.value == ns[p].end {
      FacingAByte(s, n, ns, ms, p - 1, c);
    } else {
      FacingALowestBit(s, n, ns, ms, p - 1, c);
      FacingAByte(s, n, ns, ms, p - 2, c);
    }
  }

  /** The first half of agreement. */
  predicate Agree0(s: Settings, ns: seq<Note>, ms: seq<Note>, q: nat)
    requires q < |ns| == |ms|
  {
    ns[q].event.address != FallbackAddress(s.base, 0) ==> (ns[q].event.view.OfByte? <==> ms[q].event.view.OfByte?)
  }

  lemma SameUpper0(s: Settings, n: nat, ns: seq<Note>, ms: seq<Note>, q: nat, c: nat)
    requires Alike(s, n, ns, ms) && q < |ns| && Agree0(s, ns, ms, q) && IsUpper(ns[q], c)
    ensures IsUpper(ms[q], c) && ms[q].event.view == ns[q].event.view
    ensures UpperLeft(ns, q, c) && UpperLeft(ms, q, c)
    ensures UpperRight(s, ns, q, c) && UpperRight(s, ms, q, c)
  {
    hide Separable, Local, BitAddress, FallbackAddress, UpperRight, UpperLeft, Weight, Alike, AllLocal, Within;
    AlikeIsSymmetric(s, n, ns, ms);
    AtNote(s, n, ns, ms, q);
    AtNote(s, n, ms, ns, q);
    BitNote(s, ns, q);
    if ns[q].event.address == FallbackAddress(s.base, 0) {
      SharedOnlyWithOwn(s, n, 0, c, ns[q].event.view.bit);
    }
    BitNote(s, ms, q);
    SameBit(s, n, ns, ms, q);
  }

  /** What stands right before a loud group is not an upper bit of that byte in the other run. */
  lemma NotAContinuation(s: Settings, n: nat, ns: seq<Note>, ms: seq<Note>, q: nat, c: nat)
    requires Alike(s, n, ns, ms) && q < |ns| && (IsByte(ns[q], c) || IsBit(ns[q], c, 0))
    ensures !IsUpper(ms[q], c)
  {
    hide Separable, Local, BitAddress, FallbackAddress, UpperRight, UpperLeft, Weight, Alike, ByteRight;
    AlikeIsSymmetric(s, n, ns, ms);
    AtNote(s, n, ns, ms, q);
    AtNote(s, n, ms, ns, q);
    if IsUpper(ms[q], c) {
      BitNote(s, ms, q);
      if IsByte(ns[q], c) {
        ByteNote(s, ns, q);
        SharedOnlyWithOwn(s, n, c, c, ms[q].event.view.bit);
      } else {
        BitNote(s, ns, q);
        SameBit(s, n, ns, ms, q);
      }
    }
  }

  function Signed(up: bool, x: int): int {
    if up then x else 0 - x
  }

  /** The last flip of the group that position x belongs to. */
  function GroupEnd(s: Settings, ns: seq<Note>, x: nat): nat
    requires AllLocal(s, ns) && x < |ns| && IsUpper(ns[x], ns[x].event.index)
    decreases |ns| - x
  {
    assert Local(s, ns, x);
    if ns[x].last then x else GroupEnd(s, ns, x + 1)
  }

  /** In a group whose flips all go one way, the movement from x on is less than twice the weight of the last flip. */
  lemma {:induction false} GroupSum(s: Settings, ns: seq<Note>, x: nat, c: nat, up: bool)
    requires AllLocal(s, ns) && x < |ns| && IsUpper(ns[x], c) && ns[x].end == if up then 127 else 0
    ensures var g := GroupEnd(s, ns, x);
            && x <= g < |ns| && IsUpper(ns[g], c) && ns[g].last
            && Signed(up, ns[x].tail) + Weight(ns[x].event.view.bit) <= 2 * Weight(ns[g].event.view.bit)
            && Signed(up, ns[x].tail) >= Weight(ns[x].event.view.bit)
    decreases |ns| - x
  {
    hide BitAddress, FallbackAddress, Weight;
    assert Local(s, ns, x);
    BitNote(s, ns, x);
    if !ns[x].last {
      GroupSum(s, ns, x + 1, c, up);
      WeightGrows(ns[x].event.view.bit, ns[x + 1].event.view.bit);
    }
  }

  lemma WeightGrows(k: nat, l: nat)
    requires 1 <= k < l
    ensures 2 * Weight(k) <= Weight(l)
  {
    Pow2Monotone(k, l - 1);
  }

  /** The other run, silent at x, has to move at least as far as the weight of the last flip of the loud group. */
  lemma {:induction false} SilentClimb(s: Settings, n: nat, ns: seq<Note>, ms: seq<Note>,
                                       x: nat, g: nat, c: nat, up: bool)
    requires Alike(s, n, ns, ms) && x <= g < |ns| && AgreeFrom(s, ns, ms, x + 1)
    requires IsUpper(ns[x], c) && ns[x].end == (if up then 127 else 0) && GroupEnd(s, ns, x) == g
    requires IsUpper(ns[g], c) && Weight(ns[g].event.view.bit) > s.deadzone
    requires IsUpper(ms[x], c) && ms[x].event.view == ns[x].event.view && !ms[x].loud
    ensures Signed(up, ms[x].tail) >= Weight(ns[g].event.view.bit)
    decreases g - x
  {
    hide Separable, Local, BitAddress, FallbackAddress, Weight, UpperLeft, AllLocal, Within;
    AlikeIsSymmetric(s, n, ns, ms);
    AtNote(s, n, ns, ms, x);
    AtNote(s, n, ms, ns, x);
    BitNote(s, ns, x);
    BitNote(s, ms, x);
    hide Alike, GroupEnd;
    if x == g {
      LastOfGroup(s, ns, x);
      NothingAfter(s, n, ns, ms, x, c);
    } else {
      NotLastOfGroup(s, ns, x, g);
      assert Agree(s, ns, ms, x + 1);
      SameUpper(s, n, ns, ms, x + 1, c);
      if ms[x].last {
        FreshSilent(s, ns, ms, x, c);
      }
      SilentClimb(s, n, ns, ms, x + 1, g, c, up);
      if !ms[x].last {
        WeightIsPositive(ns[x].event.view.bit);
      }
    }
  }

  lemma WeightIsPositive(k: nat)
    requires k >= 1
    ensures Weight(k) >= 1
  {
  }

  lemma LastOfGroup(s: Settings, ns: seq<Note>, x: nat)
    requires AllLocal(s, ns) && x < |ns| && IsUpper(ns[x], ns[x].event.index) && GroupEnd(s, ns, x) == x
    ensures ns[x].last
  {
    hide BitAddress, FallbackAddress, Weight, UpperLeft;
    assert Local(s, ns, x);
    if !ns[x].last {
      GroupEndAfter(s, ns, x + 1);
    }
  }

  lemma {:induction false} GroupEndAfter(s: Settings, ns: seq<Note>, x: nat)
    requires AllLocal(s, ns) && x < |ns| && IsUpper(ns[x], ns[x].event.index)
    ensures x <= GroupEnd(s, ns, x)
    decreases |ns| - x
  {
    hide BitAddress, FallbackAddress, Weight, UpperLeft;
    assert Local(s, ns, x);
    if !ns[x].last {
      GroupEndAfter(s, ns, x + 1);
    }
  }

  lemma NotLastOfGroup(s: Settings, ns: seq<Note>, x: nat, g: nat)
    requires AllLocal(s, ns) && x < |ns| && IsUpper(ns[x], ns[x].event.index) && GroupEnd(s, ns, x) == g && x != g
    ensures !ns[x].last && x + 1 < |ns| && IsUpper(ns[x + 1], ns[x].event.index) && !ns[x + 1].first
    ensures ns[x + 1].end == ns[x].end && GroupEnd(s, ns, x + 1) == g
  {
    hide BitAddress, FallbackAddress, Weight, UpperLeft;
    assert Local(s, ns, x);
  }

  /** After the last flip of a group, a flip of the same byte and a higher bit would start a silent group of its own,
      and would be too large for that. */
  lemma NothingAfter(s: Settings, n: nat, ns: seq<Note>, ms: seq<Note>, g: nat, c: nat)
    requires Alike(s, n, ns, ms) && g < |ns| && AgreeFrom(s, ns, ms, g + 1)
    requires IsUpper(ns[g], c) && ns[g].last && Weight(ns[g].event.view.bit) > s.deadzone
    requires IsUpper(ms[g], c) && ms[g].event.view == ns[g].event.view && UpperRight(s, ms, g, c)
    ensures ms[g].last
  {
    hide Separable, Local, BitAddress, FallbackAddress, Weight;
    if !ms[g].last {
      AlikeIsSymmetric(s, n, ns, ms);
      AgreeIsSymmetric(s, n, ns, ms, g + 1);
      assert Agree(s, ms, ns, g + 1);
      SameUpper(s, n, ms, ns, g + 1, c);
      WeightGrows(ns[g].event.view.bit, ns[g + 1].event.view.bit);
      assert false;
    }
  }

  lemma FreshSilent(s: Settings, ns: seq<Note>, ms: seq<Note>, x: nat, c: nat)
    requires x + 1 < |ns| == |ms| && Agree(s, ns, ms, x + 1)
    requires !ns[x + 1].first && ms[x].last
    requires IsUpper(ms[x + 1], c) && UpperLeft(ms, x + 1, c) && UpperRight(s, ms, x + 1, c)
    ensures ms[x + 1].first && !ms[x + 1].loud && Abs(ms[x + 1].tail) <= s.deadzone
  {
    hide BitAddress, FallbackAddress, Weight;
  }

  /** If the deadzone is one less than a power of two, a loud group of one run is a loud group of the other. */
  lemma LoudStep(s: Settings, n: nat, j: nat, ns: seq<Note>, ms: seq<Note>, p: nat, c: nat)
    requires Alike(s, n, ns, ms) && s.deadzone + 1 == Pow2(j)
    requires p < |ns| && Agree0(s, ns, ms, p) && AgreeFrom(s, ns, ms, p + 1) && LoudFirst(ns[p], c)
    ensures LoudFirst(ms[p], c)
  {
    hide Separable, Local, BitAddress, FallbackAddress, Weight, UpperLeft, Pow2;
    if !LoudFirst(ms[p], c) {
      SameUpper0(s, n, ns, ms, p, c);
      TakenForABit(s, n, ns, ms, p, c);
      var up := ns[p].end == 127;
      GroupSum(s, ns, p, c, up);
      var g := GroupEnd(s, ns, p);
      WeightIsPositive(ns[p].event.view.bit);
      SumExceeds(s.deadzone, j, ns[g].event.view.bit, Signed(up, ns[p].tail));
      SilentClimb(s, n, ns, ms, p, g, c, up);
    }
  }

  lemma SumExceeds(d: nat, j: nat, q: nat, sum: int)
    requires q >= 1 && d + 1 == Pow2(j) && d < sum < 2 * Weight(q)
    ensures Weight(q) > d
  {
    assert Pow2(q) == 2 * Pow2(q - 1);
    if j >= q {
      Pow2Monotone(q, j);
      assert false;
    }
    Pow2Monotone(j, q - 1);
  }

  lemma {:induction false} AgreeEverywhere(s: Settings, n: nat, j: nat, ns: seq<Note>, ms: seq<Note>, from: nat)
    requires Alike(s, n, ns, ms) && s.deadzone + 1 == Pow2(j) && from <= |ns|
    ensures AgreeFrom(s, ns, ms, from)
    decreases |ns| - from
  {
    if from < |ns| {
      AgreeEverywhere(s, n, j, ns, ms, from + 1);
      AgreeAt(s, n, j, ns, ms, from);
      hide Alike, Agree, Pow2;
    }
  }

  lemma AgreeAt(s: Settings, n: nat, j: nat, ns: seq<Note>, ms: seq<Note>, p: nat)
    requires Alike(s, n, ns, ms) && s.deadzone + 1 == Pow2(j) && p < |ns| && AgreeFrom(s, ns, ms, p + 1)
    ensures Agree(s, ns, ms, p)
  {
    hide Separable, Local, BitAddress, FallbackAddress, Pow2;
    AlikeIsSymmetric(s, n, ns, ms);
    AgreeIsSymmetric(s, n, ns, ms, p + 1);
    AtNote(s, n, ns, ms, p);
    if ns[p].event.address != FallbackAddress(s.base, 0) {
      if ns[p].event.view.OfByte? {
        ByteStep(s, n, ns, ms, p);
      }
      if ms[p].event.view.OfByte? {
        ByteStep(s, n, ms, ns, p);
      }
    }
    assert Agree0(s, ns, ms, p) && Agree0(s, ms, ns, p);
    if Starts(ns[p]) {
      LoudStep(s, n, j, ns, ms, p, ns[p].event.index);
    }
    if Starts(ms[p]) {
      LoudStep(s, n, j, ms, ns, p, ms[p].event.index);
    }
  }
}
