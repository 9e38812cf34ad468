/** The rolling three-byte hash of deflate.c and the chains threaded through head[] and the
    circular array prev[].

    Positions are kept twice: a window index, which the C code stores and which slides, and an
    absolute position in the input read so far, in which all invariants are stated. */
module HashChains {
  import opened Words

  const NIL: nat := 0

  /** hash_bits: between 8 (memLevel 1) and 16 (memLevel 9). */
  datatype HashParams = HashParams(bits: bv32) {
    predicate Valid() { 8 <= bits <= 16 }

    function Mask(): bv32
      requires Valid()
    {
      ((1 as bv32) << bits) - 1
    }

    function Shift(): bv32
      requires Valid()
    {
      if bits <= 9 then 3 else if bits <= 12 then 4 else if bits <= 15 then 5 else 6
    }

    /** hash_size: every key is below it. */
    function Size(): nat
      requires Valid()
    {
      Index16(Mask()) + 1
    }

    /** UPDATE_HASH */
    function Update(h: bv32, c: bv8): bv32
      requires Valid()
    {
      ((h << Shift()) ^ (c as bv32)) & Mask()
    }

    /** The key of a three-byte string. */
    function Hash3(a: bv8, b: bv8, c: bv8): bv32
      requires Valid()
    {
      Update(Update(Update(0, a), b), c)
    }

    /** The register h has absorbed a and b, so that one more byte completes a key. */
    ghost predicate Ready(h: bv32, a: bv8, b: bv8)
      requires Valid()
    {
      exists x :: h == Update(Update(x, a), b)
    }

    /** hash_shift is the source's (hash_bits + MIN_MATCH - 1) / MIN_MATCH. */
    lemma ShiftIsRoundedThird()
      requires Valid()
      ensures Shift() == (bits + 2) / 3
    {}
  }

  /** Three updates forget everything older. */
  lemma Forget(P: HashParams, h: bv32, a: bv8, b: bv8, c: bv8)
    requires P.Valid()
    ensures P.Update(P.Update(P.Update(h, a), b), c) == P.Hash3(a, b, c)
  {
    MaskFits(P);
    if P.bits <= 9 {
      Forget3(P.Mask(), h, a as bv32, b as bv32, c as bv32);
    } else if P.bits <= 12 {
      Forget4(P.Mask(), h, a as bv32, b as bv32, c as bv32);
    } else if P.bits <= 15 {
      Forget5(P.Mask(), h, a as bv32, b as bv32, c as bv32);
    } else {
      Forget6(P.Mask(), h, a as bv32, b as bv32, c as bv32);
    }
  }

  /** The mask covers at most three shifts. */
  lemma MaskFits(P: HashParams)
    requires P.Valid()
    ensures P.Mask() < if P.bits <= 9 then 0x200 else if P.bits <= 12 then 0x1000
                       else if P.bits <= 15 then 0x8000 else 0x4_0000
  {}

  lemma Forget3(m: bv32, h: bv32, a: bv32, b: bv32, c: bv32)
    requires m < 0x200
    ensures ((((((((h << 3) ^ a) & m) << 3) ^ b) & m) << 3) ^ c) & m
      == ((((((((0 << 3) ^ a) & m) << 3) ^ b) & m) << 3) ^ c) & m
  {}

  lemma Forget4(m: bv32, h: bv32, a: bv32, b: bv32, c: bv32)
    requires m < 0x1000
    ensures ((((((((h << 4) ^ a) & m) << 4) ^ b) & m) << 4) ^ c) & m
      == ((((((((0 << 4) ^ a) & m) << 4) ^ b) & m) << 4) ^ c) & m
  {}

  lemma Forget5(m: bv32, h: bv32, a: bv32, b: bv32, c: bv32)
    requires m < 0x8000
    ensures ((((((((h << 5) ^ a) & m) << 5) ^ b) & m) << 5) ^ c) & m
      == ((((((((0 << 5) ^ a) & m) << 5) ^ b) & m) << 5) ^ c) & m
  {}

  lemma Forget6(m: bv32, h: bv32, a: bv32, b: bv32, c: bv32)
    requires m < 0x4_0000
    ensures ((((((((h << 6) ^ a) & m) << 6) ^ b) & m) << 6) ^ c) & m
      == ((((((((0 << 6) ^ a) & m) << 6) ^ b) & m) << 6) ^ c) & m
  {}

  /** The register completes the key of the last three bytes, and is then ready for the string
      one position further. */
  lemma ReadyStep(P: HashParams, h: bv32, a: bv8, b: bv8, c: bv8)
    requires P.Valid() && P.Ready(h, a, b)
    ensures P.Update(h, c) == P.Hash3(a, b, c)
    ensures P.Ready(P.Update(h, c), b, c)
  {
    var x :| h == P.Update(P.Update(x, a), b);
    Forget(P, x, a, b, c);
    assert P.Update(h, c) == P.Update(P.Update(P.Update(x, a), b), c);
  }

  /** Starting over, as fill_window does: the first byte unmasked, then one update. */
  lemma ReadyStart(P: HashParams, a: bv8, b: bv8)
    requires P.Valid()
    ensures P.Ready(P.Update(a as bv32, b), a, b)
  {
    assert P.Update(0, a) == a as bv32;
    assert P.Update(a as bv32, b) == P.Update(P.Update(0, a), b);
  }

  /** Equal keys and two equal bytes force the third: why longest_match need not compare byte 2. */
  lemma ThirdByteForced(P: HashParams, a: bv8, b: bv8, c: bv8, d: bv8)
    requires P.Valid() && P.Hash3(a, b, c) == P.Hash3(a, b, d)
    ensures c == d
  {}

  /** An updated register indexes head[]. */
  lemma KeyInRange(P: HashParams, h: bv32, c: bv8)
    requires P.Valid()
    ensures Index16(P.Update(h, c)) < P.Size()
  {
    hide Index16;
    MaskShape(P);
    UpdateMasked(P, h, c);
    Index16Mask(P.Update(h, c), P.Mask());
  }

  lemma MaskShape(P: HashParams)
    requires P.Valid()
    ensures P.Mask() <= 0xffff && P.Mask() & 0xff == 0xff
  {}

  lemma UpdateMasked(P: HashParams, h: bv32, c: bv8)
    requires P.Valid()
    ensures P.Update(h, c) & P.Mask() == P.Update(h, c)
  {
    var x := (h << P.Shift()) ^ (c as bv32);
    var m := P.Mask();
    hide HashParams.Mask, HashParams.Shift;
    assert (x & m) & m == x & m;
  }

  /** str & w_mask, for a window index str below 2 * w_size. */
  function Slot(i: nat, w: nat): nat
  {
    if i < w then i else i - w
  }

  /** The key of the string at absolute position p of the input. */
  function KeyAt(P: HashParams, s: seq<bv8>, p: nat): nat
    requires P.Valid() && p + 3 <= |s|
  {
    Index16(P.Hash3(s[p], s[p + 1], s[p + 2]))
  }

  lemma KeyAtInRange(P: HashParams, s: seq<bv8>, p: nat)
    requires P.Valid() && p + 3 <= |s|
    ensures KeyAt(P, s, p) < P.Size()
  {
    hide Index16, HashParams.Size, HashParams.Update;
    KeyInRange(P, P.Update(P.Update(0, s[p]), s[p + 1]), s[p + 2]);
  }

  /** Strings with equal keys and equal first two bytes agree on the third. */
  lemma KeysForceThird(P: HashParams, a: bv8, b: bv8, c: bv8, d: bv8)
    requires P.Valid() && Index16(P.Hash3(a, b, c)) == Index16(P.Hash3(a, b, d))
    ensures c == d
  {
    hide Index16, HashParams.Hash3, HashParams.Valid;
    HashSmall(P, a, b, c);
    HashSmall(P, a, b, d);
    Index16Injective(P.Hash3(a, b, c), P.Hash3(a, b, d));
    ThirdByteForced(P, a, b, c, d);
  }

  lemma HashSmall(P: HashParams, a: bv8, b: bv8, c: bv8)
    requires P.Valid()
    ensures P.Hash3(a, b, c) <= 0xffff
  {
    hide HashParams.Update, HashParams.Mask;
    MaskShape(P);
    UpdateMasked(P, P.Update(P.Update(0, a), b), c);
    MaskedSmall(P.Hash3(a, b, c), P.Mask());
  }

  lemma MaskedSmall(w: bv32, m: bv32)
    requires w & m == w && m <= 0xffff
    ensures w <= 0xffff
  {}

  /** i is NIL or a recorded position, before the given one and with the given key. */
  ghost predicate Link(P: HashParams, s: seq<bv8>, base: nat, ins: set<nat>, i: nat, before: nat, key: nat)
    requires P.Valid()
  {
    i != NIL ==> base + i in ins && base + i < before && base + i + 3 <= |s| && KeyAt(P, s, base + i) == key
  }

  /** The dictionary: ins are the positions inserted so far (absolute), all below top, the window
      starts at base. A position still owns its slot of prev while no position w later has been
      inserted; head entries and owned slots link to earlier positions with the same key. */
  ghost predicate ChainsOk(P: HashParams, w: nat, head: seq<nat>, prev: seq<nat>,
                           s: seq<bv8>, base: nat, ins: set<nat>, top: nat)
  {
    && P.Valid() && |prev| == w && |head| == P.Size()
    && (top == 0 || top + 2 <= |s|) && top <= base + 2 * w
    && (forall p | p in ins :: p < top)
    && (forall key | 0 <= key < |head| :: Link(P, s, base, ins, head[key], top, key))
    && (forall p | p in ins && base <= p && top <= p + w ::
          Link(P, s, base, ins, prev[Slot(p - base, w)], p, KeyAt(P, s, p)))
  }

  lemma EmptyDictionary(P: HashParams, w: nat, head: seq<nat>, prev: seq<nat>, s: seq<bv8>, base: nat)
    requires P.Valid() && |prev| == w && |head| == P.Size() && forall key | 0 <= key < |head| :: head[key] == NIL
    ensures ChainsOk(P, w, head, prev, s, base, {}, 0)
  {}

  /** INSERT_STRING at window index str keeps the dictionary. */
  lemma InsertKeeps(P: HashParams, w: nat, head: seq<nat>, prev: seq<nat>,
                    s: seq<bv8>, base: nat, ins: set<nat>, top: nat, str: nat)
    requires ChainsOk(P, w, head, prev, s, base, ins, top)
    requires top <= base + str && str < 2 * w && base + str + 3 <= |s|
    ensures var key := KeyAt(P, s, base + str);
      && key < |head|
      && ChainsOk(P, w, head[key := str], prev[Slot(str, w) := head[key]],
                  s, base, ins + {base + str}, base + str + 1)
      && Link(P, s, base, ins, head[key], base + str, key)
  {
    hide KeyAt, HashParams.Size, Link, Slot;
    KeyAtInRange(P, s, base + str);
    forall i: nat | i < 2 * w ensures Slot(i, w) < w { SlotInside(i, w); }
    var key, q := KeyAt(P, s, base + str), base + str;
    var newHead, newPrev, newIns := head[key := str], prev[Slot(str, w) := head[key]], ins + {q};
    assert Link(P, s, base, ins, head[key], top, key);
    LinkLater(P, s, base, ins, head[key], top, key, q);
    forall k | 0 <= k < |newHead| ensures Link(P, s, base, newIns, newHead[k], q + 1, k) {
      if k != key {
        assert Link(P, s, base, ins, head[k], top, k);
        LinkLater(P, s, base, ins, head[k], top, k, q);
      } else {
        LinkNew(P, s, base, ins, str);
      }
    }
    forall p | p in newIns && base <= p && q + 1 <= p + w
      ensures Link(P, s, base, newIns, newPrev[Slot(p - base, w)], p, KeyAt(P, s, p))
    {
      if p != q {
        assert Link(P, s, base, ins, prev[Slot(p - base, w)], p, KeyAt(P, s, p));
        SlotsApart(p - base, str, w);
        LinkLater(P, s, base, ins, prev[Slot(p - base, w)], p, KeyAt(P, s, p), q);
      }
    }
  }

  lemma SlotInside(i: nat, w: nat)
    requires i < 2 * w
    ensures Slot(i, w) < w
  {}

  /** What a link says of the position it leads to. */
  lemma LinkMeans(P: HashParams, s: seq<bv8>, base: nat, ins: set<nat>, i: nat, before: nat, key: nat)
    requires P.Valid() && i != NIL && Link(P, s, base, ins, i, before, key)
    ensures base + i < before && base + i + 3 <= |s| && KeyAt(P, s, base + i) == key
  {}

  lemma LinkNew(P: HashParams, s: seq<bv8>, base: nat, ins: set<nat>, str: nat)
    requires P.Valid() && base + str + 3 <= |s|
    ensures Link(P, s, base, ins + {base + str}, str, base + str + 1, KeyAt(P, s, base + str))
  {}

  lemma SlotsApart(i: nat, j: nat, w: nat)
    requires i < j < i + w && j < 2 * w
    ensures Slot(i, w) != Slot(j, w) && Slot(i, w) < w && Slot(j, w) < w
  {}

  /** A link holds for any later position and after one more insertion. */
  lemma LinkLater(P: HashParams, s: seq<bv8>, base: nat, ins: set<nat>, i: nat, before: nat, key: nat, q: nat)
    requires P.Valid() && Link(P, s, base, ins, i, before, key)
    ensures Link(P, s, base, ins + {q}, i, before, key)
    ensures before <= q ==> Link(P, s, base, ins, i, q, key) && Link(P, s, base, ins + {q}, i, q, key)
    ensures before <= q ==> Link(P, s, base, ins + {q}, i, q + 1, key)
  {}

  /** fill_window's slide: every entry moves down by w, or becomes NIL. */
  function SlideEntry(m: nat, w: nat): nat
  {
    if m >= w then m - w else NIL
  }

  lemma SlideKeeps(P: HashParams, w: nat, head: seq<nat>, prev: seq<nat>,
                   newHead: seq<nat>, newPrev: seq<nat>,
                   s: seq<bv8>, base: nat, ins: set<nat>, top: nat)
    requires ChainsOk(P, w, head, prev, s, base, ins, top)
    requires |newHead| == |head| && forall key | 0 <= key < |head| :: newHead[key] == SlideEntry(head[key], w)
    requires |newPrev| == |prev| && forall i | 0 <= i < w :: newPrev[i] == SlideEntry(prev[i], w)
    ensures ChainsOk(P, w, newHead, newPrev, s, base + w, ins, top)
  {
    forall key | 0 <= key < |newHead| ensures Link(P, s, base + w, ins, newHead[key], top, key) {
      assert Link(P, s, base, ins, head[key], top, key);
    }
    forall p | p in ins && base + w <= p && top <= p + w
      ensures Link(P, s, base + w, ins, newPrev[Slot(p - base - w, w)], p, KeyAt(P, s, p))
    {
      assert Slot(p - base, w) == Slot(p - base - w, w);
      assert Link(P, s, base, ins, prev[Slot(p - base, w)], p, KeyAt(P, s, p));
    }
  }

  /** Reading more input changes no key. */
  lemma GrowKeeps(P: HashParams, w: nat, head: seq<nat>, prev: seq<nat>,
                  s: seq<bv8>, base: nat, ins: set<nat>, top: nat, more: seq<bv8>)
    requires ChainsOk(P, w, head, prev, s, base, ins, top)
    ensures ChainsOk(P, w, head, prev, s + more, base, ins, top)
  {
    forall key | 0 <= key < |head| ensures Link(P, s + more, base, ins, head[key], top, key) {
      assert Link(P, s, base, ins, head[key], top, key);
    }
    forall p | p in ins && base <= p && top <= p + w
      ensures Link(P, s + more, base, ins, prev[Slot(p - base, w)], p, KeyAt(P, s + more, p))
    {
      assert Link(P, s, base, ins, prev[Slot(p - base, w)], p, KeyAt(P, s, p));
    }
  }

  /** One step of the chain walk from a recorded position within reach. */
  lemma WalkStep(P: HashParams, w: nat, head: seq<nat>, prev: seq<nat>,
                 s: seq<bv8>, base: nat, ins: set<nat>, top: nat, cur: nat)
    requires ChainsOk(P, w, head, prev, s, base, ins, top)
    requires base + cur in ins && top <= base + cur + w
    ensures cur < 2 * w && base + cur + 3 <= |s|
    ensures Link(P, s, base, ins, prev[Slot(cur, w)], base + cur, KeyAt(P, s, base + cur))
  {}
}
