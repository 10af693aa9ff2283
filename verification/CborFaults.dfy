/** What the validator's failures mean. */
module CborFaults {
  import opened MachineInts
  import opened CborItems
  import opened CborScan
  import opened CborNumbers
  import opened Arith

  // An unexpected end of input: more bytes would change the outcome.

  /** From `p` on all bytes are 0xff, and there are very many of them. */
  ghost predicate Padded(data: seq<byte>, p: nat) {
    |data| >= 2 * p + MAX_INT + 20 && forall i {:trigger data[i]} :: p <= i < |data| ==> data[i] == BREAK
  }

  /** How far an item that starts at `off` can reach into the padding. */
  function Reach(off: nat, p: nat): nat {
    if off < p then 2 * p + MAX_INT + 9 - off else off
  }

  /** Not an unexpected end, and an end within reach. */
  ghost predicate Settled(r: Outcome, reach: nat) {
    match r
    case Done(o, _) => o <= reach
    case Fail(e) => e != UnexpectedEof
  }

  lemma PaddedHead(data: seq<byte>, p: nat, off: nat)
    requires Padded(data, p) && off < |data|
    ensures off >= p ==> ScanHead(data, off) == BadHead(Syntax)
    ensures off < p ==> ScanHead(data, off) != BadHead(UnexpectedEof)
  {
  }

  lemma {:induction false} PaddedScan(data: seq<byte>, p: nat, off: nat, depth: nat, lim: Limits)
    requires Padded(data, p) && off < |data|
    ensures Settled(Scan(data, off, depth, lim), Reach(off, p)) && (off >= p ==> Scan(data, off, depth, lim) == Fail(Syntax))
    decreases |data| - off, 1, 0
  {
    hide ScanHead, Padded;
    PaddedHead(data, p, off);
    var r := ScanHead(data, off);
    if r.GoodHead? {
      var h, o := r.h, off + HeadSize(r.h.ai);
      PaddedLength(data, p);
      if h.major == 2 || h.major == 3 {
        if h.ai == 31 && lim.indefinite { PaddedChunks(data, p, o, depth, h.major, lim); }
      } else if h.major == 4 || h.major == 5 {
        PaddedCollection(data, p, o, depth + 1, h, lim);
      } else if h.major == 6 && lim.tags {
        PaddedTags(data, p, o, depth, lim);
      }
    }
  }

  lemma PaddedLength(data: seq<byte>, p: nat)
    requires Padded(data, p)
    ensures |data| >= 2 * p + MAX_INT + 20 && forall i {:trigger data[i]} :: p <= i < |data| ==> data[i] == BREAK
  {
  }

  lemma {:induction false} PaddedCollection(data: seq<byte>, p: nat, off: nat, depth: nat, h: Head, lim: Limits)
    requires Padded(data, p) && off < p + 9
    ensures Settled(ScanCollection(data, off, depth, h, lim), Reach(off, p) + 1)
    decreases |data| - off, 2, 0
  {
    hide Padded;
    PaddedLength(data, p);
    if depth <= lim.maxNestedLevels {
      if h.ai == 31 {
        if lim.indefinite { PaddedUntilBreak(data, p, off, depth, depth, h.major, 0, lim); }
      } else if h.val <= MAX_INT && !(h.major == 4 && h.val > lim.maxArrayElements) && !(h.major == 5 && h.val > lim.maxMapPairs) {
        PaddedItems(data, p, off, depth, depth, if h.major == 5 then 2 * h.val else h.val, lim);
      }
    }
  }

  lemma {:induction false} PaddedChunks(data: seq<byte>, p: nat, off: nat, depth: nat, major: nat, lim: Limits)
    requires Padded(data, p) && off <= 2 * p + MAX_INT + 10
    ensures Settled(ScanChunks(data, off, depth, major, lim), Reach(off, p) + 1)
    decreases |data| - off, 1, 1
  {
    hide Scan, Padded;
    PaddedLength(data, p);
    if data[off] != BREAK && data[off] / 32 == major && data[off] % 32 != 31 {
      PaddedScan(data, p, off, depth, lim);
      var r := Scan(data, off, depth, lim);
      if r.Done? { PaddedChunks(data, p, r.off, r.depth, major, lim); }
    }
  }

  lemma {:induction false} PaddedItems(data: seq<byte>, p: nat, off: nat, depth: nat, deepest: nat, n: nat, lim: Limits)
    requires Padded(data, p) && off <= 2 * p + MAX_INT + 10
    ensures Settled(ScanItems(data, off, depth, deepest, n, lim), Reach(off, p))
    decreases |data| - off, 1, 1
  {
    hide Scan, Padded;
    PaddedLength(data, p);
    if n > 0 {
      PaddedScan(data, p, off, depth, lim);
      var r := Scan(data, off, depth, lim);
      if r.Done? { PaddedItems(data, p, r.off, depth, Max(deepest, r.depth), n - 1, lim); }
    }
  }

  lemma {:induction false} PaddedUntilBreak(
    data: seq<byte>, p: nat, off: nat, depth: nat, deepest: nat, major: nat, i: nat, lim: Limits)
    requires Padded(data, p) && off <= 2 * p + MAX_INT + 10
    ensures Settled(ScanUntilBreak(data, off, depth, deepest, major, i, lim), Reach(off, p) + 1)
    decreases |data| - off, 1, 1
  {
    hide Scan, Padded;
    PaddedLength(data, p);
    if data[off] != BREAK {
      PaddedScan(data, p, off, depth, lim);
      var r := Scan(data, off, depth, lim);
      if r.Done?
        && !(major == 4 && i + 1 > lim.maxArrayElements)
        && !(major == 5 && (i + 1) % 2 == 0 && (i + 1) / 2 > lim.maxMapPairs)
      {
        PaddedUntilBreak(data, p, r.off, depth, Max(deepest, r.depth), major, i + 1, lim);
      }
    }
  }

  lemma {:induction false} PaddedTags(data: seq<byte>, p: nat, off: nat, depth: nat, lim: Limits)
    requires Padded(data, p) && off <= p + 9
    ensures Settled(ScanTags(data, off, depth, lim), Reach(off, p))
    decreases |data| - off, 1, 1
  {
    hide Scan, ScanHead, Padded;
    PaddedLength(data, p);
    if data[off] / 32 != 6 {
      PaddedScan(data, p, off, depth, lim);
    } else {
      PaddedHead(data, p, off);
      var r := ScanHead(data, off);
      if r.GoodHead? && depth < lim.maxNestedLevels { PaddedTags(data, p, off + HeadSize(r.h.ai), depth + 1, lim); }
    }
  }

  /** An unexpected end of input is reported exactly if some continuation of the data has another outcome. */
  lemma EndMeansMore(data: seq<byte>, off: nat, depth: nat, lim: Limits)
    requires off <= |data|
    ensures Scan(data, off, depth, lim) == Fail(UnexpectedEof) <==>
      exists more :: Scan(data + more, off, depth, lim) != Scan(data, off, depth, lim)
  {
    hide Scan;
    if Scan(data, off, depth, lim) == Fail(UnexpectedEof) {
      var more: seq<byte> := seq(|data| + MAX_INT + 20, _ => BREAK);
      PaddedScan(data + more, |data|, off, depth, lim);
      assert Scan(data + more, off, depth, lim) != Scan(data, off, depth, lim);
    } else {
      forall more ensures Scan(data + more, off, depth, lim) == Scan(data, off, depth, lim) {
        ScanLonger(data, more, off, depth, lim);
      }
    }
  }

  // Limits: wider ones change an outcome only if it was the fault of a limit.

  ghost predicate Wider(wide: Limits, lim: Limits) {
    && lim.maxNestedLevels <= wide.maxNestedLevels && lim.maxArrayElements <= wide.maxArrayElements && lim.maxMapPairs <= wide.maxMapPairs
    && (lim.indefinite ==> wide.indefinite) && (lim.tags ==> wide.tags)
  }

  predicate IsLimitFault(r: Outcome) {
    r.Fail? && (r.fault == TooDeep || r.fault == TooManyElements || r.fault == TooManyPairs || r.fault == TagsForbidden || r.fault.IndefiniteForbidden?)
  }

  ghost predicate Refused(r: Outcome, wide: Outcome) {
    r == wide || IsLimitFault(r)
  }

  lemma {:induction false} WiderScan(data: seq<byte>, off: nat, depth: nat, lim: Limits, wide: Limits)
    requires off <= |data| && Wider(wide, lim)
    ensures Refused(Scan(data, off, depth, lim), Scan(data, off, depth, wide))
    decreases |data| - off, 1, 0
  {
    hide ScanHead;
    var r := ScanHead(data, off);
    if r.GoodHead? {
      var h, o := r.h, off + HeadSize(r.h.ai);
      if h.major == 2 || h.major == 3 {
        if h.ai == 31 && lim.indefinite { WiderChunks(data, o, depth, h.major, lim, wide); }
      } else if h.major == 4 || h.major == 5 {
        WiderCollection(data, o, depth + 1, h, lim, wide);
      } else if h.major == 6 && lim.tags {
        WiderTags(data, o, depth, lim, wide);
      }
    }
  }

  lemma {:induction false} WiderCollection(data: seq<byte>, off: nat, depth: nat, h: Head, lim: Limits, wide: Limits)
    requires off <= |data| && Wider(wide, lim)
    ensures Refused(ScanCollection(data, off, depth, h, lim), ScanCollection(data, off, depth, h, wide))
    decreases |data| - off, 2, 0
  {
    if depth <= lim.maxNestedLevels {
      if h.ai == 31 {
        if lim.indefinite { WiderUntilBreak(data, off, depth, depth, h.major, 0, lim, wide); }
      } else if h.val <= MAX_INT && !(h.major == 4 && h.val > lim.maxArrayElements) && !(h.major == 5 && h.val > lim.maxMapPairs) {
        WiderItems(data, off, depth, depth, if h.major == 5 then 2 * h.val else h.val, lim, wide);
      }
    }
  }

  lemma {:induction false} WiderChunks(data: seq<byte>, off: nat, depth: nat, major: nat, lim: Limits, wide: Limits)
    requires off <= |data| && Wider(wide, lim)
    ensures Refused(ScanChunks(data, off, depth, major, lim), ScanChunks(data, off, depth, major, wide))
    decreases |data| - off, 1, 1
  {
    hide Scan;
    if off < |data| && data[off] != BREAK && data[off] / 32 == major && data[off] % 32 != 31 {
      WiderScan(data, off, depth, lim, wide);
      var r := Scan(data, off, depth, lim);
      if r.Done? { WiderChunks(data, r.off, r.depth, major, lim, wide); }
    }
  }

  lemma {:induction false} WiderItems(data: seq<byte>, off: nat, depth: nat, deepest: nat, n: nat, lim: Limits, wide: Limits)
    requires off <= |data| && Wider(wide, lim)
    ensures Refused(ScanItems(data, off, depth, deepest, n, lim), ScanItems(data, off, depth, deepest, n, wide))
    decreases |data| - off, 1, 1
  {
    hide Scan;
    if n > 0 {
      WiderScan(data, off, depth, lim, wide);
      var r := Scan(data, off, depth, lim);
      if r.Done? { WiderItems(data, r.off, depth, Max(deepest, r.depth), n - 1, lim, wide); }
    }
  }

  lemma {:induction false} WiderUntilBreak(
    data: seq<byte>, off: nat, depth: nat, deepest: nat, major: nat, i: nat, lim: Limits, wide: Limits)
    requires off <= |data| && Wider(wide, lim)
    ensures Refused(ScanUntilBreak(data, off, depth, deepest, major, i, lim), ScanUntilBreak(data, off, depth, deepest, major, i, wide))
    decreases |data| - off, 1, 1
  {
    hide Scan;
    if off < |data| && data[off] != BREAK {
      WiderScan(data, off, depth, lim, wide);
      var r := Scan(data, off, depth, lim);
      if r.Done?
        && !(major == 4 && i + 1 > lim.maxArrayElements)
        && !(major == 5 && (i + 1) % 2 == 0 && (i + 1) / 2 > lim.maxMapPairs)
      {
        WiderUntilBreak(data, r.off, depth, Max(deepest, r.depth), major, i + 1, lim, wide);
      }
    }
  }

  lemma {:induction false} WiderTags(data: seq<byte>, off: nat, depth: nat, lim: Limits, wide: Limits)
    requires off <= |data| && Wider(wide, lim)
    ensures Refused(ScanTags(data, off, depth, lim), ScanTags(data, off, depth, wide))
    decreases |data| - off, 1, 1
  {
    hide Scan, ScanHead;
    if off < |data| {
      if data[off] / 32 != 6 {
        WiderScan(data, off, depth, lim, wide);
      } else {
        var r := ScanHead(data, off);
        if r.GoodHead? && depth < lim.maxNestedLevels { WiderTags(data, off + HeadSize(r.h.ai), depth + 1, lim, wide); }
      }
    }
  }

  /** A syntax error, or a length beyond an int, is final: no mode accepts any continuation of the data. */
  lemma SyntaxIsFinal(data: seq<byte>, more: seq<byte>, off: nat, depth: nat, lim: Limits, other: Limits)
    requires off <= |data| && (Scan(data, off, depth, lim) == Fail(Syntax) || Scan(data, off, depth, lim) == Fail(TooLong))
    ensures !Scan(data + more, off, depth, other).Done?
  {
    hide Scan;
    var wide := Limits(Max(lim.maxNestedLevels, other.maxNestedLevels), Max(lim.maxArrayElements, other.maxArrayElements),
                       Max(lim.maxMapPairs, other.maxMapPairs), true, true);
    ScanLonger(data, more, off, depth, lim);
    WiderScan(data + more, off, depth, lim, wide);
    WiderScan(data + more, off, depth, other, wide);
  }

  // And each limit has its own fault.

  ghost predicate Caused(r: Outcome, room: int, depth: nat, lim: Limits) {
    match r
    case Done(_, _) => true
    case Fail(e) =>
      && e != Eof
      && (e == TagsForbidden ==> !lim.tags)
      && (e.IndefiniteForbidden? ==> !lim.indefinite && 2 <= e.major <= 5)
      && (e == TooDeep ==> lim.maxNestedLevels < depth + room)
      && (e == TooManyElements ==> lim.maxArrayElements < MAX_INT)
      && (e == TooManyPairs ==> lim.maxMapPairs < MAX_INT)
      && (e == TooLong ==> room >= 9)
  }

  /** A head that announces more than an int can hold takes nine bytes. */
  lemma LongHead(data: seq<byte>, off: nat)
    requires off <= |data| && ScanHead(data, off).GoodHead?
    ensures ScanHead(data, off).h.val > MAX_INT ==> HeadSize(ScanHead(data, off).h.ai) == 9
    ensures off < |data| && off + HeadSize(ScanHead(data, off).h.ai) <= |data|
  {
    var h := ScanHead(data, off).h;
    var n := HeadSize(h.ai);
    if 1 < n < 9 {
      BigEndianBound(data[off + 1..off + n]);
      TwoValues();
    }
  }

  lemma {:induction false} ScanCaused(data: seq<byte>, off: nat, depth: nat, lim: Limits)
    requires off <= |data| <= MAX_INT
    ensures Caused(Scan(data, off, depth, lim), |data| - off, depth, lim)
    decreases |data| - off, 1, 0
  {
    var r := ScanHead(data, off);
    if r.GoodHead? {
      LongHead(data, off);
      hide ScanHead;
      var h, o := r.h, off + HeadSize(r.h.ai);
      if h.major == 2 || h.major == 3 {
        if h.ai == 31 && lim.indefinite { ChunksCaused(data, o, depth, h.major, lim); }
      } else if h.major == 4 || h.major == 5 {
        CollectionCaused(data, o, depth + 1, h, lim);
      } else if h.major == 6 && lim.tags {
        TagsCaused(data, o, depth, lim);
      }
    }
  }

  lemma {:induction false} CollectionCaused(data: seq<byte>, off: nat, depth: nat, h: Head, lim: Limits)
    requires HeadSize(h.ai) <= off <= |data| <= MAX_INT && depth > 0 && (h.major == 4 || h.major == 5) && (h.val > MAX_INT ==> HeadSize(h.ai) == 9)
    ensures Caused(ScanCollection(data, off, depth, h, lim), |data| - off + HeadSize(h.ai), depth - 1, lim)
    decreases |data| - off, 2, 0
  {
    if depth <= lim.maxNestedLevels {
      if h.ai == 31 {
        if lim.indefinite { UntilBreakCaused(data, off, depth, depth, h.major, 0, lim); }
      } else if h.val <= MAX_INT && !(h.major == 4 && h.val > lim.maxArrayElements) && !(h.major == 5 && h.val > lim.maxMapPairs) {
        ItemsCaused(data, off, depth, depth, if h.major == 5 then 2 * h.val else h.val, lim);
      }
    }
  }

  lemma {:induction false} ChunksCaused(data: seq<byte>, off: nat, depth: nat, major: nat, lim: Limits)
    requires off <= |data| <= MAX_INT && (major == 2 || major == 3)
    ensures Caused(ScanChunks(data, off, depth, major, lim), |data| - off, depth, lim)
    decreases |data| - off, 1, 1
  {
    if off < |data| && data[off] / 32 == major && data[off] % 32 != 31 { ChunkLevel(data, off, depth, lim); }
    hide Scan;
    if off < |data| && data[off] != BREAK && data[off] / 32 == major && data[off] % 32 != 31 {
      ScanCaused(data, off, depth, lim);
      var r := Scan(data, off, depth, lim);
      if r.Done? { ChunksCaused(data, r.off, r.depth, major, lim); }
    }
  }

  lemma ChunkLevel(data: seq<byte>, off: nat, depth: nat, lim: Limits)
    requires off < |data| && 2 <= data[off] / 32 <= 3 && data[off] % 32 != 31
    ensures Scan(data, off, depth, lim).Done? ==> Scan(data, off, depth, lim).depth == depth
  {
  }

  lemma {:induction false} ItemsCaused(data: seq<byte>, off: nat, depth: nat, deepest: nat, n: nat, lim: Limits)
    requires off <= |data| <= MAX_INT
    ensures Caused(ScanItems(data, off, depth, deepest, n, lim), |data| - off, depth, lim)
    decreases |data| - off, 1, 1
  {
    hide Scan;
    if n > 0 {
      ScanCaused(data, off, depth, lim);
      var r := Scan(data, off, depth, lim);
      if r.Done? { ItemsCaused(data, r.off, depth, Max(deepest, r.depth), n - 1, lim); }
    }
  }

  lemma {:induction false} UntilBreakCaused(data: seq<byte>, off: nat, depth: nat, deepest: nat, major: nat, i: nat, lim: Limits)
    requires i <= off <= |data| <= MAX_INT
    ensures Caused(ScanUntilBreak(data, off, depth, deepest, major, i, lim), |data| - off, depth, lim)
    decreases |data| - off, 1, 1
  {
    hide Scan;
    if off < |data| && data[off] != BREAK {
      ScanCaused(data, off, depth, lim);
      var r := Scan(data, off, depth, lim);
      if r.Done?
        && !(major == 4 && i + 1 > lim.maxArrayElements)
        && !(major == 5 && (i + 1) % 2 == 0 && (i + 1) / 2 > lim.maxMapPairs)
      {
        UntilBreakCaused(data, r.off, depth, Max(deepest, r.depth), major, i + 1, lim);
      }
    }
  }

  lemma {:induction false} TagsCaused(data: seq<byte>, off: nat, depth: nat, lim: Limits)
    requires off <= |data| <= MAX_INT
    ensures Caused(ScanTags(data, off, depth, lim), |data| - off, depth, lim)
    decreases |data| - off, 1, 1
  {
    hide Scan;
    if off < |data| {
      if data[off] / 32 != 6 {
        ScanCaused(data, off, depth, lim);
      } else {
        var r := ScanHead(data, off);
        if r.GoodHead? && depth < lim.maxNestedLevels { TagsCaused(data, off + HeadSize(r.h.ai), depth + 1, lim); }
      }
    }
  }

  /** The initial bytes that no item starts with: reserved values, the break code, and simple values below 32 in two bytes (section 3 of RFC 8949). */
  lemma InitialBytes(data: seq<byte>, off: nat)
    requires off + 9 <= |data|
    ensures var b := data[off];
      ScanHead(data, off) == BadHead(Syntax) <==>
        0x1c <= b <= 0x1f || 0x3c <= b <= 0x3f || 0x5c <= b <= 0x5e || 0x7c <= b <= 0x7e || 0x9c <= b <= 0x9e || 0xbc <= b <= 0xbe
        || 0xdc <= b <= 0xdf || 0xfc <= b <= 0xff || (b == 0xf8 && data[off + 1] < 0x20)
    ensures ScanHead(data, off) != BadHead(Syntax) ==>
      ScanHead(data, off).GoodHead? && ScanHead(data, off).h.major * 32 + ScanHead(data, off).h.ai == data[off]
  {
    if data[off] == 0xf8 { assert BigEndian(data[off + 1..off + 2]) == data[off + 1] by { OneByte(data[off + 1..off + 2]); } }
  }

  lemma OneByte(s: seq<byte>)
    requires |s| == 1
    ensures BigEndian(s) == s[0]
  {
    assert s[..0] == [];
  }
}
