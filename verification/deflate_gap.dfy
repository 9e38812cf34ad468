/** A run that reads a window byte never assigned. A slide with high_water short of the window's end
    copies such bytes into the lower half, and the zeroing, which looks at high_water alone, does not
    come back for them. */
module DeflateGap {
  import opened Lz77
  import opened Deflate

  const WINDOW := 512
  const FIRST := 762     // fills the window up to where it slides
  const SECOND := 258    // fills it again up to the gap

  function Zeros(n: nat): (s: seq<bv8>)
    ensures |s| == n && forall i | 0 <= i < n :: s[i] == 0
  {
    seq(n, _ => 0)
  }

  lemma SmallWindow()
    ensures Pow2(9) == WINDOW && Pow2(15) == 32768
  {
    assert Pow2(9) == 512;
  }

  /** The window has slid, the gap begins SECOND bytes past strstart, and no search has met a byte
      never assigned. */
  ghost predicate Slid(d: Deflater)
    reads d, d.window, d.prev, d.head
  {
    && d.Valid() && !d.finished && d.func == Fast && d.wSize == WINDOW
    && d.stream == Zeros(FIRST) && d.Held() == Extent(WINDOW, 250, 1020, 508) && d.strstart == 250
    && d.lookahead == 0 && d.insert == 2 && d.nextIn == [] && !d.met
  }

  /** deflate() with Z_SYNC_FLUSH of FIRST zero bytes at level 1 with the smallest window: when all of
      them are tallied the window slides, and the four bytes above high_water are copied down. */
  method SlideEarly(space: nat) returns (d: Deflater)
    requires space > 0
    ensures fresh(d) && fresh(d.window) && fresh(d.prev) && fresh(d.head) && Slid(d)
  {
    hide Deflater.Valid, Pow2, Deflater.Poised;
    SmallWindow();
    d := new Deflater(1, 9, 9, 0);
    var _ := d.Deflate(Zeros(FIRST), space, Z_SYNC_FLUSH);
    assert d.stream == d.stream + d.nextIn;
  }

  /** deflate() of SECOND more zero bytes, with space for what is pending and more: a search of this
      call compares a byte never assigned. */
  method GapIsRead(space: nat) returns (d: Deflater)
    requires space > 0
    ensures d.Valid() && d.stream + d.nextIn == Zeros(FIRST) + Zeros(SECOND) && d.met
  {
    hide Deflater.Valid;
    d := SlideEarly(space);
    var _ := d.Deflate(Zeros(SECOND), d.pending + space, Z_SYNC_FLUSH);
  }
}
