/** Whole compressions: any sequence of calls, however the input and the output space are dealt out. */
module DeflateRuns {
  import opened Lz77
  import opened Deflate

  /** One call: input added to what the last call left, output space, and the flush request. */
  datatype Call = Call(more: seq<bv8>, space: nat, flush: nat)

  function Fed(calls: seq<Call>): seq<bv8>
  {
    if calls == [] then [] else Fed(calls[..|calls| - 1]) + calls[|calls| - 1].more
  }

  /** Inflating the blocks written gives a beginning of the input; all of it when it is complete. */
  ghost predicate Inflates(blocks: seq<Block>, fed: seq<bv8>, whole: bool)
  {
    forall stored | Allowed(blocks, stored) ::
      exists n: nat :: n <= |fed| && Inflate(blocks, stored) == Output(fed[..n]) && (whole ==> n == |fed|)
  }

  /** All input has been taken and closed in blocks: by the last block, or by a completed flush. */
  ghost predicate Closed(d: Deflater)
    reads d`finished, d`nextIn, d`lookahead, d`tallied, d`blockStart, d`strstart, d`matchAvailable
  {
    d.nextIn == [] && (d.finished || d.Flushed())
  }

  lemma StateInflates(d: Deflater, fed: seq<bv8>)
    requires d.Valid() && d.stream + d.nextIn == fed
    ensures Inflates(d.blocks, fed, Closed(d))
  {
    hide Deflater.Valid, Inflate;
    forall stored | Allowed(d.blocks, stored)
      ensures exists n: nat ::
        n <= |fed| && Inflate(d.blocks, stored) == Output(fed[..n]) && (Closed(d) ==> n == |fed|)
    {
      d.InflateAll(stored);
      var n: nat := if d.finished || d.Flushed() then |d.stream| else d.base + d.blockStart;
      assert d.stream[..n] == fed[..n];
      assert d.stream[..|d.stream|] == d.stream;
    }
  }

  /** A call has done what its flush argument asks for: the end was reported, or a flush returned
      with output space to spare. */
  predicate Completed(ret: Ret, flush: nat, spare: nat)
  {
    ret == StreamEnd || (ret == Ok && spare > 0 && flush != Z_NO_FLUSH)
  }

  /** Any sequence of calls to a new stream, with any level and strategy: no input is lost or
      reordered, what is written inflates to a beginning of it, and once a call reports the end or
      completes a flush, to exactly all of it. Every byte of the blocks is handed out or pending,
      and every length, distance and forced stored block can be written in the format. */
  method Compress(level: nat, windowBits: nat, memLevel: nat, strategy: nat, calls: seq<Call>)
    returns (d: Deflater, rets: seq<Ret>)
    requires level <= 9 && 8 <= windowBits <= 15 && 1 <= memLevel <= 9 && strategy <= Z_FIXED
    ensures d.Valid() && |rets| == |calls| && d.stream + d.nextIn == Fed(calls)
    ensures Inflates(d.blocks, Fed(calls), Closed(d))
    ensures rets != [] && Completed(rets[|rets| - 1], calls[|rets| - 1].flush, d.availOut) ==>
      Inflates(d.blocks, Fed(calls), true) && (rets[|rets| - 1] == StreamEnd ==> d.finished && d.pending == 0)
    ensures Bounded(d.blocks, 32768 - 262, 65535)
    ensures |d.sizes| == |d.blocks| && Total(d.sizes) == d.totalOut + d.pending
  {
    hide Deflater.Valid, Inflates, Pow2, Total, Bounded;
    d := new Deflater(level, windowBits, memLevel, strategy);
    rets := [];
    for i := 0 to |calls|
      invariant fresh(d) && fresh(d.window) && fresh(d.prev) && fresh(d.head)
      invariant d.Books().owed == d.Books().unsized == 0
      invariant d.Valid() && |rets| == i && d.stream + d.nextIn == Fed(calls[..i])
      invariant rets != [] && rets[i - 1] == StreamEnd ==> d.finished && d.pending == 0
      invariant rets != [] && Completed(rets[i - 1], calls[i - 1].flush, d.availOut) ==> Closed(d)
    {
      assert calls[..i + 1][..i] == calls[..i];
      ghost var was := d.stream + d.nextIn;
      var ret := d.Deflate(d.nextIn + calls[i].more, calls[i].space, calls[i].flush);
      assert d.stream + d.nextIn == was + calls[i].more;
      rets := rets + [ret];
    }
    assert calls[..|calls|] == calls;
    StateInflates(d, Fed(calls));
    d.BlocksFit();
    BoundedLooser(d.blocks, d.MaxDist(), d.MaxStored(), 32768 - 262, 65535);
  }
}
