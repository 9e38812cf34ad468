/** The reference meaning of a compressed block: section 3.2.3 of RFC 1951.

    A block is a list of literals and (distance, length) pairs; decoding a pair copies bytes from
    the output produced so far, one by one, so that the copy may overlap what it writes. */
module Lz77 {
  const MIN_MATCH := 3
  const MAX_MATCH := 258

  datatype Token =
    | Literal(c: bv8)
    | Match(dist: nat, len: nat)

  datatype Decoded =
    | Output(bytes: seq<bv8>)
    | Malformed

  /** Copies len bytes from dist bytes back, each one visible to the next. */
  function Copy(out: seq<bv8>, dist: nat, len: nat): (r: seq<bv8>)
    requires 1 <= dist <= |out|
    ensures |r| == |out| + len
    decreases len
  {
    if len == 0 then out
    else Copy(out + [out[|out| - dist]], dist, len - 1)
  }

  function DecodeToken(out: seq<bv8>, t: Token): Decoded
  {
    match t
    case Literal(c) => Output(out + [c])
    case Match(dist, len) =>
      if 1 <= dist <= |out| && MIN_MATCH <= len <= MAX_MATCH then Output(Copy(out, dist, len))
      else Malformed
  }

  /** Decodes tokens that follow the output produced so far. */
  function Decode(out: seq<bv8>, ts: seq<Token>): Decoded
  {
    if ts == [] then Output(out)
    else match Decode(out, ts[..|ts| - 1])
      case Malformed => Malformed
      case Output(sofar) => DecodeToken(sofar, ts[|ts| - 1])
  }

  /** Every distance of ts stays within the given limit. */
  predicate DistancesWithin(ts: seq<Token>, limit: nat)
  {
    forall i | 0 <= i < |ts| :: ts[i].Match? ==> 1 <= ts[i].dist <= limit
  }

  /** The len bytes of s at position p repeat those dist bytes earlier. */
  ghost predicate Repeats(s: seq<bv8>, p: nat, dist: nat, len: nat)
  {
    1 <= dist <= p && p + len <= |s| && forall k | p <= k < p + len :: s[k] == s[k - dist]
  }

  lemma DecodeAppend(out: seq<bv8>, ts: seq<Token>, t: Token)
    ensures Decode(out, ts + [t]) ==
            match Decode(out, ts) case Malformed => Malformed case Output(sofar) => DecodeToken(sofar, t)
  {
    assert (ts + [t])[..|ts|] == ts;
  }

  /** Copying from a prefix of s rebuilds the next len bytes of s exactly when they repeat. */
  lemma {:induction false} CopyRepeats(s: seq<bv8>, p: nat, dist: nat, len: nat)
    requires 1 <= dist <= p && p + len <= |s|
    ensures Copy(s[..p], dist, len) == s[..p + len] <==> Repeats(s, p, dist, len)
    decreases len
  {
    if len > 0 {
      var out := s[..p] + [s[p - dist]];
      CopyExtends(out, dist, len - 1);
      if s[p] == s[p - dist] {
        assert out == s[..p + 1];
        CopyRepeats(s, p + 1, dist, len - 1);
      } else {
        assert Copy(out, dist, len - 1)[p] != s[..p + len][p];
      }
    }
  }

  lemma {:induction false} CopyExtends(out: seq<bv8>, dist: nat, len: nat)
    requires 1 <= dist <= |out|
    ensures out <= Copy(out, dist, len)
    decreases len
  {
    if len > 0 {
      CopyExtends(out + [out[|out| - dist]], dist, len - 1);
    }
  }

  /** A literal extends a decoded prefix of s by its next byte. */
  lemma AppendLiteral(s: seq<bv8>, from: nat, ts: seq<Token>, p: nat)
    requires from <= p < |s| && Decode(s[..from], ts) == Output(s[..p])
    ensures Decode(s[..from], ts + [Literal(s[p])]) == Output(s[..p + 1])
  {
    hide Decode;
    DecodeAppend(s[..from], ts, Literal(s[p]));
    assert s[..p] + [s[p]] == s[..p + 1];
  }

  /** A pair whose bytes repeat extends a decoded prefix of s by its length. */
  lemma AppendMatch(s: seq<bv8>, from: nat, ts: seq<Token>, p: nat, dist: nat, len: nat)
    requires Repeats(s, p, dist, len) && MIN_MATCH <= len <= MAX_MATCH
    requires from <= p && Decode(s[..from], ts) == Output(s[..p])
    ensures Decode(s[..from], ts + [Match(dist, len)]) == Output(s[..p + len])
  {
    hide Decode, Copy;
    DecodeAppend(s[..from], ts, Match(dist, len));
    CopyRepeats(s, p, dist, len);
  }

  // ----- blocks

  datatype Option<T> = None | Some(value: T)

  /** What _tr_flush_block is handed: the tokens of the block, the raw bytes they stand for unless
      they have already left the window, whether only the stored form is allowed (level 0), and
      whether it is the last block. start is where the block begins in the input. */
  datatype Block = Block(start: nat, tokens: seq<Token>, raw: Option<seq<bv8>>, forced: bool, last: bool)

  /** No block is marked last. */
  predicate NoneLast(bs: seq<Block>)
  {
    forall i | 0 <= i < |bs| :: !bs[i].last
  }

  /** Exactly the final block is marked last. */
  predicate EndsLast(bs: seq<Block>)
  {
    bs != [] && bs[|bs| - 1].last && NoneLast(bs[..|bs| - 1])
  }

  /** Inflating blocks, each in the form chosen for it: stored (true) or coded (false). */
  function Inflate(bs: seq<Block>, stored: seq<bool>): Decoded
    requires |stored| == |bs|
  {
    if bs == [] then Output([])
    else
      var n := |bs| - 1;
      match Inflate(bs[..n], stored[..n])
      case Malformed => Malformed
      case Output(out) =>
        if !stored[n] then Decode(out, bs[n].tokens)
        else match bs[n].raw case None => Malformed case Some(raw) => Output(out + raw)
  }

  /** All tokens handed over, block by block. */
  function Tokens(bs: seq<Block>): seq<Token>
  {
    if bs == [] then [] else Tokens(bs[..|bs| - 1]) + bs[|bs| - 1].tokens
  }

  /** Closing a block changes nothing about the tokens output so far. */
  lemma TokensAppend(bs: seq<Block>, b: Block)
    ensures Tokens(bs + [b]) + [] == Tokens(bs) + b.tokens
  {
    assert (bs + [b])[..|bs|] == bs;
  }

  /** The forms _tr_flush_block may choose: stored needs the raw bytes, and is the only form at
      level 0. */
  predicate Allowed(bs: seq<Block>, stored: seq<bool>)
  {
    |stored| == |bs| &&
    forall i | 0 <= i < |bs| :: (stored[i] ==> bs[i].raw.Some?) && (bs[i].forced ==> stored[i])
  }

  /** The block b covers the bytes of s from b.start to end, in each of its forms. */
  ghost predicate BlockOk(b: Block, s: seq<bv8>, end: nat, maxDist: nat, maxStored: nat)
  {
    && b.start <= end <= |s|
    && (b.raw.Some? ==> b.raw.value == s[b.start..end])
    && (b.forced ==> b.raw.Some? && |b.raw.value| <= maxStored)
    && (!b.forced ==> Decode(s[..b.start], b.tokens) == Output(s[..end]) && DistancesWithin(b.tokens, maxDist))
  }

  /** The blocks cover s up to the position upto without gaps. */
  ghost predicate BlocksOk(bs: seq<Block>, s: seq<bv8>, upto: nat, maxDist: nat, maxStored: nat)
  {
    if bs == [] then upto == 0
    else
      var b := bs[|bs| - 1];
      BlockOk(b, s, upto, maxDist, maxStored) && BlocksOk(bs[..|bs| - 1], s, b.start, maxDist, maxStored)
  }

  lemma BlocksAppend(bs: seq<Block>, b: Block, s: seq<bv8>, upto: nat, maxDist: nat, maxStored: nat)
    requires BlocksOk(bs, s, b.start, maxDist, maxStored) && BlockOk(b, s, upto, maxDist, maxStored)
    ensures BlocksOk(bs + [b], s, upto, maxDist, maxStored)
  {
    assert (bs + [b])[..|bs|] == bs;
  }

  lemma {:induction false} BlocksGrow(bs: seq<Block>, s: seq<bv8>, upto: nat, maxDist: nat, maxStored: nat,
                                      more: seq<bv8>)
    requires BlocksOk(bs, s, upto, maxDist, maxStored)
    ensures BlocksOk(bs, s + more, upto, maxDist, maxStored)
  {
    if bs != [] {
      var b := bs[|bs| - 1];
      BlocksGrow(bs[..|bs| - 1], s, b.start, maxDist, maxStored, more);
      assert (s + more)[..b.start] == s[..b.start];
      assert (s + more)[..upto] == s[..upto];
      assert (s + more)[b.start..upto] == s[b.start..upto];
    }
  }

  /** Whichever form is chosen for every block, inflating gives back the input they cover. */
  lemma {:induction false} BlocksInflate(bs: seq<Block>, s: seq<bv8>, upto: nat, maxDist: nat, maxStored: nat,
                                         stored: seq<bool>)
    requires BlocksOk(bs, s, upto, maxDist, maxStored) && Allowed(bs, stored)
    ensures upto <= |s| && Inflate(bs, stored) == Output(s[..upto])
  {
    if bs != [] {
      var n := |bs| - 1;
      BlocksInflate(bs[..n], s, bs[n].start, maxDist, maxStored, stored[..n]);
      assert s[..bs[n].start] + s[bs[n].start..upto] == s[..upto];
    }
  }

  predicate LengthsWithin(ts: seq<Token>, least: nat, most: nat)
  {
    forall i | 0 <= i < |ts| :: ts[i].Match? ==> least <= ts[i].len <= most
  }

  /** What decodes has only lengths that section 3.2.5 of RFC 1951 has codes for. */
  lemma {:induction false} DecodedLengths(out: seq<bv8>, ts: seq<Token>)
    requires Decode(out, ts).Output?
    ensures LengthsWithin(ts, 3, 258)
  {
    if ts != [] {
      DecodedLengths(out, ts[..|ts| - 1]);
      assert forall i | 0 <= i < |ts| - 1 :: ts[i] == ts[..|ts| - 1][i];
    }
  }

  /** Lengths have codes; distances and forced stored blocks stay within the limits. */
  predicate Bounded(bs: seq<Block>, maxDist: nat, maxStored: nat)
  {
    forall i | 0 <= i < |bs| ::
      if bs[i].forced then bs[i].raw.Some? && |bs[i].raw.value| <= maxStored
      else DistancesWithin(bs[i].tokens, maxDist) && LengthsWithin(bs[i].tokens, 3, 258)
  }

  lemma BoundedLooser(bs: seq<Block>, maxDist: nat, maxStored: nat, moreDist: nat, moreStored: nat)
    requires Bounded(bs, maxDist, maxStored) && maxDist <= moreDist && maxStored <= moreStored
    ensures Bounded(bs, moreDist, moreStored)
  {
    hide LengthsWithin;
    forall i | 0 <= i < |bs| && !bs[i].forced ensures DistancesWithin(bs[i].tokens, moreDist) {
      assert DistancesWithin(bs[i].tokens, maxDist);
    }
  }

  lemma {:induction false} BlocksBounded(bs: seq<Block>, s: seq<bv8>, upto: nat, maxDist: nat, maxStored: nat)
    requires BlocksOk(bs, s, upto, maxDist, maxStored)
    ensures Bounded(bs, maxDist, maxStored)
  {
    hide DistancesWithin, LengthsWithin, Decode;
    if bs != [] {
      var b := bs[|bs| - 1];
      if !b.forced { DecodedLengths(s[..b.start], b.tokens); }
      var front := bs[..|bs| - 1];
      BlocksBounded(front, s, bs[|bs| - 1].start, maxDist, maxStored);
      assert forall i | 0 <= i < |front| :: front[i] == bs[i];
    }
  }

  // ----- the output of a compression run

  /** The blocks written so far cover s up to from, and the tokens tallied since decode to the
      bytes between from and pos; distances stay within maxDist. */
  ghost predicate OutOk(bs: seq<Block>, ts: seq<Token>, s: seq<bv8>, from: int, pos: int, maxDist: nat, maxStored: nat)
  {
    && 0 <= from <= pos <= |s| && BlocksOk(bs, s, from, maxDist, maxStored)
    && Decode(s[..from], ts) == Output(s[..pos]) && DistancesWithin(ts, maxDist)
  }

  lemma OutLiteral(bs: seq<Block>, ts: seq<Token>, s: seq<bv8>, from: int, pos: int, maxDist: nat, maxStored: nat)
    requires OutOk(bs, ts, s, from, pos, maxDist, maxStored) && pos < |s|
    ensures OutOk(bs, ts + [Literal(s[pos])], s, from, pos + 1, maxDist, maxStored)
  {
    AppendLiteral(s, from, ts, pos);
  }

  lemma OutMatch(bs: seq<Block>, ts: seq<Token>, s: seq<bv8>, from: int, pos: int, maxDist: nat, maxStored: nat,
                 dist: nat, len: nat)
    requires OutOk(bs, ts, s, from, pos, maxDist, maxStored) && Repeats(s, pos, dist, len)
    requires MIN_MATCH <= len <= MAX_MATCH && dist <= maxDist
    ensures OutOk(bs, ts + [Match(dist, len)], s, from, pos + len, maxDist, maxStored)
  {
    AppendMatch(s, from, ts, pos, dist, len);
  }

  lemma OutFlush(bs: seq<Block>, ts: seq<Token>, s: seq<bv8>, from: int, pos: int, maxDist: nat, maxStored: nat,
                 raw: Option<seq<bv8>>, last: bool)
    requires OutOk(bs, ts, s, from, pos, maxDist, maxStored)
    requires raw.Some? ==> raw.value == s[from..pos]
    ensures OutOk(bs + [Block(from, ts, raw, false, last)], [], s, pos, pos, maxDist, maxStored)
  {
    BlocksAppend(bs, Block(from, ts, raw, false, last), s, pos, maxDist, maxStored);
  }

  lemma OutStore(bs: seq<Block>, s: seq<bv8>, from: int, to: int, maxDist: nat, maxStored: nat, last: bool)
    requires OutOk(bs, [], s, from, from, maxDist, maxStored) && from <= to <= |s| && to - from <= maxStored
    ensures OutOk(bs + [Block(from, [], Some(s[from..to]), true, last)], [], s, to, to, maxDist, maxStored)
  {
    BlocksAppend(bs, Block(from, [], Some(s[from..to]), true, last), s, to, maxDist, maxStored);
  }

  /** Reading moves bytes from the input to the stream, changing nothing decoded so far. */
  lemma OutGrow(bs: seq<Block>, ts: seq<Token>, s: seq<bv8>, from: int, pos: int, maxDist: nat, maxStored: nat,
                rest: seq<bv8>, s': seq<bv8>, rest': seq<bv8>)
    requires OutOk(bs, ts, s, from, pos, maxDist, maxStored)
    requires s' + rest' == s + rest && |rest'| <= |rest|
    ensures OutOk(bs, ts, s', from, pos, maxDist, maxStored)
  {
    StreamGrows(s, rest, s', rest');
    var more := s'[|s|..];
    BlocksGrow(bs, s, from, maxDist, maxStored, more);
    assert s'[..from] == s[..from] && s'[..pos] == s[..pos];
  }

  lemma StreamGrows(s: seq<bv8>, rest: seq<bv8>, s': seq<bv8>, rest': seq<bv8>)
    requires s' + rest' == s + rest && |rest'| <= |rest|
    ensures |s| <= |s'| && s' == s + s'[|s|..]
  {
    assert |s' + rest'| == |s + rest|;
    forall i | 0 <= i < |s| ensures s'[i] == s[i] {
      assert (s' + rest')[i] == (s + rest)[i];
    }
  }

  lemma RepeatsGrow(s: seq<bv8>, p: nat, dist: nat, len: nat, rest: seq<bv8>, s': seq<bv8>, rest': seq<bv8>)
    requires Repeats(s, p, dist, len)
    requires s' + rest' == s + rest && |rest'| <= |rest|
    ensures Repeats(s', p, dist, len)
  {
    StreamGrows(s, rest, s', rest');
  }
}
