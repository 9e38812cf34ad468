/** The store log of home-based lazy release consistency, and its wire format: a total size, then
    for every entry its size, its data and its 32-bit address. */
module StoreLogs {
  const PAGE_SIZE := 4096

  type byte = x: int | 0 <= x < 256

  /** One instrumented store of 1 to 8 bytes inside one page. */
  datatype StoreLog = StoreLog(addr: nat, data: seq<byte>) {
    predicate Ok()
    {
      addr < 0x1_0000_0000 && 1 <= |data| <= 8 && addr % PAGE_SIZE + |data| <= PAGE_SIZE
    }

    function Page(): nat { addr / PAGE_SIZE }

    function Offset(): nat { addr % PAGE_SIZE }

    /** The page contents after the store. */
    function Write(content: seq<byte>): (r: seq<byte>)
      requires Offset() + |data| <= |content|
      ensures |r| == |content|
    {
      content[..Offset()] + data + content[Offset() + |data|..]
    }
  }

  predicate LogOk(log: seq<StoreLog>)
  {
    forall i | 0 <= i < |log| :: log[i].Ok()
  }

  /** A page overlaid with the entries of a log that belong to it, in order. */
  function Overlay(content: seq<byte>, log: seq<StoreLog>, page: nat): (r: seq<byte>)
    requires LogOk(log) && |content| == PAGE_SIZE
    ensures |r| == PAGE_SIZE
  {
    if log == [] then content
    else
      var below := Overlay(content, log[..|log| - 1], page);
      var e := log[|log| - 1];
      if e.Page() == page then e.Write(below) else below
  }

  predicate Touches(log: seq<StoreLog>, page: nat)
  {
    exists i :: 0 <= i < |log| && log[i].Page() == page
  }

  lemma OverlayAppend(content: seq<byte>, log: seq<StoreLog>, e: StoreLog, page: nat)
    requires LogOk(log + [e]) && |content| == PAGE_SIZE
    ensures LogOk(log) && e.Ok()
    ensures Overlay(content, log + [e], page) ==
            if e.Page() == page then e.Write(Overlay(content, log, page)) else Overlay(content, log, page)
  {
    assert (log + [e])[..|log|] == log && (log + [e])[|log|] == e;
    assert forall i | 0 <= i < |log| :: log[i] == (log + [e])[i];
  }

  /** A log that does not touch a page leaves it alone. */
  lemma {:induction false} OverlayUntouched(content: seq<byte>, log: seq<StoreLog>, page: nat)
    requires LogOk(log) && |content| == PAGE_SIZE && !Touches(log, page)
    ensures Overlay(content, log, page) == content
  {
    if log != [] {
      var n := |log| - 1;
      assert !Touches(log[..n], page) by {
        assert forall i | 0 <= i < n :: log[..n][i] == log[i];
      }
      OverlayUntouched(content, log[..n], page);
    }
  }

  // ----- the wire format

  /** The base-256 digit of n at the given place. */
  function Digit(n: nat, place: nat): byte
    requires place > 0
  {
    var d: int := n / place;
    d % 256
  }

  function Encode32(n: nat): (b: seq<byte>)
    requires n < 0x1_0000_0000
    ensures |b| == 4
  {
    [Digit(n, 1), Digit(n, 0x100), Digit(n, 0x1_0000), Digit(n, 0x100_0000)]
  }

  function Decode32(b: seq<byte>): nat
    requires |b| == 4
  {
    (b[0] as int) + 0x100 * (b[1] as int) + 0x1_0000 * (b[2] as int) + 0x100_0000 * (b[3] as int)
  }

  lemma Decode32Encode32(n: nat)
    requires n < 0x1_0000_0000
    ensures Decode32(Encode32(n)) == n
  {
    var b, c, d := n / 0x100, n / 0x1_0000, n / 0x100_0000;
    assert n == 0x100 * b + n % 0x100;
    assert b == 0x100 * c + b % 0x100;
    assert c == 0x100 * d + c % 0x100;
    assert d % 0x100 == d;
  }

  /** A word on the wire: its bytes, lowest first. */
  lemma LowestFirst(n: nat)
    requires n < 0x1_0000_0000
    ensures var b := Encode32(n);
      n == (b[0] as int) + 256 * (b[1] as int) + 65536 * (b[2] as int) + 16777216 * (b[3] as int)
  {
    Decode32Encode32(n);
  }

  /** An entry on the wire: how many bytes, the bytes, and where they go. */
  lemma EntryLayout(e: StoreLog)
    requires e.Ok()
    ensures var b, n := EncodeEntry(e), |e.data|;
      |b| == n + 8 && b[..4] == Encode32(n) && b[4..4 + n] == e.data && b[4 + n..] == Encode32(e.addr)
  {
    hide Encode32;
  }

  function EncodeEntry(e: StoreLog): (b: seq<byte>)
    requires e.Ok()
    ensures |b| == 8 + |e.data|
  {
    Encode32(|e.data|) + e.data + Encode32(e.addr)
  }

  function Serialize(log: seq<StoreLog>): seq<byte>
    requires LogOk(log)
  {
    if log == [] then [] else Serialize(log[..|log| - 1]) + EncodeEntry(log[|log| - 1])
  }

  /** A sync request: the size of the serialised log, then the log. */
  function Message(log: seq<StoreLog>): seq<byte>
    requires LogOk(log) && |Serialize(log)| < 0x8000_0000
  {
    Encode32(|Serialize(log)|) + Serialize(log)
  }

  /** Reading entries until the bytes are used up; anything malformed ends the list. */
  function ParseEntries(b: seq<byte>): seq<StoreLog>
    decreases |b|
  {
    if |b| < 8 then []
    else
      var size := Decode32(b[..4]);
      if |b| < 8 + size then []
      else [StoreLog(Decode32(b[4 + size..8 + size]), b[4..4 + size])] + ParseEntries(b[8 + size..])
  }

  function ParseMessage(msg: seq<byte>): seq<StoreLog>
  {
    if |msg| < 4 then []
    else
      var size := Decode32(msg[..4]);
      if |msg| < 4 + size then [] else ParseEntries(msg[4..4 + size])
  }

  lemma {:induction false} SerializeFront(log: seq<StoreLog>)
    requires LogOk(log) && log != []
    ensures Serialize(log) == EncodeEntry(log[0]) + Serialize(log[1..])
  {
    hide EncodeEntry;
    var n := |log| - 1;
    if n == 0 {
      assert log[..0] == [] && log[1..] == [] && Serialize([]) == [];
    } else {
      SerializeFront(log[..n]);
      SerializeTail(log);
    }
  }

  lemma SerializeTail(log: seq<StoreLog>)
    requires LogOk(log) && |log| >= 2
    ensures LogOk(log[1..]) && LogOk(log[..|log| - 1][1..])
    ensures Serialize(log[1..]) == Serialize(log[..|log| - 1][1..]) + EncodeEntry(log[|log| - 1])
  {
    hide EncodeEntry;
    var t, n := log[1..], |log| - 1;
    assert t[..|t| - 1] == log[..n][1..] && t[|t| - 1] == log[n];
  }

  lemma ParseOne(e: StoreLog, rest: seq<byte>)
    requires e.Ok()
    ensures ParseEntries(EncodeEntry(e) + rest) == [e] + ParseEntries(rest)
  {
    hide Encode32, Decode32;
    var b, n := EncodeEntry(e) + rest, |e.data|;
    Decode32Encode32(n);
    Decode32Encode32(e.addr);
    assert b[..4] == Encode32(n);
    assert b[4..4 + n] == e.data;
    assert b[4 + n..8 + n] == Encode32(e.addr);
    assert b[8 + n..] == rest;
  }

  /** Parsing a serialised log gives the same entries in order. */
  lemma {:induction false} ParseSerialize(log: seq<StoreLog>)
    requires LogOk(log)
    ensures ParseEntries(Serialize(log)) == log
    decreases |log|
  {
    hide EncodeEntry;
    if log != [] {
      SerializeFront(log);
      ParseOne(log[0], Serialize(log[1..]));
      ParseSerialize(log[1..]);
    }
  }

  lemma ParseMessageOf(log: seq<StoreLog>)
    requires LogOk(log) && |Serialize(log)| < 0x8000_0000
    ensures ParseMessage(Message(log)) == log
  {
    hide Encode32, Decode32, Serialize;
    var b := Serialize(log);
    ParseSerialize(log);
    Decode32Encode32(|b|);
    assert Message(log)[..4] == Encode32(|b|) && Message(log)[4..4 + |b|] == b;
  }
}
