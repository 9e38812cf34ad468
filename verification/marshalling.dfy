/** Remote-call arguments: the sender's generated pushes, the argument lists of the runtime, and the
    receiver's generated loads at accumulated offsets. */
module Marshalling {
  type byte = x: int | 0 <= x < 256

  /** A parameter type, by its allocation size in bytes, or a pointer. */
  datatype Type = Scalar(size: nat) | Pointer

  /** An argument: the bytes of a scalar or an address. */
  datatype Value = Bytes(bytes: seq<byte>) | Address(addr: nat)

  type Signature = seq<Type>

  predicate Typed(t: Type, v: Value)
  {
    match t
    case Scalar(size) => v.Bytes? && |v.bytes| == size
    case Pointer => v.Address?
  }

  predicate WellTyped(sig: Signature, values: seq<Value>)
  {
    |sig| == |values| && forall i | 0 <= i < |sig| :: Typed(sig[i], values[i])
  }

  function Digit(n: nat, place: nat): byte
    requires place > 0
  {
    var d: int := n / place;
    d % 256
  }

  /** The low four bytes of an address. */
  function Word(addr: nat): (b: seq<byte>)
    ensures |b| == 4
  {
    [Digit(addr, 1), Digit(addr, 0x100), Digit(addr, 0x1_0000), Digit(addr, 0x100_0000)]
  }

  function FromWord(b: seq<byte>): nat
    requires |b| == 4
  {
    (b[0] as int) + 0x100 * (b[1] as int) + 0x1_0000 * (b[2] as int) + 0x100_0000 * (b[3] as int)
  }

  lemma WordRoundTrip(addr: nat)
    ensures FromWord(Word(addr)) == addr % 0x1_0000_0000
  {
    var a, b, c, d := addr / 0x1, addr / 0x100, addr / 0x1_0000, addr / 0x100_0000;
    assert a == 0x100 * b + a % 0x100;
    assert b == 0x100 * c + b % 0x100;
    assert c == 0x100 * d + c % 0x100;
    assert d == 0x100 * (addr / 0x1_0000_0000) + d % 0x100;
  }

  /** The four bytes sent for an address, lowest first, are worth its low 32 bits. */
  lemma LowestFirst(addr: nat)
    ensures var b := Word(addr);
      (b[0] as int) + 256 * (b[1] as int) + 65536 * (b[2] as int) + 16777216 * (b[3] as int) == addr % 0x1_0000_0000
  {
    WordRoundTrip(addr);
  }

  /** The size of a parameter in bits, as both code generators add it up. */
  function SizeInBits(t: Type): nat
  {
    match t
    case Scalar(size) => 8 * size
    case Pointer => 32
  }

  // ----- generated code

  /** The sender stores argument arg to a buffer of its own and pushes size bytes of it. */
  datatype Push = Push(rcId: nat, arg: nat, size: nat, isPointer: bool)

  /** The receiver loads the next argument at a byte offset. */
  datatype Load = Load(offset: nat, size: nat, isPointer: bool)

  function PushOf(sig: Signature, rcId: nat, i: nat): Push
    requires i < |sig|
  {
    Push(rcId, i, SizeInBits(sig[i]) / 8, sig[i].Pointer?)
  }

  /** The pushes for a call site, argument by argument. */
  method CreateProduceFArgs(sig: Signature, rcId: nat) returns (code: seq<Push>, sum: nat)
    ensures |code| == |sig| && forall i | 0 <= i < |sig| :: code[i] == PushOf(sig, rcId, i)
    ensures sum == Offset(sig, |sig|)
  {
    code, sum := [], 0;
    for i := 0 to |sig|
      invariant |code| == i && forall k | 0 <= k < i :: code[k] == PushOf(sig, rcId, k)
      invariant sum == 8 * Offset(sig, i)
    {
      match sig[i] {
        case Scalar(size) =>
          var sizeInBits := SizeInBits(sig[i]);
          sum := sum + sizeInBits;
          code := code + [Push(rcId, i, sizeInBits / 8, false)];
        case Pointer =>
          sum := sum + 32;
          code := code + [Push(rcId, i, 4, true)];
      }
    }
    sum := sum / 8;
  }

  /** Where argument i starts, in bytes: the sizes of the arguments before it. */
  function Offset(sig: Signature, i: nat): nat
    requires i <= |sig|
  {
    if i == 0 then 0 else Offset(sig, i - 1) + SizeInBits(sig[i - 1]) / 8
  }

  function LoadOf(sig: Signature, i: nat): Load
    requires i < |sig|
  {
    Load(Offset(sig, i), SizeInBits(sig[i]) / 8, sig[i].Pointer?)
  }

  /** The loads of the case for a function. */
  method CreateExecCase(sig: Signature) returns (loads: seq<Load>)
    ensures |loads| == |sig|
    ensures forall i | 0 <= i < |sig| :: loads[i] == LoadOf(sig, i)
  {
    loads := [];
    var addressSum := 0;
    for argIndex := 0 to |sig|
      invariant |loads| == argIndex && addressSum == 8 * Offset(sig, argIndex)
      invariant forall i | 0 <= i < argIndex :: loads[i] == LoadOf(sig, i)
    {
      match sig[argIndex] {
        case Scalar(size) =>
          var argSize := SizeInBits(sig[argIndex]);
          loads := loads + [Load(addressSum / 8, argSize / 8, false)];
          addressSum := addressSum + argSize;
        case Pointer =>
          loads := loads + [Load(addressSum / 8, 4, true)];
          addressSum := addressSum + 32;
      }
    }
  }

  // ----- the meaning of the code

  /** The bytes a push hands to the runtime: a scalar's own, or the low word of an address. */
  function Pushed(v: Value): seq<byte>
  {
    match v
    case Bytes(b) => b
    case Address(a) => Word(a)
  }

  predicate InBuffer(l: Load, buf: seq<byte>)
  {
    l.offset + l.size <= |buf| && (l.isPointer ==> l.size == 4)
  }

  function Loaded(l: Load, buf: seq<byte>): Value
    requires InBuffer(l, buf)
  {
    var b := buf[l.offset..l.offset + l.size];
    if l.isPointer then Address(FromWord(b)) else Bytes(b)
  }

  /** What survives the transfer: addresses keep their low 32 bits. */
  function Carried(v: Value): Value
  {
    match v
    case Bytes(b) => v
    case Address(a) => Address(a % 0x1_0000_0000)
  }

  /** The argument buffer of a call: all argument bytes one after the other. */
  function Buffer(values: seq<Value>): seq<byte>
  {
    if values == [] then []
    else Buffer(values[..|values| - 1]) + Pushed(values[|values| - 1])
  }

  lemma {:induction false} BufferLength(sig: Signature, values: seq<Value>)
    requires WellTyped(sig, values)
    ensures |Buffer(values)| == Offset(sig, |sig|)
  {
    if values != [] {
      var n := |values| - 1;
      BufferLength(sig[..n], values[..n]);
      OffsetFront(sig, n, n);
    }
  }

  lemma {:induction false} OffsetFront(sig: Signature, n: nat, i: nat)
    requires i <= n <= |sig|
    ensures Offset(sig[..n], i) == Offset(sig, i)
  {
    if i > 0 { OffsetFront(sig, n, i - 1); }
  }

  /** The offset of an argument is where its bytes are. */
  lemma {:induction false} ArgumentBytes(sig: Signature, values: seq<Value>, i: nat)
    requires WellTyped(sig, values) && i < |sig|
    ensures Offset(sig, i) + SizeInBits(sig[i]) / 8 <= |Buffer(values)|
    ensures Buffer(values)[Offset(sig, i)..Offset(sig, i) + SizeInBits(sig[i]) / 8] == Pushed(values[i])
  {
    hide Buffer, Pushed, SizeInBits;
    var n := |values| - 1;
    var front, last := Buffer(values[..n]), Pushed(values[n]);
    LastArgument(sig, values);
    OffsetFront(sig, n, i);
    if i < n {
      ArgumentBytes(sig[..n], values[..n], i);
      SliceFront(front, last, Offset(sig, i), Offset(sig, i) + SizeInBits(sig[i]) / 8);
    }
  }

  lemma SliceFront(a: seq<byte>, b: seq<byte>, from: nat, to: nat)
    requires from <= to <= |a|
    ensures (a + b)[from..to] == a[from..to]
  {}

  lemma LastArgument(sig: Signature, values: seq<Value>)
    requires WellTyped(sig, values) && values != []
    ensures var n := |values| - 1;
      Buffer(values) == Buffer(values[..n]) + Pushed(values[n]) && |Buffer(values[..n])| == Offset(sig, n)
      && |Pushed(values[n])| == SizeInBits(sig[n]) / 8
  {
    var n := |values| - 1;
    assert Typed(sig[n], values[n]);
    BufferLength(sig[..n], values[..n]);
    OffsetFront(sig, n, n);
  }

  /** The value loaded for an argument is the argument that was pushed, an address cut to 32 bits. */
  lemma UnmarshalInverts(sig: Signature, values: seq<Value>, i: nat)
    requires WellTyped(sig, values) && i < |sig|
    ensures InBuffer(LoadOf(sig, i), Buffer(values)) && Loaded(LoadOf(sig, i), Buffer(values)) == Carried(values[i])
  {
    hide Word, FromWord, Offset, Buffer;
    assert Typed(sig[i], values[i]);
    ArgumentBytes(sig, values, i);
    if values[i].Address? { WordRoundTrip(values[i].addr); }
  }

  /** A whole argument list arrives unchanged exactly when its addresses fit in 32 bits. */
  lemma ArrivesIff(values: seq<Value>, actuals: seq<Value>)
    requires |actuals| == |values| && forall i | 0 <= i < |values| :: actuals[i] == Carried(values[i])
    ensures actuals == values <==> forall i | 0 <= i < |values| && values[i].Address? :: values[i].addr < 0x1_0000_0000
  {
    if actuals == values {
      forall i | 0 <= i < |values| && values[i].Address? ensures values[i].addr < 0x1_0000_0000 {
        assert Carried(values[i]) == values[i];
      }
    }
  }

  // ----- the runtime's argument lists

  /** A pointer to an argument's bytes, and how many there are. */
  datatype ArgsInfo = ArgsInfo(args: array<byte>, size: nat)

  predicate InfoOk(list: seq<ArgsInfo>)
  {
    forall i | 0 <= i < |list| :: list[i].size == list[i].args.Length
  }

  ghost function Arrays(list: seq<ArgsInfo>): set<array<byte>>
  {
    set i | 0 <= i < |list| :: list[i].args
  }

  /** The bytes that the pointers of a list lead to now, one argument after the other. */
  ghost function Joined(list: seq<ArgsInfo>): seq<byte>
    reads Arrays(list)
  {
    if list == [] then [] else Joined(list[..|list| - 1]) + list[|list| - 1].args[..]
  }

  /** The number of bytes of a list. */
  function Total(list: seq<ArgsInfo>): nat
  {
    if list == [] then 0 else Total(list[..|list| - 1]) + list[|list| - 1].args.Length
  }

  lemma {:induction false} JoinedLength(list: seq<ArgsInfo>)
    ensures |Joined(list)| == Total(list)
  {
    if list != [] { JoinedLength(list[..|list| - 1]); }
  }

  lemma {:induction false} TotalGrows(list: seq<ArgsInfo>, i: nat)
    requires i <= |list|
    ensures Total(list[..i]) <= Total(list)
  {
    if i < |list| {
      assert list[..|list| - 1][..i] == list[..i];
      TotalGrows(list[..|list| - 1], i);
    } else {
      assert list[..i] == list;
    }
  }

  class ArgsLists {
    var argsList: map<nat, seq<ArgsInfo>>

    constructor ()
      ensures argsList == map[]
    {
      argsList := map[];
    }

    ghost predicate Valid()
      reads this
    {
      forall k | k in argsList :: InfoOk(argsList[k])
    }

    ghost function ListOf(rcId: nat): seq<ArgsInfo>
      reads this
    {
      if rcId in argsList then argsList[rcId] else []
    }

    method InsertArgsInfo(rcId: nat, buf: array<byte>, size: nat)
      requires Valid() && size == buf.Length
      modifies this
      ensures Valid() && ListOf(rcId) == old(ListOf(rcId)) + [ArgsInfo(buf, size)]
      ensures forall k | k != rcId :: ListOf(k) == old(ListOf(k))
    {
      if rcId !in argsList {
        argsList := argsList[rcId := []];
      }
      argsList := argsList[rcId := argsList[rcId] + [ArgsInfo(buf, size)]];
    }

    method GetArgsTotalSize(rcId: nat) returns (total: nat)
      requires Valid()
      modifies this
      ensures total == Total(old(ListOf(rcId)))
      ensures Valid() && forall k :: ListOf(k) == old(ListOf(k))
    {
      if rcId !in argsList { argsList := argsList[rcId := []]; }
      total := TotalSize(argsList[rcId]);
    }

    /** All pushed bytes in one buffer; the list of the call site is empty again. */
    method GetArgsOfRC(rcId: nat) returns (ret: array<byte>)
      requires Valid()
      modifies this
      ensures fresh(ret) && ret[..] == old(Joined(ListOf(rcId)))
      ensures Valid() && ListOf(rcId) == [] && forall k | k != rcId :: ListOf(k) == old(ListOf(k))
    {
      var list := if rcId in argsList then argsList[rcId] else [];
      argsList := argsList - {rcId};
      var total := TotalSize(list);
      ret := new byte[total];
      assert forall a | a in Arrays(list) :: a as object != this && a != ret;
      CopyAll(list, ret);
      assert Joined(list) == old(Joined(list));
    }
  }

  method TotalSize(list: seq<ArgsInfo>) returns (total: nat)
    requires InfoOk(list)
    ensures total == Total(list)
  {
    total := 0;
    for i := 0 to |list|
      invariant total == Total(list[..i])
    {
      assert list[..i + 1][..i] == list[..i];
      total := total + list[i].size;
    }
    assert list[..|list|] == list;
  }

  lemma JoinedStep(list: seq<ArgsInfo>, i: nat)
    requires i < |list|
    ensures Joined(list[..i + 1]) == Joined(list[..i]) + list[i].args[..]
    ensures Total(list[..i + 1]) == Total(list[..i]) + list[i].args.Length <= Total(list)
  {
    assert list[..i + 1][..i] == list[..i];
    TotalGrows(list, i + 1);
  }

  /** Each argument's bytes go behind those of the arguments before it. */
  method CopyAll(list: seq<ArgsInfo>, ret: array<byte>)
    requires InfoOk(list) && ret.Length == Total(list) && ret !in Arrays(list)
    modifies ret
    ensures ret[..] == Joined(list)
  {
    hide Joined, Total;
    var at: nat := 0;
    JoinedNone();
    assert list[..0] == [];
    for i := 0 to |list|
      invariant at == |Joined(list[..i])| == Total(list[..i]) <= ret.Length
      invariant ret[..at] == Joined(list[..i])
    {
      JoinedStep(list, i);
      ghost var before, front := ret[..at], Joined(list[..i]);
      ArraysFront(list, i);
      ArraysFront(list, i + 1);
      assert list[i].args in Arrays(list);
      CopyInto(ret, at, list[i].args);
      assert Joined(list[..i]) == front;
      JoinedStep(list, i);
      assert ret[..at + list[i].size] == before + list[i].args[..];
      at := at + list[i].size;
    }
    assert list[..|list|] == list;
    assert ret[..] == ret[..at];
  }

  lemma ArraysFront(list: seq<ArgsInfo>, i: nat)
    requires i <= |list|
    ensures Arrays(list[..i]) <= Arrays(list)
  {}

  lemma JoinedNone()
    ensures Joined([]) == [] && Total([]) == 0
  {}

  /** memcpy of a whole array. */
  method CopyInto(a: array<byte>, at: nat, data: array<byte>)
    requires at + data.Length <= a.Length && a != data
    modifies a
    ensures a[..at] == old(a[..at]) && a[at..at + data.Length] == data[..]
  {
    for i := 0 to data.Length
      invariant a[..at] == old(a[..at]) && a[at..at + i] == data[..i]
    {
      a[at + i] := data[i];
      assert a[at..at + i + 1] == a[at..at + i] + [data[i]];
    }
  }

  lemma JoinedNext(list: seq<ArgsInfo>, e: ArgsInfo)
    ensures Joined(list + [e]) == Joined(list) + e.args[..]
  {
    assert (list + [e])[..|list|] == list;
  }

  lemma BufferNext(values: seq<Value>, i: nat)
    requires i < |values|
    ensures Buffer(values[..i + 1]) == Buffer(values[..i]) + Pushed(values[i])
  {
    assert values[..i + 1][..i] == values[..i];
  }

  lemma PushSize(sig: Signature, values: seq<Value>, rcId: nat, i: nat)
    requires WellTyped(sig, values) && i < |sig|
    ensures |Pushed(values[i])| == PushOf(sig, rcId, i).size && PushOf(sig, rcId, i).rcId == rcId
  {
    assert Typed(sig[i], values[i]);
  }

  /** The argument's own stack buffer. */
  method Stored(bytes: seq<byte>) returns (buf: array<byte>)
    ensures fresh(buf) && buf[..] == bytes
  {
    buf := new byte[|bytes|](i requires 0 <= i < |bytes| => bytes[i]);
  }

  method PushAll(lists: ArgsLists, code: seq<Push>, ghost sig: Signature, values: seq<Value>, rcId: nat)
    requires lists.Valid() && lists.ListOf(rcId) == []
    requires WellTyped(sig, values) && |code| == |sig| && forall i | 0 <= i < |sig| :: code[i] == PushOf(sig, rcId, i)
    modifies lists
    ensures lists.Valid() && Joined(lists.ListOf(rcId)) == Buffer(values)
    ensures forall k | k != rcId :: lists.ListOf(k) == old(lists.ListOf(k))
  {
    hide Pushed, PushOf, Joined, Buffer, WellTyped, ArgsLists.Valid, ArgsLists.ListOf;
    NothingPushed();
    assert values[..0] == [];
    assert |sig| == |values| by { SameLength(sig, values); }
    for i := 0 to |code|
      invariant lists.Valid() && forall k | k != rcId :: lists.ListOf(k) == old(lists.ListOf(k))
      invariant Joined(lists.ListOf(rcId)) == Buffer(values[..i])
    {
      PushSize(sig, values, rcId, i);
      ghost var list, joined := lists.ListOf(rcId), Joined(lists.ListOf(rcId));
      var buf := Stored(Pushed(values[i]));
      assert buf !in Arrays(list);
      assert Joined(list) == joined;
      JoinedNext(list, ArgsInfo(buf, code[i].size));
      ghost var longer := list + [ArgsInfo(buf, code[i].size)];
      ghost var more := Joined(longer);
      BufferNext(values, i);
      lists.InsertArgsInfo(code[i].rcId, buf, code[i].size);
      assert lists.ListOf(rcId) == longer;
      assert forall a | a in Arrays(longer) :: a as object != lists;
      assert Joined(longer) == more;
    }
    assert values[..|code|] == values;
  }

  lemma SameLength(sig: Signature, values: seq<Value>)
    requires WellTyped(sig, values)
    ensures |sig| == |values|
  {}

  lemma NothingPushed()
    ensures Joined([]) == [] == Buffer([])
  {}

  /** One call site, executed: the pushes and the collection give the argument buffer, its announced
      size is its length, and the list is empty for the next call. */
  method ProduceArguments(lists: ArgsLists, code: seq<Push>, ghost sig: Signature, values: seq<Value>, rcId: nat)
    returns (size: nat, buf: array<byte>)
    requires lists.Valid() && lists.ListOf(rcId) == []
    requires WellTyped(sig, values) && |code| == |sig| && forall i | 0 <= i < |sig| :: code[i] == PushOf(sig, rcId, i)
    modifies lists
    ensures lists.Valid() && forall k :: lists.ListOf(k) == old(lists.ListOf(k))
    ensures buf[..] == Buffer(values) && size == buf.Length == Offset(sig, |sig|)
  {
    hide Buffer, Joined, Total, Offset, WellTyped, PushOf, ArgsLists.Valid;
    PushAll(lists, code, sig, values, rcId);
    ghost var list := lists.ListOf(rcId);
    JoinedLength(list);
    assert forall i | 0 <= i < |list| :: allocated(list[i].args);
    assert forall a | a in Arrays(list) :: a as object != lists && allocated(a);
    size := lists.GetArgsTotalSize(rcId);
    assert Joined(list) == Buffer(values);
    buf := lists.GetArgsOfRC(rcId);
    BufferLength(sig, values);
  }

  /** The receiver's case, executed on a buffer. */
  method ConsumeArguments(loads: seq<Load>, buf: seq<byte>) returns (actuals: seq<Value>)
    requires forall i | 0 <= i < |loads| :: InBuffer(loads[i], buf)
    ensures |actuals| == |loads| && forall i | 0 <= i < |loads| :: actuals[i] == Loaded(loads[i], buf)
  {
    actuals := [];
    for i := 0 to |loads|
      invariant |actuals| == i && forall k | 0 <= k < i :: actuals[k] == Loaded(loads[k], buf)
    {
      actuals := actuals + [Loaded(loads[i], buf)];
    }
  }

  /** The two generated programs together: the receiver's actuals are the sender's values, addresses
      cut to 32 bits, for any signature. */
  method Transfer(lists: ArgsLists, sig: Signature, values: seq<Value>, rcId: nat) returns (actuals: seq<Value>)
    requires lists.Valid() && lists.ListOf(rcId) == [] && WellTyped(sig, values)
    modifies lists
    ensures |actuals| == |values| && forall i | 0 <= i < |values| :: actuals[i] == Carried(values[i])
    ensures actuals == values <==> forall i | 0 <= i < |values| && values[i].Address? :: values[i].addr < 0x1_0000_0000
    ensures lists.Valid() && lists.ListOf(rcId) == []
  {
    var code, sum := CreateProduceFArgs(sig, rcId);
    var size, buf := ProduceArguments(lists, code, sig, values, rcId);
    var loads := CreateExecCase(sig);
    forall i | 0 <= i < |sig| ensures InBuffer(loads[i], buf[..]) && Loaded(loads[i], buf[..]) == Carried(values[i]) {
      UnmarshalInverts(sig, values, i);
    }
    actuals := ConsumeArguments(loads, buf[..]);
    ArrivesIff(values, actuals);
  }
}
