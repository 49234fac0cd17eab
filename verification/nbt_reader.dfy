/** The values the reader hands to its callers, the reader itself, and what its callers get. */
module NbtReading {
  import opened Options
  import opened NbtFormat
  import opened NbtTheorems

  /** The reader's result type: number widths and array kinds are gone, and a compound is a
      dictionary that keeps the position of a key's first insertion and the value of its last. */
  datatype Value =
    | Nothing
    | Number(number: int)
    | FloatBits(width: nat, bits: nat)
    | Str(text: seq<byte>)
    | Sequence(elements: seq<Value>)
    | Dict(items: seq<Item>)

  datatype Item = Item(name: seq<byte>, value: Value)

  function Put(items: seq<Item>, name: seq<byte>, value: Value): (r: seq<Item>)
    ensures r != []
  {
    if items == [] then [Item(name, value)]
    else if items[0].name == name then [Item(name, value)] + items[1..]
    else [items[0]] + Put(items[1..], name, value)
  }

  function Numbers(vs: seq<int>): (r: seq<Value>)
    ensures |r| == |vs| && forall i :: 0 <= i < |vs| ==> r[i] == Number(vs[i])
  {
    seq(|vs|, i requires 0 <= i < |vs| => Number(vs[i]))
  }

  function ToValue(t: Tree): Value
    decreases t, 0
  {
    match t
    case End => Nothing
    case Integer(_, v) => Number(v)
    case Real(width, bits) => FloatBits(width, bits)
    case ByteArray(bs) => Sequence(Numbers(bs))
    case Text(text) => Str(text)
    case List(_, items) => Sequence(ToValues(items))
    case Compound(entries) => Dict(ToItems(entries))
    case IntegerArray(_, vs) => Sequence(Numbers(vs))
  }

  function ToValues(items: seq<Tree>): (r: seq<Value>)
    ensures |r| == |items|
    decreases items, 0
  {
    if items == [] then [] else [ToValue(items[0])] + ToValues(items[1..])
  }

  function ToItems(entries: seq<Entry>): seq<Item>
    decreases entries, 1
  {
    PutAll([], entries)
  }

  /** Entries are put in reading order, so a repeated name overwrites in place. */
  function PutAll(items: seq<Item>, entries: seq<Entry>): seq<Item>
    decreases entries, 0
  {
    if entries == [] then items
    else PutAll(Put(items, entries[0].name, ToValue(entries[0].value)), entries[1..])
  }

  lemma {:induction false} ToValuesNext(items: seq<Tree>, t: Tree)
    ensures ToValues(items + [t]) == ToValues(items) + [ToValue(t)]
  {
    if items == [] {
      assert ([t])[1..] == [];
    } else {
      ToValuesNext(items[1..], t);
      assert (items + [t])[1..] == items[1..] + [t];
    }
  }

  lemma {:induction false} PutAllNext(items: seq<Item>, entries: seq<Entry>, e: Entry)
    ensures PutAll(items, entries + [e]) == Put(PutAll(items, entries), e.name, ToValue(e.value))
    decreases entries
  {
    if entries == [] {
      assert ([e])[1..] == [];
    } else {
      PutAllNext(Put(items, entries[0].name, ToValue(entries[0].value)), entries[1..], e);
      assert (entries + [e])[1..] == entries[1..] + [e];
    }
  }

  // --------------------------------------------------------------- the reader

  /** A returned value, or the `ValueError` that was raised. */
  datatype Outcome<+T> = Success(value: T) | Failure(error: Error) {
    predicate IsFailure() { Failure? }
    function PropagateFailure<U>(): Outcome<U>
      requires Failure?
    {
      Failure(error)
    }
    function Extract(): T
      requires Success?
    {
      value
    }
  }

  /** The reader's answer for one payload that starts the given input. */
  function Answer(tag: byte, input: seq<byte>, nodes: nat): Outcome<Value>
    requires nodes <= MAX_NODES
  {
    match ParsePayload(tag, input, nodes)
    case Ok(t, _, _) => Success(ToValue(t))
    case Fail(e) => Failure(e)
  }

  /** The reader's answer for a whole document. */
  function RootAnswer(input: seq<byte>): Outcome<Value> {
    match ParseRoot(input)
    case Ok(t, _, _) => Success(ToValue(t))
    case Fail(e) => Failure(e)
  }

  function Prepend<T>(done: seq<T>, r: Parsed<seq<T>>): Parsed<seq<T>> {
    match r
    case Fail(e) => Fail(e)
    case Ok(more, rest, n) => Ok(done + more, rest, n)
  }

  lemma PrependNothing<T>(r: Parsed<seq<T>>)
    ensures Prepend([], r) == r
  {
    if r.Ok? { assert [] + r.value == r.value; }
  }

  lemma PrependNext<T>(done: seq<T>, x: T, r: Parsed<seq<T>>)
    ensures Prepend(done, Prepend([x], r)) == Prepend(done + [x], r)
  {
    if r.Ok? { assert done + ([x] + r.value) == done + [x] + r.value; }
  }

  lemma DropDrop<T>(s: seq<T>, a: nat, b: nat)
    requires a + b <= |s|
    ensures s[a..][..b] == s[a..a + b] && s[a..][b..] == s[a + b..]
  {
  }

  class NbtReader {
    const payload: seq<byte>
    var pos: nat
    var nodeCount: nat

    ghost predicate Valid()
      reads this
    {
      pos <= |payload| && nodeCount <= MAX_NODES
    }

    ghost function Remaining(): seq<byte>
      reads this
      requires Valid()
    {
      payload[pos..]
    }

    constructor (payload: seq<byte>)
      ensures Valid() && this.payload == payload && Remaining() == payload && nodeCount == 0
    {
      this.payload := payload;
      pos, nodeCount := 0, 0;
    }

    method ReadExact(size: nat) returns (r: Outcome<seq<byte>>)
      requires Valid()
      modifies this`pos
      ensures Valid()
      ensures if size <= |old(Remaining())|
              then r == Success(old(Remaining())[..size]) && Remaining() == old(Remaining())[size..]
              else r == Failure(Truncated)
    {
      if |payload| - pos < size {
        pos := |payload|;
        return Failure(Truncated);
      }
      r := Success(payload[pos..pos + size]);
      assert payload[pos..pos + size] == Remaining()[..size];
      assert payload[pos + size..] == Remaining()[size..];
      pos := pos + size;
    }

    method ReadUnsignedByte() returns (r: Outcome<byte>)
      requires Valid()
      modifies this`pos
      ensures Valid()
      ensures if |old(Remaining())| >= 1
              then r == Success(old(Remaining())[0]) && Remaining() == old(Remaining())[1..]
              else r == Failure(Truncated)
    {
      var bytes :- ReadExact(1);
      r := Success(bytes[0]);
    }

    method ReadText() returns (r: Outcome<seq<byte>>)
      requires Valid()
      modifies this`pos
      ensures Valid()
      ensures match ParseText(old(Remaining()), nodeCount)
              case Ok(text, rest, _) => r == Success(text) && Remaining() == rest
              case Fail(e) => r == Failure(e)
    {
      var header :- ReadExact(2);
      var length := FromBytes(header);
      if length <= |Remaining()| {
        DropDrop(old(Remaining()), 2, length);
      }
      r := ReadExact(length);
    }

    method ReadLength() returns (r: Outcome<nat>)
      requires Valid()
      modifies this`pos
      ensures Valid()
      ensures match ParseLength(old(Remaining()), nodeCount)
              case Ok(length, rest, _) => r == Success(length) && Remaining() == rest
              case Fail(e) => r == Failure(e)
    {
      var header :- ReadExact(4);
      var length := DecodeSigned(header);
      if length < 0 {
        return Failure(NegativeLength);
      }
      if length > MAX_COLLECTION_ITEMS {
        return Failure(LengthLimit);
      }
      r := Success(length);
    }

    method ReadIntegers(length: nat, width: nat) returns (r: Outcome<seq<Value>>)
      requires Valid() && width > 0
      modifies this`pos
      ensures Valid()
      ensures match ParseInts(length, width, old(Remaining()), nodeCount)
              case Ok(vs, rest, _) => r == Success(Numbers(vs)) && Remaining() == rest
              case Fail(e) => r == Failure(e)
    {
      var vs: seq<int> := [];
      PrependNothing(ParseInts(length, width, Remaining(), nodeCount));
      for i := 0 to length
        invariant Valid() && |vs| == i
        invariant ParseInts(length, width, old(Remaining()), nodeCount)
               == Prepend(vs, ParseInts(length - i, width, Remaining(), nodeCount))
      {
        ghost var before := Remaining();
        var bytes :- ReadExact(width);
        PrependNext(vs, DecodeSigned(bytes), ParseInts(length - i - 1, width, Remaining(), nodeCount));
        assert ParseInts(length - i, width, before, nodeCount)
            == Prepend([DecodeSigned(bytes)], ParseInts(length - i - 1, width, Remaining(), nodeCount));
        vs := vs + [DecodeSigned(bytes)];
      }
      assert vs + [] == vs;
      r := Success(Numbers(vs));
    }

    /** The payloads that need no recursion, after the node was counted. */
    method ReadLeaf(tag: byte) returns (r: Outcome<Value>)
      requires Valid() && tag != 9 && tag != 10
      modifies this`pos
      ensures Valid()
      ensures match ParseLeaf(tag, old(Remaining()), nodeCount)
              case Ok(t, rest, _) => r == Success(ToValue(t)) && Remaining() == rest
              case Fail(e) => r == Failure(e)
    {
      hide ParseLength, ParseText, ParseInts, DecodeSigned, FromBytes;
      if tag == 0 {
        r := Success(Nothing);
      } else if tag <= 4 {
        var width := if tag == 1 then 1 else if tag == 2 then 2 else if tag == 3 then 4 else 8;
        var bytes :- ReadExact(width);
        r := Success(Number(DecodeSigned(bytes)));
      } else if tag <= 6 {
        var width := if tag == 5 then 4 else 8;
        var bytes :- ReadExact(width);
        r := Success(FloatBits(width, FromBytes(bytes)));
      } else if tag == 7 {
        var length :- ReadLength();
        var bytes :- ReadExact(length);
        r := Success(Sequence(Numbers(bytes)));
      } else if tag == 8 {
        var text :- ReadText();
        r := Success(Str(text));
      } else if tag <= 12 {
        var length :- ReadLength();
        var elements :- ReadIntegers(length, if tag == 11 then 4 else 8);
        r := Success(Sequence(elements));
      } else {
        r := Failure(UnsupportedTag);
      }
    }

    method ReadPayload(tag: byte) returns (r: Outcome<Value>)
      requires Valid()
      modifies this
      ensures r == Answer(tag, old(Remaining()), old(nodeCount))
      ensures match ParsePayload(tag, old(Remaining()), old(nodeCount))
              case Ok(_, rest, n) => Valid() && Remaining() == rest && nodeCount == n
              case Fail(_) => true
      decreases MAX_NODES - nodeCount, 0
    {
      hide ParseLeaf, ParseLength;
      nodeCount := nodeCount + 1;
      if nodeCount > MAX_NODES {
        return Failure(NodeLimit);
      }
      if tag == 9 {
        var itemType :- ReadUnsignedByte();
        var length :- ReadLength();
        var elements :- ReadItems(itemType, length);
        r := Success(Sequence(elements));
      } else if tag == 10 {
        var items :- ReadEntries();
        r := Success(Dict(items));
      } else {
        r := ReadLeaf(tag);
      }
    }

    method ReadItems(itemType: byte, length: nat) returns (r: Outcome<seq<Value>>)
      requires Valid()
      modifies this
      ensures match ParseItems(itemType, length, old(Remaining()), old(nodeCount))
              case Ok(ts, rest, n) => r == Success(ToValues(ts)) && Valid() && Remaining() == rest && nodeCount == n
              case Fail(e) => r == Failure(e)
      decreases MAX_NODES - nodeCount, 1
    {
      hide ParsePayload;
      var values: seq<Value> := [];
      ghost var trees: seq<Tree> := [];
      PrependNothing(ParseItems(itemType, length, Remaining(), nodeCount));
      for i := 0 to length
        invariant Valid() && nodeCount >= old(nodeCount)
        invariant values == ToValues(trees)
        invariant ParseItems(itemType, length, old(Remaining()), old(nodeCount))
               == Prepend(trees, ParseItems(itemType, length - i, Remaining(), nodeCount))
      {
        ghost var before, count := Remaining(), nodeCount;
        ghost var head := ParsePayload(itemType, before, count);
        var value :- ReadPayload(itemType);
        PrependNext(trees, head.value, ParseItems(itemType, length - i - 1, Remaining(), nodeCount));
        assert ParseItems(itemType, length - i, before, count)
            == Prepend([head.value], ParseItems(itemType, length - i - 1, Remaining(), nodeCount));
        ToValuesNext(trees, head.value);
        values, trees := values + [value], trees + [head.value];
      }
      assert trees + [] == trees;
      r := Success(values);
    }

    method ReadEntries() returns (r: Outcome<seq<Item>>)
      requires Valid()
      modifies this
      ensures match ParseEntries(old(Remaining()), old(nodeCount))
              case Ok(es, rest, n) => r == Success(ToItems(es)) && Valid() && Remaining() == rest && nodeCount == n
              case Fail(e) => r == Failure(e)
      decreases MAX_NODES - nodeCount, 1
    {
      hide ParsePayload, ParseText;
      var result: seq<Item> := [];
      ghost var entries: seq<Entry> := [];
      PrependNothing(ParseEntries(Remaining(), nodeCount));
      while true
        invariant Valid() && nodeCount >= old(nodeCount)
        invariant result == ToItems(entries)
        invariant ParseEntries(old(Remaining()), old(nodeCount))
               == Prepend(entries, ParseEntries(Remaining(), nodeCount))
        decreases MAX_NODES - nodeCount
      {
        ghost var before, count := Remaining(), nodeCount;
        var nestedType :- ReadUnsignedByte();
        if nestedType == 0 {
          assert ParseEntries(before, count) == Ok([], Remaining(), count);
          assert entries + [] == entries;
          return Success(result);
        }
        var name :- ReadText();
        ghost var head := ParsePayload(nestedType, Remaining(), nodeCount);
        var value :- ReadPayload(nestedType);
        PrependNext(entries, Entry(name, head.value), ParseEntries(Remaining(), nodeCount));
        assert ParseEntries(before, count)
            == Prepend([Entry(name, head.value)], ParseEntries(Remaining(), nodeCount));
        PutAllNext([], entries, Entry(name, head.value));
        result, entries := Put(result, name, value), entries + [Entry(name, head.value)];
      }
    }

    method ReadRootCompound() returns (r: Outcome<Value>)
      requires pos == 0 && nodeCount == 0
      modifies this
      ensures r == RootAnswer(payload)
      ensures match ParseRoot(payload)
              case Ok(_, rest, n) => Valid() && Remaining() == rest && nodeCount == n
              case Fail(_) => true
    {
      hide ParsePayload, ParseText;
      var tag :- ReadUnsignedByte();
      if tag != 10 {
        return Failure(RootNotCompound);
      }
      var _ :- ReadText();
      r := ReadPayload(tag);
    }
  }

  // ------------------------------------------------------- what callers get

  function Lookup(items: seq<Item>, name: seq<byte>): Option<Value> {
    if items == [] then None else if items[0].name == name then Some(items[0].value) else Lookup(items[1..], name)
  }

  /** The value of the last entry with the given name. */
  function LastValue(entries: seq<Entry>, name: seq<byte>): Option<Value> {
    if entries == [] then None
    else if LastValue(entries[1..], name).Some? then LastValue(entries[1..], name)
    else if entries[0].name == name then Some(ToValue(entries[0].value))
    else None
  }

  ghost predicate DistinctNames(items: seq<Item>) {
    forall i, j :: 0 <= i < j < |items| ==> items[i].name != items[j].name
  }

  function Names(items: seq<Item>): set<seq<byte>> {
    set item <- items :: item.name
  }

  lemma {:induction false} PutLookup(items: seq<Item>, name: seq<byte>, value: Value, other: seq<byte>)
    ensures Lookup(Put(items, name, value), other) == if other == name then Some(value) else Lookup(items, other)
  {
    if items != [] && items[0].name != name {
      PutLookup(items[1..], name, value, other);
    }
  }

  lemma {:induction false} PutDistinct(items: seq<Item>, name: seq<byte>, value: Value)
    requires DistinctNames(items)
    ensures DistinctNames(Put(items, name, value))
    ensures forall item <- Put(items, name, value) :: item.name == name || item.name in Names(items)
  {
    if items != [] && items[0].name != name {
      PutDistinct(items[1..], name, value);
      var rest := Put(items[1..], name, value);
      forall j | 0 <= j < |rest| ensures rest[j].name != items[0].name {
        assert rest[j] in rest;
      }
    }
  }

  /** A compound is read as a dictionary: each name occurs once, and looking it up gives the value
      of its last entry in the input. */
  lemma {:induction false} CompoundIsDictionary(items: seq<Item>, entries: seq<Entry>, name: seq<byte>)
    requires DistinctNames(items)
    ensures DistinctNames(PutAll(items, entries))
    ensures Lookup(PutAll(items, entries), name)
         == if LastValue(entries, name).Some? then LastValue(entries, name) else Lookup(items, name)
    decreases entries
  {
    if entries != [] {
      var e := entries[0];
      PutDistinct(items, e.name, ToValue(e.value));
      PutLookup(items, e.name, ToValue(e.value), name);
      CompoundIsDictionary(Put(items, e.name, ToValue(e.value)), entries[1..], name);
    }
  }

  /** Every object of a result: itself plus all the elements it holds, at every level. */
  function Size(v: Value): (n: nat)
    ensures n > 0
    decreases v, 0
  {
    match v
    case Sequence(elements) => 1 + SizeOfValues(elements)
    case Dict(items) => 1 + SizeOfItems(items)
    case _ => 1
  }

  function SizeOfValues(vs: seq<Value>): nat
    decreases vs, 0
  {
    if vs == [] then 0 else Size(vs[0]) + SizeOfValues(vs[1..])
  }

  function SizeOfItems(items: seq<Item>): nat
    decreases items, 0
  {
    if items == [] then 0 else Size(items[0].value) + SizeOfItems(items[1..])
  }

  lemma {:induction false} NumbersSize(vs: seq<int>)
    ensures SizeOfValues(Numbers(vs)) == |vs|
  {
    if vs != [] {
      NumbersSize(vs[1..]);
      assert Numbers(vs)[1..] == Numbers(vs[1..]);
    }
  }

  lemma {:induction false} PutSize(items: seq<Item>, name: seq<byte>, value: Value)
    ensures SizeOfItems(Put(items, name, value)) <= SizeOfItems(items) + Size(value)
  {
    if items == [] {
    } else if items[0].name == name {
      assert Put(items, name, value)[1..] == items[1..];
    } else {
      PutSize(items[1..], name, value);
      assert Put(items, name, value)[1..] == Put(items[1..], name, value);
    }
  }

  lemma {:induction false} SizeBound(t: Tree)
    requires WellFormed(t)
    ensures Size(ToValue(t)) <= Count(t) + |Encode(t)|
    decreases t, 0
  {
    match t
    case ByteArray(bs) => NumbersSize(bs);
    case IntegerArray(_, vs) => NumbersSize(vs);
    case List(itemType, items) => SizeBoundItems(itemType, items);
    case Compound(entries) => SizeBoundEntries([], entries);
    case _ =>
  }

  lemma {:induction false} SizeBoundItems(itemType: byte, items: seq<Tree>)
    requires WellFormedItems(itemType, items)
    ensures SizeOfValues(ToValues(items)) <= CountItems(items) + |EncodeItems(itemType, items)|
    decreases items, 0
  {
    if items != [] {
      SizeBound(items[0]);
      SizeBoundItems(itemType, items[1..]);
      assert ToValues(items)[1..] == ToValues(items[1..]);
    }
  }

  lemma {:induction false} SizeBoundEntries(items: seq<Item>, entries: seq<Entry>)
    requires WellFormedEntries(entries)
    ensures SizeOfItems(PutAll(items, entries))
         <= SizeOfItems(items) + CountEntries(entries) + |EncodeEntries(entries)|
    decreases entries, 0
  {
    if entries != [] {
      var e := entries[0];
      SizeBound(e.value);
      PutSize(items, e.name, ToValue(e.value));
      SizeBoundEntries(Put(items, e.name, ToValue(e.value)), entries[1..]);
    }
  }

  /** Every byte string is either rejected or read as a tree of at most 100000 payloads, and the
      whole result never holds more objects than payloads plus bytes consumed. */
  lemma ResultIsBounded(input: seq<byte>)
    ensures match ParseRoot(input)
            case Fail(_) => true
            case Ok(t, rest, n) =>
              && n == Count(t) <= MAX_NODES
              && |rest| < |input|
              && Size(ToValue(t)) <= Count(t) + (|input| - |rest|)
  {
    match ParseRoot(input)
    case Fail(_) =>
    case Ok(t, rest, n) =>
      RootReadsExactlyDocuments(input, t, rest);
      SizeBound(t);
  }
}
