/** What the reader answers, said about its own values: the number, text, list or dictionary that an
    encoding stands for. */
module NbtAnswers {
  import opened Options
  import opened NbtFormat
  import opened NbtTheorems
  import opened NbtReading

  /** An answer that is a list of exactly these numbers, in order. */
  predicate IsNumbers(r: Outcome<Value>, vs: seq<int>) {
    && r.Success? && r.value.Sequence? && |r.value.elements| == |vs|
    && forall i :: 0 <= i < |vs| ==> r.value.elements[i] == Number(vs[i])
  }

  /** No later entry has the same name. */
  predicate IsLast(entries: seq<Entry>, j: nat)
    requires j < |entries|
  {
    forall k :: j < k < |entries| ==> entries[k].name != entries[j].name
  }

  lemma TreeIsAnswered(t: Tree, rest: seq<byte>, nodes: nat)
    requires WellFormed(t) && nodes + Count(t) <= MAX_NODES
    ensures Answer(TagOf(t), Encode(t) + rest, nodes) == Success(ToValue(t))
  {
    hide ParsePayload, Encode, ToValue;
    RoundTrip(t, rest, nodes);
  }

  /** Signed numbers of 1, 2, 4 and 8 bytes. */
  lemma NumberIsRead(tag: byte, width: nat, v: int, rest: seq<byte>, nodes: nat)
    requires (tag, width) in {(1, 1), (2, 2), (3, 4), (4, 8)} && FitsSigned(v, width) && nodes < 100_000
    ensures Answer(tag, EncodeSigned(v, width) + rest, nodes) == Success(Number(v))
  {
    hide EncodeSigned, FitsSigned;
    TreeIsAnswered(Integer(width, v), rest, nodes);
  }

  /** Floats keep the bit pattern they were sent with. */
  lemma FloatIsRead(tag: byte, width: nat, bits: nat, rest: seq<byte>, nodes: nat)
    requires (tag, width) in {(5, 4), (6, 8)} && bits < Pow256(width) && nodes < 100_000
    ensures Answer(tag, ToBytes(bits, width) + rest, nodes) == Success(FloatBits(width, bits))
  {
    hide ToBytes, Pow256;
    TreeIsAnswered(Real(width, bits), rest, nodes);
  }

  lemma TextIsRead(text: seq<byte>, rest: seq<byte>, nodes: nat)
    requires |text| < 65_536 && nodes < 100_000
    ensures Answer(8, EncodeText(text) + rest, nodes) == Success(Str(text))
  {
    hide EncodeText;
    TreeIsAnswered(Text(text), rest, nodes);
  }

  lemma BytesAreRead(bytes: seq<byte>, rest: seq<byte>, nodes: nat)
    requires |bytes| <= 100_000 && nodes < 100_000
    ensures IsNumbers(Answer(7, EncodeSigned(|bytes|, 4) + bytes + rest, nodes), bytes)
  {
    hide EncodeSigned;
    TreeIsAnswered(ByteArray(bytes), rest, nodes);
  }

  lemma NumbersAreRead(tag: byte, width: nat, vs: seq<int>, rest: seq<byte>, nodes: nat)
    requires (tag, width) in {(11, 4), (12, 8)} && |vs| <= 100_000 && nodes < 100_000
    requires forall v <- vs :: FitsSigned(v, width)
    ensures IsNumbers(Answer(tag, EncodeSigned(|vs|, 4) + EncodeInts(vs, width) + rest, nodes), vs)
  {
    hide EncodeSigned, FitsSigned, EncodeInts;
    TreeIsAnswered(IntegerArray(width, vs), rest, nodes);
  }

  lemma {:induction false} ItemsAreWellFormed(itemType: byte, items: seq<Tree>, i: nat)
    requires WellFormedItems(itemType, items) && i < |items|
    ensures WellFormed(items[i]) && TagOf(items[i]) == itemType && Count(items[i]) <= CountItems(items)
    ensures ToValues(items)[i] == ToValue(items[i])
    decreases items
  {
    hide WellFormed, Count, ToValue;
    if i > 0 { ItemsAreWellFormed(itemType, items[1..], i - 1); }
  }

  /** A list has the answers to its items, in order. */
  lemma ListIsRead(itemType: byte, items: seq<Tree>, rest: seq<byte>, nodes: nat)
    requires WellFormed(List(itemType, items)) && nodes + Count(List(itemType, items)) <= 100_000
    ensures
      var r := Answer(9, [itemType] + EncodeSigned(|items|, 4) + EncodeItems(itemType, items) + rest, nodes);
      && r.Success? && r.value.Sequence? && |r.value.elements| == |items|
      && forall i :: 0 <= i < |items| ==>
           WellFormed(items[i]) && Success(r.value.elements[i]) == Answer(itemType, Encode(items[i]), 0)
  {
    hide EncodeSigned, EncodeItems, Answer;
    TreeIsAnswered(List(itemType, items), rest, nodes);
    hide Encode, WellFormed;
    forall i | 0 <= i < |items|
      ensures WellFormed(items[i])
      ensures Success(ToValues(items)[i]) == Answer(itemType, Encode(items[i]), 0)
    {
      ItemsAreWellFormed(itemType, items, i);
      TreeIsAnswered(items[i], [], 0);
      assert Encode(items[i]) + [] == Encode(items[i]);
    }
  }

  lemma {:induction false} EntriesAreWellFormed(entries: seq<Entry>, j: nat)
    requires WellFormedEntries(entries) && j < |entries|
    ensures WellFormed(entries[j].value) && Count(entries[j].value) <= CountEntries(entries)
    decreases entries
  {
    hide WellFormed, Count;
    if j > 0 { EntriesAreWellFormed(entries[1..], j - 1); }
  }

  lemma {:induction false} LastEntryDecides(entries: seq<Entry>, j: nat)
    requires j < |entries| && IsLast(entries, j)
    ensures LastValue(entries, entries[j].name) == Some(ToValue(entries[j].value))
    decreases entries
  {
    if j > 0 {
      LastEntryDecides(entries[1..], j - 1);
    } else if LastValue(entries[1..], entries[0].name).Some? {
      NamedByAnEntry(entries[1..], entries[0].name);
    }
  }

  lemma {:induction false} NamedByAnEntry(entries: seq<Entry>, name: seq<byte>)
    requires LastValue(entries, name).Some?
    ensures exists j :: 0 <= j < |entries| && entries[j].name == name
    decreases entries
  {
    if LastValue(entries[1..], name).Some? {
      NamedByAnEntry(entries[1..], name);
      var j :| 0 <= j < |entries| - 1 && entries[1..][j].name == name;
      assert entries[j + 1].name == name;
    }
  }

  lemma {:induction false} LookupIsMember(items: seq<Item>, item: Item)
    ensures Lookup(items, item.name) == Some(item.value) ==> item in items
    ensures item in items ==> Lookup(items, item.name).Some?
  {
    if items != [] { LookupIsMember(items[1..], item); }
  }

  /** A compound is a dictionary of exactly the names of its entries, each once, with the answer to the
      last entry of that name. */
  lemma CompoundIsRead(entries: seq<Entry>, rest: seq<byte>, nodes: nat)
    requires WellFormed(Compound(entries)) && nodes + Count(Compound(entries)) <= 100_000
    ensures
      var r := Answer(10, EncodeEntries(entries) + rest, nodes);
      && r.Success? && r.value.Dict? && DistinctNames(r.value.items)
      && (forall item <- r.value.items :: exists j :: 0 <= j < |entries| && entries[j].name == item.name)
      && (forall j | 0 <= j < |entries| && IsLast(entries, j) ::
            && WellFormed(entries[j].value)
            && var value := Answer(TagOf(entries[j].value), Encode(entries[j].value), 0);
               value.Success? && Item(entries[j].name, value.value) in r.value.items)
  {
    hide EncodeEntries, Answer, IsLast;
    TreeIsAnswered(Compound(entries), rest, nodes);
    hide Encode, WellFormed;
    var items := PutAll([], entries);
    CompoundIsDictionary([], entries, []);
    forall item <- items ensures exists j :: 0 <= j < |entries| && entries[j].name == item.name {
      LookupIsMember(items, item);
      CompoundIsDictionary([], entries, item.name);
      NamedByAnEntry(entries, item.name);
    }
    forall j | 0 <= j < |entries| && IsLast(entries, j)
      ensures WellFormed(entries[j].value)
      ensures var value := Answer(TagOf(entries[j].value), Encode(entries[j].value), 0);
              value.Success? && Item(entries[j].name, value.value) in items
    {
      EntriesAreWellFormed(entries, j);
      LastEntryDecides(entries, j);
      CompoundIsDictionary([], entries, entries[j].name);
      LookupIsMember(items, Item(entries[j].name, ToValue(entries[j].value)));
      TreeIsAnswered(entries[j].value, [], 0);
      assert Encode(entries[j].value) + [] == Encode(entries[j].value);
    }
  }

  lemma RootNameIsSkipped(name: seq<byte>, body: seq<byte>)
    requires |name| < 65_536
    ensures ParseText(([10] + EncodeText(name) + body)[1..], 0) == Ok(name, body, 0)
  {
    hide ParseText, EncodeText;
    TextInverse(name, body, 0);
    assert ([10] + EncodeText(name) + body)[1..] == EncodeText(name) + body;
  }

  /** A document is answered with what its root compound is; the root's name is not part of it. */
  lemma RootIsRead(name: seq<byte>, body: seq<byte>)
    requires |name| < 65_536
    ensures RootAnswer([10] + EncodeText(name) + body) == Answer(10, body, 0)
  {
    hide ParseText, EncodeText, ParsePayload, ToValue;
    RootNameIsSkipped(name, body);
  }

  /** A collection length outside the limits, an unknown tag and one payload too many are refused. */
  lemma LimitsAreEnforced(tag: byte, length: int, itemType: byte, rest: seq<byte>, nodes: nat)
    requires nodes <= 100_000 && FitsSigned(length, 4)
    ensures tag in {7, 11, 12} && !(0 <= length <= 100_000) ==> Answer(tag, EncodeSigned(length, 4) + rest, nodes).Failure?
    ensures !(0 <= length <= 100_000) ==> Answer(9, [itemType] + EncodeSigned(length, 4) + rest, nodes).Failure?
    ensures tag > 12 || nodes == 100_000 ==> Answer(tag, rest, nodes).Failure?
  {
    hide EncodeSigned, DecodeSigned, FitsSigned, ParseInts, ParseText, ParseItems, ParseEntries, ToValue, FromBytes;
    SignedInverse(length, 4);
    Split(EncodeSigned(length, 4), rest);
    var input := [itemType] + EncodeSigned(length, 4) + rest;
    assert input[1..] == EncodeSigned(length, 4) + rest;
  }

  /** The end tag, which a list may hold, is answered with nothing and takes no input. */
  lemma EndIsRead(rest: seq<byte>, nodes: nat)
    requires nodes < 100_000
    ensures Answer(0, rest, nodes) == Success(Nothing) && ParsePayload(0, rest, nodes) == Ok(End, rest, nodes + 1)
  {
  }

  lemma {:induction false} WrapsAround(v: int, size: nat)
    ensures ToBytes(v + Pow256(size), size) == ToBytes(v, size)
    decreases size
  {
    if size > 0 {
      WrapsAround(v / 256, size - 1);
      assert (v + Pow256(size)) / 256 == v / 256 + Pow256(size - 1);
    }
  }

  lemma Digits(v: int)
    ensures ToBytes(v, 1) == [v % 0x100]
    ensures ToBytes(v, 2) == [v / 0x100 % 0x100, v % 0x100]
    ensures ToBytes(v, 4) == [v / 0x100_0000 % 0x100, v / 0x1_0000 % 0x100, v / 0x100 % 0x100, v % 0x100]
  {
  }

  lemma LastDigit(v: int, size: nat)
    requires size > 0
    ensures ToBytes(v, size) == ToBytes(v / 0x100, size - 1) + [v % 0x100]
  {
  }

  lemma DivideAgain(v: int)
    ensures v / 0x100 / 0x100 == v / 0x1_0000
    ensures v / 0x1_0000 / 0x100 == v / 0x100_0000
    ensures v / 0x100_0000 / 0x100 == v / 0x1_0000_0000
  {
  }

  lemma FourMore(v: int, size: nat)
    ensures ToBytes(v, size + 4) == ToBytes(v / 0x1_0000_0000, size) + ToBytes(v, 4)
  {
    hide ToBytes;
    DivideAgain(v);
    Digits(v);
    LastDigit(v, size + 4);
    LastDigit(v / 0x100, size + 3);
    LastDigit(v / 0x1_0000, size + 2);
    LastDigit(v / 0x100_0000, size + 1);
  }

  /** Numbers and lengths are sent in two's complement, the most significant byte first. */
  lemma BigEndian(v: int)
    ensures EncodeSigned(v, 1) == ToBytes(v, 1) == [v % 0x100]
    ensures EncodeSigned(v, 2) == ToBytes(v, 2) == [v / 0x100 % 0x100, v % 0x100]
    ensures EncodeSigned(v, 4) == ToBytes(v, 4)
         == [v / 0x100_0000 % 0x100, v / 0x1_0000 % 0x100, v / 0x100 % 0x100, v % 0x100]
    ensures EncodeSigned(v, 8) == ToBytes(v, 8) == ToBytes(v / 0x1_0000_0000, 4) + ToBytes(v, 4)
  {
    hide ToBytes, Pow256;
    Digits(v);
    FourMore(v, 4);
    WrapsAround(v, 1);
    WrapsAround(v, 2);
    WrapsAround(v, 4);
    WrapsAround(v, 8);
  }

  /** Text is sent after its length in two bytes. */
  lemma LengthFirst(text: seq<byte>)
    requires |text| < 65_536
    ensures EncodeText(text) == [|text| / 0x100, |text| % 0x100] + text
  {
    hide ToBytes;
    Digits(|text|);
  }

  lemma SignedRanges(v: int)
    ensures FitsSigned(v, 1) <==> -0x80 <= v < 0x80
    ensures FitsSigned(v, 2) <==> -0x8000 <= v < 0x8000
    ensures FitsSigned(v, 4) <==> -0x8000_0000 <= v < 0x8000_0000
    ensures FitsSigned(v, 8) <==> -0x8000_0000_0000_0000 <= v < 0x8000_0000_0000_0000
  {
    assert Pow256(3) == 0x100_0000;
    assert Pow256(7) == 0x100_0000_0000_0000;
  }

  lemma OneEntry(e: Entry)
    requires |e.name| < 65_536 && e.value.Integer? && WellFormed(e.value)
    ensures WellFormed(Compound([e])) && Count(Compound([e])) == 2
    ensures ToItems([e]) == [Item(e.name, Number(e.value.value))]
    ensures EncodeEntries([e]) == [TagOf(e.value)] + EncodeText(e.name) + Encode(e.value) + [0]
  {
    hide EncodeText, Encode;
    var es := [e];
    assert es[0] == e && es[1..] == [];
    assert WellFormedEntries(es[1..]) && EncodeEntries(es[1..]) == [0] && CountEntries(es[1..]) == 0;
    assert WellFormedEntries(es) && CountEntries(es) == 1;
    assert PutAll([], es) == PutAll(Put([], e.name, ToValue(e.value)), es[1..]);
  }

  /** A document with a single byte entry. */
  lemma OneByteEntry(name: seq<byte>, v: int)
    requires |name| < 65_536 && FitsSigned(v, 1)
    ensures RootAnswer([10] + EncodeText([]) + ([1] + EncodeText(name) + EncodeSigned(v, 1) + [0]))
         == Success(Dict([Item(name, Number(v))]))
  {
    hide EncodeText, EncodeSigned, FitsSigned, Answer, RootAnswer;
    var e := Entry(name, Integer(1, v));
    OneEntry(e);
    TreeIsAnswered(Compound([e]), [], 0);
    var body := [1] + EncodeText(name) + EncodeSigned(v, 1) + [0];
    hide ToItems, EncodeEntries, Count;
    assert Encode(Compound([e])) + [] == body;
    RootIsRead([], body);
  }

  /** A root compound with the byte entry "C" = 64. */
  lemma CountOf64IsRead()
    ensures RootAnswer([10, 0, 0, 1, 0, 1, 67, 64, 0]) == Success(Dict([Item([67], Number(64))]))
  {
    hide RootAnswer, EncodeText, EncodeSigned, ToBytes, FitsSigned;
    SignedRanges(64);
    OneByteEntry([67], 64);
    BigEndian(64);
    LengthFirst([67]);
    LengthFirst([]);
    assert [10] + EncodeText([]) + ([1] + EncodeText([67]) + EncodeSigned(64, 1) + [0]) == [10, 0, 0, 1, 0, 1, 67, 64, 0];
  }
}
