/** Reading inverts writing, in both directions, and the size bounds that follow from it. */
module NbtTheorems {
  import opened Options
  import opened NbtFormat

  lemma Split<T>(a: seq<T>, b: seq<T>)
    ensures (a + b)[..|a|] == a && (a + b)[|a|..] == b
  {
  }

  lemma LengthInverse(length: nat, rest: seq<byte>, nodes: nat)
    requires length <= MAX_COLLECTION_ITEMS
    ensures ParseLength(EncodeSigned(length, 4) + rest, nodes) == Ok(length, rest, nodes)
  {
    assert FitsSigned(length, 4) by { assert Half(4) == 0x8000_0000; }
    SignedInverse(length, 4);
    Split(EncodeSigned(length, 4), rest);
  }

  lemma LengthAccepted(input: seq<byte>, nodes: nat)
    requires ParseLength(input, nodes).Ok?
    ensures input == EncodeSigned(ParseLength(input, nodes).value, 4) + ParseLength(input, nodes).rest
  {
    SignedInverseBytes(input[..4]);
  }

  lemma TextInverse(text: seq<byte>, rest: seq<byte>, nodes: nat)
    requires |text| < Pow256(2)
    ensures ParseText(EncodeText(text) + rest, nodes) == Ok(text, rest, nodes)
  {
    FromToBytes(|text|, 2);
    var input := EncodeText(text) + rest;
    assert input == ToBytes(|text|, 2) + (text + rest);
    Split(ToBytes(|text|, 2), text + rest);
    Split(EncodeText(text), rest);
    assert input[2..2 + |text|] == text;
  }

  lemma TextAccepted(input: seq<byte>, nodes: nat)
    requires ParseText(input, nodes).Ok?
    ensures var r := ParseText(input, nodes);
            |r.value| < Pow256(2) && input == EncodeText(r.value) + r.rest
  {
    ToFromBytes(input[..2]);
  }

  lemma EncodeFirst(v: int, vs: seq<int>, size: nat)
    requires size > 0
    ensures EncodeInts([v] + vs, size) == EncodeSigned(v, size) + EncodeInts(vs, size)
  {
    hide EncodeSigned;
    assert ([v] + vs)[1..] == vs;
  }

  lemma Regroup<T>(a: seq<T>, b: seq<T>, c: seq<T>)
    ensures (a + b) + c == a + (b + c)
  {
  }

  lemma {:induction false} IntsInverse(vs: seq<int>, size: nat, rest: seq<byte>, nodes: nat)
    requires size > 0 && forall v <- vs :: FitsSigned(v, size)
    ensures ParseInts(|vs|, size, EncodeInts(vs, size) + rest, nodes) == Ok(vs, rest, nodes)
  {
    hide EncodeSigned, DecodeSigned, FitsSigned, Pow256;
    if vs == [] {
      assert EncodeInts(vs, size) + rest == rest;
    } else {
      IntsInverse(vs[1..], size, rest, nodes);
      SignedInverse(vs[0], size);
      assert vs == [vs[0]] + vs[1..];
      EncodeFirst(vs[0], vs[1..], size);
      var head, tail := EncodeSigned(vs[0], size), EncodeInts(vs[1..], size);
      hide EncodeInts;
      Regroup(head, tail, rest);
      Split(head, tail + rest);
    }
  }

  lemma {:induction false} IntsAccepted(count: nat, size: nat, input: seq<byte>, nodes: nat)
    requires size > 0 && ParseInts(count, size, input, nodes).Ok?
    ensures var r := ParseInts(count, size, input, nodes);
            (forall v <- r.value :: FitsSigned(v, size)) && input == EncodeInts(r.value, size) + r.rest
  {
    hide EncodeSigned, DecodeSigned, FitsSigned, Pow256;
    if count > 0 {
      IntsAccepted(count - 1, size, input[size..], nodes);
      SignedInverseBytes(input[..size]);
      var tail := ParseInts(count - 1, size, input[size..], nodes);
      var v := DecodeSigned(input[..size]);
      EncodeFirst(v, tail.value, size);
      hide EncodeInts;
      Regroup(input[..size], EncodeInts(tail.value, size), tail.rest);
      assert input == input[..size] + input[size..];
    }
  }

  lemma LeafInverse(t: Tree, rest: seq<byte>, nodes: nat)
    requires IsLeaf(t) && WellFormedLeaf(t)
    ensures ParseLeaf(TagOf(t), EncodeLeaf(t) + rest, nodes) == Ok(t, rest, nodes)
  {
    hide ParseLength, ParseText, ParseInts, EncodeInts, EncodeText, EncodeSigned, DecodeSigned, FromBytes, ToBytes, Pow256, Half, FitsSigned;
    var input := EncodeLeaf(t) + rest;
    Split(EncodeLeaf(t), rest);
    match t
    case End => assert input == rest;
    case Integer(width, v) => SignedInverse(v, width);
    case Real(width, bits) => FromToBytes(bits, width);
    case ByteArray(bs) =>
      assert input == EncodeSigned(|bs|, 4) + (bs + rest);
      LengthInverse(|bs|, bs + rest, nodes);
      Split(bs, rest);
    case Text(bs) =>
      TextInverse(bs, rest, nodes);
    case IntegerArray(width, vs) =>
      assert input == EncodeSigned(|vs|, 4) + (EncodeInts(vs, width) + rest);
      LengthInverse(|vs|, EncodeInts(vs, width) + rest, nodes);
      IntsInverse(vs, width, rest, nodes);
  }

  lemma LeafAccepted(tag: byte, input: seq<byte>, nodes: nat)
    requires tag != 9 && tag != 10 && ParseLeaf(tag, input, nodes).Ok?
    ensures var r := ParseLeaf(tag, input, nodes);
            IsLeaf(r.value) && WellFormedLeaf(r.value) && TagOf(r.value) == tag
            && input == EncodeLeaf(r.value) + r.rest
  {
    hide ParseLength, ParseText, ParseInts, EncodeInts, EncodeText, EncodeSigned, DecodeSigned, FromBytes, ToBytes, Pow256, Half, FitsSigned;
    match ParseLeaf(tag, input, nodes).value
    case End =>
    case Integer(width, _) => SignedInverseBytes(input[..width]);
    case Real(width, _) => ToFromBytes(input[..width]);
    case ByteArray(_) => LengthAccepted(input, nodes);
    case Text(_) => TextAccepted(input, nodes);
    case IntegerArray(width, _) =>
      LengthAccepted(input, nodes);
      var header := ParseLength(input, nodes);
      IntsAccepted(header.value, width, header.rest, nodes);
  }

  lemma ListHeaderInverse(itemType: byte, length: nat, rest: seq<byte>, nodes: nat)
    requires length <= MAX_COLLECTION_ITEMS
    ensures ParseListHeader([itemType] + EncodeSigned(length, 4) + rest, nodes) == Ok((itemType, length), rest, nodes)
  {
    assert ([itemType] + EncodeSigned(length, 4) + rest)[1..] == EncodeSigned(length, 4) + rest;
    LengthInverse(length, rest, nodes);
  }

  lemma ListHeaderAccepted(input: seq<byte>, nodes: nat)
    requires ParseListHeader(input, nodes).Ok?
    ensures var r := ParseListHeader(input, nodes);
            r.value.1 <= MAX_COLLECTION_ITEMS && input == [r.value.0] + EncodeSigned(r.value.1, 4) + r.rest
  {
    LengthAccepted(input[1..], nodes);
    assert input == [input[0]] + input[1..];
  }

  lemma EntryHeaderInverse(tag: byte, name: seq<byte>, rest: seq<byte>, nodes: nat)
    requires tag != 0 && |name| < Pow256(2)
    ensures ParseEntryHeader([tag] + EncodeText(name) + rest, nodes) == Ok(Some((tag, name)), rest, nodes)
  {
    assert ([tag] + EncodeText(name) + rest)[1..] == EncodeText(name) + rest;
    TextInverse(name, rest, nodes);
  }

  lemma EntryHeaderAccepted(input: seq<byte>, nodes: nat)
    requires ParseEntryHeader(input, nodes).Ok?
    ensures match ParseEntryHeader(input, nodes)
            case Ok(None, rest, _) => input == [0] + rest
            case Ok(Some(h), rest, _) =>
              h.0 != 0 && |h.1| < Pow256(2) && input == [h.0] + EncodeText(h.1) + rest
  {
    assert input == [input[0]] + input[1..];
    if input[0] != 0 { TextAccepted(input[1..], nodes); }
  }

  lemma ListInverse(itemType: byte, items: seq<Tree>, rest: seq<byte>, nodes: nat)
    requires WellFormed(List(itemType, items)) && nodes + 1 + CountItems(items) <= MAX_NODES
    requires ParseItems(itemType, |items|, EncodeItems(itemType, items) + rest, nodes + 1)
          == Ok(items, rest, nodes + 1 + CountItems(items))
    ensures ParsePayload(9, Encode(List(itemType, items)) + rest, nodes)
         == Ok(List(itemType, items), rest, nodes + 1 + CountItems(items))
  {
    hide ParseListHeader, ParseItems, EncodeItems, EncodeSigned;
    var body := EncodeItems(itemType, items) + rest;
    assert Encode(List(itemType, items)) + rest == [itemType] + EncodeSigned(|items|, 4) + body;
    ListHeaderInverse(itemType, |items|, body, nodes + 1);
  }

  lemma CompoundInverse(entries: seq<Entry>, rest: seq<byte>, nodes: nat)
    requires WellFormed(Compound(entries)) && nodes + 1 + CountEntries(entries) <= MAX_NODES
    ensures ParseEntries(EncodeEntries(entries) + rest, nodes + 1) == Ok(entries, rest, nodes + 1 + CountEntries(entries)) ==>
      ParsePayload(10, Encode(Compound(entries)) + rest, nodes)
        == Ok(Compound(entries), rest, nodes + 1 + CountEntries(entries))
  {
    hide ParseEntries, EncodeEntries;
  }

  lemma ParsedLeaf(t: Tree, rest: seq<byte>, nodes: nat)
    requires IsLeaf(t) && WellFormed(t) && nodes + 1 <= MAX_NODES
    ensures ParsePayload(TagOf(t), Encode(t) + rest, nodes) == Ok(t, rest, nodes + 1)
  {
    hide ParseLeaf, EncodeLeaf, WellFormedLeaf;
    LeafInverse(t, rest, nodes + 1);
  }

  /** Reading the encoding of a tree followed by anything gives back exactly that tree, stops
      exactly at the suffix, and charges exactly one node per payload. */
  lemma {:induction false} RoundTrip(t: Tree, rest: seq<byte>, nodes: nat)
    requires WellFormed(t) && nodes + Count(t) <= MAX_NODES
    ensures ParsePayload(TagOf(t), Encode(t) + rest, nodes) == Ok(t, rest, nodes + Count(t))
    decreases t, 0
  {
    hide ParsePayload, Encode, WellFormedLeaf;
    match t
    case List(itemType, items) =>
      RoundTripItems(itemType, items, rest, nodes + 1);
      ListInverse(itemType, items, rest, nodes);
    case Compound(entries) =>
      RoundTripEntries(entries, rest, nodes + 1);
      CompoundInverse(entries, rest, nodes);
    case _ =>
      ParsedLeaf(t, rest, nodes);
  }

  lemma {:induction false} RoundTripItems(itemType: byte, items: seq<Tree>, rest: seq<byte>, nodes: nat)
    requires WellFormedItems(itemType, items)
    requires nodes + CountItems(items) <= MAX_NODES
    ensures ParseItems(itemType, |items|, EncodeItems(itemType, items) + rest, nodes)
         == Ok(items, rest, nodes + CountItems(items))
    decreases items, 0
  {
    hide ParsePayload, Encode, WellFormed, Count;
    if items == [] {
      assert EncodeItems(itemType, items) + rest == rest;
    } else {
      var tail := EncodeItems(itemType, items[1..]) + rest;
      assert EncodeItems(itemType, items) + rest == Encode(items[0]) + tail;
      RoundTrip(items[0], tail, nodes);
      RoundTripItems(itemType, items[1..], rest, nodes + Count(items[0]));
      assert items == [items[0]] + items[1..];
    }
  }

  lemma EndMarkerInverse(rest: seq<byte>, nodes: nat)
    ensures ParseEntryHeader([0] + rest, nodes) == Ok(None, rest, nodes)
  {
    assert ([0] + rest)[1..] == rest;
  }

  lemma {:induction false} RoundTripEntries(entries: seq<Entry>, rest: seq<byte>, nodes: nat)
    requires WellFormedEntries(entries)
    requires nodes + CountEntries(entries) <= MAX_NODES
    ensures ParseEntries(EncodeEntries(entries) + rest, nodes) == Ok(entries, rest, nodes + CountEntries(entries))
    decreases entries, 0
  {
    hide ParsePayload, ParseEntryHeader, Encode, EncodeText, WellFormed, Count;
    var input := EncodeEntries(entries) + rest;
    if entries == [] {
      EndMarkerInverse(rest, nodes);
    } else {
      var e := entries[0];
      var tail := EncodeEntries(entries[1..]) + rest;
      var tag := TagOf(e.value);
      assert tag != 0;
      assert input == [tag] + EncodeText(e.name) + (Encode(e.value) + tail);
      EntryHeaderInverse(tag, e.name, Encode(e.value) + tail, nodes);
      RoundTrip(e.value, tail, nodes);
      RoundTripEntries(entries[1..], rest, nodes + Count(e.value));
      assert entries == [Entry(e.name, e.value)] + entries[1..];
    }
  }

  /** What the reader accepted: the encoding of the tree it returns followed by what it left. */
  predicate IsAccepted(tag: byte, input: seq<byte>, nodes: nat, r: Parsed<Tree>) {
    r.Ok? ==>
      && WellFormed(r.value) && TagOf(r.value) == tag
      && input == Encode(r.value) + r.rest
      && r.nodes == nodes + Count(r.value)
  }

  lemma AcceptedList(itemType: byte, items: seq<Tree>, input: seq<byte>, body: seq<byte>, rest: seq<byte>, nodes: nat)
    requires |items| <= MAX_COLLECTION_ITEMS && WellFormedItems(itemType, items)
    requires input == [itemType] + EncodeSigned(|items|, 4) + body && body == EncodeItems(itemType, items) + rest
    ensures IsAccepted(9, input, nodes, Ok(List(itemType, items), rest, nodes + 1 + CountItems(items)))
  {
    hide EncodeSigned, EncodeItems, WellFormedItems, CountItems;
    Regroup([itemType] + EncodeSigned(|items|, 4), EncodeItems(itemType, items), rest);
  }

  lemma AcceptedLeaf(tag: byte, input: seq<byte>, nodes: nat)
    requires tag != 9 && tag != 10
    ensures IsAccepted(tag, input, nodes, ParseLeaf(tag, input, nodes + 1))
  {
    hide ParseLeaf, EncodeLeaf, WellFormedLeaf;
    if ParseLeaf(tag, input, nodes + 1).Ok? { LeafAccepted(tag, input, nodes + 1); }
  }

  /** The reader accepts nothing else: whatever it accepts is the encoding of the well-formed tree
      it returns followed by the input it left, and the node counter is that tree's payload count. */
  lemma {:induction false} Accepted(tag: byte, input: seq<byte>, nodes: nat)
    requires nodes <= MAX_NODES
    ensures IsAccepted(tag, input, nodes, ParsePayload(tag, input, nodes))
    decreases MAX_NODES - nodes, 0
  {
    hide ParseLeaf, ParseListHeader, ParseItems, ParseEntries, EncodeSigned;
    if nodes + 1 <= MAX_NODES && tag == 9 {
      hide IsAccepted;
      var header := ParseListHeader(input, nodes + 1);
      if header.Ok? {
        ListHeaderAccepted(input, nodes + 1);
        var r := ParseItems(header.value.0, header.value.1, header.rest, nodes + 1);
        if r.Ok? {
          AcceptedItems(header.value.0, header.value.1, header.rest, nodes + 1);
          AcceptedList(header.value.0, r.value, input, header.rest, r.rest, nodes);
        }
      }
      NothingAccepted(tag, input, nodes);
    } else if nodes + 1 <= MAX_NODES && tag == 10 {
      if ParseEntries(input, nodes + 1).Ok? { AcceptedEntries(input, nodes + 1); }
    } else if nodes + 1 <= MAX_NODES {
      AcceptedLeaf(tag, input, nodes);
    }
  }

  lemma NothingAccepted(tag: byte, input: seq<byte>, nodes: nat)
    ensures forall e: Error :: IsAccepted(tag, input, nodes, Fail(e))
  {
  }

  lemma {:induction false} AcceptedItems(itemType: byte, count: nat, input: seq<byte>, nodes: nat)
    requires nodes <= MAX_NODES && ParseItems(itemType, count, input, nodes).Ok?
    ensures var r := ParseItems(itemType, count, input, nodes);
            && WellFormedItems(itemType, r.value)
            && input == EncodeItems(itemType, r.value) + r.rest
            && r.nodes == nodes + CountItems(r.value)
    decreases MAX_NODES - nodes, 1
  {
    hide ParseLeaf, EncodeLeaf, WellFormedLeaf, ParseListHeader, ParseEntryHeader;
    if count > 0 {
      var head := ParsePayload(itemType, input, nodes);
      Accepted(itemType, input, nodes);
      AcceptedItems(itemType, count - 1, head.rest, head.nodes);
      var r := ParseItems(itemType, count, input, nodes);
      assert r.value[1..] == ParseItems(itemType, count - 1, head.rest, head.nodes).value;
    }
  }

  lemma {:induction false} AcceptedEntries(input: seq<byte>, nodes: nat)
    requires nodes <= MAX_NODES && ParseEntries(input, nodes).Ok?
    ensures var r := ParseEntries(input, nodes);
            && WellFormedEntries(r.value)
            && input == EncodeEntries(r.value) + r.rest
            && r.nodes == nodes + CountEntries(r.value)
    decreases MAX_NODES - nodes, 1
  {
    hide ParseLeaf, EncodeLeaf, WellFormedLeaf, ParseListHeader, ParseEntryHeader;
    EntryHeaderAccepted(input, nodes);
    match ParseEntryHeader(input, nodes)
    case Ok(None, rest, _) =>
    case Ok(Some(header), rest, _) =>
      var head := ParsePayload(header.0, rest, nodes);
      Accepted(header.0, rest, nodes);
      AcceptedEntries(head.rest, head.nodes);
      var r := ParseEntries(input, nodes);
      assert r.value[1..] == ParseEntries(head.rest, head.nodes).value;
  }

  /** What a whole document must look like to be read as tree `t` with `rest` left over. */
  ghost predicate IsDocument(input: seq<byte>, t: Tree, rest: seq<byte>) {
    && t.Compound? && WellFormed(t) && Count(t) <= MAX_NODES
    && exists name: seq<byte> :: |name| < Pow256(2) && input == [10] + EncodeText(name) + Encode(t) + rest
  }

  /** A byte string is read as a tree if and only if it is a document carrying that tree. */
  lemma RootReadsExactlyDocuments(input: seq<byte>, t: Tree, rest: seq<byte>)
    ensures ParseRoot(input) == Ok(t, rest, Count(t)) <==> IsDocument(input, t, rest)
    ensures ParseRoot(input).Ok? ==> IsDocument(input, ParseRoot(input).value, ParseRoot(input).rest)
  {
    hide ParsePayload, ParseText, WellFormed, Encode, EncodeText, Count;
    if ParseRoot(input).Ok? {
      var name := ParseText(input[1..], 0);
      TextAccepted(input[1..], 0);
      Accepted(10, name.rest, 0);
      var r := ParseRoot(input);
      assert input == [10] + EncodeText(name.value) + Encode(r.value) + r.rest;
    }
    if IsDocument(input, t, rest) {
      var name: seq<byte> :| |name| < Pow256(2) && input == [10] + EncodeText(name) + Encode(t) + rest;
      assert input[1..] == EncodeText(name) + (Encode(t) + rest);
      TextInverse(name, Encode(t) + rest, 0);
      RoundTrip(t, rest, 0);
    }
  }
}
