/** The binary NBT format: typed trees, their big-endian encoding, and the reader's grammar. */
module NbtFormat {
  import opened Options

  type byte = b: int | 0 <= b < 256

  const MAX_COLLECTION_ITEMS := 100_000
  const MAX_NODES := 100_000

  datatype Error =
    | RootNotCompound
    | NodeLimit
    | NegativeLength
    | LengthLimit
    | Truncated
    | UnsupportedTag

  /** A typed payload: integers and integer arrays by byte width, floats as the bit patterns they
      were read from, text as raw bytes. */
  datatype Tree =
    | End
    | Integer(width: nat, value: int)
    | Real(width: nat, bits: nat)
    | ByteArray(bytes: seq<byte>)
    | Text(text: seq<byte>)
    | List(itemType: byte, items: seq<Tree>)
    | Compound(entries: seq<Entry>)
    | IntegerArray(width: nat, values: seq<int>)

  datatype Entry = Entry(name: seq<byte>, value: Tree)

  /** What the parser has produced, what is left of the input, and the node counter. */
  datatype Parsed<+T> = Ok(value: T, rest: seq<byte>, nodes: nat) | Fail(error: Error)

  // ---------------------------------------------------------------- integers

  function Pow256(k: nat): (p: nat)
    ensures p > 0
  {
    if k == 0 then 1 else 256 * Pow256(k - 1)
  }

  /** Big-endian bytes of `n`. */
  function ToBytes(n: int, size: nat): (bs: seq<byte>)
    ensures |bs| == size
    decreases size
  {
    if size == 0 then [] else ToBytes(n / 256, size - 1) + [n % 256]
  }

  function FromBytes(bs: seq<byte>): (n: nat)
    ensures n < Pow256(|bs|)
  {
    if bs == [] then 0 else 256 * FromBytes(bs[..|bs| - 1]) + bs[|bs| - 1]
  }

  lemma {:induction false} FromToBytes(n: int, size: nat)
    requires 0 <= n < Pow256(size)
    ensures FromBytes(ToBytes(n, size)) == n
  {
    if size != 0 {
      FromToBytes(n / 256, size - 1);
      var bs := ToBytes(n, size);
      assert bs[..|bs| - 1] == ToBytes(n / 256, size - 1);
    }
  }

  lemma {:induction false} ToFromBytes(bs: seq<byte>)
    ensures ToBytes(FromBytes(bs), |bs|) == bs
  {
    if bs != [] {
      ToFromBytes(bs[..|bs| - 1]);
      assert bs == bs[..|bs| - 1] + [bs[|bs| - 1]];
    }
  }

  function Half(size: nat): (h: int)
    requires size > 0
    ensures h > 0 && 2 * h == Pow256(size)
  {
    128 * Pow256(size - 1)
  }

  /** Two's complement reading of `size` bytes. */
  function Signed(n: nat, size: nat): (v: int)
    requires size > 0 && n < Pow256(size)
    ensures -Half(size) <= v < Half(size)
  {
    if n < Half(size) then n else n - Pow256(size)
  }

  function Unsigned(v: int, size: nat): (n: nat)
    requires size > 0 && -Half(size) <= v < Half(size)
    ensures n < Pow256(size) && Signed(n, size) == v
  {
    if v >= 0 then v else v + Pow256(size)
  }

  predicate FitsSigned(v: int, size: nat)
    requires size > 0
  {
    -Half(size) <= v < Half(size)
  }

  function EncodeSigned(v: int, size: nat): (bs: seq<byte>)
    requires size > 0
    ensures |bs| == size
  {
    ToBytes(if v >= 0 then v else v + Pow256(size), size)
  }

  function DecodeSigned(bs: seq<byte>): (v: int)
    requires |bs| > 0
    ensures FitsSigned(v, |bs|)
  {
    Signed(FromBytes(bs), |bs|)
  }

  lemma SignedInverse(v: int, size: nat)
    requires size > 0 && FitsSigned(v, size)
    ensures DecodeSigned(EncodeSigned(v, size)) == v
  {
    FromToBytes(Unsigned(v, size), size);
  }

  lemma SignedInverseBytes(bs: seq<byte>)
    requires |bs| > 0
    ensures EncodeSigned(DecodeSigned(bs), |bs|) == bs
  {
    ToFromBytes(bs);
  }

  // ---------------------------------------------------------------- encoding

  function TagOf(t: Tree): byte {
    match t
    case End => 0
    case Integer(width, _) => if width == 1 then 1 else if width == 2 then 2 else if width == 4 then 3 else 4
    case Real(width, _) => if width == 4 then 5 else 6
    case ByteArray(_) => 7
    case Text(_) => 8
    case List(_, _) => 9
    case Compound(_) => 10
    case IntegerArray(width, _) => if width == 4 then 11 else 12
  }

  /** Payloads that hold no further payloads. */
  predicate IsLeaf(t: Tree) {
    !t.List? && !t.Compound?
  }

  predicate WellFormedLeaf(t: Tree)
    requires IsLeaf(t)
  {
    match t
    case End => true
    case Integer(width, v) => width in {1, 2, 4, 8} && FitsSigned(v, width)
    case Real(width, bits) => width in {4, 8} && bits < Pow256(width)
    case ByteArray(bs) => |bs| <= MAX_COLLECTION_ITEMS
    case Text(bs) => |bs| < Pow256(2)
    case IntegerArray(width, vs) =>
      width in {4, 8} && |vs| <= MAX_COLLECTION_ITEMS && (forall v <- vs :: FitsSigned(v, width))
  }

  /** The trees the format can carry: numbers in range, lengths within the reader's limits,
      lists of a single type, and no end marker as a compound value. */
  predicate WellFormed(t: Tree)
    decreases t, 0
  {
    match t
    case List(itemType, items) => |items| <= MAX_COLLECTION_ITEMS && WellFormedItems(itemType, items)
    case Compound(entries) => WellFormedEntries(entries)
    case _ => WellFormedLeaf(t)
  }

  predicate WellFormedItems(itemType: byte, items: seq<Tree>)
    decreases items, 0
  {
    items != [] ==> TagOf(items[0]) == itemType && WellFormed(items[0]) && WellFormedItems(itemType, items[1..])
  }

  predicate WellFormedEntries(entries: seq<Entry>)
    decreases entries, 0
  {
    entries != [] ==>
      && |entries[0].name| < Pow256(2) && !entries[0].value.End?
      && WellFormed(entries[0].value) && WellFormedEntries(entries[1..])
  }

  function EncodeText(bs: seq<byte>): seq<byte> {
    ToBytes(|bs|, 2) + bs
  }

  function EncodeInts(vs: seq<int>, size: nat): (bs: seq<byte>)
    requires size > 0
    ensures |bs| == size * |vs|
  {
    if vs == [] then [] else EncodeSigned(vs[0], size) + EncodeInts(vs[1..], size)
  }

  function EncodeLeaf(t: Tree): seq<byte>
    requires IsLeaf(t) && WellFormedLeaf(t)
  {
    match t
    case End => []
    case Integer(width, v) => EncodeSigned(v, width)
    case Real(width, bits) => ToBytes(bits, width)
    case ByteArray(bs) => EncodeSigned(|bs|, 4) + bs
    case Text(bs) => EncodeText(bs)
    case IntegerArray(width, vs) => EncodeSigned(|vs|, 4) + EncodeInts(vs, width)
  }

  /** The reference encoder: payload bytes without the leading tag byte. */
  function Encode(t: Tree): seq<byte>
    requires WellFormed(t)
    decreases t, 0
  {
    match t
    case List(itemType, items) => [itemType] + EncodeSigned(|items|, 4) + EncodeItems(itemType, items)
    case Compound(entries) => EncodeEntries(entries)
    case _ => EncodeLeaf(t)
  }

  function EncodeItems(itemType: byte, items: seq<Tree>): seq<byte>
    requires WellFormedItems(itemType, items)
    decreases items, 0
  {
    if items == [] then [] else Encode(items[0]) + EncodeItems(itemType, items[1..])
  }

  function EncodeEntries(entries: seq<Entry>): seq<byte>
    requires WellFormedEntries(entries)
    decreases entries, 0
  {
    if entries == [] then [0]
    else
      [TagOf(entries[0].value)] + EncodeText(entries[0].name) + Encode(entries[0].value)
      + EncodeEntries(entries[1..])
  }

  /** How many payloads a tree has: what the reader's node counter counts. */
  function Count(t: Tree): (n: nat)
    ensures n > 0
    decreases t, 0
  {
    match t
    case List(_, items) => 1 + CountItems(items)
    case Compound(entries) => 1 + CountEntries(entries)
    case _ => 1
  }

  function CountItems(items: seq<Tree>): (n: nat)
    ensures n >= |items|
    decreases items, 0
  {
    if items == [] then 0 else Count(items[0]) + CountItems(items[1..])
  }

  function CountEntries(entries: seq<Entry>): (n: nat)
    ensures n >= |entries|
    decreases entries, 0
  {
    if entries == [] then 0 else Count(entries[0].value) + CountEntries(entries[1..])
  }

  // ----------------------------------------------------------------- parsing

  /** A collection length: a signed 32-bit integer, then the range check. */
  function ParseLength(input: seq<byte>, nodes: nat): (r: Parsed<nat>)
    ensures r.Ok? ==> r.nodes == nodes && |input| >= 4 && r.rest == input[4..] && r.value <= MAX_COLLECTION_ITEMS
  {
    if |input| < 4 then Fail(Truncated)
    else
      var length := DecodeSigned(input[..4]);
      if length < 0 then Fail(NegativeLength)
      else if length > MAX_COLLECTION_ITEMS then Fail(LengthLimit)
      else Ok(length, input[4..], nodes)
  }

  function ParseText(input: seq<byte>, nodes: nat): (r: Parsed<seq<byte>>)
    ensures r.Ok? ==> r.nodes == nodes && |r.rest| < |input|
  {
    if |input| < 2 then Fail(Truncated)
    else
      var length := FromBytes(input[..2]);
      if |input| - 2 < length then Fail(Truncated)
      else Ok(input[2..2 + length], input[2 + length..], nodes)
  }

  function ParseInts(count: nat, size: nat, input: seq<byte>, nodes: nat): (r: Parsed<seq<int>>)
    requires size > 0
    ensures r.Ok? ==> r.nodes == nodes && |r.value| == count
  {
    if count == 0 then Ok([], input, nodes)
    else if |input| < size then Fail(Truncated)
    else
      match ParseInts(count - 1, size, input[size..], nodes)
      case Fail(e) => Fail(e)
      case Ok(vs, rest, n) => Ok([DecodeSigned(input[..size])] + vs, rest, n)
  }

  /** The payloads that need no recursion; `n` is the counter after this payload was counted. */
  function ParseLeaf(tag: byte, input: seq<byte>, n: nat): (r: Parsed<Tree>)
    requires tag != 9 && tag != 10
    ensures r.Ok? ==> r.nodes == n
  {
    if tag == 0 then Ok(End, input, n)
    else if tag <= 4 then
      var width := if tag == 1 then 1 else if tag == 2 then 2 else if tag == 3 then 4 else 8;
      if |input| < width then Fail(Truncated)
      else Ok(Integer(width, DecodeSigned(input[..width])), input[width..], n)
    else if tag <= 6 then
      var width := if tag == 5 then 4 else 8;
      if |input| < width then Fail(Truncated)
      else Ok(Real(width, FromBytes(input[..width])), input[width..], n)
    else if tag == 7 then
      match ParseLength(input, n)
      case Fail(e) => Fail(e)
      case Ok(length, rest, _) =>
        if |rest| < length then Fail(Truncated) else Ok(ByteArray(rest[..length]), rest[length..], n)
    else if tag == 8 then
      match ParseText(input, n)
      case Fail(e) => Fail(e)
      case Ok(text, rest, _) => Ok(Text(text), rest, n)
    else if tag <= 12 then
      match ParseLength(input, n)
      case Fail(e) => Fail(e)
      case Ok(length, rest, _) =>
        var width := if tag == 11 then 4 else 8;
        match ParseInts(length, width, rest, n)
        case Fail(e) => Fail(e)
        case Ok(vs, rest', _) => Ok(IntegerArray(width, vs), rest', n)
    else Fail(UnsupportedTag)
  }

  /** The item type and the item count a list starts with. */
  function ParseListHeader(input: seq<byte>, nodes: nat): (r: Parsed<(byte, nat)>)
    ensures r.Ok? ==> r.nodes == nodes
  {
    if |input| < 1 then Fail(Truncated)
    else
      match ParseLength(input[1..], nodes)
      case Fail(e) => Fail(e)
      case Ok(length, rest, _) => Ok((input[0], length), rest, nodes)
  }

  /** The tag and name a compound entry starts with, or `None` for the end marker. */
  function ParseEntryHeader(input: seq<byte>, nodes: nat): (r: Parsed<Option<(byte, seq<byte>)>>)
    ensures r.Ok? ==> r.nodes == nodes
  {
    if |input| < 1 then Fail(Truncated)
    else if input[0] == 0 then Ok(None, input[1..], nodes)
    else
      match ParseText(input[1..], nodes)
      case Fail(e) => Fail(e)
      case Ok(name, rest, _) => Ok(Some((input[0], name)), rest, nodes)
  }

  /** One payload of the given tag. The recursion ends because every payload uses up one node of
      the budget, including the empty end payloads a list may hold. */
  function ParsePayload(tag: byte, input: seq<byte>, nodes: nat): (r: Parsed<Tree>)
    requires nodes <= MAX_NODES
    ensures r.Ok? ==> nodes < r.nodes <= MAX_NODES
    decreases MAX_NODES - nodes, 0
  {
    if nodes + 1 > MAX_NODES then Fail(NodeLimit)
    else if tag == 9 then
      match ParseListHeader(input, nodes + 1)
      case Fail(e) => Fail(e)
      case Ok(header, rest, _) =>
        match ParseItems(header.0, header.1, rest, nodes + 1)
        case Fail(e) => Fail(e)
        case Ok(items, rest', n) => Ok(List(header.0, items), rest', n)
    else if tag == 10 then
      match ParseEntries(input, nodes + 1)
      case Fail(e) => Fail(e)
      case Ok(entries, rest, n) => Ok(Compound(entries), rest, n)
    else ParseLeaf(tag, input, nodes + 1)
  }

  function ParseItems(itemType: byte, count: nat, input: seq<byte>, nodes: nat): (r: Parsed<seq<Tree>>)
    requires nodes <= MAX_NODES
    ensures r.Ok? ==> nodes <= r.nodes <= MAX_NODES && |r.value| == count
    decreases MAX_NODES - nodes, 1
  {
    if count == 0 then Ok([], input, nodes)
    else
      match ParsePayload(itemType, input, nodes)
      case Fail(e) => Fail(e)
      case Ok(t, rest, n) =>
        match ParseItems(itemType, count - 1, rest, n)
        case Fail(e) => Fail(e)
        case Ok(ts, rest', n') => Ok([t] + ts, rest', n')
  }

  function ParseEntries(input: seq<byte>, nodes: nat): (r: Parsed<seq<Entry>>)
    requires nodes <= MAX_NODES
    ensures r.Ok? ==> nodes <= r.nodes <= MAX_NODES
    decreases MAX_NODES - nodes, 1
  {
    match ParseEntryHeader(input, nodes)
    case Fail(e) => Fail(e)
    case Ok(None, rest, _) => Ok([], rest, nodes)
    case Ok(Some(header), rest, _) =>
      match ParsePayload(header.0, rest, nodes)
      case Fail(e) => Fail(e)
      case Ok(t, rest', n) =>
        match ParseEntries(rest', n)
        case Fail(e) => Fail(e)
        case Ok(es, rest'', n') => Ok([Entry(header.1, t)] + es, rest'', n')
  }

  /** A root document: a compound tag, a name that is skipped, and the compound's payload. */
  function ParseRoot(input: seq<byte>): (r: Parsed<Tree>)
    ensures r.Ok? ==> r.nodes <= MAX_NODES
  {
    if |input| < 1 then Fail(Truncated)
    else if input[0] != 10 then Fail(RootNotCompound)
    else
      match ParseText(input[1..], 0)
      case Fail(e) => Fail(e)
      case Ok(_, rest, _) => ParsePayload(10, rest, 0)
  }
}
