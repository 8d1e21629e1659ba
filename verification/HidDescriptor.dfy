/**
 The report descriptor parser of src/hid_linux.c.  Items are those of the USB Device Class
 Definition for HID 1.11: short items (section 6.2.2.2) have a one-byte prefix and 0, 1, 2 or 4
 data bytes, long items (section 6.2.2.3) the prefix 0xFE, a length, a tag and up to 255 data bytes.
 */
module HidDescriptor {
  import opened Wrappers

  const LONG_ITEM: Byte := 0xFE
  const COLLECTION: Byte := 0xA0
  const END_COLLECTION: Byte := 0xC0
  const REPORT_ID: Byte := 0x84
  const USAGE_PAGE: Byte := 0x04
  const USAGE: Byte := 0x08

  /** The tag of a short item is its prefix without the two size bits. */
  datatype Item =
    | Short(tag: Byte, data: seq<Byte>)
    | Long(tag: Byte, data: seq<Byte>)

  /** What an item can be. */
  predicate Formed(item: Item)
  {
    match item
    case Short(tag, data) => tag % 4 == 0 && (|data| <= 2 || |data| == 4)
    case Long(_, data) => |data| <= 255
  }

  /** One short item has the prefix of the long items. */
  predicate Reserved(item: Item) { item.Short? && item.tag == 0xFC && |item.data| == 2 }

  predicate Encodable(item: Item) { Formed(item) && !Reserved(item) }

  predicate AllEncodable(items: seq<Item>)
  {
    items == [] || (Encodable(items[0]) && AllEncodable(items[1..]))
  }

  function Encode(item: Item): seq<Byte>
    requires Formed(item)
  {
    match item
    case Short(tag, data) => var code: Byte := if |data| == 4 then 3 else |data|; [tag + code] + data
    case Long(tag, data) => [LONG_ITEM, |data|, tag] + data
  }

  function EncodeAll(items: seq<Item>): seq<Byte>
    requires AllEncodable(items)
  {
    if items == [] then [] else Encode(items[0]) + EncodeAll(items[1..])
  }

  function Length(item: Item): (n: nat)
    requires Formed(item)
    ensures 1 <= n
  {
    if item.Short? then 1 + |item.data| else 3 + |item.data|
  }

  lemma LengthOfEncoded(item: Item)
    requires Formed(item)
    ensures |Encode(item)| == Length(item)
  {
  }

  /** Number of data bytes behind the prefix of a short item. */
  function DataSize(prefix: Byte): (n: nat)
    ensures n <= 2 || n == 4
  {
    if prefix % 4 == 3 then 4 else prefix % 4
  }

  /** The item at index i, if it is all there. */
  function ItemAt(bytes: seq<Byte>, i: nat): (item: Option<Item>)
    requires i < |bytes|
    ensures item.Some? ==> Encodable(item.value) && i + Length(item.value) <= |bytes|
  {
    if bytes[i] == LONG_ITEM then
      var size: int := if i + 1 < |bytes| then bytes[i + 1] else 0;
      if |bytes| < i + 3 + size then None else Some(Long(bytes[i + 2], bytes[i + 3..i + 3 + size]))
    else
      var size := DataSize(bytes[i]);
      if |bytes| < i + 1 + size then None
      else Some(Short(bytes[i] - bytes[i] % 4, bytes[i + 1..i + 1 + size]))
  }

  /** The items from index i on, up to the first one that is cut off. */
  function DecodeAt(bytes: seq<Byte>, i: nat): (items: seq<Item>)
    ensures AllEncodable(items)
    decreases |bytes| - i
  {
    if i >= |bytes| then [] else
    match ItemAt(bytes, i)
    case None => []
    case Some(item) => [item] + DecodeAt(bytes, i + Length(item))
  }

  function Decode(bytes: seq<Byte>): seq<Item> { DecodeAt(bytes, 0) }

  // ---------- decoding is the inverse of encoding ----------

  /** text stands in bytes at index i. */
  predicate At(bytes: seq<Byte>, i: nat, text: seq<Byte>)
  {
    i + |text| <= |bytes| && forall k :: 0 <= k < |text| ==> bytes[i + k] == text[k]
  }

  lemma AtConcat(bytes: seq<Byte>, i: nat, a: seq<Byte>, b: seq<Byte>)
    ensures At(bytes, i, a + b) <==> At(bytes, i, a) && At(bytes, i + |a|, b)
  {
    if At(bytes, i, a + b) {
      assert forall k :: 0 <= k < |a| ==> (a + b)[k] == a[k];
      forall k | 0 <= k < |b| ensures bytes[i + |a| + k] == b[k] {
        assert bytes[i + (|a| + k)] == (a + b)[|a| + k];
      }
    }
    if At(bytes, i, a) && At(bytes, i + |a|, b) {
      forall k | 0 <= k < |a + b| ensures bytes[i + k] == (a + b)[k] {
        if |a| <= k {
          assert bytes[i + |a| + (k - |a|)] == b[k - |a|];
        }
      }
    }
  }

  lemma AtMeansSlice(bytes: seq<Byte>, i: nat, text: seq<Byte>)
    ensures At(bytes, i, text) <==> i + |text| <= |bytes| && bytes[i..i + |text|] == text
  {
    if i + |text| <= |bytes| && bytes[i..i + |text|] == text {
      forall k | 0 <= k < |text| ensures bytes[i + k] == text[k] {
        assert bytes[i..i + |text|][k] == text[k];
      }
    }
  }

  /** Whatever surrounds it, an item is found where its encoding stands. */
  lemma EncodedIsFound(bytes: seq<Byte>, i: nat, item: Item)
    requires Encodable(item) && At(bytes, i, Encode(item))
    ensures ItemAt(bytes, i) == Some(item)
  {
    match item
    case Short(tag, data) => ShortIsFound(bytes, i, Encode(item)[0], item);
    case Long(tag, data) => LongIsFound(bytes, i, item);
  }

  lemma ShortIsFound(bytes: seq<Byte>, i: nat, prefix: Byte, item: Item)
    requires item.Short? && Encodable(item) && Encode(item) == [prefix] + item.data && At(bytes, i, [prefix] + item.data)
    ensures ItemAt(bytes, i) == Some(item)
  {
    AtConcat(bytes, i, [prefix], item.data);
    AtMeansSlice(bytes, i + 1, item.data);
    assert bytes[i + 0] == [prefix][0];
    assert Encode(item)[0] == prefix;
    assert DataSize(prefix) == |item.data| && prefix - prefix % 4 == item.tag && prefix != LONG_ITEM;
  }

  lemma LongIsFound(bytes: seq<Byte>, i: nat, item: Item)
    requires item.Long? && Encodable(item) && At(bytes, i, [LONG_ITEM, |item.data|, item.tag] + item.data)
    ensures ItemAt(bytes, i) == Some(item)
  {
    var header: seq<Byte> := [LONG_ITEM, |item.data|, item.tag];
    AtConcat(bytes, i, header, item.data);
    AtMeansSlice(bytes, i + 3, item.data);
    assert bytes[i + 0] == header[0] && bytes[i + 1] == header[1] && bytes[i + 2] == header[2];
  }

  /** An item that is found stands there as its encoding. */
  lemma FoundIsEncoded(bytes: seq<Byte>, i: nat)
    requires i < |bytes| && ItemAt(bytes, i).Some?
    ensures At(bytes, i, Encode(ItemAt(bytes, i).value))
  {
  }

  /** An item survives encoding exactly if it is not the one that looks like a long item. */
  lemma RoundTripExactlyIf(item: Item)
    requires Formed(item)
    ensures ItemAt(Encode(item), 0) == Some(item) <==> !Reserved(item)
  {
    if Encodable(item) {
      EncodedIsFound(Encode(item), 0, item);
    }
  }

  lemma EncodeStep(items: seq<Item>)
    requires AllEncodable(items) && items != []
    ensures Encodable(items[0]) && AllEncodable(items[1..])
    ensures EncodeAll(items) == Encode(items[0]) + EncodeAll(items[1..])
  {
  }

  lemma DecodeStep(bytes: seq<Byte>, i: nat, item: Item)
    requires i < |bytes| && ItemAt(bytes, i) == Some(item)
    ensures DecodeAt(bytes, i) == [item] + DecodeAt(bytes, i + Length(item))
  {
  }

  lemma ConsConcat<T>(all: seq<T>, tail: seq<T>, s: seq<T>, rest: seq<T>)
    requires s != [] && all == [s[0]] + tail && tail == s[1..] + rest
    ensures all == s + rest
  {
  }

  /** An item and, behind it, more items. */
  lemma StandsTogether(bytes: seq<Byte>, i: nat, item: Item, rest: seq<Item>)
    requires Encodable(item) && AllEncodable(rest)
    requires At(bytes, i, Encode(item)) && At(bytes, i + Length(item), EncodeAll(rest))
    ensures At(bytes, i, EncodeAll([item] + rest))
  {
    LengthOfEncoded(item);
    AtConcat(bytes, i, Encode(item), EncodeAll(rest));
    assert ([item] + rest)[1..] == rest;
    EncodeStep([item] + rest);
  }

  /** What is decoded is what stands there. */
  lemma {:induction false} DecodedStandsThere(bytes: seq<Byte>, i: nat)
    requires i <= |bytes|
    ensures At(bytes, i, EncodeAll(DecodeAt(bytes, i)))
    decreases |bytes| - i
  {
    if i < |bytes| && ItemAt(bytes, i).Some? {
      var item := ItemAt(bytes, i).value;
      FoundIsEncoded(bytes, i);
      DecodedStandsThere(bytes, i + Length(item));
      StandsTogether(bytes, i, item, DecodeAt(bytes, i + Length(item)));
    }
  }

  lemma ItemIsFound(bytes: seq<Byte>, i: nat, item: Item, text: seq<Byte>, tail: seq<Byte>) returns (next: nat)
    requires Encodable(item) && text == Encode(item) + tail && At(bytes, i, text)
    ensures i < |bytes| && ItemAt(bytes, i) == Some(item)
    ensures next == i + Length(item) && At(bytes, next, tail) && i + |text| == next + |tail|
  {
    LengthOfEncoded(item);
    AtConcat(bytes, i, Encode(item), tail);
    EncodedIsFound(bytes, i, item);
    next := i + Length(item);
  }

  /** The items are found one after the other from index i to index end. */
  predicate Found(bytes: seq<Byte>, i: nat, items: seq<Item>, end: nat)
    decreases |items|
  {
    if items == [] then i == end
    else i < |bytes| && ItemAt(bytes, i) == Some(items[0]) && Found(bytes, i + Length(items[0]), items[1..], end)
  }

  lemma FoundStep(bytes: seq<Byte>, i: nat, items: seq<Item>, next: nat, rest: seq<Item>, end: nat)
    requires items != [] && i < |bytes| && ItemAt(bytes, i) == Some(items[0])
    requires next == i + Length(items[0]) && rest == items[1..] && Found(bytes, next, rest, end)
    ensures Found(bytes, i, items, end)
  {
  }

  lemma FirstIsFound(bytes: seq<Byte>, i: nat, items: seq<Item>, text: seq<Byte>) returns (next: nat, tail: seq<Byte>)
    requires AllEncodable(items) && items != [] && text == EncodeAll(items) && At(bytes, i, text)
    ensures i < |bytes| && ItemAt(bytes, i) == Some(items[0]) && next == i + Length(items[0])
    ensures AllEncodable(items[1..]) && tail == EncodeAll(items[1..])
    ensures At(bytes, next, tail) && i + |text| == next + |tail|
  {
    EncodeStep(items);
    tail := EncodeAll(items[1..]);
    next := ItemIsFound(bytes, i, items[0], text, tail);
  }

  lemma {:induction false} AllAreFound(bytes: seq<Byte>, i: nat, items: seq<Item>, text: seq<Byte>, end: nat)
    requires AllEncodable(items) && text == EncodeAll(items) && At(bytes, i, text) && end == i + |text|
    ensures Found(bytes, i, items, end)
    decreases |items|
  {
    if items != [] {
      var next, tail := FirstIsFound(bytes, i, items, text);
      var rest := items[1..];
      AllAreFound(bytes, next, rest, tail, end);
      FoundStep(bytes, i, items, next, rest, end);
    }
  }

  lemma {:induction false} FoundIsDecoded(bytes: seq<Byte>, i: nat, items: seq<Item>, end: nat)
    requires Found(bytes, i, items, end)
    ensures DecodeAt(bytes, i) == items + DecodeAt(bytes, end)
    decreases |items|
  {
    if items == [] {
      assert [] + DecodeAt(bytes, i) == DecodeAt(bytes, i);
    } else {
      var next := i + Length(items[0]);
      DecodeStep(bytes, i, items[0]);
      FoundIsDecoded(bytes, next, items[1..], end);
      ConsConcat(DecodeAt(bytes, i), DecodeAt(bytes, next), items, DecodeAt(bytes, end));
    }
  }

  /** And nothing longer does: every list of items the bytes begin with is decoded. */
  lemma DecodedIsLongest(bytes: seq<Byte>, i: nat, items: seq<Item>, text: seq<Byte>, end: nat)
    requires AllEncodable(items) && text == EncodeAll(items) && At(bytes, i, text) && end == i + |text|
    ensures DecodeAt(bytes, i) == items + DecodeAt(bytes, end)
  {
    AllAreFound(bytes, i, items, text, end);
    FoundIsDecoded(bytes, i, items, end);
  }

  lemma RoundTrip(items: seq<Item>)
    requires AllEncodable(items)
    ensures Decode(EncodeAll(items)) == items
  {
    var bytes := EncodeAll(items);
    DecodedIsLongest(bytes, 0, items, bytes, |bytes|);
    assert items + [] == items;
  }

  // ---------- what the items mean to the parser ----------

  datatype Parsed = Parsed(depth: nat, numbered: bool, usagePage: nat, usage: nat)

  /** Little endian. */
  function Value(data: seq<Byte>): nat
  {
    if data == [] then 0 else data[0] as int + 0x100 * Value(data[1..])
  }

  /** The depth is an unsigned int, the usages are 16 bits wide. */
  function Apply(s: Parsed, item: Item): Parsed
  {
    if item.Long? then s
    else if item.tag == COLLECTION then s.(depth := (s.depth + 1) % TWO_TO_THE_32)
    else if item.tag == END_COLLECTION then s.(depth := (s.depth - 1) % TWO_TO_THE_32)
    else if item.tag == REPORT_ID then s.(numbered := true)
    else if item.tag == USAGE_PAGE && s.depth == 0 then s.(usagePage := Value(item.data) % 0x10000)
    else if item.tag == USAGE && s.depth == 0 then s.(usage := Value(item.data) % 0x10000)
    else s
  }

  function Fold(s: Parsed, items: seq<Item>): Parsed
    decreases |items|
  {
    if items == [] then s else Fold(Apply(s, items[0]), items[1..])
  }

  lemma {:induction false} FoldConcat(s: Parsed, a: seq<Item>, b: seq<Item>)
    ensures Fold(s, a + b) == Fold(Fold(s, a), b)
    decreases |a|
  {
    if a == [] {
      assert a + b == b;
    } else {
      assert (a + b)[1..] == a[1..] + b;
      FoldConcat(Apply(s, a[0]), a[1..], b);
    }
  }

  /** The bytes of any items mean what the items mean, whatever trailing piece of an item follows. */
  lemma EncodedMeansTheSame(s: Parsed, items: seq<Item>, text: seq<Byte>, bytes: seq<Byte>)
    requires AllEncodable(items) && text == EncodeAll(items)
    requires At(bytes, 0, text) && DecodeAt(bytes, |text|) == []
    ensures Fold(s, Decode(bytes)) == Fold(s, items)
  {
    DecodedIsLongest(bytes, 0, items, text, |text|);
    assert items + [] == items;
  }

  lemma Little1(data: seq<Byte>)
    requires |data| == 1
    ensures Value(data) == data[0]
  {
  }

  lemma Little2(data: seq<Byte>)
    requires |data| == 2
    ensures Value(data) == data[1] as int * 0x100 + data[0] as int
  {
    Little1(data[1..]);
  }

  lemma Little4(data: seq<Byte>)
    requires |data| == 4
    ensures Value(data) == data[3] as int * 0x100_0000 + data[2] as int * 0x1_0000 + data[1] as int * 0x100
                           + data[0] as int
  {
    var tail := data[1..];
    Little2(tail[1..]);
  }

  /** What the parser is to make of bytes from index i on, starting from s. */
  ghost function Meaning(s: Parsed, bytes: seq<Byte>, i: nat): Parsed
  {
    Fold(s, DecodeAt(bytes, i))
  }

  lemma ItemMeans(s: Parsed, bytes: seq<Byte>, i: nat, item: Item)
    requires i < |bytes| && ItemAt(bytes, i) == Some(item)
    ensures Meaning(s, bytes, i) == Meaning(Apply(s, item), bytes, i + Length(item))
  {
    DecodeStep(bytes, i, item);
    var rest := DecodeAt(bytes, i + Length(item));
    assert ([item] + rest)[1..] == rest;
  }

  /** A long item means nothing; one that is cut off ends the descriptor, however far the parser then jumps. */
  lemma LongMeansNothing(s: Parsed, bytes: seq<Byte>, i: nat, n: nat)
    requires i < |bytes| && bytes[i] == LONG_ITEM && 1 <= n && (i + 1 < |bytes| ==> n == bytes[i + 1] as int + 3)
    ensures Meaning(s, bytes, i) == Meaning(s, bytes, i + n)
  {
    if i + n <= |bytes| && i + 1 < |bytes| {
      ItemMeans(s, bytes, i, Long(bytes[i + 2], bytes[i + 3..i + n]));
    } else {
      assert ItemAt(bytes, i).None?;
    }
  }

  // ---------- what is recorded ----------

  predicate Opens(item: Item) { item.Short? && item.tag == COLLECTION }

  predicate Closes(item: Item) { item.Short? && item.tag == END_COLLECTION }

  function Change(item: Item): int { if Opens(item) then 1 else if Closes(item) then -1 else 0 }

  /** Collections opened minus collections closed. */
  function Count(items: seq<Item>): int
  {
    if items == [] then 0 else Change(items[0]) + Count(items[1..])
  }

  lemma DepthChanges(s: Parsed, item: Item)
    requires s.depth < TWO_TO_THE_32
    ensures Apply(s, item).depth == (s.depth + Change(item)) % TWO_TO_THE_32
  {
  }

  lemma AddModulo(x: int, y: int)
    ensures (x % TWO_TO_THE_32 + y) % TWO_TO_THE_32 == (x + y) % TWO_TO_THE_32
  {
  }

  lemma {:induction false} DepthIsCount(s: Parsed, items: seq<Item>)
    requires s.depth < TWO_TO_THE_32
    ensures Fold(s, items).depth == (s.depth + Count(items)) % TWO_TO_THE_32
    decreases |items|
  {
    if items != [] {
      DepthChanges(s, items[0]);
      AddModulo(s.depth + Change(items[0]), Count(items[1..]));
      DepthIsCount(Apply(s, items[0]), items[1..]);
    }
  }

  /** Item i is a short one with this tag, outside all collections as far as the counter can tell. */
  predicate Counts(items: seq<Item>, i: nat, tag: Byte)
    requires i < |items|
  {
    items[i].Short? && items[i].tag == tag && Count(items[..i]) % 0x1_0000_0000 == 0
  }

  /** The last item that counts, or -1. */
  function LastCounting(items: seq<Item>, tag: Byte): (r: int)
    ensures -1 <= r < |items|
    ensures 0 <= r ==> Counts(items, r, tag)
    ensures forall j :: r < j < |items| ==> !Counts(items, j, tag)
  {
    if items == [] then -1
    else
      var n := |items| - 1;
      assert forall j :: 0 <= j <= n ==> items[..n][..j] == items[..j];
      if Counts(items, n, tag) then n else
      var r := LastCounting(items[..n], tag);
      assert forall j :: 0 <= j < n ==> (Counts(items, j, tag) <==> Counts(items[..n], j, tag));
      r
  }

  function LittleEndian(data: seq<Byte>): nat
  {
    if |data| == 1 then data[0]
    else if |data| == 2 then data[1] as int * 0x100 + data[0] as int
    else if |data| == 4 then data[3] as int * 0x100_0000 + data[2] as int * 0x1_0000 + data[1] as int * 0x100
                             + data[0] as int
    else 0
  }

  lemma ValueIsLittleEndian(data: seq<Byte>)
    requires |data| <= 2 || |data| == 4
    ensures Value(data) == LittleEndian(data)
  {
    if |data| == 1 { Little1(data); } else if |data| == 2 { Little2(data); } else if |data| == 4 { Little4(data); }
  }

  /** The low 16 bits of the last item that counts, or what was there before. */
  function Latest(items: seq<Item>, tag: Byte, before: nat): nat
  {
    var r := LastCounting(items, tag);
    if r < 0 then before else LittleEndian(items[r].data) % 0x10000
  }

  /** Some short item has this tag. */
  predicate Occurs(items: seq<Item>, tag: Byte)
  {
    exists i :: 0 <= i < |items| && items[i].Short? && items[i].tag == tag
  }

  /** What a descriptor leaves: the last top-level usage page and usage, and whether there was a report id. */
  ghost predicate Recorded(s: Parsed, items: seq<Item>, s': Parsed)
  {
    && s'.usagePage == Latest(items, 0x04, s.usagePage)
    && s'.usage == Latest(items, 0x08, s.usage)
    && (s'.numbered <==> s.numbered || Occurs(items, 0x84))
  }

  lemma LatestSnoc(items: seq<Item>, item: Item, tag: Byte, before: nat)
    ensures Latest(items + [item], tag, before) ==
            if item.Short? && item.tag == tag && Count(items) % TWO_TO_THE_32 == 0 then LittleEndian(item.data) % 0x10000
            else Latest(items, tag, before)
  {
    var all := items + [item];
    assert all[..|items|] == items;
  }

  lemma OccursSnoc(items: seq<Item>, item: Item, tag: Byte)
    ensures Occurs(items + [item], tag) <==> Occurs(items, tag) || (item.Short? && item.tag == tag)
  {
    var all := items + [item];
    assert all[|items|] == item && forall i :: 0 <= i < |items| ==> all[i] == items[i];
  }

  /** One item more, after items that leave the counter at s.depth. */
  lemma ApplyRecords(s0: Parsed, items: seq<Item>, s: Parsed, item: Item)
    requires Recorded(s0, items, s) && s.depth == Count(items) % TWO_TO_THE_32 && Formed(item)
    ensures Recorded(s0, items + [item], Apply(s, item))
  {
    LatestSnoc(items, item, 0x04, s0.usagePage);
    LatestSnoc(items, item, 0x08, s0.usage);
    OccursSnoc(items, item, 0x84);
    if item.Short? {
      ValueIsLittleEndian(item.data);
    }
  }

  lemma {:induction false} FoldRecords(s: Parsed, items: seq<Item>)
    requires s.depth == 0 && AllEncodable(items)
    ensures Recorded(s, items, Fold(s, items))
    decreases |items|
  {
    if items == [] {
      assert !Occurs(items, 0x84);
    } else {
      var n := |items| - 1;
      var init, last := items[..n], items[n];
      assert init + [last] == items;
      EncodableParts(items, n);
      FoldRecords(s, init);
      DepthIsCount(s, init);
      FoldConcat(s, init, [last]);
      assert [last][1..] == [] && Fold(Fold(s, init), [last]) == Apply(Fold(s, init), last);
      ApplyRecords(s, init, Fold(s, init), last);
    }
  }

  lemma {:induction false} EncodableParts(items: seq<Item>, n: nat)
    requires AllEncodable(items) && n < |items|
    ensures AllEncodable(items[..n]) && Encodable(items[n])
    decreases |items|
  {
    if 0 < n {
      EncodableParts(items[1..], n - 1);
      assert items[..n][1..] == items[1..][..n - 1];
    }
  }

  /** A keyboard: Usage Page 1, Usage 6. */
  lemma KeyboardIsRecorded(bytes: seq<Byte>, s: Parsed)
    requires bytes == [0x05, 0x01, 0x09, 0x06] && s == Parsed(0, false, 0, 0)
    ensures Fold(s, Decode(bytes)) == Parsed(0, false, 1, 6)
  {
    ItemMeans(s, bytes, 0, Short(0x04, bytes[1..2]));
    Little1(bytes[1..2]);
    var s1 := Apply(s, Short(0x04, bytes[1..2]));
    ItemMeans(s1, bytes, 2, Short(0x08, bytes[3..4]));
    Little1(bytes[3..4]);
    assert DecodeAt(bytes, 4) == [];
  }

  ghost predicate Holds(report: array<Byte>, bytes: seq<Byte>)
    reads report
  {
    |bytes| <= report.Length && forall k :: 0 <= k < |bytes| ==> report[k] == bytes[k]
  }

  class Handle {
    var numberedReports: bool
    var usagePage: nat
    var usage: nat

    function View(depth: nat): Parsed
      reads this
    {
      Parsed(depth, numberedReports, usagePage, usage)
    }

    /** One item of the descriptor; the second switch of parse_descriptor. */
    method Record(tag: Byte, data: nat, depth: nat, ghost item: Item) returns (newDepth: nat)
      requires item.Short? && item.tag == tag && Value(item.data) == data && depth < TWO_TO_THE_32
      modifies this
      ensures newDepth < TWO_TO_THE_32
      ensures View(newDepth) == Apply(old(View(depth)), item)
    {
      newDepth := depth;
      match tag {
        case 0xA0 => newDepth := (depth + 1) % TWO_TO_THE_32;
        case 0xC0 => newDepth := (depth - 1) % TWO_TO_THE_32;
        case 0x84 => numberedReports := true;
        case 0x04 => if depth == 0 { usagePage := data % 0x10000; }
        case 0x08 => if depth == 0 { usage := data % 0x10000; }
        case _ =>
      }
    }

    /** Little endian, as parse_descriptor assembles it. */
    static method ReadData(report: array<Byte>, i: nat, size: nat, ghost bytes: seq<Byte>) returns (data: nat)
      requires Holds(report, bytes)
      requires i + size < |bytes| && (size <= 2 || size == 4)
      ensures data == Value(bytes[i + 1..i + 1 + size])
    {
      if size == 0 {
        data := 0;
      } else if size == 1 {
        data := report[i + 1];
        Little1(bytes[i + 1..i + 2]);
      } else if size == 2 {
        data := report[i + 2] as int * 0x100 + report[i + 1] as int;
        Little2(bytes[i + 1..i + 3]);
      } else {
        data := report[i + 4] as int * 0x100_0000 + report[i + 3] as int * 0x1_0000
          + report[i + 2] as int * 0x100 + report[i + 1] as int;
        Little4(bytes[i + 1..i + 5]);
      }
    }

    /** Everything after the long-item test in one turn of the loop; done is its early return. */
    method ShortItem(report: array<Byte>, reportSize: nat, i: nat, depth: nat, ghost bytes: seq<Byte>)
      returns (size: nat, newDepth: nat, done: bool)
      requires Holds(report, bytes)
      requires i < reportSize == |bytes| && report[i] != LONG_ITEM && depth < TWO_TO_THE_32
      modifies this
      ensures newDepth < TWO_TO_THE_32
      ensures done <==> i + size >= |bytes|
      ensures Meaning(old(View(depth)), bytes, i)
           == if done then View(newDepth) else Meaning(View(newDepth), bytes, i + (size + 1))
    {
      var prefix := report[i];
      newDepth, done := depth, false;
      size := DataSize(prefix);
      if i + size >= reportSize {
        assert ItemAt(bytes, i).None?;
        done := true;
        return;
      }
      var data := ReadData(report, i, size, bytes);
      ghost var item := Short(prefix - prefix % 4, bytes[i + 1..i + 1 + size]);
      ItemMeans(View(depth), bytes, i, item);
      newDepth := Record(prefix - prefix % 4, data, depth, item);
    }

    method LongItem(report: array<Byte>, reportSize: nat, i: nat, size: nat, ghost s: Parsed, ghost bytes: seq<Byte>)
      returns (newSize: nat)
      requires Holds(report, bytes) && i < reportSize == |bytes| && report[i] == LONG_ITEM
      ensures Meaning(s, bytes, i) == Meaning(s, bytes, i + (newSize + 1))
    {
      newSize := size;
      if i + 1 < reportSize {
        newSize := report[i + 1] as int + 2;
      }
      LongMeansNothing(s, bytes, i, newSize + 1);
    }

    /** Any bytes: stays inside the descriptor and computes the meaning of the longest decodable prefix. */
    method ParseDescriptor(report: array<Byte>, reportSize: nat)
      requires reportSize <= report.Length
      modifies this
      ensures View(0) == Fold(old(View(0)), Decode(report[..reportSize])).(depth := 0)
      ensures Recorded(old(View(0)), Decode(report[..reportSize]), View(0))
    {
      ghost var bytes := report[..reportSize];
      ghost var s0 := View(0);
      FoldRecords(s0, Decode(bytes));
      var depth: nat, size: nat, done := 0, 0, false;
      var i := 0;
      while i < reportSize && !done
        invariant depth < TWO_TO_THE_32
        invariant Meaning(s0, bytes, 0) == if done then View(depth) else Meaning(View(depth), bytes, i)
        decreases reportSize - i, !done
      {
        if report[i] == LONG_ITEM {
          size := LongItem(report, reportSize, i, size, View(depth), bytes);
          i := i + size + 1;
        } else {
          size, depth, done := ShortItem(report, reportSize, i, depth, bytes);
          i := i + size + 1;
        }
      }
    }
  }

  // ---------- collections ----------

  /** Started with d collections open, the items close them all and every one they open. */
  predicate Closed(items: seq<Item>, d: nat)
    decreases |items|
  {
    if items == [] then d == 0
    else if Opens(items[0]) then Closed(items[1..], d + 1)
    else if Closes(items[0]) then 0 < d && Closed(items[1..], d - 1)
    else Closed(items[1..], d)
  }

  /** The largest number of collections open at once. */
  function Height(items: seq<Item>, d: nat): (h: nat)
    ensures d <= h <= d + |items|
    decreases |items|
  {
    if items == [] then d
    else
      var d' := if Opens(items[0]) then d + 1 else if Closes(items[0]) && 0 < d then d - 1 else d;
      var h := Height(items[1..], d');
      if h < d then d else h
  }

  /** A collection, a balanced body, and its end. */
  predicate IsBlock(items: seq<Item>)
  {
    2 <= |items| && Opens(items[0]) && Closes(items[|items| - 1]) && Closed(items[1..|items| - 1], 0)
  }

  function BlockHeight(block: seq<Item>): nat
    requires IsBlock(block)
  {
    1 + Height(block[1..|block| - 1], 0)
  }

  /** No collection is ended that was not opened, starting with d open. */
  predicate NoStrayEnd(items: seq<Item>, d: nat)
    decreases |items|
  {
    items == [] ||
    if Opens(items[0]) then NoStrayEnd(items[1..], d + 1)
    else if Closes(items[0]) then 0 < d && NoStrayEnd(items[1..], d - 1)
    else NoStrayEnd(items[1..], d)
  }

  predicate Numbers(items: seq<Item>)
    decreases |items|
  {
    items != [] && ((items[0].Short? && items[0].tag == REPORT_ID) || Numbers(items[1..]))
  }

  lemma {:induction false} NumbersConcat(a: seq<Item>, b: seq<Item>)
    ensures Numbers(a + b) <==> Numbers(a) || Numbers(b)
    decreases |a|
  {
    if a == [] {
      assert a + b == b;
    } else {
      assert (a + b)[1..] == a[1..] + b;
      NumbersConcat(a[1..], b);
    }
  }

  /** Inside a collection only report ids are recorded: the depth is back to base without having been 0. */
  lemma {:induction false} BodyIsInert(s: Parsed, items: seq<Item>, d: nat, base: nat)
    requires Closed(items, d) && 1 <= base && s.depth == base + d && base + Height(items, d) < TWO_TO_THE_32
    ensures Fold(s, items) == s.(depth := base, numbered := s.numbered || Numbers(items))
    decreases |items|
  {
    if items != [] {
      var d' := if Opens(items[0]) then d + 1 else if Closes(items[0]) then d - 1 else d;
      assert Height(items[1..], d') <= Height(items, d) && d <= Height(items, d);
      BodyIsInert(Apply(s, items[0]), items[1..], d', base);
    }
  }

  /** A balanced block leaves nothing behind but the fact that reports are numbered. */
  lemma BlockIsInert(s: Parsed, block: seq<Item>)
    requires IsBlock(block) && s.depth + BlockHeight(block) < TWO_TO_THE_32
    ensures Fold(s, block) == s.(numbered := s.numbered || Numbers(block))
  {
    var body, last := block[1..|block| - 1], block[|block| - 1];
    BodyIsInert(Apply(s, block[0]), body, 0, s.depth + 1);
    assert block[1..] == body + [last];
    FoldConcat(Apply(s, block[0]), body, [last]);
    NumbersConcat(body, [last]);
  }

  /** The numbered flag takes no part in the rest. */
  lemma {:induction false} NumberedIsApart(s: Parsed, b: bool, items: seq<Item>)
    ensures Fold(s.(numbered := s.numbered || b), items)
         == Fold(s, items).(numbered := Fold(s, items).numbered || b)
    decreases |items|
  {
    if items != [] {
      NumberedIsApart(Apply(s, items[0]), b, items[1..]);
      assert Apply(s.(numbered := s.numbered || b), items[0])
          == Apply(s, items[0]).(numbered := Apply(s, items[0]).numbered || b);
    }
  }

  /** Without stray ends the depth is the true nesting, so it never wraps around. */
  lemma {:induction false} DepthIsNesting(s: Parsed, items: seq<Item>, d: nat)
    requires NoStrayEnd(items, d) && s.depth == d && d + |items| < TWO_TO_THE_32
    ensures Fold(s, items).depth <= d + |items|
    decreases |items|
  {
    if items != [] {
      var d' := if Opens(items[0]) then d + 1 else if Closes(items[0]) then d - 1 else d;
      DepthIsNesting(Apply(s, items[0]), items[1..], d');
    }
  }

  /**
   Inserting a balanced block anywhere behind items without stray ends (or deleting one, read the
   other way) changes neither usage nor usage page.  No descriptor has 2^32 bytes, let alone items.
   */
  lemma InsertedBlockIsHarmless(s: Parsed, a: seq<Item>, block: seq<Item>, c: seq<Item>)
    requires s.depth == 0 && NoStrayEnd(a, 0) && IsBlock(block) && |a| + |block| < TWO_TO_THE_32
    ensures var with, without := Fold(s, a + block + c), Fold(s, a + c);
            with == without.(numbered := without.numbered || Numbers(block))
  {
    DepthIsNesting(s, a, 0);
    var s1 := Fold(s, a);
    FoldConcat(s, a + block, c);
    FoldConcat(s, a, block);
    FoldConcat(s, a, c);
    BlockIsInert(s1, block);
    NumberedIsApart(s1, Numbers(block), c);
  }

  // ---------- and exactly when it does ----------

  ghost predicate Harmless(s: Parsed, height: nat)
  {
    forall block :: IsBlock(block) && BlockHeight(block) <= height ==>
      Fold(s, block).usagePage == s.usagePage && Fold(s, block).usage == s.usage
  }

  /** height collections inside each other, a usage page in the innermost. */
  function Nest(height: nat, page: Byte): seq<Item>
  {
    if height == 0 then [Short(USAGE_PAGE, [page])]
    else [Short(COLLECTION, [])] + Nest(height - 1, page) + [Short(END_COLLECTION, [])]
  }

  lemma {:induction false} ClosedConcat(a: seq<Item>, d: nat, b: seq<Item>, e: nat)
    requires Closed(a, d) && Closed(b, e)
    ensures Closed(a + b, d + e)
    ensures Height(a + b, d + e) <= if Height(a, d) + e < Height(b, e) then Height(b, e) else Height(a, d) + e
    decreases |a|
  {
    if a == [] {
      assert a + b == b;
    } else {
      assert (a + b)[1..] == a[1..] + b;
      var d' := if Opens(a[0]) then d + 1 else if Closes(a[0]) then d - 1 else d;
      ClosedConcat(a[1..], d', b, e);
    }
  }

  lemma EndAlone(end: Item)
    requires Closes(end)
    ensures Closed([end], 1) && Height([end], 1) == 1
  {
    assert [end][1..] == [] && Height([], 0) == 0 && Closed([], 0);
  }

  lemma {:induction false} NestIsBlock(height: nat, page: Byte)
    ensures Closed(Nest(height, page), 0) && Height(Nest(height, page), 0) <= height
    ensures 0 < height ==> IsBlock(Nest(height, page)) && BlockHeight(Nest(height, page)) <= height
  {
    var nest := Nest(height, page);
    if height == 0 {
      assert nest[1..] == [];
    } else {
      var inner, last := Nest(height - 1, page), [Short(END_COLLECTION, [])];
      NestIsBlock(height - 1, page);
      assert nest[1..|nest| - 1] == inner;
      assert nest[1..] == inner + last;
      EndAlone(last[0]);
      ClosedConcat(inner, 0, last, 1);
    }
  }

  /** The depth counter wraps to 0 exactly in the innermost collection. */
  lemma {:induction false} NestIsRecorded(s: Parsed, height: nat, page: Byte)
    requires s.depth < TWO_TO_THE_32 && s.depth + height == if height == 0 then 0 else TWO_TO_THE_32
    ensures Fold(s, Nest(height, page)).usagePage == page
    decreases height
  {
    if height == 0 {
      Little1([page]);
      assert Fold(s, Nest(0, page)) == Fold(Apply(s, Short(USAGE_PAGE, [page])), []);
    } else {
      var inner, last := Nest(height - 1, page), Short(END_COLLECTION, []);
      var s1 := Apply(s, Short(COLLECTION, []));
      NestIsRecorded(s1, height - 1, page);
      assert Nest(height, page)[1..] == inner + [last];
      FoldConcat(s1, inner, [last]);
      assert Fold(Fold(s1, inner), [last]) == Apply(Fold(s1, inner), last);
    }
  }

  /** Blocks of some height are harmless exactly if the depth counter leaves room for them. */
  lemma HarmlessIfRoom(s: Parsed, height: nat)
    requires 1 <= height && s.depth < TWO_TO_THE_32
    ensures Harmless(s, height) <==> s.depth + height < TWO_TO_THE_32
  {
    if s.depth + height < TWO_TO_THE_32 {
      forall block | IsBlock(block) && BlockHeight(block) <= height
        ensures Fold(s, block).usagePage == s.usagePage && Fold(s, block).usage == s.usage
      {
        BlockIsInert(s, block);
      }
    } else {
      var page: Byte := if s.usagePage == 0 then 1 else 0;
      var n := TWO_TO_THE_32 - s.depth;
      NestIsBlock(n, page);
      NestIsRecorded(s, n, page);
    }
  }

  /**
   Behind the items a of a descriptor, blocks of some height are harmless exactly if the collections
   that a leaves open, counted modulo 2^32, leave room for them.
   */
  lemma HarmlessExactlyIf(s: Parsed, a: seq<Item>, height: nat)
    requires 1 <= height && s.depth == 0
    ensures Harmless(Fold(s, a), height) <==> Count(a) % TWO_TO_THE_32 + height < TWO_TO_THE_32
  {
    DepthIsCount(s, a);
    HarmlessIfRoom(Fold(s, a), height);
  }

  /** After one End Collection too many, no block is safe. */
  lemma StrayEndCollection(s: Parsed)
    requires s.depth == 0
    ensures !Harmless(Fold(s, [Short(END_COLLECTION, [])]), 1)
  {
    var end := Short(END_COLLECTION, []);
    assert [end][1..] == [] && Count([end]) == -1;
    HarmlessExactlyIf(s, [end], 1);
  }
}
