/** The key/value payload of control messages. */
module KvCodec {
  import opened Bytes

  const MAX_KV: nat := 32

  datatype Item = Item(key: bytes, value: bytes)

  datatype Parsed = Parsed(items: seq<Item>, end: nat)

  /** One entry as the C encoder writes it: both lengths are cut to 16 bits, and so is the text. */
  function EncodeItem(it: Item): (r: bytes)
    ensures |r| == 4 + |it.key| % U16_MODULUS + |it.value| % U16_MODULUS
  {
    var klen, vlen := |it.key| % U16_MODULUS, |it.value| % U16_MODULUS;
    Le16(klen) + Le16(vlen) + it.key[..klen] + it.value[..vlen]
  }

  function EncodeItems(items: seq<Item>): bytes
  {
    if items == [] then [] else EncodeItem(items[0]) + EncodeItems(items[1..])
  }

  /** `usb_responder_protocol_encode_kv`. */
  function EncodeKv(items: seq<Item>): Option<bytes>
  {
    if |items| > MAX_KV then None else Some(Le16(|items|) + EncodeItems(items))
  }

  predicate Short(it: Item)
  {
    |it.key| < U16_MODULUS && |it.value| < U16_MODULUS
  }

  predicate AllShort(items: seq<Item>)
  {
    forall i :: 0 <= i < |items| ==> Short(items[i])
  }

  /** `encode_kv` of the host: `struct.pack` refuses a count or a length above 16 bits. */
  function EncodeKvHost(items: seq<Item>): Option<bytes>
  {
    if |items| < U16_MODULUS && AllShort(items) then Some(Le16(|items|) + EncodeItems(items)) else None
  }

  datatype Entry = Entry(item: Item, next: nat)

  /** The entry of `data` at offset `off`, and the offset behind it. */
  function NextEntry(data: bytes, off: nat): (r: Option<Entry>)
    requires off <= |data|
    ensures r.Some? ==> off < r.value.next <= |data|
  {
    if off + 4 > |data| then None
    else
      var klen, vlen := ReadLe16(data[off..off + 2]), ReadLe16(data[off + 2..off + 4]);
      var key, next := off + 4 + klen, off + 4 + klen + vlen;
      if next > |data| then None else Some(Entry(Item(data[off + 4..key], data[key..next]), next))
  }

  /** Reads `n` entries of `data` from offset `off` on; `end` is the offset behind the last one. */
  function ParseItems(data: bytes, off: nat, n: nat): (r: Option<Parsed>)
    requires off <= |data|
    ensures r.Some? ==> off <= r.value.end <= |data|
    decreases n
  {
    if n == 0 then Some(Parsed([], off))
    else
      match NextEntry(data, off)
      case None => None
      case Some(Entry(it, next)) => Prepend([it], ParseItems(data, next, n - 1))
  }

  function Prepend(got: seq<Item>, r: Option<Parsed>): Option<Parsed>
  {
    match r
    case None => None
    case Some(Parsed(items, end)) => Some(Parsed(got + items, end))
  }

  lemma PrependNil(r: Option<Parsed>)
    ensures Prepend([], r) == r
  {
    if r.Some? {
      assert [] + r.value.items == r.value.items;
    }
  }

  lemma PrependOne(got: seq<Item>, it: Item, r: Option<Parsed>)
    ensures Prepend(got + [it], r) == Prepend(got, Prepend([it], r))
  {
    if r.Some? {
      assert (got + [it]) + r.value.items == got + ([it] + r.value.items);
    }
  }

  function DecodeCounted(data: bytes, maxCount: nat): Option<seq<Item>>
  {
    if |data| < 2 || ReadLe16(data[..2]) > maxCount then None
    else
      match ParseItems(data, 2, ReadLe16(data[..2]))
      case None => None
      case Some(Parsed(items, end)) => if end == |data| then Some(items) else None
  }

  /** `usb_responder_protocol_decode_kv` with room for `MAX_KV` entries. */
  function DecodeKv(data: bytes): Option<seq<Item>>
  {
    DecodeCounted(data, MAX_KV)
  }

  /** The dictionary that the host builds: a later entry replaces an earlier one. */
  function Dictionary(items: seq<Item>): map<bytes, bytes>
  {
    if items == [] then map[]
    else
      var last := items[|items| - 1];
      Dictionary(items[..|items| - 1])[last.key := last.value]
  }

  /** `decode_kv` of the host. */
  function DecodeKvHost(data: bytes): Option<map<bytes, bytes>>
  {
    match DecodeCounted(data, U16_MODULUS)
    case None => None
    case Some(items) => Some(Dictionary(items))
  }

  /** `kv_get`: the first entry whose C string key matches, seen as a C string. */
  function KvGet(items: seq<Item>, key: bytes): Option<bytes>
  {
    if items == [] then None
    else if CString(items[0].key) == key then Some(CString(items[0].value))
    else KvGet(items[1..], key)
  }

  // ---- The growing output buffer -------------------------------------------------------------

  class ByteBuffer {
    var buf: array<byte>
    var used: nat

    ghost predicate Valid()
      reads this
    {
      used <= buf.Length
    }

    ghost function Contents(): bytes
      reads this, buf
      requires Valid()
    {
      buf[..used]
    }

    constructor ()
      ensures Valid() && fresh(buf) && Contents() == []
    {
      buf := new byte[0];
      used := 0;
    }

    /** The reallocation: doubles the capacity until `needed` bytes fit. */
    method Grow(needed: nat)
      requires Valid() && needed > buf.Length
      modifies this
      ensures Valid() && fresh(buf) && buf.Length >= needed
      ensures Contents() == old(Contents()) && used == old(used)
    {
      var newCap := if buf.Length == 0 then 64 else buf.Length;
      while newCap < needed
        invariant newCap > 0 && newCap >= buf.Length
        decreases needed - newCap
      {
        newCap := newCap * 2;
      }
      var next := new byte[newCap];
      for i := 0 to used
        invariant used == old(used) && buf == old(buf) && buf[..] == old(buf[..])
        invariant next[..i] == buf[..i]
      {
        next[i] := buf[i];
      }
      buf := next;
    }

    /** `append_bytes`. */
    method Append(src: bytes)
      requires Valid()
      modifies this, buf
      ensures Valid() && (buf == old(buf) || fresh(buf))
      ensures Contents() == old(Contents()) + src
    {
      var n := |src|;
      ghost var before := Contents();
      if used + n > buf.Length {
        Grow(used + n);
      }
      for i := 0 to n
        invariant used == old(used) && used + n <= buf.Length
        invariant buf == old(buf) || fresh(buf)
        invariant buf[..used + i] == before + src[..i]
      {
        buf[used + i] := src[i];
        assert buf[..used + i + 1] == buf[..used + i] + [src[i]];
        assert src[..i + 1] == src[..i] + [src[i]];
      }
      used := used + n;
      assert src[..n] == src;
    }
  }

  /** The body of the encoder's loop. */
  method AppendItem(out: ByteBuffer, it: Item)
    requires out.Valid()
    modifies out, out.buf
    ensures out.Valid() && (out.buf == old(out.buf) || fresh(out.buf))
    ensures out.Contents() == old(out.Contents()) + EncodeItem(it)
  {
    hide Le16;
    var klen, vlen := |it.key| % U16_MODULUS, |it.value| % U16_MODULUS;
    ghost var before := out.Contents();
    out.Append(Le16(klen) + Le16(vlen));
    if klen > 0 {
      out.Append(it.key[..klen]);
    }
    assert out.Contents() == before + (Le16(klen) + Le16(vlen) + it.key[..klen]);
    if vlen > 0 {
      out.Append(it.value[..vlen]);
    }
    Assoc(before, Le16(klen) + Le16(vlen) + it.key[..klen], it.value[..vlen]);
  }

  /** `usb_responder_protocol_encode_kv` as it fills the buffer. */
  method EncodeKvBuffered(items: seq<Item>) returns (data: Option<bytes>)
    ensures data == EncodeKv(items)
  {
    if |items| > MAX_KV {
      return None;
    }
    var out := new ByteBuffer();
    out.Append(Le16(|items|));
    ghost var done := Le16(|items|);
    for i := 0 to |items|
      invariant out.Valid() && fresh(out) && fresh(out.buf)
      invariant out.Contents() == done
      invariant done + EncodeItems(items[i..]) == EncodeKv(items).value
    {
      AppendItem(out, items[i]);
      EncodeItemsStep(items, i, done);
      done := done + EncodeItem(items[i]);
    }
    assert done + [] == done;
    data := Some(out.buf[..out.used]);
  }

  lemma EncodeItemsStep(items: seq<Item>, i: nat, done: bytes)
    requires i < |items|
    ensures done + EncodeItems(items[i..]) == (done + EncodeItem(items[i])) + EncodeItems(items[i + 1..])
  {
    hide EncodeItem;
    assert items[i..][1..] == items[i + 1..];
  }

  /** One turn of a decoding loop: both lengths, then both texts. */
  method TakeEntry(data: bytes, start: nat) returns (entry: Option<Entry>)
    requires start <= |data|
    ensures entry == NextEntry(data, start)
  {
    hide ReadLe16;
    var off := start;
    if off + 4 > |data| {
      return None;
    }
    var klen, vlen := ReadLe16(data[off..off + 2]), ReadLe16(data[off + 2..off + 4]);
    off := off + 4;
    if off + klen + vlen > |data| {
      return None;
    }
    var key := data[off..off + klen];
    off := off + klen;
    var value := data[off..off + vlen];
    off := off + vlen;
    entry := Some(Entry(Item(key, value), off));
  }

  /** What a decoding loop knows when `n` entries are still to be read. */
  lemma ParseStep(data: bytes, off: nat, n: nat, got: seq<Item>)
    requires off <= |data|
    ensures n == 0 ==> Prepend(got, ParseItems(data, off, n)) == Some(Parsed(got, off))
    ensures n > 0 ==> Prepend(got, ParseItems(data, off, n))
                      == match NextEntry(data, off)
                         case None => None
                         case Some(Entry(it, next)) => Prepend(got + [it], ParseItems(data, next, n - 1))
  {
    hide NextEntry;
    if n == 0 {
      assert got + [] == got;
    } else if NextEntry(data, off).Some? {
      var e := NextEntry(data, off).value;
      PrependOne(got, e.item, ParseItems(data, e.next, n - 1));
    }
  }

  /** `usb_responder_protocol_decode_kv` as it advances through the payload. */
  method DecodeKvAdvancing(data: bytes, maxItems: nat) returns (items: Option<seq<Item>>)
    ensures items == DecodeCounted(data, if maxItems < MAX_KV then maxItems else MAX_KV)
  {
    hide ReadLe16, NextEntry, ParseItems, Prepend;
    if |data| < 2 {
      return None;
    }
    var count := ReadLe16(data[..2]);
    var off := 2;
    if count > maxItems || count > MAX_KV {
      return None;
    }
    var got: seq<Item> := [];
    PrependNil(ParseItems(data, 2, count));
    for i := 0 to count
      invariant 2 <= off <= |data|
      invariant ParseItems(data, 2, count) == Prepend(got, ParseItems(data, off, count - i))
    {
      ParseStep(data, off, count - i, got);
      var entry := TakeEntry(data, off);
      if entry.None? {
        return None;
      }
      off := entry.value.next;
      got := got + [entry.value.item];
    }
    ParseStep(data, off, 0, got);
    items := if off == |data| then Some(got) else None;
  }

  lemma DictionarySnoc(items: seq<Item>, last: Item)
    ensures Dictionary(items + [last]) == Dictionary(items)[last.key := last.value]
  {
    assert (items + [last])[..|items|] == items;
  }

  /** `decode_kv` of the host as it fills its dictionary. */
  method DecodeKvIntoDict(data: bytes) returns (dict: Option<map<bytes, bytes>>)
    ensures dict == DecodeKvHost(data)
  {
    if |data| < 2 {
      return None;
    }
    var count := ReadLe16(data[..2]);
    var off := 2;
    var d: map<bytes, bytes> := map[];
    ghost var got: seq<Item> := [];
    assert d == Dictionary(got);
    hide ReadLe16, NextEntry, ParseItems, Prepend, Dictionary;
    PrependNil(ParseItems(data, 2, count));
    for i := 0 to count
      invariant 2 <= off <= |data| && d == Dictionary(got)
      invariant ParseItems(data, 2, count) == Prepend(got, ParseItems(data, off, count - i))
    {
      ParseStep(data, off, count - i, got);
      var entry := TakeEntry(data, off);
      if entry.None? {
        return None;
      }
      var it := entry.value.item;
      off := entry.value.next;
      d := d[it.key := it.value];
      DictionarySnoc(got, it);
      got := got + [it];
    }
    ParseStep(data, off, 0, got);
    dict := if off != |data| then None else Some(d);
  }

  // ---- Round trips ---------------------------------------------------------------------------

  /** What survives the 16-bit length fields. */
  function Cut(it: Item): Item
  {
    Item(it.key[..|it.key| % U16_MODULUS], it.value[..|it.value| % U16_MODULUS])
  }

  function CutAll(items: seq<Item>): (r: seq<Item>)
    ensures |r| == |items|
  {
    seq(|items|, i requires 0 <= i < |items| => Cut(items[i]))
  }

  /** Decoding one encoded entry. */
  lemma NextOfEncoded(data: bytes, off: nat, it: Item, tail: bytes)
    requires off <= |data| && data[off..] == EncodeItem(it) + tail
    ensures NextEntry(data, off) == Some(Entry(Cut(it), |data| - |tail|))
    ensures data[|data| - |tail|..] == tail
  {
    var c := Cut(it);
    assert data[off..] == Le16(|c.key|) + Le16(|c.value|) + c.key + c.value + tail;
    ReadWrite16(|c.key|);
    ReadWrite16(|c.value|);
    hide Le16, ReadLe16, EncodeItem;
    SplitEntry(data, off, Le16(|c.key|), Le16(|c.value|), c.key, c.value, tail);
  }

  lemma {:induction false} ParseEncoded(data: bytes, off: nat, items: seq<Item>)
    requires off <= |data| && data[off..] == EncodeItems(items)
    ensures ParseItems(data, off, |items|) == Some(Parsed(CutAll(items), |data|))
    decreases |items|
  {
    hide EncodeItem, NextEntry;
    if items != [] {
      var tail := EncodeItems(items[1..]);
      NextOfEncoded(data, off, items[0], tail);
      ParseEncoded(data, |data| - |tail|, items[1..]);
      assert CutAll(items) == [Cut(items[0])] + CutAll(items[1..]);
    }
  }

  lemma SplitEntry(data: bytes, off: nat, k: bytes, v: bytes, key: bytes, value: bytes, tail: bytes)
    requires off <= |data| && |k| == |v| == 2
    requires data[off..] == k + v + key + value + tail
    ensures |data| == off + 4 + |key| + |value| + |tail|
    ensures data[off..off + 2] == k && data[off + 2..off + 4] == v
    ensures data[off + 4..off + 4 + |key|] == key
    ensures data[off + 4 + |key|..off + 4 + |key| + |value|] == value
    ensures data[off + 4 + |key| + |value|..] == tail
  {
    var d := data[off..];
    assert |d| == |data| - off;
    SliceOfDrop(data, off, 0, 2);
    SliceOfDrop(data, off, 2, 4);
    SliceOfDrop(data, off, 4, 4 + |key|);
    SliceOfDrop(data, off, 4 + |key|, 4 + |key| + |value|);
    SliceOfDrop(data, off, 4 + |key| + |value|, |d|);
    PartsOfFive(d, k, v, key, value, tail);
  }

  lemma PartsOfFive(d: bytes, k: bytes, v: bytes, key: bytes, value: bytes, tail: bytes)
    requires |k| == |v| == 2 && d == k + v + key + value + tail
    ensures d[0..2] == k && d[2..4] == v && d[4..4 + |key|] == key
    ensures d[4 + |key|..4 + |key| + |value|] == value && d[4 + |key| + |value|..] == tail
  {
  }

  /** Every list the encoder accepts is parseable, and gives back the text modulo 65536. */
  lemma DecodeEncoded(items: seq<Item>)
    requires |items| <= MAX_KV
    ensures DecodeKv(EncodeKv(items).value) == Some(CutAll(items))
    ensures AllShort(items) ==> DecodeKv(EncodeKv(items).value) == Some(items)
  {
    var data := EncodeKv(items).value;
    assert data[..2] == Le16(|items|) && data[2..] == EncodeItems(items);
    ReadWrite16(|items|);
    ParseEncoded(data, 2, items);
    if AllShort(items) {
      CutShort(items);
    }
  }

  lemma CutShort(items: seq<Item>)
    requires AllShort(items)
    ensures CutAll(items) == items
  {
    forall i | 0 <= i < |items| ensures Cut(items[i]) == items[i] {
      assert Short(items[i]);
    }
  }

  /** Encoding one decoded entry. */
  lemma EncodeOfNext(data: bytes, off: nat)
    requires off <= |data| && NextEntry(data, off).Some?
    ensures var e := NextEntry(data, off).value;
            Short(e.item) && EncodeItem(e.item) == data[off..e.next]
  {
    var k, v := data[off..off + 2], data[off + 2..off + 4];
    WriteRead16(k);
    WriteRead16(v);
    hide Le16, ReadLe16;
    var e := NextEntry(data, off).value;
    var key := off + 4 + |e.item.key|;
    SliceSplit(data, off, off + 2, off + 4);
    SliceSplit(data, off, off + 4, key);
    SliceSplit(data, off, key, e.next);
  }

  lemma {:induction false} EncodeParsed(data: bytes, off: nat, n: nat)
    requires off <= |data| && ParseItems(data, off, n).Some?
    ensures var r := ParseItems(data, off, n).value;
            |r.items| == n && AllShort(r.items) && EncodeItems(r.items) == data[off..r.end]
    decreases n
  {
    hide NextEntry, EncodeItem;
    if n != 0 {
      EncodeOfNext(data, off);
      var e := NextEntry(data, off).value;
      EncodeParsed(data, e.next, n - 1);
      var r, more := ParseItems(data, off, n).value, ParseItems(data, e.next, n - 1).value;
      assert r.items == [e.item] + more.items && r.end == more.end;
      FrontItem(e.item, more.items);
      SliceSplit(data, off, e.next, r.end);
    }
  }

  lemma FrontItem(it: Item, more: seq<Item>)
    ensures EncodeItems([it] + more) == EncodeItem(it) + EncodeItems(more)
    ensures Short(it) && AllShort(more) ==> AllShort([it] + more)
  {
    hide EncodeItem;
    assert ([it] + more)[1..] == more;
  }

  /** The accepted payloads are exactly the encodings of short lists. */
  lemma DecodeKvExact(data: bytes, items: seq<Item>)
    ensures DecodeKv(data) == Some(items)
            <==> |items| <= MAX_KV && AllShort(items) && EncodeKv(items) == Some(data)
  {
    if |items| <= MAX_KV && AllShort(items) && EncodeKv(items) == Some(data) {
      DecodeEncoded(items);
    }
    if DecodeKv(data) == Some(items) {
      EncodeAccepted(data, items);
    }
  }

  lemma EncodeAccepted(data: bytes, items: seq<Item>)
    requires DecodeKv(data) == Some(items)
    ensures |items| <= MAX_KV && AllShort(items) && EncodeKv(items) == Some(data)
  {
    var count := ReadLe16(data[..2]);
    WriteRead16(data[..2]);
    hide Le16, ReadLe16;
    EncodeParsed(data, 2, count);
    assert data == data[..2] + data[2..|data|];
  }

  // ---- C strings and dictionaries ------------------------------------------------------------

  predicate NulFree(items: seq<Item>)
  {
    forall i :: 0 <= i < |items| ==> 0 !in items[i].key && 0 !in items[i].value
  }

  /** The entries as `strlen` and `strcmp` see them. */
  function AsCStrings(items: seq<Item>): (r: seq<Item>)
    ensures |r| == |items|
  {
    seq(|items|, i requires 0 <= i < |items| => Item(CString(items[i].key), CString(items[i].value)))
  }

  lemma ItemShortens(it: Item)
    requires Short(it)
    ensures var c := Item(CString(it.key), CString(it.value));
            |EncodeItem(c)| <= |EncodeItem(it)|
            && (0 in it.key || 0 in it.value ==> |EncodeItem(c)| < |EncodeItem(it)|)
  {
    hide CString, EncodeItem;
    var c := Item(CString(it.key), CString(it.value));
    assert |c.key| == |it.key| ==> c.key == it.key;
    assert |c.value| == |it.value| ==> c.value == it.value;
  }

  lemma {:induction false} CStringsShorten(items: seq<Item>)
    requires AllShort(items)
    ensures |EncodeItems(AsCStrings(items))| <= |EncodeItems(items)|
    ensures !NulFree(items) ==> |EncodeItems(AsCStrings(items))| < |EncodeItems(items)|
  {
    if items != [] {
      CStringsShorten(items[1..]);
      assert AsCStrings(items)[1..] == AsCStrings(items[1..]);
      ItemShortens(items[0]);
      hide EncodeItem;
      if NulFree(items[1..]) && 0 !in items[0].key && 0 !in items[0].value {
        assert items == [items[0]] + items[1..];
        assert NulFree(items);
      }
    }
  }

  lemma CStringsOfNulFree(items: seq<Item>)
    requires NulFree(items)
    ensures AsCStrings(items) == items
  {
    forall i | 0 <= i < |items| ensures AsCStrings(items)[i] == items[i] {
      CStringOfNulFree(items[i].key);
      CStringOfNulFree(items[i].value);
    }
  }

  /** Re-encoding the C view of an accepted payload gives it back exactly when it has no NUL. */
  lemma ReencodeAccepted(data: bytes, items: seq<Item>)
    requires DecodeKv(data) == Some(items)
    ensures EncodeKv(AsCStrings(items)) == Some(data) <==> NulFree(items)
  {
    DecodeKvExact(data, items);
    CStringsShorten(items);
    if NulFree(items) {
      CStringsOfNulFree(items);
    }
  }

  predicate DistinctKeys(items: seq<Item>)
  {
    forall i, j :: 0 <= i < j < |items| ==> items[i].key != items[j].key
  }

  lemma {:induction false} KvGetAt(items: seq<Item>, i: nat)
    requires NulFree(items) && DistinctKeys(items) && i < |items|
    ensures KvGet(items, items[i].key) == Some(items[i].value)
  {
    CStringOfNulFree(items[0].key);
    CStringOfNulFree(items[0].value);
    if i != 0 {
      KvGetAt(items[1..], i - 1);
    }
  }

  lemma {:induction false} KvGetMissing(items: seq<Item>, key: bytes)
    requires NulFree(items)
    requires forall i :: 0 <= i < |items| ==> items[i].key != key
    ensures KvGet(items, key) == None
  {
    if items != [] {
      CStringOfNulFree(items[0].key);
      KvGetMissing(items[1..], key);
    }
  }

  lemma {:induction false} DictionaryAt(items: seq<Item>, key: bytes)
    requires DistinctKeys(items)
    ensures key in Dictionary(items) <==> exists i :: 0 <= i < |items| && items[i].key == key
    ensures forall i :: 0 <= i < |items| && items[i].key == key ==>
              key in Dictionary(items) && Dictionary(items)[key] == items[i].value
  {
    if items != [] {
      var n := |items| - 1;
      DictionaryAt(items[..n], key);
      assert items == items[..n] + [items[n]];
      if items[n].key == key {
        assert forall i :: 0 <= i < |items| && items[i].key == key ==> i == n;
      } else {
        assert forall i :: 0 <= i < |items| && items[i].key == key ==> i < n && items[..n][i].key == key;
      }
    }
  }

  /** With distinct keys the device's first match and the host's dictionary give the same answer. */
  lemma FirstMatchIsDictionary(items: seq<Item>, key: bytes)
    requires NulFree(items) && DistinctKeys(items)
    ensures KvGet(items, key) == if key in Dictionary(items) then Some(Dictionary(items)[key]) else None
  {
    DictionaryAt(items, key);
    if i :| 0 <= i < |items| && items[i].key == key {
      KvGetAt(items, i);
    } else {
      KvGetMissing(items, key);
    }
  }

  /** The host dictionary of a payload that the device accepts holds the device's own entries. */
  lemma HostReadsDevice(items: seq<Item>)
    requires |items| <= MAX_KV && AllShort(items)
    ensures DecodeKvHost(EncodeKv(items).value) == Some(Dictionary(items))
    ensures EncodeKvHost(items) == EncodeKv(items)
  {
    var data := EncodeKv(items).value;
    DecodeEncoded(items);
    assert DecodeCounted(data, U16_MODULUS) == DecodeCounted(data, MAX_KV);
  }
}
