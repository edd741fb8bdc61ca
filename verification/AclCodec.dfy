/** POSIX access-control lists as bytes (ori/operator_socket.py:619-664).

    The extended attribute holds a version word and then eight bytes an entry,
    every field low byte first, the entries in ascending order.
  */
module AclCodec {
  import opened Bits

  type Word16 = w: nat | w < 0x10000
  type Word32 = w: nat | w < 0x1_0000_0000

  const VERSION: Word32 := 2
  const USER_OBJ: Word16 := 0x01
  const USER: Word16 := 0x02
  const GROUP_OBJ: Word16 := 0x04
  const GROUP: Word16 := 0x08
  const MASK: Word16 := 0x10
  const OTHER: Word16 := 0x20
  const UNDEFINED_ID: Word32 := 0xFFFF_FFFF

  datatype Entry = Entry(tag: Word16, perm: Word16, id: Word32)

  datatype Error =
    | NoAccessLists
    | UnreadableList
    | UnsupportedVersion
    | ReadFailed
    | NoOwningGroup
    | MaskWithholds
    | WriteFailed

  datatype Result<T> = Ok(value: T) | Err(error: Error)

  // ----- Order -----

  /** Python compares the tuples field by field, which is how the numbers their
      fields spell compare. */
  function Key(e: Entry): nat {
    (e.tag * 0x10000 + e.perm) * 0x1_0000_0000 + e.id
  }

  lemma KeyOrder(a: Entry, b: Entry)
    ensures Key(a) < Key(b) <==>
            a.tag < b.tag || (a.tag == b.tag && (a.perm < b.perm || (a.perm == b.perm && a.id < b.id)))
    ensures Key(a) == Key(b) <==> a == b
  {
  }

  predicate Ascending(es: seq<Entry>) {
    |es| <= 1 || (Key(es[0]) <= Key(es[1]) && Ascending(es[1..]))
  }

  lemma {:induction false} HeadIsLeast(es: seq<Entry>, e: Entry)
    requires Ascending(es) && e in es
    ensures Key(es[0]) <= Key(e)
  {
    if e != es[0] {
      assert e in es[1..];
      HeadIsLeast(es[1..], e);
    }
  }

  function Insert(e: Entry, es: seq<Entry>): (r: seq<Entry>)
    requires Ascending(es)
    ensures Ascending(r) && r != []
    ensures r[0] == e || (es != [] && r[0] == es[0])
    ensures multiset(r) == multiset{e} + multiset(es)
  {
    if es == [] then [e]
    else if Key(e) <= Key(es[0]) then [e] + es
    else
      assert es == [es[0]] + es[1..];
      [es[0]] + Insert(e, es[1..])
  }

  function Sorted(es: seq<Entry>): (r: seq<Entry>)
    ensures multiset(r) == multiset(es)
    ensures Ascending(r)
  {
    if es == [] then []
    else
      assert es == [es[0]] + es[1..];
      Insert(es[0], Sorted(es[1..]))
  }

  /** A list has one ascending arrangement. */
  lemma {:induction false} AscendingUnique(a: seq<Entry>, b: seq<Entry>)
    requires Ascending(a) && Ascending(b) && multiset(a) == multiset(b)
    ensures a == b
  {
    assert |a| == |multiset(a)| == |multiset(b)| == |b|;
    if a != [] {
      assert a[0] in multiset(b) && b[0] in multiset(a);
      HeadIsLeast(a, b[0]);
      HeadIsLeast(b, a[0]);
      KeyOrder(a[0], b[0]);
      assert a == [a[0]] + a[1..] && b == [b[0]] + b[1..];
      assert multiset(a[1..]) == multiset(a) - multiset{a[0]};
      assert multiset(b[1..]) == multiset(b) - multiset{b[0]};
      AscendingUnique(a[1..], b[1..]);
    }
  }

  // ----- Bytes -----

  function Pack16(w: Word16): (bytes: seq<Byte>)
    ensures |bytes| == 2
  {
    [w % 256, w / 256]
  }

  function Pack32(w: Word32): (bytes: seq<Byte>)
    ensures |bytes| == 4
  {
    [w % 256, w / 256 % 256, w / 0x10000 % 256, w / 0x100_0000]
  }

  function Unpack16(bytes: seq<Byte>): Word16
    requires |bytes| == 2
  {
    var low: int, high: int := bytes[0], bytes[1];
    low + 256 * high
  }

  function Unpack32(bytes: seq<Byte>): Word32
    requires |bytes| == 4
  {
    var b0: int, b1: int, b2: int, b3: int := bytes[0], bytes[1], bytes[2], bytes[3];
    b0 + 256 * b1 + 0x10000 * b2 + 0x100_0000 * b3
  }

  lemma Unpack16Pack(w: Word16)
    ensures Unpack16(Pack16(w)) == w
  {
  }

  lemma Unpack32Pack(w: Word32)
    ensures Unpack32(Pack32(w)) == w
  {
    var a, b := w / 256, w / 0x10000;
    assert w / 0x100_0000 == b / 256 && b == a / 256;
    assert w == w % 256 + 256 * a && a == a % 256 + 256 * b && b == b % 256 + 256 * (b / 256);
  }

  lemma Pack16Unpack(bytes: seq<Byte>)
    requires |bytes| == 2
    ensures Pack16(Unpack16(bytes)) == bytes
  {
  }

  lemma Pack32Unpack(bytes: seq<Byte>)
    requires |bytes| == 4
    ensures Pack32(Unpack32(bytes)) == bytes
  {
    var b0: int, b1: int, b2: int, b3: int := bytes[0], bytes[1], bytes[2], bytes[3];
    var w := Unpack32(bytes);
    assert w / 256 == b1 + 256 * (b2 + 256 * b3);
    assert w / 0x10000 == b2 + 256 * b3;
  }

  function PackEntry(e: Entry): (bytes: seq<Byte>)
    ensures |bytes| == 8
  {
    Pack16(e.tag) + Pack16(e.perm) + Pack32(e.id)
  }

  function UnpackEntry(bytes: seq<Byte>): Entry
    requires |bytes| == 8
  {
    Entry(Unpack16(bytes[..2]), Unpack16(bytes[2..4]), Unpack32(bytes[4..]))
  }

  lemma UnpackEntryPack(e: Entry)
    ensures UnpackEntry(PackEntry(e)) == e
  {
    var bytes := PackEntry(e);
    assert bytes[..2] == Pack16(e.tag) && bytes[2..4] == Pack16(e.perm) && bytes[4..] == Pack32(e.id);
    Unpack16Pack(e.tag);
    Unpack16Pack(e.perm);
    Unpack32Pack(e.id);
  }

  lemma PackEntryUnpack(bytes: seq<Byte>)
    requires |bytes| == 8
    ensures PackEntry(UnpackEntry(bytes)) == bytes
  {
    Pack16Unpack(bytes[..2]);
    Pack16Unpack(bytes[2..4]);
    Pack32Unpack(bytes[4..]);
    assert bytes == bytes[..2] + bytes[2..4] + bytes[4..];
  }

  function PackEntries(es: seq<Entry>): (bytes: seq<Byte>)
    ensures |bytes| == 8 * |es|
  {
    if es == [] then [] else PackEntry(es[0]) + PackEntries(es[1..])
  }

  function UnpackEntries(bytes: seq<Byte>): (es: seq<Entry>)
    requires |bytes| % 8 == 0
    ensures |es| == |bytes| / 8
  {
    if bytes == [] then [] else [UnpackEntry(bytes[..8])] + UnpackEntries(bytes[8..])
  }

  lemma {:induction false} UnpackEntriesPack(es: seq<Entry>)
    ensures UnpackEntries(PackEntries(es)) == es
  {
    if es != [] {
      var bytes := PackEntries(es);
      assert bytes[..8] == PackEntry(es[0]) && bytes[8..] == PackEntries(es[1..]);
      UnpackEntryPack(es[0]);
      UnpackEntriesPack(es[1..]);
    }
  }

  lemma {:induction false} PackEntriesUnpack(bytes: seq<Byte>)
    requires |bytes| % 8 == 0
    ensures PackEntries(UnpackEntries(bytes)) == bytes
  {
    if bytes != [] {
      PackEntryUnpack(bytes[..8]);
      PackEntriesUnpack(bytes[8..]);
      assert bytes == bytes[..8] + bytes[8..];
    }
  }

  // ----- The codec -----

  function Encode(es: seq<Entry>): (bytes: seq<Byte>) {
    Pack32(VERSION) + PackEntries(Sorted(es))
  }

  function Decode(raw: seq<Byte>): Result<seq<Entry>> {
    if |raw| < 4 || (|raw| - 4) % 8 != 0 then Err(UnreadableList)
    else if Unpack32(raw[..4]) != VERSION then Err(UnsupportedVersion)
    else Ok(UnpackEntries(raw[4..]))
  }

  lemma {:induction false} PackedAt(es: seq<Entry>, i: nat)
    requires i < |es|
    ensures PackEntries(es)[8 * i..8 * i + 8] == PackEntry(es[i])
  {
    var bytes := PackEntries(es);
    if i > 0 {
      assert bytes[8..] == PackEntries(es[1..]);
      PackedAt(es[1..], i - 1);
      assert bytes[8 * i..8 * i + 8] == bytes[8..][8 * (i - 1)..8 * (i - 1) + 8];
    }
  }

  /** Version 2 and then eight bytes an entry: tag, permissions and id, low byte first, in
      ascending order. */
  lemma EncodeLayout(es: seq<Entry>, i: nat) returns (raw: seq<Byte>, e: Entry)
    requires i < |Sorted(es)|
    ensures raw == Encode(es) && e == Sorted(es)[i]
    ensures |raw| == 4 + 8 * |es| && |Sorted(es)| == |es|
    ensures raw[..4] == [2, 0, 0, 0]
    ensures raw[4 + 8 * i..4 + 8 * i + 8]
            == [e.tag % 256, e.tag / 256, e.perm % 256, e.perm / 256,
                e.id % 256, e.id / 256 % 256, e.id / 0x10000 % 256, e.id / 0x100_0000]
  {
    var head := [2, 0, 0, 0];
    var body := PackEntries(Sorted(es));
    raw, e := Encode(es), Sorted(es)[i];
    hide *;
    SortedLength(es);
    PackedAt(Sorted(es), i);
    PackedEntry(e);
    EncodeParts(es);
    After(head, body, 8 * i, 8 * i + 8);
  }

  lemma SortedLength(es: seq<Entry>)
    ensures |Sorted(es)| == |es|
  {
    assert |Sorted(es)| == |multiset(Sorted(es))| == |multiset(es)| == |es|;
  }

  lemma EncodeParts(es: seq<Entry>)
    ensures Encode(es) == [2, 0, 0, 0] + PackEntries(Sorted(es))
  {
    hide Sorted, PackEntries;
  }

  lemma After(head: seq<Byte>, body: seq<Byte>, i: nat, j: nat)
    requires |head| == 4 && i <= j <= |body|
    ensures (head + body)[..4] == head && (head + body)[4 + i..4 + j] == body[i..j]
  {
  }

  lemma PackedEntry(e: Entry)
    ensures PackEntry(e)
            == [e.tag % 256, e.tag / 256, e.perm % 256, e.perm / 256,
                e.id % 256, e.id / 256 % 256, e.id / 0x10000 % 256, e.id / 0x100_0000]
  {
  }

  /** Encoding keeps the entries and loses only their order. */
  lemma DecodeEncode(es: seq<Entry>)
    ensures Decode(Encode(es)) == Ok(Sorted(es))
  {
    var raw := Encode(es);
    assert raw[..4] == Pack32(VERSION) && raw[4..] == PackEntries(Sorted(es));
    Unpack32Pack(VERSION);
    UnpackEntriesPack(Sorted(es));
  }

  /** Bytes that decode are reproduced exactly when they were in order. */
  lemma {:induction false} EncodeDecode(raw: seq<Byte>)
    requires Decode(raw).Ok?
    ensures Encode(Decode(raw).value) == raw <==> Ascending(Decode(raw).value)
  {
    var es := Decode(raw).value;
    Pack32Unpack(raw[..4]);
    PackEntriesUnpack(raw[4..]);
    assert raw == Pack32(VERSION) + PackEntries(es);
    if Ascending(es) {
      AscendingUnique(es, Sorted(es));
    } else {
      DecodeEncode(es);
    }
  }

  /** Two lists encode alike exactly when they hold the same entries. */
  lemma {:induction false} EncodeInjective(a: seq<Entry>, b: seq<Entry>)
    ensures Encode(a) == Encode(b) <==> multiset(a) == multiset(b)
  {
    if Encode(a) == Encode(b) {
      DecodeEncode(a);
      DecodeEncode(b);
    } else if multiset(a) == multiset(b) {
      AscendingUnique(Sorted(a), Sorted(b));
    }
  }
}
