/**
 The house item format: an item is its type, tagged attributes, and for a container a count and its
 contents, innermost last pushed first. This module proves what loading a saved item tree gives back.
 */
module MapItems {
  import opened Arithmetic
  import opened Basics

  // ----- streams of little-endian numbers

  function EncodeNum(n: nat, width: nat): (bytes: seq<Byte>)
    ensures |bytes| == width
  {
    if width == 0 then [] else [n % 256] + EncodeNum(n / 256, width - 1)
  }

  function Power256(width: nat): (p: nat)
    ensures p > 0
  {
    if width == 0 then 1 else 256 * Power256(width - 1)
  }

  function DecodeNum(bytes: seq<Byte>): (n: nat)
    ensures n < Power256(|bytes|)
  {
    if bytes == [] then 0 else bytes[0] + 256 * DecodeNum(bytes[1..])
  }

  lemma {:induction false} NumRoundTrip(n: nat, width: nat)
    ensures DecodeNum(EncodeNum(n, width)) == n % Power256(width)
  {
    if width > 0 {
      NumRoundTrip(n / 256, width - 1);
      assert EncodeNum(n, width)[1..] == EncodeNum(n / 256, width - 1);
      ModSplit(n, Power256(width - 1));
    }
  }

  lemma {:induction false} ModSplit(n: nat, m: nat)
    requires m > 0
    ensures n % 256 + 256 * ((n / 256) % m) == n % (256 * m)
  {
    var q, r := (n / 256) / m, (n / 256) % m;
    assert n == 256 * (m * q + r) + n % 256;
    assert n == (256 * m) * q + (256 * r + n % 256);
    Remainder(n, 256 * m, q, 256 * r + n % 256);
  }

  lemma {:induction false} Powers()
    ensures Power256(1) == 0x100 && Power256(2) == 0x1_0000 && Power256(4) == 0x1_0000_0000
    ensures Power256(8) == 0x1_0000_0000_0000_0000
  {
    assert Power256(0) == 1 && Power256(3) == 256 * Power256(2);
    assert Power256(5) == 256 * Power256(4) && Power256(7) == 256 * Power256(6);
  }

  function Signed(n: nat, width: nat): int {
    if 2 * n >= Power256(width) then n - Power256(width) else n
  }

  /** PropStream: bytes and a read position. */
  class PropStream {
    const buffer: seq<Byte>
    var p: nat

    ghost predicate Valid()
      reads this
    {
      p <= |buffer|
    }

    ghost function Rest(): seq<Byte>
      requires Valid()
      reads this
    {
      buffer[p..]
    }

    constructor (bytes: seq<Byte>)
      ensures Valid() && Rest() == bytes
    {
      buffer, p := bytes, 0;
    }

    method Read(width: nat) returns (r: Option<nat>)
      requires Valid()
      modifies this`p
      ensures Valid() && old(p) <= p
      ensures match ReadNum(old(Rest()), width)
              case None => r == None && Rest() == old(Rest())
              case Some((n, rest)) => r == Some(n) && Rest() == rest
    {
      if |buffer| - p < width { return None; }
      r := Some(DecodeNum(buffer[p..p + width]));
      assert buffer[p..][..width] == buffer[p..p + width] && buffer[p..][width..] == buffer[p + width..];
      p := p + width;
    }

    /** The bytes of a string behind its length. */
    method ReadBytes(n: nat) returns (r: Option<seq<Byte>>)
      requires Valid()
      modifies this`p
      ensures Valid() && old(p) <= p
      ensures if n <= |old(Rest())| then r == Some(old(Rest())[..n]) && Rest() == old(Rest())[n..]
              else r == None && Rest() == old(Rest())
    {
      if |buffer| - p < n { return None; }
      r := Some(buffer[p..p + n]);
      assert buffer[p..][..n] == buffer[p..p + n] && buffer[p..][n..] == buffer[p + n..];
      p := p + n;
    }
  }

  function ReadNum(s: seq<Byte>, width: nat): (r: Option<(nat, seq<Byte>)>)
    ensures r.Some? ==> r.value.0 < Power256(width) && |r.value.1| == |s| - width
  {
    if |s| < width then None else Some((DecodeNum(s[..width]), s[width..]))
  }

  function ReadString(s: seq<Byte>): (r: Option<(seq<Byte>, seq<Byte>)>)
    ensures r.Some? ==> |r.value.0| <= 0xFFFF && |r.value.1| < |s|
  {
    Powers();
    match ReadNum(s, 2)
    case None => None
    case Some((n, rest)) => if |rest| < n then None else Some((rest[..n], rest[n..]))
  }

  /** PropWriteStream: a growing buffer. */
  class PropWriteStream {
    var buffer: seq<Byte>

    constructor ()
      ensures buffer == []
    {
      buffer := [];
    }

    method Write(n: nat, width: nat)
      modifies this
      ensures buffer == old(buffer) + EncodeNum(n, width)
    {
      buffer := buffer + EncodeNum(n, width);
    }

    method WriteString(s: seq<Byte>)
      modifies this
      ensures buffer == old(buffer) + EncodeString(s)
    {
      if |s| > 0xFFFF {
        Write(0, 2);
        return;
      }
      Write(|s|, 2);
      buffer := buffer + s;
    }
  }

  /** A string too long for its 16-bit length is written as an empty one. */
  function EncodeString(s: seq<Byte>): seq<Byte> {
    if |s| > 0xFFFF then EncodeNum(0, 2) else EncodeNum(|s|, 2) + s
  }

  // ----- attributes

  /** The attributes with a tag of their own. */
  datatype Field =
    | ActionId | Text | Date | Writer | Description | Duration | DecayState | Name | Article | PluralName
    | Weight | Attack | Defense | ExtraDefense | Armor | HitChance | ShootRange

  datatype Value = Int(i: int) | Str(s: seq<Byte>)

  /** How a value is laid out in the stream. */
  datatype Layout = U8 | U16 | I32 | I8 | Chars

  const ATTR_RUNE_CHARGES := 12
  const ATTR_COUNT := 15
  const ATTR_CHARGES := 22
  const ATTR_CONTAINER_ITEMS := 23

  const DECAYING_FALSE := 0
  const DECAYING_TRUE := 1
  const DECAYING_PENDING := 2

  function TagOf(f: Field): (tag: Byte)
    ensures FieldOf(tag) == Some(f)
    ensures tag != 0 && tag != ATTR_CONTAINER_ITEMS
  {
    match f
    case ActionId => 4
    case Text => 6
    case Description => 7
    case Duration => 16
    case DecayState => 17
    case Date => 18
    case Writer => 19
    case Name => 24
    case Article => 25
    case PluralName => 26
    case Weight => 27
    case Attack => 28
    case Defense => 29
    case ExtraDefense => 30
    case Armor => 31
    case HitChance => 32
    case ShootRange => 33
  }

  function FieldOf(tag: Byte): Option<Field> {
    match tag
    case 4 => Some(ActionId)
    case 6 => Some(Text)
    case 7 => Some(Description)
    case 16 => Some(Duration)
    case 17 => Some(DecayState)
    case 18 => Some(Date)
    case 19 => Some(Writer)
    case 24 => Some(Name)
    case 25 => Some(Article)
    case 26 => Some(PluralName)
    case 27 => Some(Weight)
    case 28 => Some(Attack)
    case 29 => Some(Defense)
    case 30 => Some(ExtraDefense)
    case 31 => Some(Armor)
    case 32 => Some(HitChance)
    case 33 => Some(ShootRange)
    case _ => None
  }

  function LayoutOf(f: Field): Layout {
    match f
    case ActionId => U16
    case Text => Chars
    case Description => Chars
    case Duration => I32
    case DecayState => U8
    case Date => I32
    case Writer => Chars
    case Name => Chars
    case Article => Chars
    case PluralName => Chars
    case Weight => I32
    case Attack => I32
    case Defense => I32
    case ExtraDefense => I32
    case Armor => I32
    case HitChance => I8
    case ShootRange => U8
  }

  /** The order in which serializeAttr writes the fields, after count and charges. */
  const FIELDS: seq<Field> :=
    [ActionId, Text, Date, Writer, Description, Duration, DecayState, Name, Article, PluralName,
     Weight, Attack, Defense, ExtraDefense, Armor, HitChance, ShootRange]

  function Bits(l: Layout): nat
    requires l != Chars
  {
    match l
    case U8 => 1
    case I8 => 1
    case U16 => 2
    case I32 => 4
  }

  function EncodeValue(l: Layout, v: Value): seq<Byte>
    requires v.Str? <==> l == Chars
  {
    if l == Chars then EncodeString(v.s) else EncodeNum(v.i % Power256(Bits(l)), Bits(l))
  }

  /** What is left of a value once it has been through the stream. */
  function Narrow(l: Layout, v: Value): Value
    requires v.Str? <==> l == Chars
  {
    match l
    case Chars => if |v.s| > 0xFFFF then Str([]) else v
    case U8 => Int(v.i % 0x100)
    case U16 => Int(v.i % 0x1_0000)
    case I8 => Int(Signed(v.i % 0x100, 1))
    case I32 => Int(Signed(v.i % 0x1_0000_0000, 4))
  }

  function DecodeValue(l: Layout, s: seq<Byte>): Option<(Value, seq<Byte>)> {
    if l == Chars then
      match ReadString(s)
      case None => None
      case Some((t, rest)) => Some((Str(t), rest))
    else
      match ReadNum(s, Bits(l))
      case None => None
      case Some((n, rest)) => Some((Int(if l == I8 || l == I32 then Signed(n, Bits(l)) else n), rest))
  }

  lemma {:induction false} ReadWritten(n: nat, width: nat, rest: seq<Byte>)
    ensures ReadNum(EncodeNum(n, width) + rest, width) == Some((n % Power256(width), rest))
  {
    NumRoundTrip(n, width);
    assert (EncodeNum(n, width) + rest)[..width] == EncodeNum(n, width);
    assert (EncodeNum(n, width) + rest)[width..] == rest;
  }

  lemma {:induction false} StringRoundTrip(v: seq<Byte>, rest: seq<Byte>)
    ensures ReadString(EncodeString(v) + rest) == Some((if |v| > 0xFFFF then [] else v, rest))
  {
    Powers();
    var t := if |v| > 0xFFFF then [] else v;
    assert EncodeString(v) + rest == EncodeNum(|t|, 2) + (t + rest);
    ReadWritten(|t|, 2, t + rest);
  }

  lemma {:induction false} ValueRoundTrip(l: Layout, v: Value, rest: seq<Byte>)
    requires v.Str? <==> l == Chars
    ensures DecodeValue(l, EncodeValue(l, v) + rest) == Some((Narrow(l, v), rest))
  {
    if l == Chars {
      StringRoundTrip(v.s, rest);
    } else {
      Powers();
      ReadWritten(v.i % Power256(Bits(l)), Bits(l), rest);
    }
  }

  // ----- custom attributes

  const ATTR_CUSTOM_ATTRIBUTES := 34

  type Int64 = i: int | -0x8000_0000_0000_0000 <= i < 0x8000_0000_0000_0000
  type Word64 = n: int | 0 <= n < 0x1_0000_0000_0000_0000

  /** A value scripts have attached to an item; a double is the pattern of its bits. */
  datatype Custom = Blank | CustomText(s: seq<Byte>) | Whole(i: Int64) | Double(bits: Word64) | Flag(b: bool)

  /** One entry of the table of custom attributes. */
  datatype Entry = Entry(key: seq<Byte>, value: Custom)

  /** The kind of a value is its place in the variant. */
  function KindOf(v: Custom): Byte {
    match v
    case Blank => 0
    case CustomText(_) => 1
    case Whole(_) => 2
    case Double(_) => 3
    case Flag(_) => 4
  }

  function EncodePayload(v: Custom): seq<Byte> {
    match v
    case Blank => []
    case CustomText(s) => EncodeString(s)
    case Whole(i) => EncodeNum(i % 0x1_0000_0000_0000_0000, 8)
    case Double(bits) => EncodeNum(bits, 8)
    case Flag(b) => EncodeNum(if b then 1 else 0, 1)
  }

  function EncodeCustom(v: Custom): seq<Byte> {
    [KindOf(v)] + EncodePayload(v)
  }

  /** A blank value is written, but reading one is an error. */
  function DecodeCustom(s: seq<Byte>): (r: Option<(Custom, seq<Byte>)>)
    ensures r.Some? ==> |r.value.1| < |s| && (r.value.0.CustomText? ==> |r.value.0.s| <= 0xFFFF)
  {
    Powers();
    if s == [] then None
    else if s[0] == 1 then
      match ReadString(s[1..])
      case None => None
      case Some((t, rest)) => Some((CustomText(t), rest))
    else if s[0] == 2 then
      match ReadNum(s[1..], 8)
      case None => None
      case Some((n, rest)) => Some((Whole(Signed(n, 8)), rest))
    else if s[0] == 3 then
      match ReadNum(s[1..], 8)
      case None => None
      case Some((n, rest)) => Some((Double(n), rest))
    else if s[0] == 4 then
      match ReadNum(s[1..], 1)
      case None => None
      case Some((n, rest)) => Some((Flag(n != 0), rest))
    else None
  }

  function NarrowString(s: seq<Byte>): seq<Byte> {
    if |s| > 0xFFFF then [] else s
  }

  function NarrowCustom(v: Custom): Custom {
    if v.CustomText? then CustomText(NarrowString(v.s)) else v
  }

  lemma {:induction false} SignedBack(i: Int64)
    ensures Signed(i % 0x1_0000_0000_0000_0000, 8) == i
  {
    Powers();
    assert i >= 0 ==> i % 0x1_0000_0000_0000_0000 == i;
    assert i < 0 ==> i % 0x1_0000_0000_0000_0000 == i + 0x1_0000_0000_0000_0000;
  }

  lemma {:induction false} CustomRoundTrip(v: Custom, rest: seq<Byte>)
    ensures DecodeCustom(EncodeCustom(v) + rest) == if v.Blank? then None else Some((NarrowCustom(v), rest))
  {
    var s := EncodeCustom(v) + rest;
    assert s[0] == KindOf(v) && s[1..] == EncodePayload(v) + rest;
    Powers();
    match v
    case Blank =>
    case CustomText(t) => StringRoundTrip(t, rest);
    case Whole(i) =>
      SignedBack(i);
      ReadFitting(i % 0x1_0000_0000_0000_0000, 8, rest);
    case Double(bits) => ReadFitting(bits, 8, rest);
    case Flag(b) => ReadFitting(if b then 1 else 0, 1, rest);
  }

  function EncodeEntries(entries: seq<Entry>): seq<Byte> {
    if entries == [] then []
    else EncodeString(entries[0].key) + (EncodeCustom(entries[0].value) + EncodeEntries(entries[1..]))
  }

  /** toLowerCaseString. */
  function Lower(key: seq<Byte>): (r: seq<Byte>)
    ensures |r| == |key|
  {
    seq(|key|, i requires 0 <= i < |key| => if 65 <= key[i] <= 90 then key[i] + 32 else key[i])
  }

  function WithoutKey(entries: seq<Entry>, key: seq<Byte>): seq<Entry> {
    if entries == [] then []
    else (if entries[0].key == key then [] else [entries[0]]) + WithoutKey(entries[1..], key)
  }

  lemma {:induction false} InWithoutKey(entries: seq<Entry>, key: seq<Byte>, e: Entry)
    ensures e in WithoutKey(entries, key) <==> e in entries && e.key != key
    decreases |entries|
  {
    if entries != [] {
      InWithoutKey(entries[1..], key, e);
      assert e in entries <==> e == entries[0] || e in entries[1..];
    }
  }

  /** setCustomAttribute: keys are lower case, and an entry with the same key is replaced. */
  function SetCustom(custom: Option<seq<Entry>>, key: seq<Byte>, v: Custom): (r: Option<seq<Entry>>)
    ensures r.Some? && r.value != []
  {
    Some((if custom.None? then [] else WithoutKey(custom.value, Lower(key))) + [Entry(Lower(key), v)])
  }

  function ReadEntries(custom: Option<seq<Entry>>, n: nat, s: seq<Byte>): (r: Option<(Option<seq<Entry>>, seq<Byte>)>)
    ensures r.Some? ==> |r.value.1| <= |s|
    decreases n
  {
    if n == 0 then Some((custom, s))
    else
      match ReadString(s)
      case None => None
      case Some((key, mid)) =>
        match DecodeCustom(mid)
        case None => None
        case Some((v, rest)) => ReadEntries(SetCustom(custom, key, v), n - 1, rest)
  }

  predicate NoBlank(entries: seq<Entry>) {
    entries == [] || (!entries[0].value.Blank? && NoBlank(entries[1..]))
  }

  /** The table after entries have been through the stream: keys that are too long are lost. */
  function SetAll(custom: Option<seq<Entry>>, entries: seq<Entry>): Option<seq<Entry>>
    decreases |entries|
  {
    if entries == [] then custom
    else SetAll(SetCustom(custom, NarrowString(entries[0].key), NarrowCustom(entries[0].value)), entries[1..])
  }

  lemma {:induction false} EntryRoundTrip(custom: Option<seq<Entry>>, e: Entry, n: nat, rest: seq<Byte>, s: seq<Byte>)
    requires n > 0 && s == EncodeString(e.key) + (EncodeCustom(e.value) + rest)
    ensures ReadEntries(custom, n, s)
            == if e.value.Blank? then None
               else ReadEntries(SetCustom(custom, NarrowString(e.key), NarrowCustom(e.value)), n - 1, rest)
  {
    StringRoundTrip(e.key, EncodeCustom(e.value) + rest);
    CustomRoundTrip(e.value, rest);
  }

  /** Entries are read back one after the other, up to the first that is blank. */
  lemma {:induction false} EntriesRoundTrip(custom: Option<seq<Entry>>, entries: seq<Entry>, rest: seq<Byte>,
                                            s: seq<Byte>)
    requires s == EncodeEntries(entries) + rest
    ensures ReadEntries(custom, |entries|, s)
            == if NoBlank(entries) then Some((SetAll(custom, entries), rest)) else None
    decreases |entries|
  {
    if entries == [] {
      assert s == rest;
    } else {
      var e, tail := entries[0], EncodeEntries(entries[1..]) + rest;
      EntriesLayout(entries, rest);
      EntryRoundTrip(custom, e, |entries|, tail, s);
      if e.value.Blank? {
        assert ReadEntries(custom, |entries|, s) == None;
        assert !NoBlank(entries);
      } else {
        var next := SetCustom(custom, NarrowString(e.key), NarrowCustom(e.value));
        assert ReadEntries(custom, |entries|, s) == ReadEntries(next, |entries[1..]|, tail);
        EntriesRoundTrip(next, entries[1..], rest, tail);
        assert NoBlank(entries) == NoBlank(entries[1..]);
        assert SetAll(custom, entries) == SetAll(next, entries[1..]);
      }
    }
  }

  lemma {:induction false} EntriesLayout(entries: seq<Entry>, rest: seq<Byte>)
    requires entries != []
    ensures EncodeEntries(entries) + rest
            == EncodeString(entries[0].key) + (EncodeCustom(entries[0].value) + (EncodeEntries(entries[1..]) + rest))
  {
    var key, value, tail := EncodeString(entries[0].key), EncodeCustom(entries[0].value), EncodeEntries(entries[1..]);
    Assoc(key, value + tail, rest);
    Assoc(value, tail, rest);
  }

  /** A table comes back without its values when it is empty. */
  function CustomBack(custom: Option<seq<Entry>>): Option<seq<Entry>> {
    if custom.None? then None else SetAll(None, custom.value)
  }

  /** setCustomAttribute keeps keys in lower case and once each. */
  predicate CustomProper(custom: Option<seq<Entry>>) {
    custom.Some? ==> (forall e :: e in custom.value ==> Lower(e.key) == e.key) && DistinctKeys(custom.value)
  }

  predicate DistinctKeys(entries: seq<Entry>) {
    forall i, j :: 0 <= i < j < |entries| ==> entries[i].key != entries[j].key
  }

  lemma {:induction false} WithoutKeyDistinct(entries: seq<Entry>, key: seq<Byte>)
    requires DistinctKeys(entries)
    ensures DistinctKeys(WithoutKey(entries, key)) && |WithoutKey(entries, key)| <= |entries|
    decreases |entries|
  {
    if entries != [] {
      WithoutKeyDistinct(entries[1..], key);
      var rest := WithoutKey(entries[1..], key);
      forall k | 0 <= k < |rest| ensures rest[k].key != entries[0].key {
        InWithoutKey(entries[1..], key, rest[k]);
        var i :| 0 <= i < |entries[1..]| && entries[1..][i] == rest[k];
        assert entries[i + 1] == rest[k];
      }
    }
  }

  lemma {:induction false} SetCustomProper(custom: Option<seq<Entry>>, key: seq<Byte>, v: Custom)
    requires CustomProper(custom)
    ensures CustomProper(SetCustom(custom, key, v))
    ensures |SetCustom(custom, key, v).value| <= TableSize(custom) + 1
  {
    assert Lower(Lower(key)) == Lower(key);
    if custom.Some? {
      var kept := WithoutKey(custom.value, Lower(key));
      WithoutKeyDistinct(custom.value, Lower(key));
      forall e | e in kept ensures e in custom.value && e.key != Lower(key) {
        InWithoutKey(custom.value, Lower(key), e);
      }
      forall k | 0 <= k < |kept| ensures kept[k].key != Lower(key) {
        assert kept[k] in kept;
      }
    }
  }

  function TableSize(custom: Option<seq<Entry>>): nat {
    if custom.None? then 0 else |custom.value|
  }

  /** However often keys are set again, the table stays one of distinct lower case keys and no longer than was read. */
  lemma {:induction false} SetAllProper(custom: Option<seq<Entry>>, entries: seq<Entry>)
    requires CustomProper(custom)
    ensures CustomProper(SetAll(custom, entries)) && TableSize(SetAll(custom, entries)) <= TableSize(custom) + |entries|
    decreases |entries|
  {
    if entries != [] {
      var key, v := NarrowString(entries[0].key), NarrowCustom(entries[0].value);
      SetCustomProper(custom, key, v);
      SetAllProper(SetCustom(custom, key, v), entries[1..]);
    }
  }

  predicate EntryStorable(e: Entry) {
    |e.key| <= 0xFFFF && !e.value.Blank? && (e.value.CustomText? ==> |e.value.s| <= 0xFFFF)
  }

  predicate CustomStorable(custom: Option<seq<Entry>>) {
    custom.Some? ==> custom.value != [] && forall e :: e in custom.value ==> EntryStorable(e)
  }

  /** Whatever has been read can be written. */
  lemma {:induction false} SetAllStorable(custom: Option<seq<Entry>>, entries: seq<Entry>)
    requires CustomStorable(custom) && NoBlank(entries)
    ensures CustomStorable(SetAll(custom, entries))
    decreases |entries|
  {
    if entries != [] {
      var key := NarrowString(entries[0].key);
      var next := SetCustom(custom, key, NarrowCustom(entries[0].value));
      forall e | e in next.value ensures EntryStorable(e) {
        if custom.Some? {
          InWithoutKey(custom.value, Lower(key), e);
        }
      }
      SetAllStorable(next, entries[1..]);
    }
  }

  /** Entries with other keys are added behind the ones there are. */
  lemma {:induction false} SetAllAppends(done: seq<Entry>, entries: seq<Entry>)
    requires done + entries != [] && CustomProper(Some(done + entries))
    requires forall e :: e in entries ==> EntryStorable(e)
    ensures SetAll(if done == [] then None else Some(done), entries) == Some(done + entries)
    decreases |entries|
  {
    if entries == [] {
      assert done + entries == done;
    } else {
      var e, all := entries[0], done + entries;
      assert e in entries && all[|done|] == e && e in all;
      forall d | d in done ensures d.key != e.key {
        var i :| 0 <= i < |done| && done[i] == d;
        assert all[i] == d;
      }
      AllOthers(done, e.key);
      assert (done + [e]) + entries[1..] == all;
      SetAllAppends(done + [e], entries[1..]);
    }
  }

  lemma {:induction false} AllOthers(entries: seq<Entry>, key: seq<Byte>)
    requires forall e :: e in entries ==> e.key != key
    ensures WithoutKey(entries, key) == entries
    decreases |entries|
  {
    if entries != [] {
      AllOthers(entries[1..], key);
    }
  }

  lemma {:induction false} CustomComesBack(custom: Option<seq<Entry>>)
    requires CustomProper(custom) && (custom.Some? ==> NoBlank(custom.value))
    ensures CustomBack(custom) == custom <==> CustomStorable(custom)
    ensures CustomStorable(CustomBack(custom))
  {
    if custom.Some? {
      SetAllStorable(None, custom.value);
      if CustomStorable(custom) {
        assert [] + custom.value == custom.value;
        SetAllAppends([], custom.value);
      }
    }
  }

  // ----- items

  datatype ItemType = ItemType(creatable: bool, container: bool, ownClass: bool, stackable: bool, fluid: bool,
                               charges: nat, moveable: bool, decayTime: nat)

  /** The item type table, indexed by type id. */
  type TypeTable = int -> ItemType

  type TypeId = n: int | 0 <= n < 0x1_0000
  type Count = n: int | 0 <= n < 0x100

  /** charges and fluidType are the attributes read back through setSubType; custom is the table of custom attributes
      in the order of its traversal, which puts new entries last; only containers have items. */
  datatype Item = Item(id: TypeId, count: Count, charges: Option<int>, fluidType: Option<int>,
                       fields: map<Field, Value>, custom: Option<seq<Entry>>, container: bool, items: seq<Item>)

  function IntField(item: Item, f: Field): int {
    if f in item.fields && item.fields[f].Int? then item.fields[f].i else 0
  }

  function StrField(item: Item, f: Field): seq<Byte> {
    if f in item.fields && item.fields[f].Str? then item.fields[f].s else []
  }

  /** getCharges: an absent attribute reads as 0, and the result has 16 bits. */
  function GetCharges(item: Item): nat {
    if item.charges.Some? then item.charges.value % 0x1_0000 else 0
  }

  function SetSubType(types: TypeTable, item: Item, n: nat): Item {
    var t := types(item.id);
    if t.fluid then item.(fluidType := Some(n))
    else if t.stackable then item.(count := n % 0x100)
    else if t.charges != 0 then item.(charges := Some(n))
    else item.(count := n % 0x100)
  }

  function GetSubType(types: TypeTable, item: Item): nat {
    var t := types(item.id);
    if t.fluid then (if item.fluidType.Some? then item.fluidType.value % 0x1_0000 else 0)
    else if t.stackable then item.count
    else if t.charges != 0 then GetCharges(item)
    else item.count
  }

  /** Types that are created under another id. */
  function Replacement(id: TypeId): TypeId {
    if 2210 <= id <= 2212 then id - 3
    else if id == 2215 || id == 2216 then id - 2
    else if 2202 <= id <= 2206 then id - 37
    else if id == 2640 then 6132
    else if id == 6301 then 6300
    else if id == 18528 then 18408
    else id
  }

  function NewItem(types: TypeTable, id: TypeId, count: nat): Item {
    var t := types(id);
    var fields := if t.decayTime != 0 then map[Duration := Int(t.decayTime * 1000)] else map[];
    var item := Item(id, 1, None, None, fields, None, false, []);
    if t.fluid then item.(fluidType := Some(count))
    else if t.stackable then
      if count != 0 then item.(count := count % 0x100)
      else if t.charges != 0 then item.(count := t.charges % 0x100)
      else item
    else if t.charges != 0 then item.(charges := Some(if count != 0 then count else t.charges))
    else item
  }

  function CreateItem(types: TypeTable, id: TypeId): Option<Item> {
    var t := types(id);
    if !t.creatable then None
    else if t.container then Some(NewItem(types, id, 0).(container := true))
    else if t.ownClass then Some(NewItem(types, id, 0))
    else Some(NewItem(types, Replacement(id), if t.stackable then 1 else 0))
  }

  // ----- writing

  /** Whether serializeAttr writes a field. */
  predicate Written(types: TypeTable, item: Item, f: Field) {
    match f
    case ActionId => types(item.id).moveable && IntField(item, f) % 0x1_0000 != 0
    case Text => StrField(item, f) != []
    case Writer => StrField(item, f) != []
    case Description => StrField(item, f) != []
    case Date => IntField(item, f) != 0
    case DecayState => IntField(item, f) == DECAYING_TRUE || IntField(item, f) == DECAYING_PENDING
    case _ => f in item.fields
  }

  function ValueOf(item: Item, f: Field): (v: Value)
    ensures v.Str? <==> LayoutOf(f) == Chars
  {
    if LayoutOf(f) == Chars then Str(StrField(item, f)) else Int(IntField(item, f))
  }

  function EncodeFields(types: TypeTable, item: Item, fields: seq<Field>): seq<Byte>
    decreases |fields|, item
  {
    if fields == [] then []
    else (if Written(types, item, fields[0])
          then [TagOf(fields[0])] + EncodeValue(LayoutOf(fields[0]), ValueOf(item, fields[0])) else [])
         + EncodeFields(types, item, fields[1..])
  }

  function EncodeCount(types: TypeTable, item: Item): seq<Byte> {
    if types(item.id).stackable || types(item.id).fluid
    then [ATTR_COUNT] + EncodeNum(GetSubType(types, item) % 0x100, 1) else []
  }

  function EncodeCharges(item: Item): seq<Byte> {
    if GetCharges(item) != 0 then [ATTR_CHARGES] + EncodeNum(GetCharges(item), 2) else []
  }

  function EncodeCustoms(item: Item): seq<Byte> {
    if item.custom.None? then []
    else [ATTR_CUSTOM_ATTRIBUTES] + (EncodeNum(|item.custom.value|, 8) + EncodeEntries(item.custom.value))
  }

  function EncodeAttrs(types: TypeTable, item: Item): seq<Byte> {
    EncodeCount(types, item) + (EncodeCharges(item) + (EncodeFields(types, item, FIELDS) + EncodeCustoms(item)))
  }

  function Save(types: TypeTable, item: Item): seq<Byte>
    decreases item, 1
  {
    EncodeNum(item.id, 2) + (EncodeAttrs(types, item) + (EncodeItems(types, item) + [0]))
  }

  function EncodeItems(types: TypeTable, item: Item): seq<Byte>
    decreases item, 0
  {
    if item.container then [ATTR_CONTAINER_ITEMS] + (EncodeNum(|item.items|, 4) + SaveBackwards(types, item.items))
    else []
  }

  function SaveBackwards(types: TypeTable, items: seq<Item>): seq<Byte>
    decreases items
  {
    if items == [] then []
    else Save(types, items[|items| - 1]) + SaveBackwards(types, items[..|items| - 1])
  }

  // ----- reading

  /** Tags of doors, beds, depots and teleports that other items skip, and how many bytes they skip. The unique id
      (tag 5) is read and handed to the registry of unique items, which is not part of this model. */
  function Skipped(tag: Byte): Option<nat> {
    match tag
    case 5 => Some(2)
    case 8 => Some(5)
    case 10 => Some(2)
    case 14 => Some(1)
    case 20 => Some(4)
    case 21 => Some(4)
    case _ => None
  }

  function SetField(item: Item, f: Field, v: Value): Item {
    match v
    case Str(s) => if s == [] then item else item.(fields := item.fields[f := v])
    case Int(i) =>
      if f == ActionId then item.(fields := item.fields[f := Int(if i < 100 then 100 else i)])
      else if f == Duration then item.(fields := item.fields[f := Int(if i < 0 then 0 else i)])
      else if f == DecayState then
        if i != DECAYING_FALSE then item.(fields := item.fields[f := Int(DECAYING_PENDING)]) else item
      else item.(fields := item.fields[f := v])
  }

  function ReadAttr(types: TypeTable, item: Item, tag: Byte, s: seq<Byte>): (r: Option<(Item, seq<Byte>)>)
    ensures r.Some? ==> |r.value.1| <= |s| && r.value.0.container == item.container && r.value.0.items == item.items
  {
    if FieldOf(tag).Some? then
      var f := FieldOf(tag).value;
      match DecodeValue(LayoutOf(f), s)
      case None => None
      case Some((v, rest)) => Some((SetField(item, f, v), rest))
    else if tag == ATTR_COUNT || tag == ATTR_RUNE_CHARGES || tag == ATTR_CHARGES then
      match ReadNum(s, if tag == ATTR_CHARGES then 2 else 1)
      case None => None
      case Some((n, rest)) => Some((SetSubType(types, item, n), rest))
    else if tag == ATTR_CUSTOM_ATTRIBUTES then
      match ReadNum(s, 8)
      case None => None
      case Some((n, mid)) =>
        match ReadEntries(item.custom, n, mid)
        case None => None
        case Some((custom, rest)) => Some((item.(custom := custom), rest))
    else
      match Skipped(tag)
      case Some(n) => if |s| < n then None else Some((item, s[n..]))
      case None => None
  }

  /** None is an error; otherwise the item, the container's item count if one was read, and what is left. */
  function Unserialize(types: TypeTable, item: Item, s: seq<Byte>): (r: Option<(Item, nat, seq<Byte>)>)
    ensures r.Some? ==> |r.value.2| <= |s| && r.value.0.container == item.container && r.value.0.items == item.items
    decreases |s|
  {
    if s == [] then Some((item, 0, []))
    else if s[0] == 0 then Some((item, 0, s[1..]))
    else if s[0] == ATTR_CONTAINER_ITEMS then
      if !item.container then None
      else match ReadNum(s[1..], 4)
        case None => None
        case Some((n, rest)) => Some((item, n, rest))
    else
      match ReadAttr(types, item, s[0], s[1..])
      case None => None
      case Some((next, rest)) => Unserialize(types, next, rest)
  }

  function PushFront(item: Item, child: Option<Item>): Item
  {
    if child.None? then item else item.(items := [child.value] + item.items)
  }

  /** The item, if its type can be created, and the bytes behind it. */
  function Load(types: TypeTable, s: seq<Byte>): (r: Option<(Option<Item>, seq<Byte>)>)
    ensures r.Some? ==> |r.value.1| < |s|
    decreases |s|, 0
  {
    match ReadNum(s, 2)
    case None => None
    case Some((id, rest)) =>
      Powers();
      match CreateItem(types, id)
      case None => Some((None, rest))
      case Some(item) =>
        match Unserialize(types, item, rest)
        case None => None
        case Some((full, n, tail)) =>
          if !full.container then Some((Some(full), tail))
          else match LoadContents(types, full, n, tail)
            case None => None
            case Some((done, last)) => Some((Some(done), last))
  }

  function LoadContents(types: TypeTable, item: Item, n: nat, s: seq<Byte>): (r: Option<(Item, seq<Byte>)>)
    ensures r.Some? ==> |r.value.1| <= |s|
    decreases |s|, 1
  {
    if n == 0 then
      if s == [] || s[0] != 0 then None else Some((item, s[1..]))
    else
      match Load(types, s)
      case None => None
      case Some((child, rest)) => LoadContents(types, PushFront(item, child), n - 1, rest)
  }

  // ----- the methods over streams

  /** Count, charges and every written field, in the order of FIELDS. */
  method SerializeAttr(types: TypeTable, item: Item, stream: PropWriteStream)
    modifies stream
    ensures stream.buffer == old(stream.buffer) + EncodeAttrs(types, item)
  {
    ghost var start := stream.buffer;
    if types(item.id).stackable || types(item.id).fluid {
      stream.Write(ATTR_COUNT, 1);
      stream.Write(GetSubType(types, item) % 0x100, 1);
      assert EncodeNum(ATTR_COUNT, 1) == [ATTR_COUNT];
    }
    assert stream.buffer == start + EncodeCount(types, item);
    ghost var counted := stream.buffer;
    var charges := GetCharges(item);
    if charges != 0 {
      stream.Write(ATTR_CHARGES, 1);
      stream.Write(charges, 2);
      assert EncodeNum(ATTR_CHARGES, 1) == [ATTR_CHARGES];
    }
    assert stream.buffer == counted + EncodeCharges(item);
    SerializeFields(types, item, stream);
    SerializeCustoms(item, stream);
    AssembleAttrs(types, item, start);
  }

  method SerializeFields(types: TypeTable, item: Item, stream: PropWriteStream)
    modifies stream
    ensures stream.buffer == old(stream.buffer) + EncodeFields(types, item, FIELDS)
  {
    ghost var charged := stream.buffer;
    for k := 0 to |FIELDS|
      invariant stream.buffer + EncodeFields(types, item, FIELDS[k..]) == charged + EncodeFields(types, item, FIELDS)
    {
      SerializeField(types, item, FIELDS[k..], stream);
      assert FIELDS[k..][1..] == FIELDS[k + 1..];
    }
    assert EncodeFields(types, item, FIELDS[|FIELDS|..]) == [];
    assert stream.buffer + [] == stream.buffer;
  }

  lemma {:induction false} AssembleAttrs(types: TypeTable, item: Item, start: seq<Byte>)
    ensures (((start + EncodeCount(types, item)) + EncodeCharges(item)) + EncodeFields(types, item, FIELDS))
              + EncodeCustoms(item)
            == start + EncodeAttrs(types, item)
  {
    var fields, customs := EncodeFields(types, item, FIELDS), EncodeCustoms(item);
    Assoc((start + EncodeCount(types, item)) + EncodeCharges(item), fields, customs);
    Assoc(start + EncodeCount(types, item), EncodeCharges(item), fields + customs);
    Assoc(start, EncodeCount(types, item), EncodeCharges(item) + (fields + customs));
  }

  /** The table of custom attributes, in the order of its traversal. */
  method SerializeCustoms(item: Item, stream: PropWriteStream)
    modifies stream
    ensures stream.buffer == old(stream.buffer) + EncodeCustoms(item)
  {
    if item.custom.Some? {
      ghost var start := stream.buffer;
      var entries := item.custom.value;
      stream.Write(ATTR_CUSTOM_ATTRIBUTES, 1);
      stream.Write(|entries|, 8);
      assert EncodeNum(ATTR_CUSTOM_ATTRIBUTES, 1) == [ATTR_CUSTOM_ATTRIBUTES];
      ghost var begun := stream.buffer;
      for k := 0 to |entries|
        invariant stream.buffer + EncodeEntries(entries[k..]) == begun + EncodeEntries(entries)
      {
        ghost var before, tail := stream.buffer, EncodeEntries(entries[k + 1..]);
        assert entries[k..][1..] == entries[k + 1..];
        stream.WriteString(entries[k].key);
        SerializeCustom(entries[k].value, stream);
        Assoc(before + EncodeString(entries[k].key), EncodeCustom(entries[k].value), tail);
        Assoc(before, EncodeString(entries[k].key), EncodeCustom(entries[k].value) + tail);
      }
      assert stream.buffer + [] == stream.buffer;
      Assoc(start + [ATTR_CUSTOM_ATTRIBUTES], EncodeNum(|entries|, 8), EncodeEntries(entries));
      Assoc(start, [ATTR_CUSTOM_ATTRIBUTES], EncodeNum(|entries|, 8) + EncodeEntries(entries));
    }
  }

  method SerializeCustom(v: Custom, stream: PropWriteStream)
    modifies stream
    ensures stream.buffer == old(stream.buffer) + EncodeCustom(v)
  {
    ghost var start := stream.buffer;
    stream.Write(KindOf(v), 1);
    assert EncodeNum(KindOf(v), 1) == [KindOf(v)];
    SerializePayload(v, stream);
    Assoc(start, [KindOf(v)], EncodePayload(v));
  }

  method SerializePayload(v: Custom, stream: PropWriteStream)
    modifies stream
    ensures stream.buffer == old(stream.buffer) + EncodePayload(v)
  {
    match v {
      case Blank =>
      case CustomText(s) => stream.WriteString(s);
      case Whole(i) => stream.Write(i % 0x1_0000_0000_0000_0000, 8);
      case Double(bits) => stream.Write(bits, 8);
      case Flag(b) => stream.Write(if b then 1 else 0, 1);
    }
  }

  /** Writes the first of the given fields, if it is to be written. */
  method SerializeField(types: TypeTable, item: Item, fields: seq<Field>, stream: PropWriteStream)
    requires fields != []
    modifies stream
    ensures stream.buffer + EncodeFields(types, item, fields[1..])
            == old(stream.buffer) + EncodeFields(types, item, fields)
  {
    var f := fields[0];
    ghost var start := stream.buffer;
    ghost var tail := EncodeFields(types, item, fields[1..]);
    if Written(types, item, f) {
      var v := ValueOf(item, f);
      stream.Write(TagOf(f), 1);
      assert EncodeNum(TagOf(f), 1) == [TagOf(f)];
      if LayoutOf(f) == Chars {
        stream.WriteString(v.s);
      } else {
        stream.Write(v.i % Power256(Bits(LayoutOf(f))), Bits(LayoutOf(f)));
      }
      assert stream.buffer == start + ([TagOf(f)] + EncodeValue(LayoutOf(f), v));
      Assoc(start, [TagOf(f)] + EncodeValue(LayoutOf(f), v), tail);
    }
  }

  method SaveItem(types: TypeTable, item: Item, stream: PropWriteStream)
    modifies stream
    ensures stream.buffer == old(stream.buffer) + Save(types, item)
    decreases item, 1
  {
    ghost var start := stream.buffer;
    stream.Write(item.id, 2);
    SerializeAttr(types, item, stream);
    SaveContainer(types, item, stream);
    stream.Write(0, 1);
    AssembleSave(types, item, start);
  }

  lemma {:induction false} AssembleSave(types: TypeTable, item: Item, start: seq<Byte>)
    ensures (((start + EncodeNum(item.id, 2)) + EncodeAttrs(types, item)) + EncodeItems(types, item)) + EncodeNum(0, 1)
            == start + Save(types, item)
  {
    assert EncodeNum(0, 1) == [0];
    var attrs := (start + EncodeNum(item.id, 2)) + EncodeAttrs(types, item);
    Assoc(attrs, EncodeItems(types, item), [0]);
    Assoc(start + EncodeNum(item.id, 2), EncodeAttrs(types, item), EncodeItems(types, item) + [0]);
    Assoc(start, EncodeNum(item.id, 2), EncodeAttrs(types, item) + (EncodeItems(types, item) + [0]));
  }

  /** The count and the contents of a container; nothing for other items. */
  method SaveContainer(types: TypeTable, item: Item, stream: PropWriteStream)
    modifies stream
    ensures stream.buffer == old(stream.buffer) + EncodeItems(types, item)
    decreases item, 0
  {
    if item.container {
      ghost var start := stream.buffer;
      stream.Write(ATTR_CONTAINER_ITEMS, 1);
      stream.Write(|item.items|, 4);
      assert EncodeNum(ATTR_CONTAINER_ITEMS, 1) == [ATTR_CONTAINER_ITEMS];
      SaveContents(types, item.items, stream);
      Assoc(start + [ATTR_CONTAINER_ITEMS], EncodeNum(|item.items|, 4), SaveBackwards(types, item.items));
      Assoc(start, [ATTR_CONTAINER_ITEMS], EncodeNum(|item.items|, 4) + SaveBackwards(types, item.items));
    }
  }

  /** The reversed loop over a container's contents. */
  method SaveContents(types: TypeTable, items: seq<Item>, stream: PropWriteStream)
    modifies stream
    ensures stream.buffer == old(stream.buffer) + SaveBackwards(types, items)
    decreases items
  {
    assert items[..|items|] == items;
    for k := |items| downto 0
      invariant stream.buffer + SaveBackwards(types, items[..k]) == old(stream.buffer) + SaveBackwards(types, items)
    {
      ghost var before := stream.buffer;
      SaveItem(types, items[k], stream);
      assert items[..k + 1][..k] == items[..k];
      Assoc(before, Save(types, items[k]), SaveBackwards(types, items[..k]));
    }
    assert stream.buffer + [] == stream.buffer;
  }

  lemma {:induction false} ReadByte(s: seq<Byte>)
    ensures ReadNum(s, 1) == if s == [] then None else Some((s[0], s[1..]))
  {
    if s != [] {
      assert s[..1] == [s[0]] && s[..1][1..] == [];
    }
  }

  method ReadStringFrom(stream: PropStream) returns (r: Option<seq<Byte>>)
    requires stream.Valid()
    modifies stream`p
    ensures stream.Valid() && old(stream.p) <= stream.p
    ensures match ReadString(old(stream.Rest()))
            case None => r == None
            case Some((s, rest)) => r == Some(s) && stream.Rest() == rest
  {
    var n := stream.Read(2);
    if n == None { return None; }
    r := stream.ReadBytes(n.value);
  }

  /** CustomAttribute::unserialize. */
  method ReadCustomFrom(stream: PropStream) returns (r: Option<Custom>)
    requires stream.Valid()
    modifies stream`p
    ensures stream.Valid() && old(stream.p) <= stream.p
    ensures match DecodeCustom(old(stream.Rest()))
            case None => r == None
            case Some((v, rest)) => r == Some(v) && stream.Rest() == rest
  {
    Powers();
    ReadByte(stream.Rest());
    var pos := stream.Read(1);
    if pos == None { return None; }
    if pos.value == 1 {
      var t := ReadStringFrom(stream);
      if t == None { return None; }
      return Some(CustomText(t.value));
    } else if pos.value == 2 {
      var n := stream.Read(8);
      if n == None { return None; }
      return Some(Whole(Signed(n.value, 8)));
    } else if pos.value == 3 {
      var n := stream.Read(8);
      if n == None { return None; }
      return Some(Double(n.value));
    } else if pos.value == 4 {
      var n := stream.Read(1);
      if n == None { return None; }
      return Some(Flag(n.value != 0));
    }
    return None;
  }

  /** Equal counts read the same. */
  lemma {:induction false} SameCount(custom: Option<seq<Entry>>, n: nat, m: nat, s: seq<Byte>)
    requires n == m
    ensures ReadEntries(custom, n, s) == ReadEntries(custom, m, s)
  {
  }

  method ReadEntriesFrom(custom: Option<seq<Entry>>, size: nat, stream: PropStream)
    returns (r: Option<Option<seq<Entry>>>)
    requires stream.Valid()
    modifies stream`p
    ensures stream.Valid() && old(stream.p) <= stream.p
    ensures match ReadEntries(custom, size, old(stream.Rest()))
            case None => r == None
            case Some((all, rest)) => r == Some(all) && stream.Rest() == rest
  {
    var current, left := custom, size;
    ghost var all := ReadEntries(custom, size, stream.Rest());
    while left > 0
      invariant stream.Valid() && old(stream.p) <= stream.p
      invariant ReadEntries(current, left, stream.Rest()) == all
    {
      ghost var before := stream.Rest();
      var key := ReadStringFrom(stream);
      if key == None { return None; }
      var v := ReadCustomFrom(stream);
      if v == None { return None; }
      var next, fewer := SetCustom(current, key.value, v.value), left - 1;
      assert ReadEntries(current, left, before) == ReadEntries(next, left - 1, stream.Rest());
      SameCount(next, left - 1, fewer, stream.Rest());
      current, left := next, fewer;
    }
    return Some(current);
  }

  method ReadAttrFrom(types: TypeTable, item: Item, tag: Byte, stream: PropStream)
    returns (r: Option<Item>)
    requires stream.Valid()
    modifies stream`p
    ensures stream.Valid()
    ensures match ReadAttr(types, item, tag, old(stream.Rest()))
            case None => r == None
            case Some((next, rest)) => r == Some(next) && stream.Rest() == rest
    ensures |stream.Rest()| <= |old(stream.Rest())|
  {
    if FieldOf(tag).Some? {
      var f := FieldOf(tag).value;
      if LayoutOf(f) == Chars {
        var s := ReadStringFrom(stream);
        if s == None { return None; }
        return Some(SetField(item, f, Str(s.value)));
      }
      var width := Bits(LayoutOf(f));
      var n := stream.Read(width);
      if n == None { return None; }
      var i := if LayoutOf(f) == I8 || LayoutOf(f) == I32 then Signed(n.value, width) else n.value;
      return Some(SetField(item, f, Int(i)));
    } else if tag == ATTR_COUNT || tag == ATTR_RUNE_CHARGES || tag == ATTR_CHARGES {
      var n := stream.Read(if tag == ATTR_CHARGES then 2 else 1);
      if n == None { return None; }
      return Some(SetSubType(types, item, n.value));
    } else if tag == ATTR_CUSTOM_ATTRIBUTES {
      var n := stream.Read(8);
      if n == None { return None; }
      var custom := ReadEntriesFrom(item.custom, n.value, stream);
      if custom == None { return None; }
      return Some(item.(custom := custom.value));
    } else if Skipped(tag).Some? {
      var skipped := stream.ReadBytes(Skipped(tag).value);
      if skipped == None { return None; }
      return Some(item);
    }
    return None;
  }

  method UnserializeAttr(types: TypeTable, item: Item, stream: PropStream) returns (r: Option<Item>, count: nat)
    requires stream.Valid()
    modifies stream`p
    ensures stream.Valid()
    ensures match Unserialize(types, item, old(stream.Rest()))
            case None => r == None
            case Some((done, n, rest)) => r == Some(done) && count == n && stream.Rest() == rest
    ensures |stream.Rest()| <= |old(stream.Rest())|
  {
    count := 0;
    var current := item;
    while true
      invariant stream.Valid() && |stream.Rest()| <= |old(stream.Rest())|
      invariant Unserialize(types, current, stream.Rest()) == Unserialize(types, item, old(stream.Rest()))
      decreases |stream.Rest()|
    {
      ReadByte(stream.Rest());
      var tag := stream.Read(1);
      if tag == None || tag.value == 0 {
        return Some(current), 0;
      }
      if tag.value == ATTR_CONTAINER_ITEMS {
        if !current.container { return None, 0; }
        var n := stream.Read(4);
        if n == None { return None, 0; }
        return Some(current), n.value;
      }
      var next := ReadAttrFrom(types, current, tag.value, stream);
      if next == None { return None, 0; }
      current := next.value;
    }
  }

  /** loadItem where the item is new: r is None on an error, and holds no item for an unknown type. */
  method LoadItem(types: TypeTable, stream: PropStream) returns (r: Option<Option<Item>>)
    requires stream.Valid()
    modifies stream`p
    ensures stream.Valid()
    ensures match Load(types, old(stream.Rest()))
            case None => r == None
            case Some((item, rest)) => r == Some(item) && stream.Rest() == rest
    decreases |stream.Rest()|, 0
  {
    Powers();
    var id := stream.Read(2);
    if id == None { return None; }
    var created := CreateItem(types, id.value);
    if created == None { return Some(None); }
    var full, count := UnserializeAttr(types, created.value, stream);
    if full == None { return None; }
    if full.value.container {
      var done := LoadContainer(types, full.value, count, stream);
      if done == None { return None; }
      return Some(Some(done.value));
    }
    return Some(Some(full.value));
  }

  method LoadContainer(types: TypeTable, box: Item, serializationCount: nat, stream: PropStream)
    returns (r: Option<Item>)
    requires stream.Valid()
    modifies stream`p
    ensures stream.Valid()
    ensures match LoadContents(types, box, serializationCount, old(stream.Rest()))
            case None => r == None
            case Some((done, rest)) => r == Some(done) && stream.Rest() == rest
    decreases |stream.Rest()|, 1
  {
    var current, left := box, serializationCount;
    ghost var all := LoadContents(types, box, serializationCount, stream.Rest());
    while left > 0
      invariant stream.Valid() && |stream.Rest()| <= |old(stream.Rest())|
      invariant LoadContents(types, current, left, stream.Rest()) == all
      decreases left
    {
      ghost var before := stream.Rest();
      var child := LoadItem(types, stream);
      if child == None { return None; }
      var next, fewer := PushFront(current, child.value), left - 1;
      assert LoadContents(types, current, left, before) == LoadContents(types, next, left - 1, stream.Rest());
      SameContents(types, next, left - 1, fewer, stream.Rest());
      current, left := next, fewer;
    }
    ReadByte(stream.Rest());
    var endAttr := stream.Read(1);
    if endAttr == None || endAttr.value != 0 { return None; }
    return Some(current);
  }

  /** loadItem where the map has changed and the item is only read past: it moves on by exactly as much
      as a load that succeeds. */
  method SkipItem(types: TypeTable, stream: PropStream) returns (ok: bool)
    requires stream.Valid()
    modifies stream`p
    ensures stream.Valid()
    ensures Load(types, old(stream.Rest())).Some? ==> ok && stream.Rest() == Load(types, old(stream.Rest())).value.1
  {
    Powers();
    var id := stream.Read(2);
    if id == None { return false; }
    var created := CreateItem(types, id.value);
    if created.Some? {
      var full, count := UnserializeAttr(types, created.value, stream);
      var dummy := if full.Some? then full.value else created.value;
      if dummy.container {
        var done := LoadContainer(types, dummy, count, stream);
        return done.Some?;
      }
    }
    return true;
  }

  // ----- what comes back

  /** Strings of 1 to 65535 bytes come back, and all other written fields. */
  predicate Restored(types: TypeTable, item: Item, f: Field) {
    Written(types, item, f) && (LayoutOf(f) == Chars ==> 0 < |ValueOf(item, f).s| <= 0xFFFF)
  }

  /** Numbers come back cut to their width; small action ids, negative durations and running decays are adjusted. */
  function RestoredValue(item: Item, f: Field): Value {
    var v := Narrow(LayoutOf(f), ValueOf(item, f));
    match f
    case ActionId => Int(if v.i < 100 then 100 else v.i)
    case Duration => Int(if v.i < 0 then 0 else v.i)
    case DecayState => Int(DECAYING_PENDING)
    case _ => v
  }

  /** A new item of the type, once the count and the charges have been read. */
  function Recreated(types: TypeTable, item: Item): Item
    requires types(item.id).creatable
  {
    var t := types(item.id);
    var created := CreateItem(types, item.id).value;
    var counted := if t.stackable || t.fluid then SetSubType(types, created, GetSubType(types, item) % 0x100)
      else created;
    if GetCharges(item) != 0 then SetSubType(types, counted, GetCharges(item)) else counted
  }

  function RestoredFields(types: TypeTable, item: Item, fields: seq<Field>): map<Field, Value> {
    map f | f in fields && Restored(types, item, f) :: RestoredValue(item, f)
  }

  /**
   Types exist, containers and only containers have contents, and no container holds 2^32 items or table 2^64
   entries.
   */
  predicate Savable(types: TypeTable, item: Item)
    decreases item
  {
    && types(item.id).creatable
    && item.container == types(item.id).container
    && (!item.container ==> item.items == [])
    && |item.items| < 0x1_0000_0000
    && (item.custom.Some? ==> |item.custom.value| < 0x1_0000_0000_0000_0000)
    && AllSavable(types, item.items)
  }

  /** No item at any depth has a blank custom attribute. */
  predicate Readable(item: Item)
    decreases item
  {
    (item.custom.Some? ==> NoBlank(item.custom.value)) && AllReadable(item.items)
  }

  predicate AllReadable(items: seq<Item>)
    decreases items
  {
    forall i :: 0 <= i < |items| ==> Readable(items[i])
  }

  predicate AllSavable(types: TypeTable, items: seq<Item>)
    decreases items
  {
    forall i :: 0 <= i < |items| ==> Savable(types, items[i])
  }

  /** What comes back of an item but for its contents. */
  function LoadedShell(types: TypeTable, item: Item): Item
    requires types(item.id).creatable
  {
    var recreated := Recreated(types, item);
    recreated.(fields := recreated.fields + AllRestored(types, item), custom := CustomBack(item.custom))
  }

  function AllRestored(types: TypeTable, item: Item): map<Field, Value> {
    map f: Field | Restored(types, item, f) :: RestoredValue(item, f)
  }

  /** The item that loading gives back for a saved item. */
  function Loaded(types: TypeTable, item: Item): Item
    requires Savable(types, item)
    decreases item
  {
    LoadedShell(types, item).(items := LoadedAll(types, item.items))
  }

  function LoadedAll(types: TypeTable, items: seq<Item>): (r: seq<Item>)
    requires AllSavable(types, items)
    ensures |r| == |items|
    decreases items
  {
    if items == [] then []
    else LoadedAll(types, items[..|items| - 1]) + [Loaded(types, items[|items| - 1])]
  }

  // ----- loading what was saved

  function SetFields(types: TypeTable, target: Item, item: Item, fields: seq<Field>): Item
    decreases |fields|, item
  {
    if fields == [] then target
    else
      var f := fields[0];
      var next := if Written(types, item, f) then SetField(target, f, Narrow(LayoutOf(f), ValueOf(item, f)))
        else target;
      SetFields(types, next, item, fields[1..])
  }

  lemma {:induction false} ReadField(types: TypeTable, target: Item, f: Field, v: Value, rest: seq<Byte>)
    requires v.Str? <==> LayoutOf(f) == Chars
    ensures Unserialize(types, target, [TagOf(f)] + (EncodeValue(LayoutOf(f), v) + rest))
            == Unserialize(types, SetField(target, f, Narrow(LayoutOf(f), v)), rest)
  {
    var s := [TagOf(f)] + (EncodeValue(LayoutOf(f), v) + rest);
    assert s[0] == TagOf(f) && s[1..] == EncodeValue(LayoutOf(f), v) + rest;
    ValueRoundTrip(LayoutOf(f), v, rest);
  }

  lemma {:induction false} ReadFitting(n: nat, width: nat, rest: seq<Byte>)
    requires n < Power256(width)
    ensures ReadNum(EncodeNum(n, width) + rest, width) == Some((n, rest))
  {
    ReadWritten(n, width, rest);
    Remainder(n, Power256(width), 0, n);
  }

  lemma {:induction false} ReadCount(types: TypeTable, target: Item, n: nat, rest: seq<Byte>)
    requires n < 0x100
    ensures Unserialize(types, target, [ATTR_COUNT] + (EncodeNum(n, 1) + rest))
            == Unserialize(types, SetSubType(types, target, n), rest)
  {
    var s := [ATTR_COUNT] + (EncodeNum(n, 1) + rest);
    assert s[0] == ATTR_COUNT && s[1..] == EncodeNum(n, 1) + rest;
    Powers();
    ReadFitting(n, 1, rest);
    assert ReadAttr(types, target, ATTR_COUNT, s[1..]) == Some((SetSubType(types, target, n), rest));
  }

  lemma {:induction false} ReadCharges(types: TypeTable, target: Item, n: nat, rest: seq<Byte>)
    requires n < 0x1_0000
    ensures Unserialize(types, target, [ATTR_CHARGES] + (EncodeNum(n, 2) + rest))
            == Unserialize(types, SetSubType(types, target, n), rest)
  {
    var s := [ATTR_CHARGES] + (EncodeNum(n, 2) + rest);
    assert s[0] == ATTR_CHARGES && s[1..] == EncodeNum(n, 2) + rest;
    Powers();
    ReadFitting(n, 2, rest);
    assert ReadAttr(types, target, ATTR_CHARGES, s[1..]) == Some((SetSubType(types, target, n), rest));
  }

  /** Reading written fields sets them one by one. */
  lemma {:induction false} ReadFields(types: TypeTable, target: Item, item: Item, fields: seq<Field>, rest: seq<Byte>)
    ensures Unserialize(types, target, EncodeFields(types, item, fields) + rest)
            == Unserialize(types, SetFields(types, target, item, fields), rest)
    decreases |fields|
  {
    if fields == [] {
      assert EncodeFields(types, item, fields) + rest == rest;
    } else {
      var f := fields[0];
      var l, v := LayoutOf(f), ValueOf(item, f);
      var tail := EncodeFields(types, item, fields[1..]);
      if Written(types, item, f) {
        Assoc([TagOf(f)] + EncodeValue(l, v), tail, rest);
        Assoc([TagOf(f)], EncodeValue(l, v), tail + rest);
        ReadField(types, target, f, v, tail + rest);
        ReadFields(types, SetField(target, f, Narrow(l, v)), item, fields[1..], rest);
      } else {
        assert [] + tail == tail;
        ReadFields(types, target, item, fields[1..], rest);
      }
    }
  }

  /** The attributes of one item, read into a new item of its type up to the custom ones. */
  lemma {:induction false} ReadAttrs(types: TypeTable, item: Item, rest: seq<Byte>)
    requires types(item.id).creatable
    ensures Unserialize(types, CreateItem(types, item.id).value, EncodeAttrs(types, item) + rest)
            == Unserialize(types, SetFields(types, Recreated(types, item), item, FIELDS), EncodeCustoms(item) + rest)
  {
    var created := CreateItem(types, item.id).value;
    var fields, behind := EncodeFields(types, item, FIELDS), EncodeCustoms(item) + rest;
    var afterCount := EncodeCharges(item) + (fields + behind);
    Assoc(EncodeCount(types, item), EncodeCharges(item) + (fields + EncodeCustoms(item)), rest);
    Assoc(EncodeCharges(item), fields + EncodeCustoms(item), rest);
    Assoc(fields, EncodeCustoms(item), rest);
    var counted := created;
    if types(item.id).stackable || types(item.id).fluid {
      var n := GetSubType(types, item) % 0x100;
      counted := SetSubType(types, created, n);
      Assoc([ATTR_COUNT], EncodeNum(n, 1), afterCount);
      ReadCount(types, created, n, afterCount);
    } else {
      assert EncodeCount(types, item) + afterCount == afterCount;
    }
    if GetCharges(item) != 0 {
      Assoc([ATTR_CHARGES], EncodeNum(GetCharges(item), 2), fields + behind);
      ReadCharges(types, counted, GetCharges(item), fields + behind);
    } else {
      assert afterCount == fields + behind;
    }
    ReadFields(types, Recreated(types, item), item, FIELDS, behind);
  }

  /** The custom attributes are read into the table, unless one is blank. */
  lemma {:induction false} ReadCustoms(types: TypeTable, target: Item, item: Item, rest: seq<Byte>)
    requires target.custom.None? && (item.custom.Some? ==> |item.custom.value| < 0x1_0000_0000_0000_0000)
    ensures Unserialize(types, target, EncodeCustoms(item) + rest)
            == if item.custom.Some? && !NoBlank(item.custom.value) then None
               else Unserialize(types, target.(custom := CustomBack(item.custom)), rest)
  {
    if item.custom.None? {
      assert [] + rest == rest;
    } else {
      var entries := item.custom.value;
      var body := EncodeNum(|entries|, 8) + (EncodeEntries(entries) + rest);
      Assoc([ATTR_CUSTOM_ATTRIBUTES], EncodeNum(|entries|, 8) + EncodeEntries(entries), rest);
      Assoc(EncodeNum(|entries|, 8), EncodeEntries(entries), rest);
      Powers();
      ReadFitting(|entries|, 8, EncodeEntries(entries) + rest);
      EntriesRoundTrip(None, entries, rest, EncodeEntries(entries) + rest);
      ReadTable(types, target, |entries|, EncodeEntries(entries) + rest, body);
    }
  }

  lemma {:induction false} ReadTable(types: TypeTable, target: Item, n: nat, s: seq<Byte>, body: seq<Byte>)
    requires ReadNum(body, 8) == Some((n, s))
    ensures Unserialize(types, target, [ATTR_CUSTOM_ATTRIBUTES] + body)
            == match ReadEntries(target.custom, n, s)
               case None => None
               case Some((custom, rest)) => Unserialize(types, target.(custom := custom), rest)
  {
    var all := [ATTR_CUSTOM_ATTRIBUTES] + body;
    assert all[0] == ATTR_CUSTOM_ATTRIBUTES && all[1..] == body;
    assert FieldOf(ATTR_CUSTOM_ATTRIBUTES) == None;
  }

  /** Setting distinct fields adds exactly the restored ones. */
  lemma {:induction false} SetFieldsRestores(types: TypeTable, target: Item, item: Item, fields: seq<Field>)
    requires forall i, j :: 0 <= i < j < |fields| ==> fields[i] != fields[j]
    ensures SetFields(types, target, item, fields)
            == target.(fields := target.fields + RestoredFields(types, item, fields))
    decreases |fields|
  {
    if fields == [] {
      assert target.fields + RestoredFields(types, item, fields) == target.fields;
    } else {
      var f := fields[0];
      var next := if Restored(types, item, f) then target.(fields := target.fields[f := RestoredValue(item, f)])
        else target;
      OneFieldRestored(types, target, item, f);
      assert SetFields(types, target, item, fields) == SetFields(types, next, item, fields[1..]);
      SetFieldsRestores(types, next, item, fields[1..]);
      RestoredStep(types, target.fields, item, fields);
    }
  }

  lemma {:induction false} RestoredStep(types: TypeTable, m: map<Field, Value>, item: Item, fields: seq<Field>)
    requires fields != [] && fields[0] !in fields[1..]
    ensures (if Restored(types, item, fields[0]) then m[fields[0] := RestoredValue(item, fields[0])] else m)
            + RestoredFields(types, item, fields[1..])
            == m + RestoredFields(types, item, fields)
  {
    assert forall g :: g in fields <==> g == fields[0] || g in fields[1..];
  }

  lemma {:induction false} OneFieldRestored(types: TypeTable, target: Item, item: Item, f: Field)
    ensures (if Written(types, item, f) then SetField(target, f, Narrow(LayoutOf(f), ValueOf(item, f))) else target)
            == if Restored(types, item, f) then target.(fields := target.fields[f := RestoredValue(item, f)])
              else target
  {
  }

  /** One step of loading, given what the attributes turn into. */
  lemma {:induction false} LoadStep(types: TypeTable, id: TypeId, mid: seq<Byte>, full: Item, n: nat, tail: seq<Byte>,
                                    s: seq<Byte>)
    requires types(id).creatable && s == EncodeNum(id, 2) + mid
    requires Unserialize(types, CreateItem(types, id).value, mid) == Some((full, n, tail))
    ensures !full.container ==> Load(types, s) == Some((Some(full), tail))
    ensures full.container ==>
              Load(types, s) == match LoadContents(types, full, n, tail)
                                case None => None
                                case Some((done, last)) => Some((Some(done), last))
  {
    Powers();
    ReadFitting(id, 2, mid);
  }

  lemma {:induction false} UnserializeEnd(types: TypeTable, item: Item, rest: seq<Byte>)
    ensures Unserialize(types, item, [0] + rest) == Some((item, 0, rest))
  {
    assert ([0] + rest)[1..] == rest;
  }

  lemma {:induction false} UnserializeContents(types: TypeTable, item: Item, n: nat, rest: seq<Byte>)
    requires item.container && n < 0x1_0000_0000
    ensures Unserialize(types, item, [ATTR_CONTAINER_ITEMS] + (EncodeNum(n, 4) + rest)) == Some((item, n, rest))
  {
    var s := [ATTR_CONTAINER_ITEMS] + (EncodeNum(n, 4) + rest);
    assert s[1..] == EncodeNum(n, 4) + rest;
    Powers();
    ReadFitting(n, 4, rest);
  }

  lemma {:induction false} DistinctFields()
    ensures forall i, j :: 0 <= i < j < |FIELDS| ==> FIELDS[i] != FIELDS[j]
    ensures forall f: Field :: f in FIELDS
  {
    forall f: Field ensures f in FIELDS {
      match f
      case ActionId => assert FIELDS[0] == f;
      case Text => assert FIELDS[1] == f;
      case Date => assert FIELDS[2] == f;
      case Writer => assert FIELDS[3] == f;
      case Description => assert FIELDS[4] == f;
      case Duration => assert FIELDS[5] == f;
      case DecayState => assert FIELDS[6] == f;
      case Name => assert FIELDS[7] == f;
      case Article => assert FIELDS[8] == f;
      case PluralName => assert FIELDS[9] == f;
      case Weight => assert FIELDS[10] == f;
      case Attack => assert FIELDS[11] == f;
      case Defense => assert FIELDS[12] == f;
      case ExtraDefense => assert FIELDS[13] == f;
      case Armor => assert FIELDS[14] == f;
      case HitChance => assert FIELDS[15] == f;
      case ShootRange => assert FIELDS[16] == f;
    }
  }

  /** Reading the attributes of a saved item. */
  lemma {:induction false} ReadShell(types: TypeTable, item: Item, tail: seq<Byte>)
    requires types(item.id).creatable && (item.custom.Some? ==> |item.custom.value| < 0x1_0000_0000_0000_0000)
    ensures Unserialize(types, CreateItem(types, item.id).value, EncodeAttrs(types, item) + tail)
            == if item.custom.Some? && !NoBlank(item.custom.value) then None
               else Unserialize(types, LoadedShell(types, item), tail)
  {
    ReadAttrs(types, item, tail);
    FieldsBack(types, item);
    ReadCustoms(types, SetFields(types, Recreated(types, item), item, FIELDS), item, tail);
  }

  lemma {:induction false} FieldsBack(types: TypeTable, item: Item)
    requires types(item.id).creatable
    ensures var r := Recreated(types, item);
            r.custom == None
            && SetFields(types, r, item, FIELDS) == r.(fields := r.fields + AllRestored(types, item))
  {
    RecreatedIsPlain(types, item);
    DistinctFields();
    SetFieldsRestores(types, Recreated(types, item), item, FIELDS);
    AllAreListed(types, item);
  }

  lemma {:induction false} RecreatedIsPlain(types: TypeTable, item: Item)
    requires types(item.id).creatable
    ensures Recreated(types, item).custom == None && Recreated(types, item).items == []
  {
    var created := CreateItem(types, item.id).value;
    assert created.custom == None && created.items == [];
  }

  lemma {:induction false} AllAreListed(types: TypeTable, item: Item)
    ensures RestoredFields(types, item, FIELDS) == AllRestored(types, item)
  {
    DistinctFields();
  }

  /** A blank custom attribute makes the loader give up. */
  lemma {:induction false} LoadBlank(types: TypeTable, item: Item, tail: seq<Byte>)
    requires types(item.id).creatable && item.custom.Some? && !NoBlank(item.custom.value)
    requires |item.custom.value| < 0x1_0000_0000_0000_0000
    ensures Load(types, EncodeNum(item.id, 2) + (EncodeAttrs(types, item) + tail)) == None
  {
    Powers();
    ReadFitting(item.id, 2, EncodeAttrs(types, item) + tail);
    ReadShell(types, item, tail);
  }

  lemma {:induction false} SavedLayout(types: TypeTable, item: Item, rest: seq<Byte>)
    ensures Save(types, item) + rest
            == EncodeNum(item.id, 2) + (EncodeAttrs(types, item) + (EncodeItems(types, item) + ([0] + rest)))
    ensures item.container ==>
              EncodeItems(types, item) + ([0] + rest)
              == [ATTR_CONTAINER_ITEMS]
                + (EncodeNum(|item.items|, 4) + (SaveBackwards(types, item.items) + ([0] + rest)))
  {
    Assoc(EncodeNum(item.id, 2), EncodeAttrs(types, item) + (EncodeItems(types, item) + [0]), rest);
    Assoc(EncodeAttrs(types, item), EncodeItems(types, item) + [0], rest);
    Assoc(EncodeItems(types, item), [0], rest);
    if item.container {
      Assoc([ATTR_CONTAINER_ITEMS], EncodeNum(|item.items|, 4) + SaveBackwards(types, item.items), [0] + rest);
      Assoc(EncodeNum(|item.items|, 4), SaveBackwards(types, item.items), [0] + rest);
    }
  }

  /** An item with nothing inside. */
  lemma {:induction false} LoadPlain(types: TypeTable, item: Item, rest: seq<Byte>, s: seq<Byte>)
    requires types(item.id).creatable && !types(item.id).container && Readable(item) && Savable(types, item)
    requires s == EncodeNum(item.id, 2) + (EncodeAttrs(types, item) + ([0] + rest))
    ensures Load(types, s) == Some((Some(LoadedShell(types, item)), rest))
  {
    ReadShell(types, item, [0] + rest);
    UnserializeEnd(types, LoadedShell(types, item), rest);
    LoadStep(types, item.id, EncodeAttrs(types, item) + ([0] + rest), LoadedShell(types, item), 0, rest, s);
  }

  /** A container, given what its contents load as. */
  lemma {:induction false} LoadBox(types: TypeTable, item: Item, inner: seq<Byte>, s: seq<Byte>)
    requires Savable(types, item) && item.container && (item.custom.Some? ==> NoBlank(item.custom.value))
    requires s == EncodeNum(item.id, 2)
                  + (EncodeAttrs(types, item) + ([ATTR_CONTAINER_ITEMS] + (EncodeNum(|item.items|, 4) + inner)))
    ensures Load(types, s) == match LoadContents(types, LoadedShell(types, item), |item.items|, inner)
                              case None => None
                              case Some((done, rest)) => Some((Some(done), rest))
  {
    var shell := LoadedShell(types, item);
    var tail := [ATTR_CONTAINER_ITEMS] + (EncodeNum(|item.items|, 4) + inner);
    ReadShell(types, item, tail);
    UnserializeContents(types, shell, |item.items|, inner);
    LoadStep(types, item.id, EncodeAttrs(types, item) + tail, shell, |item.items|, inner, s);
  }

  /** Loading a saved item, whatever follows it in the stream, gives its Loaded form and leaves what follows. */
  lemma {:induction false} LoadOfSave(types: TypeTable, item: Item, rest: seq<Byte>)
    requires Savable(types, item) && Readable(item)
    ensures Load(types, Save(types, item) + rest) == Some((Some(Loaded(types, item)), rest))
  {
    LoadStream(types, item, rest, Save(types, item) + rest);
  }

  lemma {:induction false} LoadStream(types: TypeTable, item: Item, rest: seq<Byte>, s: seq<Byte>)
    requires Savable(types, item) && Readable(item) && s == Save(types, item) + rest
    ensures Load(types, s) == Some((Some(Loaded(types, item)), rest))
    decreases item, 0
  {
    SavedLayout(types, item, rest);
    var shell := LoadedShell(types, item);
    RecreatedIsPlain(types, item);
    if item.container {
      var inner := SaveBackwards(types, item.items) + ([0] + rest);
      LoadStreamBackwards(types, shell, item.items, rest, inner);
      assert shell.(items := LoadedAll(types, item.items) + shell.items) == Loaded(types, item);
      LoadBox(types, item, inner, s);
    } else {
      assert EncodeItems(types, item) + ([0] + rest) == [0] + rest;
      assert shell == Loaded(types, item);
      LoadPlain(types, item, rest, s);
    }
  }

  lemma {:induction false} LoadedAllStep(types: TypeTable, items: seq<Item>, behind: seq<Item>)
    requires items != [] && AllSavable(types, items)
    ensures AllSavable(types, items[..|items| - 1])
    ensures LoadedAll(types, items[..|items| - 1]) + ([Loaded(types, items[|items| - 1])] + behind)
            == LoadedAll(types, items) + behind
  {
    var n := |items| - 1;
    Assoc(LoadedAll(types, items[..n]), [Loaded(types, items[n])], behind);
  }

  lemma {:induction false} ContentsStep(types: TypeTable, box: Item, n: nat, fewer: nat, s: seq<Byte>, child: Item,
                                        tail: seq<Byte>)
    requires n > 0 && fewer == n - 1 && Load(types, s) == Some((Some(child), tail))
    ensures LoadContents(types, box, n, s) == LoadContents(types, PushFront(box, Some(child)), fewer, tail)
  {
    assert LoadContents(types, box, n, s) == LoadContents(types, PushFront(box, Some(child)), n - 1, tail);
    SameContents(types, PushFront(box, Some(child)), n - 1, fewer, tail);
  }

  /** Equal counts load the same. */
  lemma {:induction false} SameContents(types: TypeTable, box: Item, n: nat, m: nat, s: seq<Byte>)
    requires n == m
    ensures LoadContents(types, box, n, s) == LoadContents(types, box, m, s)
  {
  }

  /** Contents are written back to front and each is pushed to the front: the order is kept. */
  lemma {:induction false} LoadStreamBackwards(types: TypeTable, box: Item, items: seq<Item>, rest: seq<Byte>,
                                               s: seq<Byte>)
    requires AllSavable(types, items) && s == SaveBackwards(types, items) + ([0] + rest)
    requires AllReadable(items)
    ensures LoadContents(types, box, |items|, s) == Some((box.(items := LoadedAll(types, items) + box.items), rest))
    decreases items, 1
  {
    if items == [] {
      assert s == [0] + rest && s[1..] == rest;
      assert LoadedAll(types, items) + box.items == box.items;
    } else {
      var last, front := items[|items| - 1], items[..|items| - 1];
      var tail := SaveBackwards(types, front) + ([0] + rest);
      Assoc(Save(types, last), SaveBackwards(types, front), [0] + rest);
      LoadStream(types, last, tail, s);
      ContentsStep(types, box, |items|, |front|, s, Loaded(types, last), tail);
      var next := PushFront(box, Some(Loaded(types, last)));
      LoadStreamBackwards(types, next, front, rest, tail);
      LoadedAllStep(types, items, box.items);
    }
  }

  lemma {:induction false} LoadedAllAt(types: TypeTable, items: seq<Item>, i: nat)
    requires AllSavable(types, items) && i < |items|
    ensures LoadedAll(types, items)[i] == Loaded(types, items[i])
    decreases |items|
  {
    if i < |items| - 1 {
      LoadedAllAt(types, items[..|items| - 1], i);
    }
  }

  /** With a blank custom attribute anywhere inside, nothing of the item is loaded. */
  lemma {:induction false} BlankFails(types: TypeTable, item: Item, rest: seq<Byte>, s: seq<Byte>)
    requires Savable(types, item) && !Readable(item) && s == Save(types, item) + rest
    ensures Load(types, s) == None
    decreases item, 0
  {
    SavedLayout(types, item, rest);
    if item.custom.Some? && !NoBlank(item.custom.value) {
      LoadBlank(types, item, EncodeItems(types, item) + ([0] + rest));
    } else {
      var inner := SaveBackwards(types, item.items) + ([0] + rest);
      BlankFailsBackwards(types, LoadedShell(types, item), item.items, rest, inner);
      LoadBox(types, item, inner, s);
    }
  }

  lemma {:induction false} ReadableSplit(items: seq<Item>)
    requires items != []
    ensures AllReadable(items) <==> AllReadable(items[..|items| - 1]) && Readable(items[|items| - 1])
  {
    forall i | 0 <= i < |items| - 1 ensures items[..|items| - 1][i] == items[i] {
    }
  }

  lemma {:induction false} BlankFailsBackwards(types: TypeTable, box: Item, items: seq<Item>, rest: seq<Byte>,
                                               s: seq<Byte>)
    requires AllSavable(types, items) && s == SaveBackwards(types, items) + ([0] + rest)
    requires !AllReadable(items)
    ensures LoadContents(types, box, |items|, s) == None
    decreases items, 1
  {
    var last, front := items[|items| - 1], items[..|items| - 1];
    var tail := SaveBackwards(types, front) + ([0] + rest);
    Assoc(Save(types, last), SaveBackwards(types, front), [0] + rest);
    if Readable(last) {
      LoadStream(types, last, tail, s);
      ContentsStep(types, box, |items|, |front|, s, Loaded(types, last), tail);
      ReadableSplit(items);
      BlankFailsBackwards(types, PushFront(box, Some(Loaded(types, last))), front, rest, tail);
    } else {
      BlankFails(types, last, tail, s);
    }
  }

  // ----- which items come back unchanged

  predicate Chargeable(t: ItemType) {
    !t.fluid && !t.stackable && t.charges != 0
  }

  predicate Int32(i: int) {
    -0x8000_0000 <= i < 0x8000_0000
  }

  /** What the setters guarantee: each field has a value of its kind, numbers have 32 bits, and only
      types with charges of their own carry charges. */
  predicate Proper(types: TypeTable, item: Item)
    decreases item
  {
    && (forall f :: f in item.fields ==>
          var v := item.fields[f];
          (v.Str? <==> LayoutOf(f) == Chars) && (v.Int? ==> Int32(v.i)))
    && (item.charges.Some? ==> Chargeable(types(item.id)) && Int32(item.charges.value))
    && (item.fluidType.Some? ==> Int32(item.fluidType.value))
    && CustomProper(item.custom)
    && forall i :: 0 <= i < |item.items| ==> Proper(types, item.items[i])
  }

  /** The values of a field that the format can hold. */
  predicate Fits(types: TypeTable, item: Item, f: Field)
    requires f in item.fields
  {
    match item.fields[f]
    case Str(s) => 0 < |s| <= 0xFFFF
    case Int(i) =>
      match f
      case ActionId => types(item.id).moveable && 100 <= i < 0x1_0000
      case Date => i != 0
      case Duration => 0 <= i
      case DecayState => i == DECAYING_PENDING
      case HitChance => -0x80 <= i < 0x80
      case ShootRange => 0 <= i < 0x100
      case _ => true
  }

  predicate ScalarsStorable(types: TypeTable, item: Item) {
    var t := types(item.id);
    && (t.container || t.ownClass || Replacement(item.id) == item.id)
    && ((t.stackable && !t.fluid) || item.count == 1)
    && (if t.fluid then item.fluidType.Some? && 0 <= item.fluidType.value < 0x100 else item.fluidType.None?)
    && (if Chargeable(t) then item.charges.Some? && 0 < item.charges.value < 0x1_0000 else item.charges.None?)
  }

  predicate FieldsStorable(types: TypeTable, item: Item) {
    && (forall f :: f in item.fields ==> Fits(types, item, f))
    && (types(item.id).decayTime != 0 ==> Duration in item.fields)
  }

  predicate Storable(types: TypeTable, item: Item)
    decreases item
  {
    ScalarsStorable(types, item) && FieldsStorable(types, item) && CustomStorable(item.custom)
    && forall i :: 0 <= i < |item.items| ==> Storable(types, item.items[i])
  }

  /** Two types that differ at most in the time they decay in, as a ring and the ring that is worn. */
  predicate Alike(t: ItemType, u: ItemType) {
    t == u.(decayTime := t.decayTime)
  }

  /** Sizes of the item type table: charges have 16 bits and durations 31; a replaced type is like its replacement
      but for the time it decays in. */
  ghost predicate TableFits(types: TypeTable) {
    && (forall id: TypeId :: types(id).charges < 0x1_0000 && types(id).decayTime * 1000 < 0x8000_0000)
    && forall id: TypeId {:trigger Replacement(id)} :: Alike(types(Replacement(id)), types(id))
  }

  lemma {:induction false} NarrowInt32(i: int)
    requires Int32(i)
    ensures Narrow(I32, Int(i)) == Int(i)
  {
    assert i >= 0 ==> i % 0x1_0000_0000 == i;
    assert i < 0 ==> i % 0x1_0000_0000 == i + 0x1_0000_0000;
    Powers();
  }

  lemma {:induction false} FieldComesBack(types: TypeTable, item: Item, f: Field)
    requires Proper(types, item)
    ensures f in item.fields && Fits(types, item, f) <==>
            Restored(types, item, f) && f in item.fields && RestoredValue(item, f) == item.fields[f]
    ensures f in item.fields || !Restored(types, item, f)
  {
    if f in item.fields && item.fields[f].Int? {
      NarrowInt32(item.fields[f].i);
    }
  }

  function DefaultFields(t: ItemType): map<Field, Value> {
    if t.decayTime != 0 then map[Duration := Int(t.decayTime * 1000)] else map[]
  }

  /** A new item before its count and charges are read. */
  lemma {:induction false} CreatedBasics(types: TypeTable, id: TypeId)
    requires types(id).creatable && TableFits(types)
    ensures var t := types(id);
            var r := CreateItem(types, id).value;
            Alike(types(r.id), t) && r.fields == DefaultFields(types(r.id)) && r.custom == None
              && r.container == t.container && r.items == []
            && r.id == (if t.container || t.ownClass then id else Replacement(id))
            && (r.fluidType.Some? <==> t.fluid)
            && r.charges == (if Chargeable(t) then Some(t.charges) else None)
            && ((t.stackable && !t.fluid) || r.count == 1)
  {
  }

  lemma {:induction false} SetSubTypeBasics(types: TypeTable, item: Item, n: nat)
    requires n < 0x1_0000
    ensures var t := types(item.id);
            SetSubType(types, item, n)
            == if t.fluid then item.(fluidType := Some(n))
               else if Chargeable(t) then item.(charges := Some(n))
               else item.(count := n % 0x100)
  {
  }

  /** Count, charges and fluid of a recreated item, and what a new item of the type has anyway. */
  ghost predicate RecreatedAs(types: TypeTable, item: Item, r: Item) {
    var t := types(item.id);
    && r.fields == DefaultFields(types(r.id)) && r.custom == None && Alike(types(r.id), t)
    && r.id == (if t.container || t.ownClass then item.id else Replacement(item.id))
    && r.container == t.container && r.items == []
    && r.count == (if t.stackable && !t.fluid then item.count else 1)
    && r.fluidType == (if t.fluid then Some(GetSubType(types, item) % 0x100) else None)
    && r.charges == (if !Chargeable(t) then None
                     else Some(if GetCharges(item) != 0 then GetCharges(item) else t.charges))
  }

  lemma {:induction false} RecreatedIs(types: TypeTable, item: Item)
    requires types(item.id).creatable && TableFits(types) && Proper(types, item)
    ensures RecreatedAs(types, item, Recreated(types, item))
  {
    var t := types(item.id);
    var created := CreateItem(types, item.id).value;
    CreatedBasics(types, item.id);
    var counted := CountedIs(types, item, created);
    if GetCharges(item) != 0 {
      SetSubTypeBasics(types, counted, GetCharges(item));
    }
  }

  lemma {:induction false} CountedIs(types: TypeTable, item: Item, created: Item) returns (counted: Item)
    requires Alike(types(created.id), types(item.id))
    ensures var t := types(item.id);
            var n := GetSubType(types, item) % 0x100;
            counted == (if t.stackable || t.fluid then SetSubType(types, created, n) else created)
            && counted == (if t.fluid then created.(fluidType := Some(n))
                           else if t.stackable then created.(count := item.count) else created)
  {
    var t := types(item.id);
    var n := GetSubType(types, item) % 0x100;
    counted := if t.stackable || t.fluid then SetSubType(types, created, n) else created;
    SetSubTypeBasics(types, created, n);
  }

  lemma {:induction false} ChargesComeBack(types: TypeTable, item: Item, r: Item)
    requires Proper(types, item) && TableFits(types) && RecreatedAs(types, item, r)
    ensures var t := types(item.id);
            r.charges == item.charges
            <==> if Chargeable(t) then item.charges.Some? && 0 < item.charges.value < 0x1_0000 else item.charges.None?
  {
    if item.charges.Some? {
      var v := item.charges.value;
      assert v % 0x1_0000 == v <==> 0 <= v < 0x1_0000;
    }
  }

  lemma {:induction false} FluidComesBack(types: TypeTable, item: Item, r: Item)
    requires Proper(types, item) && RecreatedAs(types, item, r)
    ensures var t := types(item.id);
            r.fluidType == item.fluidType
            <==> if t.fluid then item.fluidType.Some? && 0 <= item.fluidType.value < 0x100 else item.fluidType.None?
  {
    if item.fluidType.Some? {
      var v := item.fluidType.value;
      assert v % 0x1_0000 % 0x100 == v <==> 0 <= v < 0x100;
    }
  }

  lemma {:induction false} ScalarsComeBack(types: TypeTable, item: Item, r: Item)
    requires types(item.id).creatable && Proper(types, item) && TableFits(types) && RecreatedAs(types, item, r)
    ensures r.id == item.id && r.count == item.count && r.charges == item.charges && r.fluidType == item.fluidType
            <==> ScalarsStorable(types, item)
  {
    ChargesComeBack(types, item, r);
    FluidComesBack(types, item, r);
  }

  lemma {:induction false} FieldsComeBack(types: TypeTable, item: Item)
    requires Proper(types, item)
    ensures DefaultFields(types(item.id)) + AllRestored(types, item) == item.fields <==> FieldsStorable(types, item)
  {
    forall f: Field
      ensures f in item.fields && Fits(types, item, f) <==>
              Restored(types, item, f) && f in item.fields && RestoredValue(item, f) == item.fields[f]
      ensures f in item.fields || !Restored(types, item, f)
    {
      FieldComesBack(types, item, f);
    }
    var back := DefaultFields(types(item.id)) + AllRestored(types, item);
    if back == item.fields {
      forall f | f in item.fields ensures Fits(types, item, f) {
        assert f in back;
        assert f in DefaultFields(types(item.id)) ==> f == Duration;
        assert f == Duration ==> Restored(types, item, f);
      }
    }
    if FieldsStorable(types, item) {
      forall f: Field
        ensures f in back <==> f in item.fields
        ensures f in item.fields ==> back[f] == item.fields[f]
      {
      }
    }
  }

  lemma {:induction false} LoadedIffStorable(types: TypeTable, item: Item)
    requires Savable(types, item) && Readable(item) && Proper(types, item) && TableFits(types)
    ensures Loaded(types, item) == item <==> Storable(types, item)
    decreases item
  {
    CustomComesBack(item.custom);
    RecreatedIs(types, item);
    ScalarsComeBack(types, item, Recreated(types, item));
    FieldsComeBack(types, item);
    forall i | 0 <= i < |item.items|
      ensures LoadedAll(types, item.items)[i] == item.items[i] <==> Storable(types, item.items[i])
    {
      LoadedIffStorable(types, item.items[i]);
      LoadedAllAt(types, item.items, i);
    }
  }

  /** A saved item comes back unchanged, with the rest of the stream untouched, exactly when it is storable. */
  lemma {:induction false} RoundTripIffStorable(types: TypeTable, item: Item, rest: seq<Byte>)
    requires Savable(types, item) && Proper(types, item) && TableFits(types)
    ensures Load(types, Save(types, item) + rest) == Some((Some(item), rest)) <==> Storable(types, item)
  {
    if Readable(item) {
      LoadOfSave(types, item, rest);
      LoadedIffStorable(types, item);
    } else {
      BlankFails(types, item, rest, Save(types, item) + rest);
      StorableIsReadable(types, item);
    }
  }

  lemma {:induction false} StorableHasNoBlank(entries: seq<Entry>)
    requires forall e :: e in entries ==> EntryStorable(e)
    ensures NoBlank(entries)
    decreases |entries|
  {
    if entries != [] {
      assert entries[0] in entries;
      StorableHasNoBlank(entries[1..]);
    }
  }

  lemma {:induction false} StorableIsReadable(types: TypeTable, item: Item)
    ensures Storable(types, item) ==> Readable(item)
    decreases item
  {
    if Storable(types, item) && item.custom.Some? {
      StorableHasNoBlank(item.custom.value);
    }
    forall i | 0 <= i < |item.items| ensures Storable(types, item.items[i]) ==> Readable(item.items[i]) {
      StorableIsReadable(types, item.items[i]);
    }
  }

  /** What has been loaded once survives every later save and load. */
  lemma {:induction false} SecondTrip(types: TypeTable, item: Item, rest: seq<Byte>)
    requires Savable(types, item) && Readable(item) && Proper(types, item) && TableFits(types)
    ensures var r := Loaded(types, item);
            Savable(types, r) && Proper(types, r) && Storable(types, r)
            && Load(types, Save(types, r) + rest) == Some((Some(r), rest))
  {
    LoadedIsStorable(types, item);
    LoadedIsSavable(types, item);
    LoadedIsProper(types, item);
    RoundTripIffStorable(types, Loaded(types, item), rest);
  }

  lemma {:induction false} LoadedIsSavable(types: TypeTable, item: Item)
    requires Savable(types, item) && Proper(types, item) && TableFits(types)
    ensures Savable(types, Loaded(types, item))
    decreases item
  {
    var r := Loaded(types, item);
    RecreatedIs(types, item);
    if item.custom.Some? {
      SetAllProper(None, item.custom.value);
    }
    forall i | 0 <= i < |item.items| ensures Savable(types, r.items[i]) {
      LoadedIsSavable(types, item.items[i]);
      LoadedAllAt(types, item.items, i);
    }
  }

  lemma {:induction false} LoadedIsProper(types: TypeTable, item: Item)
    requires Savable(types, item) && Proper(types, item) && TableFits(types)
    ensures Proper(types, Loaded(types, item))
    decreases item
  {
    var r := Loaded(types, item);
    RecreatedIs(types, item);
    ScalarsAreProper(types, item, Recreated(types, item));
    if item.custom.Some? {
      SetAllProper(None, item.custom.value);
    }
    forall f | f in r.fields
      ensures (r.fields[f].Str? <==> LayoutOf(f) == Chars) && (r.fields[f].Int? ==> Int32(r.fields[f].i))
    {
      RestoredIsProper(types, item, r, f);
    }
    forall i | 0 <= i < |item.items| ensures Proper(types, r.items[i]) {
      LoadedIsProper(types, item.items[i]);
      LoadedAllAt(types, item.items, i);
    }
  }

  lemma {:induction false} ScalarsAreProper(types: TypeTable, item: Item, r: Item)
    requires types(item.id).creatable && Proper(types, item) && TableFits(types) && RecreatedAs(types, item, r)
    ensures r.charges.Some? ==> Chargeable(types(r.id)) && Int32(r.charges.value)
    ensures r.fluidType.Some? ==> Int32(r.fluidType.value)
  {
  }

  lemma {:induction false} RestoredIsProper(types: TypeTable, item: Item, r: Item, f: Field)
    requires TableFits(types) && f in r.fields
    requires Restored(types, item, f) ==> r.fields[f] == RestoredValue(item, f)
    requires !Restored(types, item, f) ==> f == Duration && r.fields[f] == Int(types(r.id).decayTime * 1000)
    ensures (r.fields[f].Str? <==> LayoutOf(f) == Chars) && (r.fields[f].Int? ==> Int32(r.fields[f].i))
  {
    Powers();
  }

  lemma {:induction false} LoadedIsStorable(types: TypeTable, item: Item)
    requires Savable(types, item) && Readable(item) && Proper(types, item) && TableFits(types)
    ensures Storable(types, Loaded(types, item))
    decreases item
  {
    CustomComesBack(item.custom);
    var r := Loaded(types, item);
    RecreatedIs(types, item);
    ScalarsAreStorable(types, item, Recreated(types, item));
    FieldsAreStorable(types, item, r);
    forall i | 0 <= i < |item.items|
      ensures Storable(types, r.items[i])
    {
      LoadedIsStorable(types, item.items[i]);
      LoadedAllAt(types, item.items, i);
    }
  }

  lemma {:induction false} ScalarsAreStorable(types: TypeTable, item: Item, r: Item)
    requires types(item.id).creatable && Proper(types, item) && TableFits(types) && RecreatedAs(types, item, r)
    ensures ScalarsStorable(types, r)
  {
  }

  lemma {:induction false} FieldsAreStorable(types: TypeTable, item: Item, r: Item)
    requires Proper(types, item) && TableFits(types) && Alike(types(r.id), types(item.id))
    requires r.fields == DefaultFields(types(r.id)) + AllRestored(types, item)
    ensures FieldsStorable(types, r)
  {
    forall f | f in r.fields
      ensures Fits(types, r, f)
    {
      RestoredFits(types, item, r, f);
    }
  }

  lemma {:induction false} RestoredFits(types: TypeTable, item: Item, r: Item, f: Field)
    requires Proper(types, item) && TableFits(types) && Alike(types(r.id), types(item.id))
    requires f in r.fields
    requires Restored(types, item, f) ==> r.fields[f] == RestoredValue(item, f)
    requires !Restored(types, item, f) ==> f == Duration && r.fields[f] == Int(types(r.id).decayTime * 1000)
    ensures Fits(types, r, f)
  {
    if Restored(types, item, f) {
      if f in item.fields && item.fields[f].Int? {
        NarrowInt32(item.fields[f].i);
      }
    }
  }
}
