/**
 Domain names on the wire (src/mdns/packet_codec.rs): length-prefixed labels
 and compression pointers (section 4.1.4 of RFC 1035). Names are byte
 sequences; reading undoes printing, and reading ends on every packet.
 */
module DnsNames {
  import opened Bits
  import opened Text

  type Bytes = seq<Byte>
  type Name = seq<Byte>

  const DOT: Byte := 46

  const MAX_POINTER_DEPTH: nat := 8

  // ---- Integers ---------------------------------------------------------------

  function U16Bytes(v: nat): (b: Bytes)
    ensures |b| == 2
  {
    [v / 256 % 256, v % 256]
  }

  function U32Bytes(v: nat): (b: Bytes)
    ensures |b| == 4
  {
    [v / 16777216 % 256, v / 65536 % 256, v / 256 % 256, v % 256]
  }

  function ReadU16(data: Bytes, off: nat): (v: nat)
    requires off + 2 <= |data|
    ensures v < 65536
  {
    256 * (data[off] as int) + data[off + 1] as int
  }

  function ReadU32(data: Bytes, off: nat): (v: nat)
    requires off + 4 <= |data|
    ensures v < 0x1_0000_0000
  {
    16777216 * (data[off] as int) + 65536 * (data[off + 1] as int) + 256 * (data[off + 2] as int) + data[off + 3] as int
  }

  /** The shift-and-or expressions of `read_u16` and `read_u32` are these values. */
  lemma {:induction false} ReadByShifts(data: Bytes, off: nat)
    requires off + 4 <= |data|
    ensures Or(data[off] as int * 256, data[off + 1]) == ReadU16(data, off)
    ensures Or(Or(Or(data[off] as int * 16777216, data[off + 1] as int * 65536), data[off + 2] as int * 256), data[off + 3])
         == ReadU32(data, off)
  {
    var b0: nat, b1: nat, b2: nat, b3: nat := data[off], data[off + 1], data[off + 2], data[off + 3];
    assert Pow2(8) == 256;
    assert Pow2(16) == 65536;
    assert Pow2(24) == 16777216;
    OrDisjoint(b0, b1, 8);
    OrDisjoint(b0, b1 * 65536, 24);
    OrDisjoint(b0 * 256 + b1, b2 * 256, 16);
    OrDisjoint(b0 * 65536 + b1 * 256 + b2, b3, 8);
  }

  // ---- Positions in a packet -----------------------------------------------------

  /** `bytes` stands in `data` at offset `off`. */
  predicate At(data: Bytes, off: nat, bytes: Bytes)
  {
    off + |bytes| <= |data| && data[off..off + |bytes|] == bytes
  }

  lemma {:induction false} AtSplit(data: Bytes, off: nat, a: Bytes, b: Bytes)
    requires At(data, off, a + b)
    ensures At(data, off, a) && At(data, off + |a|, b)
  {
    assert data[off..off + |a|] == (a + b)[..|a|] == a;
    assert data[off + |a|..off + |a| + |b|] == (a + b)[|a|..] == b;
  }

  lemma {:induction false} AtWhole(data: Bytes)
    ensures At(data, 0, data)
  {
    assert data[0..|data|] == data;
  }

  lemma {:induction false} AtIndex(data: Bytes, off: nat, bytes: Bytes, i: nat)
    requires At(data, off, bytes) && i < |bytes|
    ensures data[off + i] == bytes[i]
  {
    assert data[off..off + |bytes|][i] == bytes[i];
  }

  lemma {:induction false} U16At(data: Bytes, off: nat, v: nat)
    requires At(data, off, U16Bytes(v)) && v < 65536
    ensures ReadU16(data, off) == v
  {
    AtIndex(data, off, U16Bytes(v), 0);
    AtIndex(data, off, U16Bytes(v), 1);
  }

  lemma {:induction false} U32At(data: Bytes, off: nat, v: nat)
    requires At(data, off, U32Bytes(v)) && v < 0x1_0000_0000
    ensures ReadU32(data, off) == v
  {
    AtIndex(data, off, U32Bytes(v), 0);
    AtIndex(data, off, U32Bytes(v), 1);
    AtIndex(data, off, U32Bytes(v), 2);
    AtIndex(data, off, U32Bytes(v), 3);
    Base256Digits(v);
  }

  lemma {:induction false} Base256Digits(v: nat)
    requires v < 0x1_0000_0000
    ensures v == 16777216 * (v / 16777216 % 256) + 65536 * (v / 65536 % 256) + 256 * (v / 256 % 256) + v % 256
  {
    var w := v / 256;
    assert v / 65536 == w / 256 && v / 16777216 == w / 65536;
    assert w == 65536 * (w / 65536 % 256) + 256 * (w / 256 % 256) + w % 256 by {
      assert w / 65536 == w / 256 / 256;
    }
  }

  // ---- Names -------------------------------------------------------------------

  /** The labels the encoder writes: the non-empty parts between dots. */
  function Labels(name: Name): (r: seq<Bytes>)
    ensures forall i :: 0 <= i < |r| ==> |r[i]| > 0
  {
    NonEmpty(Split(name, DOT))
  }

  /** A name with its empty labels dropped; what a reader gets back. */
  function Canonical(name: Name): Name
  {
    Join(Labels(name), DOT)
  }

  /** No empty label: no leading, trailing or doubled dot. */
  predicate NoEmptyLabel(name: Name)
  {
    forall i :: 0 <= i < |Split(name, DOT)| ==> |Split(name, DOT)[i]| > 0
  }

  lemma {:induction false} CanonicalId(name: Name)
    requires NoEmptyLabel(name)
    ensures Canonical(name) == name && Labels(name) == Split(name, DOT)
  {
    NonEmptyOfFull(Split(name, DOT));
    JoinSplit(name, DOT);
  }

  /** One length byte (truncated as `len as u8`) and the label, then a zero. */
  function LabelBytes(labels: seq<Bytes>): (b: Bytes)
    ensures |b| > 0
  {
    if labels == [] then [0]
    else [|labels[0]| % 256] + labels[0] + LabelBytes(labels[1..])
  }

  function NameBytes(name: Name): (b: Bytes)
    ensures |b| > 0
  {
    LabelBytes(Labels(name))
  }

  /** Labels short enough not to be mistaken for a pointer when read back. */
  predicate ShortLabels(labels: seq<Bytes>)
  {
    forall i :: 0 <= i < |labels| ==> 0 < |labels[i]| < 192
  }

  predicate ReadableName(name: Name)
  {
    ShortLabels(Labels(name))
  }

  function PointerTarget(len: Byte, next: Byte): nat
  {
    len as int % 64 * 256 + next as int
  }

  predicate IsPointer(len: Byte)
  {
    len >= 192
  }

  /** The tests and masks of `read_name`: `len & 0xC0 == 0xC0`, `((len & 0x3F) << 8) | next`. */
  lemma {:induction false} PointerByMasks(len: Byte, next: Byte)
    ensures And(len, 0xC0) == 0xC0 <==> IsPointer(len)
    ensures Or(And(len, 0x3F) * 256, next) == PointerTarget(len, next)
  {
    TopTwoBits(len);
    assert Pow2(8) == 256;
    assert Pow2(6) == 64;
    AndMask(len, 6);
    OrDisjoint(And(len, 63), next, 8);
  }

  /**
   `read_name`: the name at `start` and the offset after it. Whatever the
   bytes are, also with pointers that form a cycle, it ends; a name read lies
   inside the packet.
   */
  function NameAt(data: Bytes, start: nat, depth: nat): (r: Option<(Name, nat)>)
    ensures r.Some? ==> start < r.value.1 <= |data|
    decreases if depth > MAX_POINTER_DEPTH then 0 else MAX_POINTER_DEPTH + 1 - depth, |data| + 1
  {
    if depth > MAX_POINTER_DEPTH || start >= |data| then None
    else NameFrom(data, start, depth, [])
  }

  /** The loop of `read_name`, at `off` with `labels` read so far. */
  function NameFrom(data: Bytes, off: nat, depth: nat, labels: seq<Bytes>): (r: Option<(Name, nat)>)
    requires depth <= MAX_POINTER_DEPTH
    ensures r.Some? ==> off < r.value.1 <= |data|
    decreases MAX_POINTER_DEPTH + 1 - depth, if off <= |data| then |data| - off else 0
  {
    if off >= |data| then None
    else
      var len := data[off];
      if len == 0 then Some((Join(labels, DOT), off + 1))
      else if IsPointer(len) then
        if off + 1 >= |data| then None
        else
          match NameAt(data, PointerTarget(len, data[off + 1]), depth + 1)
          case None => None
          case Some((pointed, _)) => Some((Join(labels + Labels(pointed), DOT), off + 2))
      else if off + 1 + len > |data| then None
      else NameFrom(data, off + 1 + len, depth, labels + [data[off + 1..off + 1 + len]])
  }

  method ReadName(data: Bytes, start: nat, depth: nat) returns (r: Option<(Name, nat)>)
    ensures r == NameAt(data, start, depth)
    decreases if depth > MAX_POINTER_DEPTH then 0 else MAX_POINTER_DEPTH + 1 - depth
  {
    hide Join, Labels, Or, And;
    if depth > MAX_POINTER_DEPTH || start >= |data| {
      return None;
    }
    var labels: seq<Bytes> := [];
    var offset := start;
    while offset < |data|
      invariant NameFrom(data, start, depth, []) == NameFrom(data, offset, depth, labels)
      decreases |data| - offset
    {
      var len := data[offset];
      if len == 0 {
        return Some((Join(labels, DOT), offset + 1));
      }
      PointerByMasks(len, 0);
      if And(len, 0xC0) == 0xC0 {
        if offset + 1 >= |data| {
          return None;
        }
        PointerByMasks(len, data[offset + 1]);
        var ptr := Or(And(len, 0x3F) * 256, data[offset + 1]);
        var pointed := ReadName(data, ptr, depth + 1);
        if pointed.None? {
          return None;
        }
        labels := labels + Labels(pointed.value.0);
        return Some((Join(labels, DOT), offset + 2));
      }
      var next := offset + 1 + len;
      if next > |data| {
        return None;
      }
      labels := labels + [data[offset + 1..next]];
      offset := next;
    }
    return None;
  }

  method EncodeName(name: Name) returns (out: Bytes)
    ensures out == NameBytes(name)
  {
    hide LabelBytes, Labels;
    out := [];
    var labels := Labels(name);
    var i := 0;
    assert labels[0..] == labels;
    while i < |labels|
      invariant 0 <= i <= |labels|
      invariant LabelBytes(labels) == out + LabelBytes(labels[i..])
    {
      out := out + [|labels[i]| % 256] + labels[i];
      LabelBytesFirst(labels[i..]);
      assert labels[i..][1..] == labels[i + 1..];
      i := i + 1;
    }
    assert labels[i..] == [];
    NoLabelBytes();
    out := out + [0];
  }

  lemma {:induction false} LabelBytesFirst(labels: seq<Bytes>)
    requires labels != []
    ensures LabelBytes(labels) == [|labels[0]| % 256] + labels[0] + LabelBytes(labels[1..])
    ensures |LabelBytes(labels)| == 1 + |labels[0]| + |LabelBytes(labels[1..])|
  {
  }

  lemma {:induction false} NoLabelBytes()
    ensures LabelBytes([]) == [0]
  {
  }

  lemma {:induction false} AppendFirst(read: seq<Bytes>, labels: seq<Bytes>)
    requires labels != []
    ensures read + [labels[0]] + labels[1..] == read + labels
  {
  }

  /** Reading over printed labels reaches their closing zero with all of them read. */
  lemma {:induction false} LabelsReadBack(data: Bytes, off: nat, depth: nat, read: seq<Bytes>, labels: seq<Bytes>)
    requires depth <= MAX_POINTER_DEPTH
    requires ShortLabels(labels)
    requires At(data, off, LabelBytes(labels))
    ensures var end := off + |LabelBytes(labels)| - 1;
            At(data, end, [0]) && NameFrom(data, off, depth, read) == NameFrom(data, end, depth, read + labels)
    decreases |labels|
  {
    hide NameFrom, LabelBytes, At, ShortLabels;
    if labels == [] {
      assert LabelBytes([]) == [0] by { NoLabelBytes(); }
      assert read + labels == read;
    } else {
      var l, rest := labels[0], labels[1..];
      LabelBytesFirst(labels);
      assert 0 < |l| < 192 && ShortLabels(rest) by { ShortFirst(labels); }
      LabelRead(data, off, depth, read, l, LabelBytes(rest));
      LabelsReadBack(data, off + 1 + |l|, depth, read + [l], rest);
      AppendFirst(read, labels);
    }
  }

  lemma {:induction false} ShortFirst(labels: seq<Bytes>)
    requires labels != [] && ShortLabels(labels)
    ensures 0 < |labels[0]| < 192 && ShortLabels(labels[1..])
  {
  }

  lemma {:induction false} LabelRead(data: Bytes, off: nat, depth: nat, read: seq<Bytes>, l: Bytes, tail: Bytes)
    requires depth <= MAX_POINTER_DEPTH
    requires 0 < |l| < 192
    requires At(data, off, [|l| % 256] + l + tail)
    ensures At(data, off + 1 + |l|, tail)
    ensures NameFrom(data, off, depth, read) == NameFrom(data, off + 1 + |l|, depth, read + [l])
  {
    hide NameFrom;
    AtSplit(data, off, [|l| % 256] + l, tail);
    AtSplit(data, off, [|l| % 256], l);
    AtIndex(data, off, [|l| % 256], 0);
    LabelStep(data, off, depth, read, l);
  }

  lemma {:induction false} LabelStep(data: Bytes, off: nat, depth: nat, read: seq<Bytes>, l: Bytes)
    requires depth <= MAX_POINTER_DEPTH
    requires 0 < |l| < 192 && off + 1 + |l| <= |data| && data[off] == |l| && data[off + 1..off + 1 + |l|] == l
    ensures NameFrom(data, off, depth, read) == NameFrom(data, off + 1 + |l|, depth, read + [l])
  {
  }

  lemma {:induction false} NameEnds(data: Bytes, end: nat, depth: nat, labels: seq<Bytes>)
    requires depth <= MAX_POINTER_DEPTH && At(data, end, [0])
    ensures NameFrom(data, end, depth, labels) == Some((Join(labels, DOT), end + 1))
  {
    AtIndex(data, end, [0], 0);
  }

  lemma {:induction false} NameStarts(data: Bytes, off: nat, depth: nat)
    requires depth <= MAX_POINTER_DEPTH && off < |data|
    ensures NameAt(data, off, depth) == NameFrom(data, off, depth, [])
  {
  }

  lemma {:induction false} PrintedFrom(data: Bytes, off: nat, depth: nat, labels: seq<Bytes>, bytes: Bytes)
    requires depth <= MAX_POINTER_DEPTH
    requires ShortLabels(labels)
    requires bytes == LabelBytes(labels) && At(data, off, bytes)
    ensures At(data, off + |bytes| - 1, [0])
    ensures NameFrom(data, off, depth, []) == NameFrom(data, off + |bytes| - 1, depth, labels)
  {
    LabelsReadBack(data, off, depth, [], labels);
    assert [] + labels == labels;
  }

  lemma {:induction false} PrintedLabelsRead(data: Bytes, off: nat, depth: nat, labels: seq<Bytes>, bytes: Bytes)
    requires depth <= MAX_POINTER_DEPTH
    requires ShortLabels(labels)
    requires bytes == LabelBytes(labels) && At(data, off, bytes)
    ensures NameAt(data, off, depth) == Some((Join(labels, DOT), off + |bytes|))
  {
    hide LabelBytes;
    NameStarts(data, off, depth);
    PrintedFrom(data, off, depth, labels, bytes);
    NameEnds(data, off + |bytes| - 1, depth, labels);
  }

  /** A printed name is read back, dropped empty labels aside, wherever it stands. */
  lemma {:induction false} NameReadBack(data: Bytes, off: nat, depth: nat, name: Name)
    requires depth <= MAX_POINTER_DEPTH
    requires ReadableName(name)
    requires At(data, off, NameBytes(name))
    ensures NameAt(data, off, depth) == Some((Canonical(name), off + |NameBytes(name)|))
  {
    PrintedLabelsRead(data, off, depth, Labels(name), NameBytes(name));
  }

  // ---- Compressed names (section 4.1.4 of RFC 1035) --------------------------------------

  /** Labels without a closing zero. */
  function OpenLabels(labels: seq<Bytes>): Bytes
  {
    if labels == [] then [] else [|labels[0]| % 256] + labels[0] + OpenLabels(labels[1..])
  }

  function PointerBytes(target: nat): (b: Bytes)
    requires target < 16384
    ensures |b| == 2
  {
    [192 + target / 256, target % 256]
  }

  /** Some labels, then a pointer. */
  datatype Hop = Hop(labels: seq<Bytes>, target: nat)

  /** The hops stand one after the other, each where the pointer before it leads. */
  predicate HopsAt(data: Bytes, off: nat, hops: seq<Hop>)
    decreases |hops|
  {
    hops != [] ==>
      && ShortLabels(hops[0].labels) && hops[0].target < 16384
      && At(data, off, OpenLabels(hops[0].labels) + PointerBytes(hops[0].target))
      && HopsAt(data, hops[0].target, hops[1..])
  }

  /** Where the last pointer leads. */
  function LandsAt(off: nat, hops: seq<Hop>): nat
    decreases |hops|
  {
    if hops == [] then off else LandsAt(hops[0].target, hops[1..])
  }

  function HopLabels(hops: seq<Hop>): seq<Bytes>
  {
    if hops == [] then [] else hops[0].labels + HopLabels(hops[1..])
  }

  lemma {:induction false} OpenLabelsRead(data: Bytes, off: nat, depth: nat, read: seq<Bytes>, labels: seq<Bytes>, tail: Bytes)
    requires depth <= MAX_POINTER_DEPTH && ShortLabels(labels)
    requires At(data, off, OpenLabels(labels) + tail)
    ensures var end := off + |OpenLabels(labels)|;
            At(data, end, tail) && NameFrom(data, off, depth, read) == NameFrom(data, end, depth, read + labels)
    decreases |labels|
  {
    hide NameFrom, At, ShortLabels;
    if labels == [] {
      assert read + labels == read;
      assert OpenLabels([]) + tail == tail;
    } else {
      var l, rest := labels[0], labels[1..];
      ShortFirst(labels);
      assert OpenLabels(labels) + tail == [|l| % 256] + l + (OpenLabels(rest) + tail);
      LabelRead(data, off, depth, read, l, OpenLabels(rest) + tail);
      OpenLabelsRead(data, off + 1 + |l|, depth, read + [l], rest, tail);
      AppendFirst(read, labels);
    }
  }

  /** Labels and a pointer read as those labels and what stands at the target; the reader goes on after the pointer. */
  lemma {:induction false} PointerFollowed(data: Bytes, off: nat, depth: nat, labels: seq<Bytes>, target: nat)
    requires depth <= MAX_POINTER_DEPTH && ShortLabels(labels) && target < 16384
    requires At(data, off, OpenLabels(labels) + PointerBytes(target))
    ensures NameAt(data, off, depth)
         == match NameAt(data, target, depth + 1)
            case None => None
            case Some((rest, _)) => Some((Join(labels + Labels(rest), DOT), off + |OpenLabels(labels)| + 2))
  {
    hide Labels, Join;
    OpenLabelsRead(data, off, depth, [], labels, PointerBytes(target));
    assert [] + labels == labels;
    var end := off + |OpenLabels(labels)|;
    AtIndex(data, end, PointerBytes(target), 0);
    AtIndex(data, end, PointerBytes(target), 1);
    var high := target / 256;
    assert (192 + high) % 64 == high;
    assert PointerTarget(data[end], data[end + 1]) == target;
  }

  predicate NoDots(labels: seq<Bytes>)
  {
    forall i :: 0 <= i < |labels| ==> DOT !in labels[i]
  }

  lemma {:induction false} LabelsOfJoin(labels: seq<Bytes>)
    requires ShortLabels(labels) && NoDots(labels)
    ensures Labels(Join(labels, DOT)) == labels
  {
    if labels == [] {
      var parts := Split(Join(labels, DOT), DOT);
      assert parts == [[]];
      assert NonEmpty(parts) == NonEmpty(parts[1..]) == [];
    } else {
      SplitJoin(labels, DOT);
      NonEmptyOfFull(labels);
    }
  }

  /**
   A name spread over a chain of pointers is read whole, and the reader goes on
   after the first pointer, exactly when the chain is within the depth limit.
   */
  lemma {:induction false} CompressedNameReadIff(data: Bytes, off: nat, depth: nat, hops: seq<Hop>, last: seq<Bytes>)
    requires hops != [] && HopsAt(data, off, hops)
    requires ShortLabels(last) && At(data, LandsAt(off, hops), LabelBytes(last))
    requires NoDots(HopLabels(hops) + last)
    ensures NameAt(data, off, depth)
         == if depth + |hops| <= MAX_POINTER_DEPTH
            then Some((Join(HopLabels(hops) + last, DOT), off + |OpenLabels(hops[0].labels)| + 2)) else None
    decreases |hops|
  {
    hide At, LabelBytes, OpenLabels, Join, Labels, ShortLabels, NameFrom;
    if depth + |hops| > MAX_POINTER_DEPTH {
      TooDeep(data, off, depth, hops);
    } else {
      var first, rest := hops[0], hops[1..];
      var more := HopLabels(rest) + last;
      assert HopLabels(hops) + last == first.labels + more;
      PointerFollowed(data, off, depth, first.labels, first.target);
      assert NoDots(more) by {
        assert forall i :: 0 <= i < |more| ==> more[i] == (first.labels + more)[|first.labels| + i];
      }
      if rest == [] {
        assert more == last;
        PrintedLabelsRead(data, first.target, depth + 1, last, LabelBytes(last));
      } else {
        CompressedNameReadIff(data, first.target, depth + 1, rest, last);
      }
      assert NameAt(data, first.target, depth + 1).Some? && NameAt(data, first.target, depth + 1).value.0 == Join(more, DOT);
      assert ShortLabels(more) by { HopLabelsShort(data, first.target, rest, last); }
      LabelsOfJoin(more);
    }
  }

  lemma {:induction false} HopLabelsShort(data: Bytes, off: nat, hops: seq<Hop>, last: seq<Bytes>)
    requires HopsAt(data, off, hops) && ShortLabels(last)
    ensures ShortLabels(HopLabels(hops) + last)
    decreases |hops|
  {
    if hops != [] {
      HopLabelsShort(data, hops[0].target, hops[1..], last);
      assert HopLabels(hops) + last == hops[0].labels + (HopLabels(hops[1..]) + last);
    }
  }

  /** More pointers than the limit, a cycle among them or not, read as nothing. */
  lemma {:induction false} TooDeep(data: Bytes, off: nat, depth: nat, hops: seq<Hop>)
    requires HopsAt(data, off, hops) && depth + |hops| > MAX_POINTER_DEPTH
    ensures NameAt(data, off, depth) == None
    decreases |hops|
  {
    hide NameFrom, At, OpenLabels, Join, Labels, ShortLabels;
    if depth > MAX_POINTER_DEPTH {
      NoDepth(data, off, depth);
    } else {
      PointerFollowed(data, off, depth, hops[0].labels, hops[0].target);
      TooDeep(data, hops[0].target, depth + 1, hops[1..]);
    }
  }

  lemma {:induction false} NoDepth(data: Bytes, off: nat, depth: nat)
    requires depth > MAX_POINTER_DEPTH
    ensures NameAt(data, off, depth) == None
  {
  }

  /** A name that points back at itself reads as nothing. */
  lemma {:induction false} SelfPointer(data: Bytes, off: nat, depth: nat, labels: seq<Bytes>)
    requires ShortLabels(labels) && off < 16384 && At(data, off, OpenLabels(labels) + PointerBytes(off))
    ensures NameAt(data, off, depth) == None
    decreases if depth > MAX_POINTER_DEPTH then 0 else MAX_POINTER_DEPTH + 1 - depth
  {
    hide NameFrom, At, OpenLabels, Join, Labels, ShortLabels;
    if depth > MAX_POINTER_DEPTH {
      NoDepth(data, off, depth);
    } else {
      PointerFollowed(data, off, depth, labels, off);
      SelfPointer(data, off, depth + 1, labels);
    }
  }

  /** Labels and pointers stand at `off` that end in a closing zero within the depth limit. */
  predicate Stands(data: Bytes, off: nat, depth: nat, hops: seq<Hop>, last: seq<Bytes>)
  {
    depth + |hops| <= MAX_POINTER_DEPTH && HopsAt(data, off, hops)
    && ShortLabels(last) && At(data, LandsAt(off, hops), LabelBytes(last))
  }

  lemma {:induction false} AtJoin(data: Bytes, off: nat, a: Bytes, b: Bytes)
    requires At(data, off, a) && At(data, off + |a|, b)
    ensures At(data, off, a + b)
  {
    assert data[off..off + |a + b|] == data[off..off + |a|] + data[off + |a|..off + |a| + |b|];
  }

  /** What a successful reader has met up to its first pointer or closing zero. */
  lemma {:induction false} FirstStretch(data: Bytes, off: nat, depth: nat, read: seq<Bytes>)
    returns (labels: seq<Bytes>, pointer: Option<nat>)
    requires depth <= MAX_POINTER_DEPTH && NameFrom(data, off, depth, read).Some?
    ensures ShortLabels(labels)
    ensures pointer.None? ==> At(data, off, LabelBytes(labels))
    ensures pointer.Some? ==> pointer.value < 16384 && At(data, off, OpenLabels(labels) + PointerBytes(pointer.value))
                              && NameAt(data, pointer.value, depth + 1).Some?
    decreases |data| - off
  {
    hide At, OpenLabels, LabelBytes, ShortLabels, NameAt, Join, Labels;
    var len := data[off];
    if len == 0 {
      labels, pointer := [], None;
      ZeroStands(data, off);
    } else if IsPointer(len) {
      labels, pointer := [], Some(PointerTarget(len, data[off + 1]));
      PointerStands(data, off);
    } else {
      var part := data[off + 1..off + 1 + len];
      var rest: seq<Bytes>;
      rest, pointer := FirstStretch(data, off + 1 + len, depth, read + [part]);
      labels := [part] + rest;
      PartStands(data, off, part, rest, pointer);
    }
  }

  lemma {:induction false} ZeroStands(data: Bytes, off: nat)
    requires off < |data| && data[off] == 0
    ensures ShortLabels([]) && At(data, off, LabelBytes([]))
  {
    assert data[off..off + 1] == [0];
  }

  lemma {:induction false} PointerStands(data: Bytes, off: nat)
    requires off + 1 < |data| && IsPointer(data[off])
    ensures var target := PointerTarget(data[off], data[off + 1]);
            ShortLabels([]) && target < 16384 && At(data, off, OpenLabels([]) + PointerBytes(target))
  {
    var target := PointerTarget(data[off], data[off + 1]);
    PointerBack(data[off], data[off + 1]);
    assert data[off..off + 2] == [data[off], data[off + 1]];
    assert OpenLabels([]) + PointerBytes(target) == PointerBytes(target);
  }

  lemma {:induction false} PartStands(data: Bytes, off: nat, part: Bytes, rest: seq<Bytes>, pointer: Option<nat>)
    requires 0 < |part| < 192 && off + 1 + |part| <= |data| && ShortLabels(rest)
    requires data[off] == |part| && data[off + 1..off + 1 + |part|] == part
    requires pointer.None? ==> At(data, off + 1 + |part|, LabelBytes(rest))
    requires pointer.Some? ==> pointer.value < 16384 && At(data, off + 1 + |part|, OpenLabels(rest) + PointerBytes(pointer.value))
    ensures ShortLabels([part] + rest)
    ensures pointer.None? ==> At(data, off, LabelBytes([part] + rest))
    ensures pointer.Some? ==> At(data, off, OpenLabels([part] + rest) + PointerBytes(pointer.value))
  {
    hide PointerBytes;
    var labels := [part] + rest;
    assert labels[0] == part && labels[1..] == rest;
    assert At(data, off, [|part| % 256] + part) by {
      assert data[off..off + 1 + |part|] == [data[off]] + data[off + 1..off + 1 + |part|];
    }
    if pointer.None? {
      LabelBytesFirst(labels);
      AtJoin(data, off, [|part| % 256] + part, LabelBytes(rest));
    } else {
      var tail := PointerBytes(pointer.value);
      AtJoin(data, off, [|part| % 256] + part, OpenLabels(rest) + tail);
      assert [|part| % 256] + part + (OpenLabels(rest) + tail) == OpenLabels(labels) + tail;
    }
  }

  lemma {:induction false} PointerBack(len: Byte, next: Byte)
    requires IsPointer(len)
    ensures PointerTarget(len, next) < 16384
    ensures PointerBytes(PointerTarget(len, next)) == [len, next]
  {
    var high := len as int - 192;
    assert len as int % 64 == high;
    DivModUnique(PointerTarget(len, next), 256, high, next);
  }

  lemma {:induction false} ReadStands(data: Bytes, off: nat, depth: nat) returns (hops: seq<Hop>, last: seq<Bytes>)
    requires NameAt(data, off, depth).Some?
    ensures Stands(data, off, depth, hops, last)
    decreases if depth > MAX_POINTER_DEPTH then 0 else MAX_POINTER_DEPTH + 1 - depth
  {
    hide NameFrom, At, OpenLabels, LabelBytes, ShortLabels;
    NameStarts(data, off, depth);
    var labels, pointer := FirstStretch(data, off, depth, []);
    if pointer.None? {
      hops, last := [], labels;
    } else {
      hops, last := ReadStands(data, pointer.value, depth + 1);
      hops := [Hop(labels, pointer.value)] + hops;
      assert hops[1..] + [] == hops[1..];
    }
  }

  /** A name is read exactly where labels and pointers stand that end within the depth limit. */
  lemma {:induction false} NameReadIff(data: Bytes, off: nat, depth: nat)
    ensures NameAt(data, off, depth).Some? <==> exists hops, last :: Stands(data, off, depth, hops, last)
  {
    hide NameAt, Stands;
    if NameAt(data, off, depth).Some? {
      var hops, last := ReadStands(data, off, depth);
    }
    if hops: seq<Hop>, last: seq<Bytes> :| Stands(data, off, depth, hops, last) {
      StandingIsRead(data, off, depth, hops, last);
    }
  }

  lemma {:induction false} StandingIsRead(data: Bytes, off: nat, depth: nat, hops: seq<Hop>, last: seq<Bytes>)
    requires Stands(data, off, depth, hops, last)
    ensures NameAt(data, off, depth).Some?
    decreases |hops|
  {
    hide At, LabelBytes, OpenLabels, Join, Labels, ShortLabels, NameFrom;
    if hops == [] {
      PrintedLabelsRead(data, off, depth, last, LabelBytes(last));
    } else {
      PointerFollowed(data, off, depth, hops[0].labels, hops[0].target);
      StandingIsRead(data, hops[0].target, depth + 1, hops[1..], last);
    }
  }

  // ---- Labels too long to be read back ------------------------------------------------

  /** Whatever the reader meets, the labels read so far stay in front of its result. */
  lemma {:induction false} ReadExtends(data: Bytes, off: nat, depth: nat, labels: seq<Bytes>) returns (more: seq<Bytes>)
    requires depth <= MAX_POINTER_DEPTH && NameFrom(data, off, depth, labels).Some?
    ensures NameFrom(data, off, depth, labels).value.0 == Join(labels + more, DOT)
    decreases |data| - off
  {
    hide Join, NameAt;
    var len := data[off];
    if len == 0 {
      more := [];
      assert labels + more == labels;
    } else if IsPointer(len) {
      more := Labels(NameAt(data, PointerTarget(len, data[off + 1]), depth + 1).value.0);
    } else {
      var part := data[off + 1..off + 1 + len];
      var rest := ReadExtends(data, off + 1 + len, depth, labels + [part]);
      more := [part] + rest;
      assert labels + more == labels + [part] + rest;
    }
  }

  /**
   A label of 192 bytes or more is never read as printed: if the reader still
   stops right after the name, it has cut one label short.
   */
  lemma {:induction false} LongLabelCut(data: Bytes, off: nat, depth: nat, read: seq<Bytes>, labels: seq<Bytes>)
    returns (i: nat, k: nat, more: seq<Bytes>)
    requires depth <= MAX_POINTER_DEPTH && At(data, off, LabelBytes(labels))
    requires !ShortLabels(labels) && forall j :: 0 <= j < |labels| ==> |labels[j]| > 0
    requires NameFrom(data, off, depth, read).Some? && NameFrom(data, off, depth, read).value.1 == off + |LabelBytes(labels)|
    ensures i < |labels| && 0 < k < |labels[i]|
    ensures NameFrom(data, off, depth, read).value.0 == Join(read + labels[..i] + [labels[i][..k]] + more, DOT)
    decreases |labels|
  {
    hide Join, NameFrom, LabelBytes, At;
    var l, rest := labels[0], labels[1..];
    LabelBytesFirst(labels);
    if |l| < 192 {
      LabelRead(data, off, depth, read, l, LabelBytes(rest));
      i, k, more := LongLabelCut(data, off + 1 + |l|, depth, read + [l], rest);
      assert read + [l] + rest[..i] == read + labels[..i + 1];
      i := i + 1;
    } else {
      more := CutHere(data, off, depth, read, l, LabelBytes(rest));
      i, k := 0, |l| % 256;
      assert read + labels[..0] == read;
    }
  }

  /** The length byte of a long label is a zero, a pointer, or the length of its beginning. */
  lemma {:induction false} CutHere(data: Bytes, off: nat, depth: nat, read: seq<Bytes>, l: Bytes, tail: Bytes)
    returns (more: seq<Bytes>)
    requires depth <= MAX_POINTER_DEPTH && |l| >= 192 && |tail| > 0
    requires At(data, off, [|l| % 256] + l + tail)
    requires NameFrom(data, off, depth, read).Some? && NameFrom(data, off, depth, read).value.1 == off + 1 + |l| + |tail|
    ensures 0 < |l| % 256 < 192 && |l| % 256 < |l|
    ensures NameFrom(data, off, depth, read).value.0 == Join(read + [l[..|l| % 256]] + more, DOT)
  {
    hide Join, NameAt;
    var k := |l| % 256;
    AtIndex(data, off, [k] + l + tail, 0);
    assert data[off] == k;
    assert data[off + 1..off + 1 + k] == l[..k] by {
      AtSplit(data, off, [k] + l, tail);
      AtSplit(data, off, [k], l);
    }
    more := ReadExtends(data, off + 1 + k, depth, read + [l[..k]]);
  }

  /** A label cut short shows in the joined name. */
  lemma {:induction false} CutDiffers(parts: seq<Bytes>, labels: seq<Bytes>, i: nat, k: nat, more: seq<Bytes>)
    requires labels == NonEmpty(parts) && i < |labels| && 0 < k < |labels[i]|
    requires forall j :: 0 <= j < |parts| ==> DOT !in parts[j]
    ensures Join(labels[..i] + [labels[i][..k]] + more, DOT) != Join(parts, DOT)
    decreases |parts|
  {
    var cut := labels[..i] + [labels[i][..k]] + more;
    NonEmptyIsSubset(parts);
    assert labels[0] in parts && labels[i] in parts;
    if |parts[0]| == 0 {
      assert |cut[0]| > 0 && cut[0][0] == labels[0][0] != DOT;
      assert Join(cut, DOT)[0] == cut[0][0];
      assert |parts| > 1 && Join(parts, DOT)[0] == DOT;
    } else if i == 0 {
      var l := parts[0];
      assert cut[0] == l[..k] && l[k] != DOT;
      assert |Join(cut, DOT)| > k ==> Join(cut, DOT)[k] == DOT;
      assert Join(parts, DOT)[k] == l[k];
    } else {
      var l := parts[0];
      assert labels[1..] == NonEmpty(parts[1..]);
      assert cut[1..] == labels[1..][..i - 1] + [labels[1..][i - 1][..k]] + more;
      CutDiffers(parts[1..], labels[1..], i - 1, k, more);
      assert Join(cut, DOT)[|l| + 1..] == Join(cut[1..], DOT);
      assert Join(parts, DOT)[|l| + 1..] == Join(parts[1..], DOT);
    }
  }

  /** Neither the name printed nor its canonical form is read when a label is too long. */
  lemma {:induction false} LongLabelNotRead(data: Bytes, off: nat, depth: nat, name: Name)
    requires depth <= MAX_POINTER_DEPTH && At(data, off, NameBytes(name)) && !ReadableName(name)
    ensures NameAt(data, off, depth) != Some((name, off + |NameBytes(name)|))
    ensures NameAt(data, off, depth) != Some((Canonical(name), off + |NameBytes(name)|))
  {
    hide NameFrom, LabelBytes, Join, Split;
    var labels := Labels(name);
    NameStarts(data, off, depth);
    var r := NameFrom(data, off, depth, []);
    if r.Some? && r.value.1 == off + |NameBytes(name)| {
      var i, k, more := LongLabelCut(data, off, depth, [], labels);
      assert [] + labels[..i] == labels[..i];
      SplitHasNoSeparator(name, DOT);
      CutDiffers(Split(name, DOT), labels, i, k, more);
      JoinSplit(name, DOT);
      NonEmptyIsSubset(Split(name, DOT));
      NonEmptyOfFull(labels);
      forall j | 0 <= j < |labels| ensures DOT !in labels[j] {
        assert labels[j] in labels;
      }
      CutDiffers(labels, labels, i, k, more);
    }
  }

  /**
   A printed name is read back exactly when every label has at most 191 bytes;
   and as the very name printed exactly when it also has no empty label.
   */
  lemma {:induction false} NameRoundTrip(data: Bytes, off: nat, depth: nat, name: Name)
    requires depth <= MAX_POINTER_DEPTH && At(data, off, NameBytes(name))
    ensures NameAt(data, off, depth) == Some((Canonical(name), off + |NameBytes(name)|)) <==> ReadableName(name)
    ensures NameAt(data, off, depth) == Some((name, off + |NameBytes(name)|))
       <==> ReadableName(name) && (name == [] || NoEmptyLabel(name))
  {
    hide NameAt, NameBytes, ReadableName, Canonical, NoEmptyLabel;
    if ReadableName(name) {
      NameReadBack(data, off, depth, name);
      CanonicalIff(name);
    } else {
      LongLabelNotRead(data, off, depth, name);
    }
  }

  lemma {:induction false} CanonicalIff(name: Name)
    ensures Canonical(name) == name <==> name == [] || NoEmptyLabel(name)
  {
    if NoEmptyLabel(name) {
      CanonicalId(name);
    } else if name == [] {
      assert Split(name, DOT) == [[]];
      assert NonEmpty(Split(name, DOT)) == NonEmpty(Split(name, DOT)[1..]) == [];
    } else if Canonical(name) == name {
      CanonicalHasNoEmptyLabel(name);
    }
  }

  lemma {:induction false} CanonicalHasNoEmptyLabel(name: Name)
    requires Canonical(name) != []
    ensures NoEmptyLabel(Canonical(name))
  {
    var ls := Labels(name);
    NonEmptyIsSubset(Split(name, DOT));
    SplitHasNoSeparator(name, DOT);
    forall i | 0 <= i < |ls| ensures DOT !in ls[i] {
      assert ls[i] in ls;
    }
    SplitJoin(ls, DOT);
  }
}
