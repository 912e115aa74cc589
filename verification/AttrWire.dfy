/** The netlink attribute format: what a run of type-length-value records means, read the
    way `mnl_attr_ok` and `mnl_attr_next` read it, and which bytes are an encoding of a
    given tree of attributes. */
module AttrWire {
  import opened Bytes

  const ATTR_HDRLEN: nat := 4
  const NLA_F_NESTED: nat := 0x8000
  /** NLA_TYPE_MASK keeps the low 14 bits of the type field. */
  const NLA_TYPES: nat := 0x4000
  const ATTR_LEN_LIMIT: nat := 0x1_0000

  /** An attribute as a program means it. */
  datatype Attr = Leaf(typ: u16, data: seq<byte>) | Nest(typ: u16, children: seq<Attr>)

  /** An attribute as a reader sees it: where its header starts, its 16-bit type field and
      its payload bytes. */
  datatype RawAttr = RawAttr(at: nat, field: u16, payload: seq<byte>) {
    /** mnl_attr_get_type */
    function Type(): u16 { field % NLA_TYPES }

    /** One past the last byte of the attribute, without padding. */
    function End(): nat { at + ATTR_HDRLEN + |payload| }
  }

  // ---------------------------------------------------------------- reading

  /** mnl_attr_ok for an attribute at `pos` when the bytes up to `end` remain. */
  predicate OkAt(s: seq<byte>, pos: nat, end: nat)
    requires end <= |s|
  {
    pos + ATTR_HDRLEN <= end && ATTR_HDRLEN <= Le16(s, pos) as int <= end - pos
  }

  function RawAt(s: seq<byte>, pos: nat, end: nat): RawAttr
    requires end <= |s| && OkAt(s, pos, end)
  {
    RawAttr(pos, Le16(s, pos + 2), s[pos + ATTR_HDRLEN..pos + Le16(s, pos) as nat])
  }

  /** The attributes a `mnl_attr_for_each` loop visits between two offsets; `mnl_attr_next`
      steps over the padding, possibly past the end. */
  function Attrs(s: seq<byte>, pos: nat, end: nat): seq<RawAttr>
    requires end <= |s|
    decreases end - pos
  {
    if !OkAt(s, pos, end) then [] else [RawAt(s, pos, end)] + Attrs(s, pos + Align(Le16(s, pos)), end)
  }

  /** A loop over the attributes of a range has passed `i` of them and stands at `pos`. */
  ghost predicate Walking(s: seq<byte>, pos: nat, end: nat, list: seq<RawAttr>, i: nat)
    requires end <= |s|
  {
    i <= |list| && list[i..] == Attrs(s, pos, end)
  }

  lemma AttrsStep(s: seq<byte>, pos: nat, end: nat, list: seq<RawAttr>, i: nat)
    requires end <= |s| && OkAt(s, pos, end) && Walking(s, pos, end, list, i)
    ensures i < |list| && list[i] == RawAt(s, pos, end) && list[..i + 1] == list[..i] + [list[i]]
    ensures Walking(s, pos + Align(Le16(s, pos)), end, list, i + 1)
  {
    var rest := Attrs(s, pos + Align(Le16(s, pos)), end);
    assert list[i..][0] == list[i];
    assert list[i + 1..] == list[i..][1..] == rest;
  }

  lemma AttrsEnd(s: seq<byte>, pos: nat, end: nat, list: seq<RawAttr>, i: nat)
    requires end <= |s| && !OkAt(s, pos, end) && Walking(s, pos, end, list, i)
    ensures list[..i] == list
  {
  }

  /** Every visited attribute lies inside the range, after the one before it. */
  lemma {:induction false} AttrsInBounds(s: seq<byte>, pos: nat, end: nat)
    requires end <= |s|
    ensures forall a <- Attrs(s, pos, end) :: pos <= a.at && a.End() <= end && a.payload == s[a.at + ATTR_HDRLEN..a.End()]
    ensures forall i, j :: 0 <= i < j < |Attrs(s, pos, end)| ==> Attrs(s, pos, end)[i].End() <= Attrs(s, pos, end)[j].at
    decreases end - pos
  {
    if OkAt(s, pos, end) {
      AttrsInBounds(s, pos + Align(Le16(s, pos)), end);
    }
  }

  /** mnl_attr_ok when the whole of `s` remains. */
  predicate AttrOk(s: seq<byte>) { OkAt(s, 0, |s|) }

  /** Where mnl_attr_next lands, as far as there are bytes to land on. */
  function Stride(s: seq<byte>): (n: nat)
    requires AttrOk(s)
    ensures ATTR_HDRLEN <= n <= |s|
  {
    Min(Align(Le16(s, 0)), |s|)
  }

  /** A program's recursive reader: a flagged attribute is parsed again as a nest. */
  function ReadTrees(s: seq<byte>): seq<Attr>
    decreases |s|, 1
  {
    if !AttrOk(s) then [] else [ReadTree(s)] + ReadTrees(s[Stride(s)..])
  }

  function ReadTree(s: seq<byte>): Attr
    requires AttrOk(s)
    decreases |s|, 0
  {
    TreeOf(RawAt(s, 0, |s|))
  }

  function TreeOf(a: RawAttr): Attr
    decreases |a.payload|, 2
  {
    if a.field as nat >= NLA_F_NESTED then Nest(a.Type(), ReadTrees(a.payload)) else Leaf(a.Type(), a.payload)
  }

  // ---------------------------------------------------------------- the encoding

  function Size(t: Attr): (n: nat)
    ensures n >= ATTR_HDRLEN && n % 4 == 0
    decreases t, 0
  {
    match t
    case Leaf(_, data) => Align(ATTR_HDRLEN + |data|)
    case Nest(_, children) => ATTR_HDRLEN + SizeAll(children)
  }

  function SizeAll(ts: seq<Attr>): (n: nat)
    ensures n % 4 == 0
    decreases ts
  {
    if ts == [] then 0 else Size(ts[0]) + SizeAll(ts[1..])
  }

  /** NLA_F_NESTED | type */
  function NestField(typ: u16): u16 { NLA_F_NESTED + typ as int % NLA_F_NESTED }

  /** `s` is an encoding of `t`; the bytes after a leaf's data are free, and the length field
      of a nest is the low 16 bits of its size. */
  ghost predicate Encodes(t: Attr, s: seq<byte>)
    decreases t, 0
  {
    && |s| == Size(t)
    && match t
       case Leaf(typ, data) =>
         && Le16(s, 0) as int == ATTR_HDRLEN + |data|
         && Le16(s, 2) == typ
         && s[ATTR_HDRLEN..ATTR_HDRLEN + |data|] == data
       case Nest(typ, children) =>
         && Le16(s, 0) as int == |s| % ATTR_LEN_LIMIT
         && Le16(s, 2) == NestField(typ)
         && EncodesAll(children, s[ATTR_HDRLEN..])
  }

  ghost predicate EncodesAll(ts: seq<Attr>, s: seq<byte>)
    decreases ts
  {
    if ts == [] then s == []
    else |s| >= Size(ts[0]) && Encodes(ts[0], s[..Size(ts[0])]) && EncodesAll(ts[1..], s[Size(ts[0])..])
  }

  /** Types below 2^14 and every total length within the 16-bit length field. */
  ghost predicate Fits(t: Attr)
    decreases t, 0
  {
    && t.typ as int < NLA_TYPES
    && match t
       case Leaf(_, data) => ATTR_HDRLEN + |data| < ATTR_LEN_LIMIT
       case Nest(_, children) => Size(t) < ATTR_LEN_LIMIT && FitAll(children)
  }

  ghost predicate FitAll(ts: seq<Attr>)
    decreases ts
  {
    ts == [] || (Fits(ts[0]) && FitAll(ts[1..]))
  }

  // ---------------------------------------------------------------- lemmas

  lemma {:induction false} EncodesSize(ts: seq<Attr>, s: seq<byte>)
    requires EncodesAll(ts, s)
    ensures |s| == SizeAll(ts)
    decreases ts
  {
    if ts != [] {
      EncodesSize(ts[1..], s[Size(ts[0])..]);
    }
  }

  lemma {:induction false} SizeAppend(ts: seq<Attr>, t: Attr)
    ensures SizeAll(ts + [t]) == SizeAll(ts) + Size(t)
    decreases ts
  {
    if ts == [] {
      assert ts + [t] == [t];
    } else {
      assert (ts + [t])[1..] == ts[1..] + [t];
      SizeAppend(ts[1..], t);
    }
  }

  lemma {:induction false} EncodesAppend(ts: seq<Attr>, s: seq<byte>, t: Attr, p: seq<byte>)
    requires EncodesAll(ts, s) && Encodes(t, p)
    ensures EncodesAll(ts + [t], s + p)
    decreases ts
  {
    if ts == [] {
      assert ts + [t] == [t] && s + p == p;
      assert p[..Size(t)] == p && p[Size(t)..] == [];
    } else {
      var n := Size(ts[0]);
      EncodesAppend(ts[1..], s[n..], t, p);
      assert (ts + [t])[1..] == ts[1..] + [t];
      assert (s + p)[..n] == s[..n] && (s + p)[n..] == s[n..] + p;
    }
  }

  lemma {:induction false} FitAppend(ts: seq<Attr>, t: Attr)
    ensures FitAll(ts + [t]) <==> FitAll(ts) && Fits(t)
    decreases ts
  {
    if ts == [] {
      assert ts + [t] == [t];
    } else {
      assert (ts + [t])[1..] == ts[1..] + [t];
      FitAppend(ts[1..], t);
    }
  }

  /** Reading inverts every encoding, whatever the padding bytes are. */
  lemma {:induction false} ReadEncoded(ts: seq<Attr>, s: seq<byte>)
    requires EncodesAll(ts, s) && FitAll(ts)
    ensures ReadTrees(s) == ts
    decreases ts, 1
  {
    if ts != [] {
      ReadEncodedHead(ts[0], s);
      ReadEncoded(ts[1..], s[Size(ts[0])..]);
    }
  }

  lemma {:induction false} ReadEncodedHead(t: Attr, s: seq<byte>)
    requires |s| >= Size(t) && Encodes(t, s[..Size(t)]) && Fits(t)
    ensures AttrOk(s) && Stride(s) == Size(t) && ReadTree(s) == t
    decreases t, 0
  {
    hide EncodesAll, ReadTrees, Le16;
    EncodedRaw(t, s);
    if t.Nest? {
      ReadEncoded(t.children, s[ATTR_HDRLEN..Size(t)]);
    }
  }

  /** The first attribute that a reader of an encoding sees. */
  lemma EncodedRaw(t: Attr, s: seq<byte>)
    requires |s| >= Size(t) && Encodes(t, s[..Size(t)]) && Fits(t)
    ensures AttrOk(s) && Stride(s) == Size(t)
    ensures t.Leaf? ==> RawAt(s, 0, |s|) == RawAttr(0, t.typ, t.data)
    ensures t.Nest? ==> RawAt(s, 0, |s|) == RawAttr(0, NestField(t.typ), s[ATTR_HDRLEN..Size(t)])
    ensures t.Nest? ==> EncodesAll(t.children, s[ATTR_HDRLEN..Size(t)])
  {
    hide EncodesAll, Le16;
    var p := s[..Size(t)];
    HeaderOfPrefix(s, Size(t));
    if t.Leaf? {
      var n := ATTR_HDRLEN + |t.data|;
      assert s[ATTR_HDRLEN..n] == p[ATTR_HDRLEN..n];
    } else {
      assert s[ATTR_HDRLEN..Size(t)] == p[ATTR_HDRLEN..];
    }
  }

  lemma HeaderOfPrefix(s: seq<byte>, n: nat)
    requires ATTR_HDRLEN <= n <= |s|
    ensures Le16(s[..n], 0) == Le16(s, 0) && Le16(s[..n], 2) == Le16(s, 2)
  {
  }

  /** The 16-bit nest length is the only obstacle: when the children fit, a nest reads back
      exactly when its size fits the field. */
  lemma {:induction false} ReadNestIff(typ: u16, children: seq<Attr>, s: seq<byte>)
    requires Encodes(Nest(typ, children), s) && typ as int < NLA_TYPES && FitAll(children)
    ensures ReadTrees(s) == [Nest(typ, children)] <==> |s| < ATTR_LEN_LIMIT
  {
    var t := Nest(typ, children);
    if |s| < ATTR_LEN_LIMIT {
      ReadEncodedOne(t, s);
    } else if AttrOk(s) {
      ReadSize(RawAt(s, 0, |s|).payload);
      EncodesSize(children, s[ATTR_HDRLEN..]);
      assert ReadTree(s) != t;
      assert ReadTrees(s)[0] == ReadTree(s);
    }
  }

  lemma ReadEncodedOne(t: Attr, s: seq<byte>)
    requires Encodes(t, s) && Fits(t)
    ensures ReadTrees(s) == [t]
  {
    hide Encodes, Fits, ReadTree, Le16;
    EncodesAppend([], [], t, s);
    assert [] + [t] == [t] && [] + s == s;
    FitAppend([], t);
    hide ReadTrees;
    ReadEncoded([t], s);
  }

  /** A reading never describes more bytes than it was given, up to the last padding. */
  lemma {:induction false} ReadSize(s: seq<byte>)
    ensures SizeAll(ReadTrees(s)) <= Align(|s|)
    decreases |s|, 1
  {
    if AttrOk(s) {
      var rest := s[Stride(s)..];
      ReadTreeSize(s);
      ReadSize(rest);
      var ts := ReadTrees(s);
      assert ts[0] == ReadTree(s) && ts[1..] == ReadTrees(rest);
      assert SizeAll(ts) == Size(ReadTree(s)) + SizeAll(ReadTrees(rest));
      StrideSplit(s);
    }
  }

  lemma StrideSplit(s: seq<byte>)
    requires AttrOk(s)
    ensures Align(Le16(s, 0)) + Align(|s| - Stride(s)) <= Align(|s|)
  {
    AlignSplit(Le16(s, 0), |s|);
  }

  lemma AlignSplit(len: nat, n: nat)
    requires len <= n
    ensures Align(len) + Align(n - Min(Align(len), n)) <= Align(n)
  {
    var a := Align(len);
    if a <= n {
      AlignSum(a, n - a);
    } else {
      AlignLeast(len, Align(n));
    }
  }

  lemma {:induction false} ReadTreeSize(s: seq<byte>)
    requires AttrOk(s)
    ensures Size(ReadTree(s)) <= Align(Le16(s, 0))
    decreases |s|, 0
  {
    hide ReadTrees, Le16, SizeAll;
    var p := RawAt(s, 0, |s|).payload;
    ReadSize(p);
    AlignSum(ATTR_HDRLEN, |p|);
  }
}
