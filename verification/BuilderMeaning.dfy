/** What a run of bounded builder calls means: a stack of open nests over a list of finished
    attributes.  Every run keeps the bytes an encoding of that stack, a refused call changes
    nothing, a cancelled nest leaves no trace, and what was built reads back. */
module BuilderMeaning {
  import opened Bytes
  import opened AttrWire
  import opened Builder

  /** An open nest and its finished children. */
  datatype Frame = Frame(typ: u16, done: seq<Attr>)

  datatype Stack = Stack(root: seq<Attr>, open: seq<Frame>) {
    /** Bytes taken by the attributes and by the headers of open nests. */
    function Extent(): (n: nat)
      ensures n % 4 == 0
      decreases |open|
    {
      if open == [] then SizeAll(root)
      else
        var below, done := Below().Extent(), SizeAll(Top().done);
        AlignSum(below, done);
        AlignSum(below + done, ATTR_HDRLEN);
        below + ATTR_HDRLEN + done
    }

    function Top(): Frame
      requires open != []
    {
      open[|open| - 1]
    }

    function Below(): Stack
      requires open != []
    {
      Stack(root, open[..|open| - 1])
    }

    /** One more finished attribute at the innermost level. */
    function Add(t: Attr): Stack {
      if open == [] then Stack(root + [t], [])
      else Stack(root, open[..|open| - 1] + [Frame(Top().typ, Top().done + [t])])
    }

    function Step(room: nat, op: Op): Stack {
      match op
      case Put(typ, data) => if Extent() + ATTR_HDRLEN + Align(|data|) > room then this else Add(Leaf(typ, data))
      case Start(typ) => if Extent() + ATTR_HDRLEN > room then this else Stack(root, open + [Frame(typ, [])])
      case End => if open == [] then this else Below().Add(Nest(Top().typ, Top().done))
      case Cancel => if open == [] then this else Below()
    }

    function Steps(room: nat, ops: seq<Op>): Stack
      decreases |ops|
    {
      if ops == [] then this else Step(room, ops[0]).Steps(room, ops[1..])
    }
  }

  /** The bytes `s` hold the finished attributes and the open headers of `st`, in order; the
      length field of an open nest is still free. */
  ghost predicate Layout(st: Stack, s: seq<byte>)
    decreases |st.open|
  {
    if st.open == [] then EncodesAll(st.root, s)
    else
      var n := st.Below().Extent();
      && |s| == st.Extent()
      && Layout(st.Below(), s[..n])
      && Le16(s, n + 2) == NestField(st.Top().typ)
      && EncodesAll(st.Top().done, s[n + ATTR_HDRLEN..])
  }

  ghost predicate Represents(b: Build, buflen: nat, area: nat, st: Stack) {
    && Ready(b, buflen)
    && NLMSG_HDRLEN <= area && area % 4 == 0 && |b.bytes| < WORD
    && Holds(b.bytes, area, MsgLen(b.bytes), st)
    && Pointers(b.starts, area, st)
  }

  /** The attribute area, from `area` to the end of the message, lays out `st`. */
  ghost predicate Holds(s: seq<byte>, area: nat, len: nat, st: Stack)
    requires len <= |s|
  {
    len == area + st.Extent() && Layout(st, s[area..len])
  }

  /** The client's pointers are the places where the open headers start. */
  ghost predicate Pointers(starts: seq<nat>, area: nat, st: Stack) {
    && |starts| == |st.open|
    && forall i :: 0 <= i < |st.open| ==> starts[i] == area + Stack(st.root, st.open[..i]).Extent()
  }

  /** A put that the bound lets through is within the 16-bit length field; nothing is asked of
      refused puts and of the other calls. */
  predicate OpFits(st: Stack, room: nat, op: Op) {
    op.Put? && st.Extent() + ATTR_HDRLEN + Align(|op.data|) <= room ==> ATTR_HDRLEN + |op.data| < ATTR_LEN_LIMIT
  }

  predicate OpsFit(st: Stack, room: nat, ops: seq<Op>)
    decreases |ops|
  {
    ops == [] || (OpFits(st, room, ops[0]) && OpsFit(st.Step(room, ops[0]), room, ops[1..]))
  }

  lemma {:induction false} ShortOpsFit(st: Stack, room: nat, ops: seq<Op>)
    requires forall op <- ops :: op.Put? ==> ATTR_HDRLEN + |op.data| < ATTR_LEN_LIMIT
    ensures OpsFit(st, room, ops)
    decreases |ops|
  {
    if ops != [] {
      assert ops[0] in ops;
      ShortOpsFit(st.Step(room, ops[0]), room, ops[1..]);
    }
  }

  // ---------------------------------------------------------------- layout of one step

  lemma {:induction false} LayoutSize(st: Stack, s: seq<byte>)
    requires Layout(st, s)
    ensures |s| == st.Extent()
  {
    if st.open == [] {
      EncodesSize(st.root, s);
    }
  }

  lemma EncodesLength(t: Attr, p: seq<byte>)
    requires Encodes(t, p)
    ensures |p| == Size(t)
  {
  }

  lemma {:induction false} LayoutAdd(st: Stack, s: seq<byte>, t: Attr, p: seq<byte>)
    requires Layout(st, s) && Encodes(t, p)
    ensures Layout(st.Add(t), s + p) && st.Add(t).Extent() == st.Extent() + Size(t)
  {
    if st.open == [] {
      hide EncodesAll, SizeAll, Size, Encodes;
      EncodesAppend(st.root, s, t, p);
      SizeAppend(st.root, t);
    } else {
      hide EncodesAll, SizeAll, Size, Encodes, Layout, Le16, NestField;
      var below, top, n := st.Below(), st.Top(), st.Below().Extent();
      var f := Frame(top.typ, top.done + [t]);
      LayoutParts(st, s);
      EncodesLength(t, p);
      EncodesAppend(top.done, s[n + ATTR_HDRLEN..], t, p);
      SizeAppend(top.done, t);
      assert (s + p)[..n] == s[..n] && (s + p)[n + ATTR_HDRLEN..] == s[n + ATTR_HDRLEN..] + p;
      FieldKept(s, p, n + 2);
      LayoutFrame(below, f, s + p);
      assert st.Add(t) == Stack(below.root, below.open + [f]);
    }
  }

  lemma FieldKept(s: seq<byte>, p: seq<byte>, i: nat)
    requires i + 2 <= |s|
    ensures Le16(s + p, i) == Le16(s, i)
  {
  }

  /** The parts of a layout with an open nest. */
  lemma LayoutParts(st: Stack, s: seq<byte>)
    requires st.open != [] && Layout(st, s)
    ensures var n := st.Below().Extent();
            && |s| == st.Extent() == n + ATTR_HDRLEN + SizeAll(st.Top().done)
            && Layout(st.Below(), s[..n]) && Le16(s, n + 2) == NestField(st.Top().typ)
            && EncodesAll(st.Top().done, s[n + ATTR_HDRLEN..])
  {
    hide EncodesAll, SizeAll, Le16, NestField;
  }

  lemma LayoutFrame(below: Stack, f: Frame, s: seq<byte>)
    requires var n := below.Extent();
             && |s| == n + ATTR_HDRLEN + SizeAll(f.done)
             && Layout(below, s[..n]) && Le16(s, n + 2) == NestField(f.typ) && EncodesAll(f.done, s[n + ATTR_HDRLEN..])
    ensures var st := Stack(below.root, below.open + [f]); Layout(st, s) && st.Extent() == |s|
  {
    hide EncodesAll, SizeAll, Le16;
    var st := Stack(below.root, below.open + [f]);
    assert st.Below() == below && st.Top() == f;
  }

  lemma {:induction false} LayoutOpen(st: Stack, s: seq<byte>, typ: u16, h: seq<byte>)
    requires Layout(st, s) && |h| == ATTR_HDRLEN && Le16(h, 2) == NestField(typ)
    ensures var st' := Stack(st.root, st.open + [Frame(typ, [])]);
            Layout(st', s + h) && st'.Extent() == st.Extent() + ATTR_HDRLEN
  {
    LayoutSize(st, s);
    var st' := Stack(st.root, st.open + [Frame(typ, [])]);
    assert st'.Below() == st && st'.Top() == Frame(typ, []);
    assert (s + h)[..|s|] == s && (s + h)[|s| + ATTR_HDRLEN..] == [];
  }

  lemma {:induction false} LayoutClose(st: Stack, s: seq<byte>, s': seq<byte>)
    requires st.open != [] && Layout(st, s) && |s'| == |s|
    requires var n := st.Below().Extent();
             && s'[..n] == s[..n] && s'[n + 2..] == s[n + 2..]
             && Le16(s', n) as nat == (|s| - n) % ATTR_LEN_LIMIT
    ensures var st' := st.Below().Add(Nest(st.Top().typ, st.Top().done));
            Layout(st', s') && st'.Extent() == st.Extent()
  {
    hide EncodesAll, Encodes, Size, Le16;
    var n := st.Below().Extent();
    LayoutSize(st, s);
    NestEncoded(st.Top(), s[n..], s'[n..], n, s, s');
    LayoutAdd(st.Below(), s[..n], Nest(st.Top().typ, st.Top().done), s'[n..]);
    assert s[..n] + s'[n..] == s';
  }

  /** Filling in the length field of an open nest makes it an encoding. */
  lemma NestEncoded(top: Frame, p: seq<byte>, p': seq<byte>, n: nat, s: seq<byte>, s': seq<byte>)
    requires n + ATTR_HDRLEN <= |s| == |s'| && p == s[n..] && p' == s'[n..] && s'[n + 2..] == s[n + 2..]
    requires Le16(s, n + 2) == NestField(top.typ) && EncodesAll(top.done, s[n + ATTR_HDRLEN..])
    requires |p| == ATTR_HDRLEN + SizeAll(top.done) && Le16(s', n) as nat == |p| % ATTR_LEN_LIMIT
    ensures Encodes(Nest(top.typ, top.done), p')
  {
    assert p'[2..] == s[n + 2..] && p'[ATTR_HDRLEN..] == s[n + ATTR_HDRLEN..];
    assert Le16(p', 0) == Le16(s', n) && Le16(p', 2) == Le16(s', n + 2) == Le16(s, n + 2) by {
      assert s'[n + 2..][0] == s[n + 2..][0] && s'[n + 2..][1] == s[n + 2..][1];
    }
  }

  // ---------------------------------------------------------------- bytes refine the stack

  /** mnl_attr_put leaves everything between the length field and the tail alone and writes
      the leaf at the tail. */
  lemma PutWrites(s: seq<byte>, len: nat, typ: u16, data: seq<byte>)
    requires |s| >= 4 && MsgLen(s) as nat == len && 4 <= len && len % 4 == 0
    requires len + ATTR_HDRLEN + |data| <= |s|
    ensures var r := PutAttr(s, typ, data);
            && r[4..len] == s[4..len]
            && r[len..len + ATTR_HDRLEN + |data|] == Bytes16(LenField(|data|)) + Bytes16(typ) + data
            && r[len + ATTR_HDRLEN + |data|..] == s[len + ATTR_HDRLEN + |data|..]
  {
    var written := Bytes16(LenField(|data|)) + Bytes16(typ) + data;
    var o := Overwrite(s, len, written);
    var r := PutAttr(s, typ, data);
    OverwriteSlices(s, len, written);
    assert r[4..] == o[4..];
    SameSlice(r, o, 4, 4, len);
    SameSlice(r, o, 4, len, len + |written|);
    SameSlice(r, o, 4, len + |written|, |s|);
    assert o[4..len] == o[..len][4..] == s[..len][4..] == s[4..len];
  }

  lemma OpenWrites(s: seq<byte>, len: nat, typ: u16)
    requires |s| >= 4 && MsgLen(s) as nat == len && 4 <= len && len % 4 == 0 && len + ATTR_HDRLEN <= |s|
    ensures var r := OpenNest(s, typ);
            && r[4..len] == s[4..len]
            && Le16(r, len + 2) == NestField(typ)
            && r[len + ATTR_HDRLEN..] == s[len + ATTR_HDRLEN..]
  {
    var field := Bytes16(NestField(typ));
    var o := Overwrite(s, len + 2, field);
    var r := OpenNest(s, typ);
    assert r[4..] == o[4..];
    SameSlice(r, o, 4, 4, len);
    SameSlice(r, o, 4, len + ATTR_HDRLEN, |s|);
    assert r[len + 2] == o[len + 2] == field[0] && r[len + 3] == o[len + 3] == field[1];
  }

  lemma LeafEncoded(typ: u16, data: seq<byte>, p: seq<byte>)
    requires ATTR_HDRLEN + |data| < ATTR_LEN_LIMIT && |p| == Size(Leaf(typ, data))
    requires p[..ATTR_HDRLEN + |data|] == Bytes16(LenField(|data|)) + Bytes16(typ) + data
    ensures Encodes(Leaf(typ, data), p)
  {
    hide Align;
    var w := Bytes16(LenField(|data|)) + Bytes16(typ) + data;
    LeafHeader(typ, LenField(|data|), data, p);
    assert p[ATTR_HDRLEN..ATTR_HDRLEN + |data|] == w[ATTR_HDRLEN..] == data;
  }

  lemma LeafHeader(typ: u16, len: u16, data: seq<byte>, p: seq<byte>)
    requires |p| >= ATTR_HDRLEN + |data| && p[..ATTR_HDRLEN + |data|] == Bytes16(len) + Bytes16(typ) + data
    ensures Le16(p, 0) == len && Le16(p, 2) == typ
  {
    var w := Bytes16(len) + Bytes16(typ) + data;
    assert p[0] == w[0] && p[1] == w[1] && p[2] == w[2] && p[3] == w[3];
    assert Le16(p, 0) == Le16(Bytes16(len), 0) && Le16(p, 2) == Le16(Bytes16(typ), 0);
  }

  lemma PutEncodes(s: seq<byte>, len: nat, typ: u16, data: seq<byte>)
    requires |s| >= 4 && MsgLen(s) as nat == len && 4 <= len && len % 4 == 0
    requires ATTR_HDRLEN + |data| < ATTR_LEN_LIMIT && len + Size(Leaf(typ, data)) <= |s| < WORD
    ensures PutAttr(s, typ, data)[4..len] == s[4..len]
    ensures MsgLen(PutAttr(s, typ, data)) as nat == len + Size(Leaf(typ, data))
    ensures Encodes(Leaf(typ, data), PutAttr(s, typ, data)[len..len + Size(Leaf(typ, data))])
  {
    hide PutAttr, MsgLen, Encodes;
    var r, n := PutAttr(s, typ, data), Size(Leaf(typ, data));
    PutWrites(s, len, typ, data);
    SlicePrefix(r, len, len + n, ATTR_HDRLEN + |data|);
    LeafEncoded(typ, data, r[len..len + n]);
  }

  lemma {:induction false} AddHolds(s: seq<byte>, r: seq<byte>, area: nat, len: nat, st: Stack, t: Attr)
    requires 4 <= area && len + Size(t) <= |s| == |r| && Holds(s, area, len, st)
    requires r[4..len] == s[4..len] && Encodes(t, r[len..len + Size(t)])
    ensures Holds(r, area, len + Size(t), st.Add(t))
  {
    hide Layout, Encodes, Size;
    LayoutAdd(st, s[area..len], t, r[len..len + Size(t)]);
    AppendedArea(s, r, area, len, Size(t));
  }

  lemma HoldsLen(s: seq<byte>, area: nat, len: nat, st: Stack)
    requires len <= |s| && Holds(s, area, len, st)
    ensures len == area + st.Extent()
  {
  }

  lemma {:induction false} PutRefines(b: Build, buflen: nat, area: nat, st: Stack, typ: u16, data: seq<byte>)
    requires Represents(b, buflen, area, st) && OpFits(st, buflen - area, Put(typ, data))
    ensures Represents(ApplyPut(b, buflen, typ, data), buflen, area, st.Step(buflen - area, Put(typ, data)))
  {
    hide Holds, Pointers, PutAttr, MsgLen, Encodes;
    var len: nat := MsgLen(b.bytes);
    HoldsLen(b.bytes, area, len, st);
    if len + ATTR_HDRLEN + Align(|data|) <= buflen {
      var t := Leaf(typ, data);
      PutEncodes(b.bytes, len, typ, data);
      AddHolds(b.bytes, PutAttr(b.bytes, typ, data), area, len, st, t);
      AddKeepsStarts(b.starts, area, st, t);
    }
  }

  lemma AppendedArea(s: seq<byte>, r: seq<byte>, area: nat, len: nat, n: nat)
    requires |r| == |s| && 4 <= area <= len && len + n <= |s| && r[4..len] == s[4..len]
    ensures r[area..len + n] == s[area..len] + r[len..len + n]
  {
    assert r[area..len] == r[4..len][area - 4..] == s[area..len];
  }

  lemma AddKeepsStarts(starts: seq<nat>, area: nat, st: Stack, t: Attr)
    requires Pointers(starts, area, st)
    ensures Pointers(starts, area, st.Add(t))
  {
    forall i | 0 <= i < |st.open|
      ensures Stack(st.Add(t).root, st.Add(t).open[..i]).Extent() == Stack(st.root, st.open[..i]).Extent()
    {
      assert st.Add(t).open[..i] == st.open[..i];
    }
  }

  lemma {:induction false} OpenHolds(s: seq<byte>, area: nat, len: nat, st: Stack, typ: u16)
    requires |s| >= 4 && MsgLen(s) as nat == len && 4 <= area && len % 4 == 0 && len + ATTR_HDRLEN <= |s|
    requires Holds(s, area, len, st)
    ensures Holds(OpenNest(s, typ), area, len + ATTR_HDRLEN, Stack(st.root, st.open + [Frame(typ, [])]))
  {
    hide Layout, OpenNest, MsgLen;
    var r := OpenNest(s, typ);
    OpenWrites(s, len, typ);
    LayoutOpen(st, s[area..len], typ, r[len..len + ATTR_HDRLEN]);
    AppendedArea(s, r, area, len, ATTR_HDRLEN);
  }

  lemma {:induction false} StartRefines(b: Build, buflen: nat, area: nat, st: Stack, typ: u16)
    requires Represents(b, buflen, area, st)
    ensures Represents(ApplyStart(b, buflen, typ), buflen, area, st.Step(buflen - area, Start(typ)))
  {
    hide Holds, Pointers, OpenNest, MsgLen;
    var len: nat := MsgLen(b.bytes);
    HoldsLen(b.bytes, area, len, st);
    if len + ATTR_HDRLEN <= buflen {
      OpenHolds(b.bytes, area, len, st, typ);
      OpenPointers(b.starts, area, st, typ);
    }
  }

  lemma OpenPointers(starts: seq<nat>, area: nat, st: Stack, typ: u16)
    requires Pointers(starts, area, st)
    ensures Pointers(starts + [area + st.Extent()], area, Stack(st.root, st.open + [Frame(typ, [])]))
  {
    var open' := st.open + [Frame(typ, [])];
    assert open'[..|st.open|] == st.open;
    forall i | 0 <= i < |st.open|
      ensures open'[..i] == st.open[..i]
    {
    }
  }

  lemma ClosePointers(starts: seq<nat>, area: nat, st: Stack)
    requires Pointers(starts, area, st) && st.open != []
    ensures Pointers(starts[..|starts| - 1], area, st.Below())
    ensures starts[|starts| - 1] == area + st.Below().Extent()
  {
    forall i | 0 <= i < |st.open| - 1
      ensures st.open[..i] == st.Below().open[..i]
    {
    }
  }

  lemma CloseWrites(s: seq<byte>, start: nat, len: nat)
    requires |s| >= 4 && MsgLen(s) as nat == len && len % 4 == 0 && 4 <= start && start + ATTR_HDRLEN <= len <= |s|
    ensures var r := CloseNest(s, start);
            && r[..start] == s[..start] && r[start + 2..] == s[start + 2..]
            && Le16(r, start) as nat == (len - start) % ATTR_LEN_LIMIT
  {
    var field := Bytes16((len - start) % ATTR_LEN_LIMIT);
    OverwriteSlices(s, start, field);
    var r := CloseNest(s, start);
    assert r[start] == field[0] && r[start + 1] == field[1];
  }

  lemma {:induction false} CloseHolds(s: seq<byte>, area: nat, len: nat, st: Stack, start: nat)
    requires |s| >= 4 && MsgLen(s) as nat == len <= |s| && 4 <= area && len % 4 == 0
    requires Holds(s, area, len, st) && st.open != [] && start == area + st.Below().Extent()
    ensures Holds(CloseNest(s, start), area, len, st.Below().Add(Nest(st.Top().typ, st.Top().done)))
  {
    var r := CloseNest(s, start);
    CloseWrites(s, start, len);
    CloseArea(s, r, area, start, len);
    LayoutClose(st, s[area..len], r[area..len]);
  }

  lemma {:induction false} EndRefines(b: Build, buflen: nat, area: nat, st: Stack)
    requires Represents(b, buflen, area, st)
    ensures Represents(ApplyEnd(b, buflen), buflen, area, st.Step(buflen - area, End))
  {
    if st.open != [] {
      ClosePointers(b.starts, area, st);
      CloseHolds(b.bytes, area, MsgLen(b.bytes), st, b.starts[|b.starts| - 1]);
      AddKeepsStarts(b.starts[..|b.starts| - 1], area, st.Below(), Nest(st.Top().typ, st.Top().done));
    }
  }

  lemma CloseArea(s: seq<byte>, r: seq<byte>, area: nat, start: nat, len: nat)
    requires |r| == |s| && area <= start && start + ATTR_HDRLEN <= len <= |s|
    requires r[..start] == s[..start] && r[start + 2..] == s[start + 2..]
    ensures r[area..len][..start - area] == s[area..len][..start - area]
    ensures r[area..len][start - area + 2..] == s[area..len][start - area + 2..]
    ensures Le16(r[area..len], start - area) == Le16(r, start)
  {
    assert r[area..len][..start - area] == r[..start][area..];
    assert s[area..len][..start - area] == s[..start][area..];
    SameSlice(r, s, start + 2, start + 2, len);
    assert r[area..len][start - area + 2..] == r[start + 2..len];
    assert s[area..len][start - area + 2..] == s[start + 2..len];
  }

  lemma {:induction false} CancelHolds(s: seq<byte>, area: nat, len: nat, st: Stack, start: nat)
    requires |s| >= 4 && MsgLen(s) as nat == len <= |s| && 4 <= area && len % 4 == 0
    requires Holds(s, area, len, st) && st.open != [] && start == area + st.Below().Extent()
    ensures Holds(CancelNest(s, start), area, start, st.Below())
  {
    CancelWrites(s, start, area);
    SlicePrefix(s, area, len, start - area);
  }

  lemma {:induction false} CancelRefines(b: Build, buflen: nat, area: nat, st: Stack)
    requires Represents(b, buflen, area, st)
    ensures Represents(ApplyCancel(b, buflen), buflen, area, st.Step(buflen - area, Cancel))
  {
    if st.open != [] {
      ClosePointers(b.starts, area, st);
      CancelHolds(b.bytes, area, MsgLen(b.bytes), st, b.starts[|b.starts| - 1]);
    }
  }

  lemma CancelWrites(s: seq<byte>, start: nat, area: nat)
    requires |s| >= 4 && start <= Tail(s) && 4 <= area <= start <= |s|
    ensures CancelNest(s, start)[4..] == s[4..] && CancelNest(s, start)[area..start] == s[area..start]
  {
    assert CancelNest(s, start)[4..] == s[4..];
    SameSlice(CancelNest(s, start), s, 4, area, start);
  }

  lemma SlicePrefix(s: seq<byte>, a: nat, b: nat, k: nat)
    requires a + k <= b <= |s|
    ensures s[a..b][..k] == s[a..a + k]
  {
  }

  lemma ApplyRefines(b: Build, buflen: nat, area: nat, st: Stack, op: Op)
    requires Represents(b, buflen, area, st) && OpFits(st, buflen - area, op)
    ensures Represents(Apply(b, buflen, op), buflen, area, st.Step(buflen - area, op))
  {
    match op
    case Put(typ, data) => PutRefines(b, buflen, area, st, typ, data);
    case Start(typ) => StartRefines(b, buflen, area, st, typ);
    case End => EndRefines(b, buflen, area, st);
    case Cancel => CancelRefines(b, buflen, area, st);
  }

  /** Every run of bounded calls, refused ones included, leaves the buffer an encoding of the
      stack that the same calls build, inside the bound. */
  lemma {:induction false} RunRefines(b: Build, buflen: nat, area: nat, st: Stack, ops: seq<Op>)
    requires Represents(b, buflen, area, st) && OpsFit(st, buflen - area, ops)
    ensures Represents(Run(b, buflen, ops), buflen, area, st.Steps(buflen - area, ops))
    decreases |ops|
  {
    if ops != [] {
      ApplyRefines(b, buflen, area, st, ops[0]);
      RunRefines(Apply(b, buflen, ops[0]), buflen, area, st.Step(buflen - area, ops[0]), ops[1..]);
    }
  }

  lemma FreshRepresents(s: seq<byte>, extra: nat, buflen: nat)
    requires NLMSG_HDRLEN + Align(extra) <= buflen <= |s| < WORD
    ensures Represents(Fresh(s, extra, buflen), buflen, NLMSG_HDRLEN + Align(extra), Stack([], []))
  {
  }

  // ---------------------------------------------------------------- main results

  /** Whatever a client builds with bounded calls, refused and cancelled ones included, reads
      back as the attributes it finished, once every nest is ended. */
  lemma BuildReadsBack(s: seq<byte>, extra: nat, buflen: nat, ops: seq<Op>)
    requires NLMSG_HDRLEN + Align(extra) <= buflen <= |s| < WORD
    requires OpsFit(Stack([], []), buflen - NLMSG_HDRLEN - Align(extra), ops)
    ensures Meant(Run(Fresh(s, extra, buflen), buflen, ops).bytes, NLMSG_HDRLEN + Align(extra), buflen, ops)
  {
    FreshRepresents(s, extra, buflen);
    RunMeant(Fresh(s, extra, buflen), buflen, NLMSG_HDRLEN + Align(extra), ops);
  }

  lemma RunMeant(b: Build, buflen: nat, area: nat, ops: seq<Op>)
    requires Represents(b, buflen, area, Stack([], [])) && OpsFit(Stack([], []), buflen - area, ops)
    ensures Meant(Run(b, buflen, ops).bytes, area, buflen, ops)
  {
    RunRefines(b, buflen, area, Stack([], []), ops);
    RepresentedReads(Run(b, buflen, ops), buflen, area, Stack([], []).Steps(buflen - area, ops));
  }

  /** The message is as long as what `ops` finished and left open, within the bound, and when
      nothing is left open and everything fits the format, it reads as what was finished. */
  ghost predicate Meant(r: seq<byte>, area: nat, buflen: nat, ops: seq<Op>)
    requires area <= buflen <= |r| && |r| >= 4
  {
    var st := Stack([], []).Steps(buflen - area, ops);
    && area <= MsgLen(r) as nat == area + st.Extent() <= buflen && MsgLen(r) as nat % 4 == 0
    && (st.open == [] && FitAll(st.root) ==> ReadTrees(r[area..MsgLen(r)]) == st.root)
  }

  lemma RepresentedReads(b: Build, buflen: nat, area: nat, st: Stack)
    requires Represents(b, buflen, area, st)
    ensures area <= MsgLen(b.bytes) as nat == area + st.Extent() <= buflen && MsgLen(b.bytes) as nat % 4 == 0
    ensures st.open == [] && FitAll(st.root) ==> ReadTrees(b.bytes[area..MsgLen(b.bytes)]) == st.root
  {
    if st.open == [] && FitAll(st.root) {
      ReadEncoded(st.root, b.bytes[area..MsgLen(b.bytes)]);
    }
  }

  /** The calls that write a forest: nest_start and nest_end around each nest's children. */
  function OpsOf(ts: seq<Attr>): seq<Op>
    decreases ts
  {
    if ts == [] then [] else OpsOfTree(ts[0]) + OpsOf(ts[1..])
  }

  function OpsOfTree(t: Attr): seq<Op>
    decreases t, 0
  {
    match t
    case Leaf(typ, data) => [Put(typ, data)]
    case Nest(typ, children) => [Start(typ)] + OpsOf(children) + [End]
  }

  function AddAll(st: Stack, ts: seq<Attr>): Stack
    decreases |ts|
  {
    if ts == [] then st else AddAll(st.Add(ts[0]), ts[1..])
  }

  lemma {:induction false} StepsConcat(st: Stack, room: nat, a: seq<Op>, b: seq<Op>)
    ensures st.Steps(room, a + b) == st.Steps(room, a).Steps(room, b)
    decreases |a|
  {
    if a == [] {
      assert a + b == b;
    } else {
      assert (a + b)[1..] == a[1..] + b;
      StepsConcat(st.Step(room, a[0]), room, a[1..], b);
    }
  }

  lemma AddExtent(st: Stack, t: Attr)
    ensures st.Add(t).Extent() == st.Extent() + Size(t)
  {
    if st.open == [] {
      SizeAppend(st.root, t);
    } else {
      assert st.Add(t).Below().open == st.Below().open;
      SizeAppend(st.Top().done, t);
    }
  }

  /** With room for them, the calls of a forest add exactly that forest. */
  lemma {:induction false} ForestSteps(st: Stack, room: nat, ts: seq<Attr>)
    requires st.Extent() + SizeAll(ts) <= room
    ensures st.Steps(room, OpsOf(ts)) == AddAll(st, ts)
    decreases ts, 1
  {
    if ts != [] {
      StepsConcat(st, room, OpsOfTree(ts[0]), OpsOf(ts[1..]));
      TreeSteps(st, room, ts[0]);
      AddExtent(st, ts[0]);
      ForestSteps(st.Add(ts[0]), room, ts[1..]);
    }
  }

  lemma {:induction false} TreeSteps(st: Stack, room: nat, t: Attr)
    requires st.Extent() + Size(t) <= room
    ensures st.Steps(room, OpsOfTree(t)) == st.Add(t)
    decreases t, 0
  {
    match t
    case Leaf(typ, data) =>
      assert st.Step(room, Put(typ, data)).Steps(room, []) == st.Add(t);
    case Nest(typ, children) =>
      var st1 := Stack(st.root, st.open + [Frame(typ, [])]);
      assert st1.Below() == st;
      StepsConcat(st, room, [Start(typ)] + OpsOf(children), [End]);
      StepsConcat(st, room, [Start(typ)], OpsOf(children));
      assert st.Steps(room, [Start(typ)]) == st1 by {
        assert st.Step(room, Start(typ)).Steps(room, []) == st1;
      }
      ForestSteps(st1, room, children);
      AddAllTop(st1, children);
      var st2 := AddAll(st1, children);
      assert [] + children == children;
      assert st2.Top() == Frame(typ, children) && st2.Below() == st;
      assert st2.Step(room, End).Steps(room, []) == st.Add(t);
  }

  lemma {:induction false} AddAllTop(st: Stack, ts: seq<Attr>)
    ensures st.open == [] ==> AddAll(st, ts) == Stack(st.root + ts, [])
    ensures st.open != [] ==> AddAll(st, ts) == Stack(st.root, st.Below().open + [Frame(st.Top().typ, st.Top().done + ts)])
    decreases |ts|
  {
    if ts == [] {
      assert st.root + ts == st.root;
      if st.open != [] {
        assert st.Top().done + ts == st.Top().done;
      }
    } else {
      AddAllTop(st.Add(ts[0]), ts[1..]);
      assert st.root + [ts[0]] + ts[1..] == st.root + ts;
      if st.open != [] {
        assert st.Top().done + [ts[0]] + ts[1..] == st.Top().done + ts;
      }
    }
  }

  /** Every forest whose types and lengths fit the format survives being written and read. */
  lemma TreeRoundTrip(s: seq<byte>, extra: nat, buflen: nat, ts: seq<Attr>)
    requires FitAll(ts) && NLMSG_HDRLEN + Align(extra) + SizeAll(ts) <= buflen <= |s| < WORD
    ensures var area := NLMSG_HDRLEN + Align(extra);
            var r := Run(Fresh(s, extra, buflen), buflen, OpsOf(ts)).bytes;
            && MsgLen(r) as nat == area + SizeAll(ts)
            && ReadTrees(r[area..MsgLen(r)]) == ts
  {
    hide Run, OpsOf, ReadTrees, FitAll, SizeAll;
    var st := ForestStack(buflen - NLMSG_HDRLEN - Align(extra), ts);
    ForestFits(ts);
    ShortOpsFit(Stack([], []), buflen - NLMSG_HDRLEN - Align(extra), OpsOf(ts));
    BuildReadsBack(s, extra, buflen, OpsOf(ts));
  }

  lemma ForestStack(room: nat, ts: seq<Attr>) returns (st: Stack)
    requires SizeAll(ts) <= room
    ensures st == Stack([], []).Steps(room, OpsOf(ts)) == Stack(ts, []) && st.Extent() == SizeAll(ts)
  {
    st := Stack(ts, []);
    ForestSteps(Stack([], []), room, ts);
    AddAllTop(Stack([], []), ts);
    assert [] + ts == ts;
  }

  lemma {:induction false} ForestFits(ts: seq<Attr>)
    requires FitAll(ts)
    ensures forall op <- OpsOf(ts) :: op.Put? ==> ATTR_HDRLEN + |op.data| < ATTR_LEN_LIMIT
    decreases ts
  {
    if ts != [] {
      if ts[0].Nest? {
        ForestFits(ts[0].children);
      }
      ForestFits(ts[1..]);
    }
  }

  /** No bounded call writes at or past `buflen`. */
  lemma {:induction false} RunStaysInside(b: Build, buflen: nat, ops: seq<Op>)
    requires Ready(b, buflen)
    ensures Run(b, buflen, ops).bytes[buflen..] == b.bytes[buflen..]
    decreases |ops|
  {
    if ops != [] {
      ApplyKeeps(b, buflen, ops[0], 0);
      RunStaysInside(Apply(b, buflen, ops[0]), buflen, ops[1..]);
    }
  }

  /** One call leaves the bytes past the bound, and those before the `d`-th pointer, alone. */
  ghost predicate Keeps(b: Build, r: Build, buflen: nat, d: nat)
    requires Ready(b, buflen) && |r.bytes| == |b.bytes| && d <= |b.starts| && d <= |r.starts|
  {
    && r.bytes[buflen..] == b.bytes[buflen..]
    && r.starts[..d] == b.starts[..d]
    && (d > 0 ==> r.bytes[4..b.starts[d - 1]] == b.bytes[4..b.starts[d - 1]])
  }

  lemma ApplyKeeps(b: Build, buflen: nat, op: Op, d: nat)
    requires Ready(b, buflen) && d <= |b.starts| && d <= |Apply(b, buflen, op).starts|
    ensures Keeps(b, Apply(b, buflen, op), buflen, d)
  {
    match op
    case Put(typ, data) => PutKeeps(b, buflen, typ, data, d);
    case Start(typ) => StartKeeps(b, buflen, typ, d);
    case End => EndKeeps(b, buflen, d);
    case Cancel => CancelKeeps(b, buflen, d);
  }

  lemma PutKeeps(b: Build, buflen: nat, typ: u16, data: seq<byte>, d: nat)
    requires Ready(b, buflen) && d <= |b.starts|
    ensures Keeps(b, ApplyPut(b, buflen, typ, data), buflen, d)
  {
    var len: nat := MsgLen(b.bytes);
    if len + ATTR_HDRLEN + Align(|data|) <= buflen {
      var r := PutAttr(b.bytes, typ, data);
      PutWrites(b.bytes, len, typ, data);
      KeepsAround(b.bytes, r, len, len + ATTR_HDRLEN + |data|, if d > 0 then b.starts[d - 1] else 4, buflen);
    }
  }

  lemma StartKeeps(b: Build, buflen: nat, typ: u16, d: nat)
    requires Ready(b, buflen) && d <= |b.starts|
    ensures Keeps(b, ApplyStart(b, buflen, typ), buflen, d)
  {
    var len: nat := MsgLen(b.bytes);
    if len + ATTR_HDRLEN <= buflen {
      OpenWrites(b.bytes, len, typ);
      KeepsAround(b.bytes, OpenNest(b.bytes, typ), len, len + ATTR_HDRLEN, if d > 0 then b.starts[d - 1] else 4, buflen);
    }
  }

  lemma EndKeeps(b: Build, buflen: nat, d: nat)
    requires Ready(b, buflen) && d <= |b.starts| && d <= |ApplyEnd(b, buflen).starts|
    ensures Keeps(b, ApplyEnd(b, buflen), buflen, d)
  {
    if b.starts != [] {
      var start, r := b.starts[|b.starts| - 1], ApplyEnd(b, buflen).bytes;
      CloseWrites(b.bytes, start, MsgLen(b.bytes));
      DropHead(b.bytes, r, start);
      KeepsAround(b.bytes, r, start, start + 2, if d > 0 then b.starts[d - 1] else 4, buflen);
    }
  }

  lemma CancelKeeps(b: Build, buflen: nat, d: nat)
    requires Ready(b, buflen) && d <= |b.starts| && d <= |ApplyCancel(b, buflen).starts|
    ensures Keeps(b, ApplyCancel(b, buflen), buflen, d)
  {
    if b.starts != [] {
      var start, r := b.starts[|b.starts| - 1], ApplyCancel(b, buflen).bytes;
      CancelWrites(b.bytes, start, 4);
      SameSlice(r, b.bytes, 4, buflen, |r|);
      SameSlice(r, b.bytes, 4, 4, if d > 0 then b.starts[d - 1] else 4);
    }
  }

  lemma DropHead(s: seq<byte>, r: seq<byte>, n: nat)
    requires 4 <= n <= |s| == |r| && r[..n] == s[..n]
    ensures r[4..n] == s[4..n]
  {
    assert r[4..n] == r[..n][4..] && s[4..n] == s[..n][4..];
  }

  lemma KeepsAround(s: seq<byte>, r: seq<byte>, from: nat, upto: nat, p: nat, buflen: nat)
    requires |r| == |s| && 4 <= p <= from <= upto <= buflen <= |s|
    requires r[4..from] == s[4..from] && r[upto..] == s[upto..]
    ensures r[4..p] == s[4..p] && r[buflen..] == s[buflen..]
  {
    SlicePrefix(r, 4, from, p - 4);
    SlicePrefix(s, 4, from, p - 4);
    SameSlice(r, s, upto, buflen, |s|);
  }

  /** Some nest opened earlier stays open through the whole run. */
  ghost predicate StaysOpen(b: Build, buflen: nat, ops: seq<Op>, d: nat)
    requires Ready(b, buflen)
    decreases |ops|
  {
    d <= |b.starts| && (ops == [] || StaysOpen(Apply(b, buflen, ops[0]), buflen, ops[1..], d))
  }

  lemma {:induction false} RunKeeps(b: Build, buflen: nat, ops: seq<Op>, d: nat)
    requires Ready(b, buflen) && d > 0 && StaysOpen(b, buflen, ops, d)
    ensures |Run(b, buflen, ops).starts| >= d && Run(b, buflen, ops).starts[..d] == b.starts[..d]
    ensures Run(b, buflen, ops).bytes[4..b.starts[d - 1]] == b.bytes[4..b.starts[d - 1]]
    decreases |ops|
  {
    if ops != [] {
      var b' := Apply(b, buflen, ops[0]);
      ApplyKeeps(b, buflen, ops[0], d);
      assert b'.starts[d - 1] == b'.starts[..d][d - 1] == b.starts[..d][d - 1];
      RunKeeps(b', buflen, ops[1..], d);
    }
  }

  /** nest_cancel undoes a whole nest: whatever was built inside it, the length and every byte
      of the message before the nest are what they were. */
  lemma CancelUndoesNest(b: Build, buflen: nat, typ: u16, inner: seq<Op>)
    requires Ready(b, buflen) && MsgLen(b.bytes) as nat + ATTR_HDRLEN <= buflen
    requires var d := |b.starts| + 1;
             && StaysOpen(Apply(b, buflen, Start(typ)), buflen, inner, d)
             && |Run(Apply(b, buflen, Start(typ)), buflen, inner).starts| == d
    ensures var r := Apply(Run(Apply(b, buflen, Start(typ)), buflen, inner), buflen, Cancel);
            && r.starts == b.starts
            && r.bytes[..MsgLen(b.bytes)] == b.bytes[..MsgLen(b.bytes)]
  {
    var len, d := MsgLen(b.bytes) as nat, |b.starts| + 1;
    var b1 := Apply(b, buflen, Start(typ));
    OpenWrites(b.bytes, len, typ);
    RunKeeps(b1, buflen, inner, d);
    var b2 := Run(b1, buflen, inner);
    assert b2.starts == b2.starts[..d] == b1.starts;
    var r := CancelNest(b2.bytes, len);
    CancelWrites(b2.bytes, len, 4);
    assert MsgLen(r) == MsgLen(b.bytes);
    SameHead(r, b.bytes, len);
  }

  lemma SameWord(r: seq<byte>, s: seq<byte>)
    requires |r| >= 4 && |s| >= 4 && Le32(r, 0) == Le32(s, 0)
    ensures r[..4] == s[..4]
  {
    WordBytes(r);
    WordBytes(s);
  }

  lemma SameHead(r: seq<byte>, s: seq<byte>, len: nat)
    requires 4 <= len <= |s| == |r| && Le32(r, 0) == Le32(s, 0) && r[4..len] == s[4..len]
    ensures r[..len] == s[..len]
  {
    SameWord(r, s);
    assert r[..len] == r[..4] + r[4..len] && s[..len] == s[..4] + s[4..len];
  }

  /** mnl_attr_put does not check the 16-bit length: the attribute reads back exactly when its
      total length fits the field. */
  lemma PutReadsBackIff(s: seq<byte>, typ: u16, data: seq<byte>)
    requires |s| >= 4 && 4 <= MsgLen(s) && MsgLen(s) as nat % 4 == 0 && typ as int < NLA_TYPES
    requires Tail(s) + Size(Leaf(typ, data)) <= |s| < WORD
    ensures var r := PutAttr(s, typ, data);
            && MsgLen(s) <= MsgLen(r) <= |r|
            && (ReadTrees(r[MsgLen(s)..MsgLen(r)]) == [Leaf(typ, data)] <==> ATTR_HDRLEN + |data| < ATTR_LEN_LIMIT)
  {
    hide PutAttr, MsgLen, ReadTrees, Encodes;
    var len, r := MsgLen(s) as nat, PutAttr(s, typ, data);
    var p := r[len..MsgLen(r)];
    if ATTR_HDRLEN + |data| < ATTR_LEN_LIMIT {
      PutEncodes(s, len, typ, data);
      ReadEncodedOne(Leaf(typ, data), p);
    } else {
      assert |p| == Align(LenField(|data|)) < Size(Leaf(typ, data));
      NotReadFromLess(Leaf(typ, data), p);
    }
  }

  /** One byte more than the length field can hold, and what was put is not what is read. */
  lemma LongPutLost(s: seq<byte>, typ: u16, data: seq<byte>)
    requires |s| >= 4 && 4 <= MsgLen(s) && MsgLen(s) as nat % 4 == 0 && typ as int < NLA_TYPES
    requires |data| == 65532 && Tail(s) + 65536 <= |s| < WORD
    ensures var r := PutAttr(s, typ, data);
            MsgLen(r) == MsgLen(s) && ReadTrees(r[MsgLen(s)..MsgLen(r)]) != [Leaf(typ, data)]
  {
    hide PutAttr, ReadTrees;
    assert Size(Leaf(typ, data)) == 65536 && LenField(|data|) == 0;
    PutReadsBackIff(s, typ, data);
  }

  /** Three bounded calls whose nest reaches 65536 bytes: each is accepted, the leaf fits, and
      what is read is not what was built. */
  lemma LongNestLost(s: seq<byte>, buflen: nat, data: seq<byte>)
    requires |data| == 65528 && NLMSG_HDRLEN + 65536 <= buflen <= |s| < WORD
    ensures var r := Run(Fresh(s, 0, buflen), buflen, [Start(1), Put(2, data), End]).bytes;
            && MsgLen(r) as nat == NLMSG_HDRLEN + 65536
            && ReadTrees(r[NLMSG_HDRLEN..MsgLen(r)]) != [Nest(1, [Leaf(2, data)])]
  {
    hide Run, ReadTrees, Represents, Encodes, FitAll, Size;
    var ops, t := [Start(1), Put(2, data), End], Nest(1, [Leaf(2, data)]);
    var b, room := Fresh(s, 0, buflen), buflen - NLMSG_HDRLEN;
    FreshRepresents(s, 0, buflen);
    ShortOpsFit(Stack([], []), room, ops);
    RunRefines(b, buflen, NLMSG_HDRLEN, Stack([], []), ops);
    NestSteps(room, data);
    var r := Run(b, buflen, ops).bytes;
    OneTree(t, Run(b, buflen, ops), buflen, NLMSG_HDRLEN);
    ReadNestIff(1, [Leaf(2, data)], r[NLMSG_HDRLEN..MsgLen(r)]);
  }

  lemma HeadSize(t: Attr)
    ensures SizeAll([t]) == Size(t)
  {
    assert [t][1..] == [];
  }

  lemma NestSteps(room: nat, data: seq<byte>)
    requires |data| == 65528 && room >= 65536
    ensures Stack([], []).Steps(room, [Start(1), Put(2, data), End]) == Stack([Nest(1, [Leaf(2, data)])], [])
    ensures FitAll([Leaf(2, data)]) && Size(Nest(1, [Leaf(2, data)])) == 65536
  {
    var t, l := Nest(1, [Leaf(2, data)]), Leaf(2, data);
    assert [l][1..] == [] && [t][1..] == [];
    assert Size(l) == 65532 && SizeAll([l]) == 65532;
    assert OpsOf([l]) == [Put(2, data)] + [] == [Put(2, data)];
    assert OpsOf([t]) == ([Start(1)] + OpsOf([l]) + [End]) + [] == [Start(1), Put(2, data), End];
    HeadSize(t);
    var st := ForestStack(room, [t]);
  }

  lemma OneTree(t: Attr, b: Build, buflen: nat, area: nat)
    requires Represents(b, buflen, area, Stack([t], []))
    ensures area <= MsgLen(b.bytes) as nat == area + Size(t) <= |b.bytes|
    ensures Encodes(t, b.bytes[area..MsgLen(b.bytes)])
  {
    hide Encodes, Size, Pointers, MsgLen;
    var p := b.bytes[area..MsgLen(b.bytes)];
    assert [t][1..] == [] && SizeAll([]) == 0;
    EncodesSize([t], p);
    assert p[..Size(t)] == p;
  }

  lemma NotReadFromLess(t: Attr, p: seq<byte>)
    requires |p| % 4 == 0 && |p| < Size(t)
    ensures ReadTrees(p) != [t]
  {
    ReadSize(p);
    assert SizeAll([t]) == Size(t);
  }
}
