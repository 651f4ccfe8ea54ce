/** The typed stack of the lint against the byte stack of the machine: what lies where, and what each
    pull and each return finds. */
module LintStack {
  import opened Octets
  import opened Asm65816
  import opened WidthLint
  import opened Cpu65816

  /** Something was pushed since the active call. */
  predicate AboveFloor(s: State) {
    s.stack != [] && (s.calls == [] || |s.stack| > |s.calls[|s.calls| - 1].stack|)
  }

  /** The kind of the call statement in front of the return index. */
  predicate FrameIsFar(p: Procedure, f: Frame) {
    && 0 < f.returnIndex <= |p.statements|
    && p.statements[f.returnIndex - 1].op.Call?
    && p.statements[f.returnIndex - 1].op.far
  }

  /** An RTS or RTL finds the typed stack of the call, made by the right kind of call, or the end. */
  predicate Balanced(p: Procedure, s: State, far: bool) {
    if s.calls == [] then s.stack == [] && p.returnAbi == Some(s.w)
    else
      var f := s.calls[|s.calls| - 1];
      s.stack == f.stack && FrameIsFar(p, f) == far
  }

  // ----- Typed stack against byte stack -----

  function ItemSize(item: Item): nat {
    match item
    case Register8Or16(_, width) => width.Size()
    case Status(_) | Bank | RawByte => 1
    case DirectPage | RawPair => 2
  }

  predicate IsItem(item: Item, cells: seq<Cell>) {
    match item
    case Register8Or16(r, width) => IsPush(cells, r, width.Size()) && r in {RegA, RegX, RegY}
    case Status(saved) => IsPush(cells, RegP, 1) && WidthsOf(cells[0].value) == saved
    case Bank => IsPush(cells, RegB, 1)
    case DirectPage => IsPush(cells, RegD, 2)
    case RawByte => |cells| == 1 && IsRemainder(cells[0])
    case RawPair => IsPush(cells, RawWord, 2)
  }

  predicate IsItems(items: seq<Item>, cells: seq<Cell>) {
    if items == [] then cells == []
    else
      var size := ItemSize(items[|items| - 1]);
      && size <= |cells|
      && IsItem(items[|items| - 1], cells[|cells| - size..])
      && IsItems(items[..|items| - 1], cells[..|cells| - size])
  }

  function ItemsSize(items: seq<Item>): nat {
    if items == [] then 0 else ItemsSize(items[..|items| - 1]) + ItemSize(items[|items| - 1])
  }

  /** The bytes pushed since the call of `f` lie on top of its return address. */
  predicate FrameOnTop(p: Procedure, f: Frame, stack: seq<Item>, cells: seq<Cell>) {
    && |f.stack| <= |stack| && stack[..|f.stack|] == f.stack
    && var own := ItemsSize(stack[|f.stack|..]);
       var address := ReturnSize(FrameIsFar(p, f));
       && own + address <= |cells|
       && IsItems(stack[|f.stack|..], cells[|cells| - own..])
       && IsReturnAddress(cells[|cells| - own - address..|cells| - own], f.returnIndex, FrameIsFar(p, f))
  }

  function BelowFrame(p: Procedure, f: Frame, stack: seq<Item>, cells: seq<Cell>): seq<Cell>
    requires FrameOnTop(p, f, stack, cells)
  {
    cells[..|cells| - ItemsSize(stack[|f.stack|..]) - ReturnSize(FrameIsFar(p, f))]
  }

  /** Bytes of every active local call, each followed by its return address, then the bytes
      pushed since the last call. */
  predicate Layout(p: Procedure, calls: seq<Frame>, stack: seq<Item>, cells: seq<Cell>)
    decreases |calls|
  {
    if calls == [] then IsItems(stack, cells)
    else
      var f := calls[|calls| - 1];
      && FrameOnTop(p, f, stack, cells)
      && Layout(p, calls[..|calls| - 1], f.stack, BelowFrame(p, f, stack, cells))
  }

  lemma {:induction false} ItemsHaveTheirSize(items: seq<Item>, cells: seq<Cell>)
    requires IsItems(items, cells)
    ensures |cells| == ItemsSize(items)
  {
    if items != [] {
      ItemsHaveTheirSize(items[..|items| - 1], cells[..|cells| - ItemSize(items[|items| - 1])]);
    }
  }

  lemma ItemsPush(items: seq<Item>, cells: seq<Cell>, item: Item, bytes: seq<Cell>)
    requires IsItems(items, cells) && IsItem(item, bytes) && |bytes| == ItemSize(item)
    ensures IsItems(items + [item], cells + bytes)
  {
    assert (items + [item])[..|items|] == items;
    assert (cells + bytes)[|cells|..] == bytes && (cells + bytes)[..|cells|] == cells;
  }

  lemma SliceOfAppend<T>(s: seq<T>, t: seq<T>, lo: nat, hi: nat)
    requires lo <= hi <= |s|
    ensures (s + t)[hi..] == s[hi..] + t && (s + t)[lo..hi] == s[lo..hi] && (s + t)[..lo] == s[..lo]
  {
  }

  lemma FramePush(p: Procedure, f: Frame, stack: seq<Item>, cells: seq<Cell>, item: Item, bytes: seq<Cell>)
    requires FrameOnTop(p, f, stack, cells) && IsItem(item, bytes) && |bytes| == ItemSize(item)
    ensures FrameOnTop(p, f, stack + [item], cells + bytes)
    ensures BelowFrame(p, f, stack + [item], cells + bytes) == BelowFrame(p, f, stack, cells)
  {
    var items := stack[|f.stack|..];
    var base := |cells| - ItemsSize(items);
    SliceOfAppend(stack, [item], |f.stack|, |f.stack|);
    SliceOfAppend(items, [item], |items|, |items|);
    SliceOfAppend(cells, bytes, base - ReturnSize(FrameIsFar(p, f)), base);
    assert (items + [item])[..|items|] == items;
    ItemsPush(items, cells[base..], item, bytes);
  }

  lemma LayoutPush(p: Procedure, calls: seq<Frame>, stack: seq<Item>, cells: seq<Cell>, item: Item, bytes: seq<Cell>)
    requires Layout(p, calls, stack, cells) && IsItem(item, bytes) && |bytes| == ItemSize(item)
    ensures Layout(p, calls, stack + [item], cells + bytes)
  {
    if calls == [] {
      ItemsPush(stack, cells, item, bytes);
    } else {
      FramePush(p, calls[|calls| - 1], stack, cells, item, bytes);
    }
  }

  lemma ItemsPop(items: seq<Item>, cells: seq<Cell>)
    requires IsItems(items, cells) && items != []
    ensures var (size, front) := (ItemSize(items[|items| - 1]), items[..|items| - 1]);
            && size <= |cells| && ItemsSize(items) == ItemsSize(front) + size
            && IsItem(items[|items| - 1], cells[|cells| - size..]) && IsItems(front, cells[..|cells| - size])
  {
  }

  lemma FrameParts(p: Procedure, f: Frame, stack: seq<Item>, cells: seq<Cell>)
    returns (below: seq<Cell>, address: seq<Cell>, own: seq<Cell>)
    requires FrameOnTop(p, f, stack, cells)
    ensures cells == below + address + own && below == BelowFrame(p, f, stack, cells)
    ensures IsItems(stack[|f.stack|..], own) && IsReturnAddress(address, f.returnIndex, FrameIsFar(p, f))
    ensures |own| == ItemsSize(stack[|f.stack|..])
  {
    var base := |cells| - ItemsSize(stack[|f.stack|..]);
    below, own := BelowFrame(p, f, stack, cells), cells[base..];
    address := cells[|below|..base];
  }

  lemma SliceOfParts<T>(below: seq<T>, address: seq<T>, own: seq<T>)
    ensures var (whole, base) := (below + address + own, |below| + |address|);
            whole[base..] == own && whole[|below|..base] == address && whole[..|below|] == below
  {
  }

  lemma FrameFromParts(p: Procedure, f: Frame, stack: seq<Item>, below: seq<Cell>, address: seq<Cell>, own: seq<Cell>)
    requires |f.stack| <= |stack| && stack[..|f.stack|] == f.stack
    requires IsItems(stack[|f.stack|..], own) && IsReturnAddress(address, f.returnIndex, FrameIsFar(p, f))
    ensures FrameOnTop(p, f, stack, below + address + own)
    ensures BelowFrame(p, f, stack, below + address + own) == below
  {
    ItemsHaveTheirSize(stack[|f.stack|..], own);
    SliceOfParts(below, address, own);
  }

  lemma CutBehind<T>(front: seq<T>, own: seq<T>, n: nat)
    requires n <= |own|
    ensures var whole := front + own;
            whole[|whole| - n..] == own[|own| - n..] && whole[..|whole| - n] == front + own[..|own| - n]
  {
  }

  lemma FrontOfTail<T>(s: seq<T>, n: nat)
    requires n < |s|
    ensures s[..|s| - 1][n..] == s[n..][..|s[n..]| - 1]
    ensures s[..|s| - 1][..n] == s[..n] && s[n..][|s[n..]| - 1] == s[|s| - 1]
  {
  }

  lemma PartsPop(n: nat, stack: seq<Item>, own: seq<Cell>)
    requires n < |stack| && IsItems(stack[n..], own)
    ensures var (size, front) := (ItemSize(stack[|stack| - 1]), stack[..|stack| - 1]);
            && size <= |own| && IsItem(stack[|stack| - 1], own[|own| - size..])
            && front[..n] == stack[..n] && IsItems(front[n..], own[..|own| - size])
  {
    FrontOfTail(stack, n);
    ItemsPop(stack[n..], own);
  }

  lemma ShorterFrame(p: Procedure, f: Frame, front: seq<Item>, below: seq<Cell>, address: seq<Cell>, own: seq<Cell>,
                     cells: seq<Cell>)
    requires |f.stack| <= |front| && front[..|f.stack|] == f.stack && cells == below + address + own
    requires IsItems(front[|f.stack|..], own) && IsReturnAddress(address, f.returnIndex, FrameIsFar(p, f))
    ensures FrameOnTop(p, f, front, cells) && BelowFrame(p, f, front, cells) == below
  {
    FrameFromParts(p, f, front, below, address, own);
  }

  /** The top item of a frame is made of the last bytes. */
  lemma FrameTop(p: Procedure, f: Frame, stack: seq<Item>, cells: seq<Cell>)
    requires FrameOnTop(p, f, stack, cells) && |stack| > |f.stack|
    ensures var size := ItemSize(stack[|stack| - 1]);
            size <= |cells| && IsItem(stack[|stack| - 1], cells[|cells| - size..])
  {
    var below, address, own := FrameParts(p, f, stack, cells);
    PartsPop(|f.stack|, stack, own);
    CutBehind(below + address, own, ItemSize(stack[|stack| - 1]));
  }

  lemma FramePop(p: Procedure, f: Frame, stack: seq<Item>, cells: seq<Cell>, front: seq<Item>, rest: seq<Cell>)
    requires FrameOnTop(p, f, stack, cells) && |stack| > |f.stack| && front == stack[..|stack| - 1]
    requires |rest| + ItemSize(stack[|stack| - 1]) == |cells| && rest == cells[..|rest|]
    ensures FrameOnTop(p, f, front, rest) && BelowFrame(p, f, front, rest) == BelowFrame(p, f, stack, cells)
  {
    var below, address, own := FrameParts(p, f, stack, cells);
    var size := ItemSize(stack[|stack| - 1]);
    PartsPop(|f.stack|, stack, own);
    CutBehind(below + address, own, size);
    ShorterFrame(p, f, front, below, address, own[..|own| - size], rest);
  }

  lemma LayoutTop(p: Procedure, calls: seq<Frame>, stack: seq<Item>, cells: seq<Cell>)
    requires Layout(p, calls, stack, cells) && stack != []
    requires calls == [] || |stack| > |calls[|calls| - 1].stack|
    ensures var size := ItemSize(stack[|stack| - 1]);
            size <= |cells| && IsItem(stack[|stack| - 1], cells[|cells| - size..])
  {
    if calls != [] {
      FrameTop(p, calls[|calls| - 1], stack, cells);
    }
  }

  lemma LayoutPop(p: Procedure, calls: seq<Frame>, stack: seq<Item>, cells: seq<Cell>, rest: seq<Cell>)
    requires Layout(p, calls, stack, cells) && stack != []
    requires calls == [] || |stack| > |calls[|calls| - 1].stack|
    requires |rest| + ItemSize(stack[|stack| - 1]) == |cells| && rest == cells[..|rest|]
    ensures Layout(p, calls, stack[..|stack| - 1], rest)
  {
    if calls != [] {
      FramePop(p, calls[|calls| - 1], stack, cells, stack[..|stack| - 1], rest);
    } else {
      ItemsPop(stack, cells);
    }
  }

  lemma LayoutCall(p: Procedure, calls: seq<Frame>, stack: seq<Item>, cells: seq<Cell>, f: Frame, address: seq<Cell>)
    requires Layout(p, calls, stack, cells)
    requires f.stack == stack && IsReturnAddress(address, f.returnIndex, FrameIsFar(p, f))
    ensures Layout(p, calls + [f], stack, cells + address)
  {
    var all := calls + [f];
    FrameFromParts(p, f, stack, cells, address, []);
    assert cells + address + [] == cells + address;
    assert all[..|calls|] == calls && all[|all| - 1] == f;
  }

  /** With a frame active and nothing pushed since the call, its return address is on top. */
  lemma LayoutAtFloor(p: Procedure, calls: seq<Frame>, stack: seq<Item>, cells: seq<Cell>)
    requires Layout(p, calls, stack, cells) && calls != [] && |stack| == |calls[|calls| - 1].stack|
    ensures var f := calls[|calls| - 1];
            var address := ReturnSize(FrameIsFar(p, f));
            && address <= |cells|
            && IsReturnAddress(cells[|cells| - address..], f.returnIndex, FrameIsFar(p, f))
            && Layout(p, calls[..|calls| - 1], f.stack, cells[..|cells| - address])
  {
    var f := calls[|calls| - 1];
    assert stack[|f.stack|..] == [];
    var address := ReturnSize(FrameIsFar(p, f));
    assert cells[|cells| - address..|cells|] == cells[|cells| - address..];
  }

  // ----- Each check of the machine, exactly, on the typed side -----

  /** With a byte of a return address on top, nothing can be pulled. */
  lemma AddressDoesNotFit(c: Cpu, r: Register)
    requires c.stack != [] && c.stack[|c.stack| - 1].ReturnByte?
    ensures !PullFits(c, r) && !StatusOnTop(c)
  {
    var size := TransferSize(r, c.w);
    assert TopCells(c.stack, 1)[0] == c.stack[|c.stack| - 1];
    if size <= |c.stack| {
      assert TopCells(c.stack, size)[size - 1] == c.stack[|c.stack| - 1];
    }
  }

  /** What lies on the byte stack when nothing was pushed since the active call. */
  lemma FloorIsAddress(p: Procedure, s: State, c: Cpu)
    requires Layout(p, s.calls, s.stack, c.stack) && !AboveFloor(s)
    ensures s.calls == [] ==> s.stack == [] && c.stack == []
    ensures s.calls != [] ==>
              && s.stack == s.calls[|s.calls| - 1].stack
              && c.stack != [] && c.stack[|c.stack| - 1].ReturnByte?
  {
    if s.calls != [] {
      assert s.stack == s.calls[|s.calls| - 1].stack;
      LayoutAtFloor(p, s.calls, s.stack, c.stack);
      var size := ReturnSize(FrameIsFar(p, s.calls[|s.calls| - 1]));
      assert c.stack[|c.stack| - 1] == TopCells(c.stack, size)[size - 1];
    }
  }

  /** With something pushed, the top of the byte stack is the top item. */
  lemma TopIsItem(p: Procedure, s: State, c: Cpu)
    requires Layout(p, s.calls, s.stack, c.stack) && AboveFloor(s)
    ensures var item := s.stack[|s.stack| - 1];
            ItemSize(item) <= |c.stack| && IsItem(item, TopCells(c.stack, ItemSize(item)))
  {
    LayoutTop(p, s.calls, s.stack, c.stack);
  }

  /** What is left on both stacks without the top item. */
  lemma PoppedLayout(p: Procedure, s: State, cells: seq<Cell>, rest: seq<Cell>)
    requires Layout(p, s.calls, s.stack, cells) && AboveFloor(s)
    requires |rest| + ItemSize(s.stack[|s.stack| - 1]) == |cells| && rest == cells[..|rest|]
    ensures Layout(p, s.calls, Popped(s.stack), rest)
  {
    LayoutPop(p, s.calls, s.stack, cells, rest);
  }

  /** The byte on top tells the item apart: its register, its size and its place in the push. */
  lemma TopByte(stack: seq<Cell>, item: Item)
    requires ItemSize(item) <= |stack| && IsItem(item, TopCells(stack, ItemSize(item)))
    ensures stack != [] && stack[|stack| - 1].Data?
    ensures var top := stack[|stack| - 1];
            match item
            case Register8Or16(r, width) => top.from == r && top.size == width.Size() && top.offset == 0
            case Status(_) => top.from == RegP && top.size == 1 && top.offset == 0
            case Bank => top.from == RegB && top.size == 1 && top.offset == 0
            case DirectPage => top.from == RegD && top.size == 2 && top.offset == 0
            case RawByte => top.from == RawWord && top.size == 2 && top.offset == 1
            case RawPair => top.from == RawWord && top.size == 2 && top.offset == 0
  {
    var size := ItemSize(item);
    assert stack[|stack| - 1] == TopCells(stack, size)[size - 1];
  }

  /** A pull that fits takes a push of its own, whole, or raw bytes. */
  lemma FittingTop(c: Cpu, r: Register)
    requires PullFits(c, r)
    ensures c.stack != [] && c.stack[|c.stack| - 1].Data?
    ensures var (size, top) := (TransferSize(r, c.w), c.stack[|c.stack| - 1]);
            match r
            case RegA => (top.from == RegA && top.size == size && top.offset == 0)
                         || (top.from == RawWord && top.size == 2 && top.offset == if size == 2 then 0 else 1)
            case RegX | RegY => top.from == r && top.size == size && top.offset == 0
            case RegB => (top.from == RegB && top.size == 1 && top.offset == 0)
                || (top.from == RawWord && top.size == 2)
            case RegD => (top.from == RegD || top.from == RawWord) && top.size == 2 && top.offset == 0
            case RegP | RawWord => false
  {
    var size := TransferSize(r, c.w);
    assert c.stack[|c.stack| - 1] == TopCells(c.stack, size)[size - 1];
  }

  lemma AcceptedPullFits(c: Cpu, r: Register, item: Item)
    requires ItemSize(item) <= |c.stack| && IsItem(item, TopCells(c.stack, ItemSize(item)))
    requires PullAccepts(c.w, r, Some(item))
    ensures PullFits(c, r)
  {
    if item == RawPair && r == RegB {
      assert TopCells(c.stack, 1)[0] == TopCells(c.stack, 2)[1];
    }
  }

  lemma FittingPullIsAccepted(c: Cpu, r: Register, item: Item)
    requires ItemSize(item) <= |c.stack| && IsItem(item, TopCells(c.stack, ItemSize(item)))
    requires PullFits(c, r)
    ensures PullAccepts(c.w, r, Some(item))
  {
    TopByte(c.stack, item);
    FittingTop(c, r);
  }

  lemma PullIsExact(p: Procedure, s: State, c: Cpu, r: Register)
    requires Layout(p, s.calls, s.stack, c.stack) && s.w == c.w
    ensures PullFits(c, r) <==> AboveFloor(s) && PullAccepts(s.w, r, Top(s.stack))
  {
    if !AboveFloor(s) {
      FloorIsAddress(p, s, c);
      if s.calls != [] { AddressDoesNotFit(c, r); }
    } else {
      var item := s.stack[|s.stack| - 1];
      TopIsItem(p, s, c);
      if PullFits(c, r) { FittingPullIsAccepted(c, r, item); }
      if PullAccepts(s.w, r, Some(item)) { AcceptedPullFits(c, r, item); }
    }
  }

  lemma StatusIsExact(p: Procedure, s: State, c: Cpu)
    requires Layout(p, s.calls, s.stack, c.stack)
    ensures StatusOnTop(c) <==> AboveFloor(s) && s.stack[|s.stack| - 1].Status?
    ensures StatusOnTop(c) ==> WidthsOf(c.stack[|c.stack| - 1].value) == s.stack[|s.stack| - 1].saved
  {
    if !AboveFloor(s) {
      FloorIsAddress(p, s, c);
      if s.calls != [] { AddressDoesNotFit(c, RegP); }
    } else {
      TopIsItem(p, s, c);
      TopByte(c.stack, s.stack[|s.stack| - 1]);
      assert TopCells(c.stack, 1)[0] == c.stack[|c.stack| - 1];
    }
  }

  /** A balanced local return finds its address on top of the bytes. */
  lemma ReturnFindsAddress(p: Procedure, s: State, cells: seq<Cell>)
    requires Layout(p, s.calls, s.stack, cells) && s.calls != [] && s.stack == s.calls[|s.calls| - 1].stack
    ensures var f := s.calls[|s.calls| - 1];
            var far := FrameIsFar(p, f);
            && ReturnSize(far) <= |cells|
            && cells[|cells| - 1] == ReturnByte(f.returnIndex, far, 0)
            && IsReturnAddress(TopCells(cells, ReturnSize(far)), f.returnIndex, far)
            && Layout(p, s.calls[..|s.calls| - 1], s.stack, cells[..|cells| - ReturnSize(far)])
  {
    LayoutAtFloor(p, s.calls, s.stack, cells);
    var size := ReturnSize(FrameIsFar(p, s.calls[|s.calls| - 1]));
    assert cells[|cells| - 1] == TopCells(cells, size)[size - 1];
  }

  lemma OtherKindDoesNotFit(p: Procedure, c: Cpu, far: bool, index: nat)
    requires c.stack != [] && c.stack[|c.stack| - 1] == ReturnByte(index, !far, 0)
    ensures !ReturnFits(p, c, far)
  {
    var size := ReturnSize(far);
    assert size <= |c.stack| ==> TopCells(c.stack, size)[size - 1] == c.stack[|c.stack| - 1];
  }

  lemma ReturnIsExact(p: Procedure, s: State, c: Cpu, far: bool)
    requires Layout(p, s.calls, s.stack, c.stack) && s.w == c.w
    ensures ReturnFits(p, c, far) <==> Balanced(p, s, far)
  {
    if AboveFloor(s) {
      TopIsItem(p, s, c);
      TopByte(c.stack, s.stack[|s.stack| - 1]);
    } else {
      FloorIsAddress(p, s, c);
      if s.calls != [] {
        ReturnFindsAddress(p, s, c.stack);
        var f := s.calls[|s.calls| - 1];
        if FrameIsFar(p, f) != far { OtherKindDoesNotFit(p, c, far, f.returnIndex); }
      }
    }
  }

  lemma EmptyIsExact(p: Procedure, s: State, c: Cpu)
    requires Layout(p, s.calls, s.stack, c.stack)
    ensures c.stack == [] <==> s.calls == [] && s.stack == []
  {
    if AboveFloor(s) {
      TopIsItem(p, s, c);
      TopByte(c.stack, s.stack[|s.stack| - 1]);
    } else {
      FloorIsAddress(p, s, c);
    }
  }

  // ----- What is left when something was taken -----

  lemma SplitRawWord(cells: seq<Cell>)
    requires IsPush(cells, RawWord, 2)
    ensures IsItem(RawByte, cells[..1])
  {
  }

  lemma AllButOne<T>(s: seq<T>)
    requires |s| >= 2
    ensures s[..|s| - 2] + s[|s| - 2..][..1] == s[..|s| - 1]
  {
  }

  /** Taking one byte of a raw word leaves the other. */
  lemma LayoutSplit(p: Procedure, calls: seq<Frame>, stack: seq<Item>, cells: seq<Cell>)
    requires Layout(p, calls, stack, cells) && stack != [] && stack[|stack| - 1] == RawPair
    requires calls == [] || |stack| > |calls[|calls| - 1].stack|
    ensures cells != [] && Layout(p, calls, stack[..|stack| - 1] + [RawByte], cells[..|cells| - 1])
  {
    LayoutTop(p, calls, stack, cells);
    LayoutPop(p, calls, stack, cells, cells[..|cells| - 2]);
    SplitRawWord(cells[|cells| - 2..]);
    LayoutPush(p, calls, stack[..|stack| - 1], cells[..|cells| - 2], RawByte, cells[|cells| - 2..][..1]);
    AllButOne(cells);
  }

  lemma AcceptedPullSize(w: Widths, r: Register, item: Item)
    requires PullAccepts(w, r, Some(item)) && (r != RegB || item != RawPair)
    ensures TransferSize(r, w) == ItemSize(item)
  {
  }

  lemma SplitPull(p: Procedure, s: State, cells: seq<Cell>, rest: seq<Cell>)
    requires Layout(p, s.calls, s.stack, cells) && AboveFloor(s) && s.stack[|s.stack| - 1] == RawPair
    requires |rest| + 1 == |cells| && rest == cells[..|rest|]
    ensures Layout(p, s.calls, AfterPull(RegB, s.stack), rest)
  {
    LayoutSplit(p, s.calls, s.stack, cells);
  }

  lemma PullLayout(p: Procedure, s: State, cells: seq<Cell>, r: Register, rest: seq<Cell>)
    requires Layout(p, s.calls, s.stack, cells) && AboveFloor(s)
    requires PullAccepts(s.w, r, Some(s.stack[|s.stack| - 1]))
    requires |rest| + TransferSize(r, s.w) == |cells| && rest == cells[..|rest|]
    ensures Layout(p, s.calls, AfterPull(r, s.stack), rest)
  {
    if r == RegB && s.stack[|s.stack| - 1] == RawPair {
      SplitPull(p, s, cells, rest);
    } else {
      AcceptedPullSize(s.w, r, s.stack[|s.stack| - 1]);
      PoppedLayout(p, s, cells, rest);
    }
  }

  lemma PullKeepsLayout(p: Procedure, s: State, c: Cpu, r: Register)
    requires Layout(p, s.calls, s.stack, c.stack) && s.w == c.w && PullFits(c, r)
    ensures Layout(p, s.calls, AfterPull(r, s.stack), Pulled(c, r).stack)
    ensures AboveFloor(s) && PullAccepts(s.w, r, Top(s.stack))
  {
    PullIsExact(p, s, c, r);
    PullLayout(p, s, c.stack, r, Pulled(c, r).stack);
  }

  /** A status byte on top of both stacks, taken off both. */
  lemma StatusTaken(p: Procedure, s: State, c: Cpu, rest: seq<Cell>)
    requires Layout(p, s.calls, s.stack, c.stack) && AboveFloor(s) && s.stack[|s.stack| - 1].Status?
    requires c.stack != [] && rest == c.stack[..|c.stack| - 1]
    ensures Layout(p, s.calls, Popped(s.stack), rest)
    ensures c.stack[|c.stack| - 1].Data? && WidthsOf(c.stack[|c.stack| - 1].value) == s.stack[|s.stack| - 1].saved
  {
    StatusIsExact(p, s, c);
    PoppedLayout(p, s, c.stack, rest);
  }
}
