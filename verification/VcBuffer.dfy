/** The output buffer of the flow validate/create parser: descriptors grow up from the buffer's
    header, their data blocks grow down from its end. */
module VcBuffer {

  import opened Bytes

  /** Size of a pattern item and of an action descriptor, and the alignment of both and of data. */
  const ITEM := 32
  const ACTION := 16
  const ALIGN := 8

  function Ceil(a: int): int { (a + ALIGN - 1) / ALIGN * ALIGN }

  function Floor(a: int): int { a / ALIGN * ALIGN }

  /** The octets from `lo`, `size` of them. */
  datatype Block = Block(lo: int, size: nat)

  /** Descriptors as stored; an address 0 is a null pointer. */
  datatype Item = Item(kind: nat, spec: int, last: int, mask: int)

  datatype Action = Action(kind: nat, conf: int)

  /** Where the next value is to be stored: in the header, or at an address. */
  datatype Object = Header | Attributes | Tunnel | At(address: int)

  datatype Param = Is | Spec | Last | Mask | Prefix

  datatype Token =
    | Command
    | Attribute(tunnel: bool)
    | Pattern
    | ItemToken(kind: nat, size: nat)
    | ItemParam(param: Param)
    | Actions
    | ActionToken(kind: nat, size: nat)
    | ActionConf

  datatype State = State(
    base: int, size: nat, header: nat,
    started: bool, pattern: int, actions: int,
    items: seq<Item>, acts: seq<Action>,
    itemBlocks: seq<Block>, actBlocks: seq<Block>,
    data: int, target: Object, objmask: int, objdata: nat)

  /** A zeroed buffer of `size` octets at `base`, whose header takes `header` octets. */
  function Start(base: int, size: nat, header: nat): State {
    State(base, size, header, false, 0, 0, [], [], [], [], 0, Header, 0, 0)
  }

  /** First octet after the descriptors. */
  function SlotsEnd(s: State): int {
    s.pattern + ITEM * |s.items| + ACTION * |s.acts|
  }

  function NewData(s: State, blockSize: nat): int {
    Floor(s.data - blockSize)
  }

  // ---------------------------------------------------------------- one token

  function StepItem(s: State, kind: nat, size: nat): (State, bool) {
    var data, slot := NewData(s, 3 * size), s.pattern + ITEM * |s.items|;
    if slot + ITEM > data then
      (s.(target := Attributes, objmask := 0, objdata := 0), false)
    else
      (s.(items := s.items + [Item(kind, 0, 0, 0)], itemBlocks := s.itemBlocks + [Block(data, 3 * size)],
          data := data, target := At(slot), objmask := 0, objdata := 3 * size), true)
  }

  function StepAction(s: State, kind: nat, size: nat): (State, bool) {
    var data, slot := NewData(s, size), s.actions + ACTION * |s.acts|;
    if slot + ACTION > data then
      (s.(target := Attributes, objmask := 0, objdata := 0), false)
    else
      (s.(acts := s.acts + [Action(kind, if size == 0 then 0 else data)],
          actBlocks := s.actBlocks + [Block(data, size)],
          data := data, target := At(slot), objmask := 0, objdata := size), true)
  }

  function StepParam(s: State, p: Param): (State, bool) {
    if s.items == [] then (s, false)
    else
      var n, third := |s.items| - 1, s.objdata / 3;
      var item := s.items[n];
      var address := s.data + third * (if p.Is? || p.Spec? then 0 else if p.Last? then 1 else 2);
      var stored :=
        match p
        case Is => item.(spec := address, mask := s.data + third * 2)
        case Spec => item.(spec := address)
        case Last => item.(last := address)
        case _ => item.(mask := address);
      (s.(items := s.items[n := stored], target := At(address),
          objmask := if p.Is? then s.data + third * 2 else 0), true)
  }

  /** The state after a token, and whether it was accepted. */
  function Step(s: State, t: Token): (State, bool) {
    match t
    case Command =>
      if s.header > s.size then (s, false)
      else (s.(started := true, data := s.base + s.size, target := Header, objmask := 0, objdata := 0), true)
    case Attribute(tunnel) =>
      (s.(target := if tunnel then Tunnel else Attributes, objmask := 0, objdata := 0), true)
    case Pattern =>
      var pattern := Ceil(s.base + s.header);
      (s.(pattern := pattern, target := At(pattern), objmask := 0, objdata := 0), true)
    case ItemToken(kind, size) => StepItem(s, kind, size)
    case ItemParam(p) => StepParam(s, p)
    case Actions =>
      var actions := Ceil(s.pattern + ITEM * |s.items|);
      (s.(actions := actions, target := At(actions), objmask := 0, objdata := 0), true)
    case ActionToken(kind, size) => StepAction(s, kind, size)
    case ActionConf => (s.(target := At(s.data), objmask := 0), true)
  }

  /** What the token order lets come next: the command, then attributes, then `pattern` and its
      items, then `actions` and theirs; a parameter belongs to an item or action just stored. */
  ghost predicate Follows(s: State, t: Token) {
    match t
    case Command => !s.started
    case Attribute(_) => s.started && s.pattern == 0
    case Pattern => s.started && s.pattern == 0
    case ItemToken(_, _) => s.pattern != 0 && s.actions == 0
    case ItemParam(_) =>
      && s.pattern != 0 && s.actions == 0
      && (s.items == [] || (s.itemBlocks != [] && s.objdata == s.itemBlocks[|s.itemBlocks| - 1].size))
    case Actions => s.pattern != 0 && s.actions == 0
    case ActionToken(_, _) => s.actions != 0
    case ActionConf => s.actBlocks != [] && s.objdata == s.actBlocks[|s.actBlocks| - 1].size
  }

  function Run(s: State, ts: seq<Token>): State
    decreases |ts|
  {
    if ts == [] then s else Run(Step(s, ts[0]).0, ts[1..])
  }

  ghost predicate InOrder(s: State, ts: seq<Token>)
    decreases |ts|
  {
    ts == [] || (Follows(s, ts[0]) && InOrder(Step(s, ts[0]).0, ts[1..]))
  }

  // ---------------------------------------------------------------- the invariant

  /** Blocks were carved downwards from `top`, each below the one before; the last starts at `data`. */
  ghost predicate Carved(blocks: seq<Block>, top: int, data: int) {
    if blocks == [] then data == top
    else
      var n := |blocks| - 1;
      && blocks[n].lo == data && data % ALIGN == 0
      && exists above: int :: data + blocks[n].size <= above && Carved(blocks[..n], top, above)
  }

  /** The three pointers of an item are null or point to the first, second and last third of its
      own block. */
  ghost predicate OwnItem(item: Item, b: Block) {
    && b.size % 3 == 0
    && (item.spec == 0 || item.spec == b.lo)
    && (item.last == 0 || item.last == b.lo + b.size / 3)
    && (item.mask == 0 || item.mask == b.lo + b.size / 3 * 2)
  }

  /** An action points to its own block, or to nothing when it has no configuration. */
  ghost predicate OwnAction(a: Action, b: Block) {
    a.conf == if b.size == 0 then 0 else b.lo
  }

  ghost predicate Owned(s: State) {
    && |s.itemBlocks| == |s.items| && |s.actBlocks| == |s.acts|
    && (forall i :: 0 <= i < |s.items| ==> OwnItem(s.items[i], s.itemBlocks[i]))
    && forall i :: 0 <= i < |s.acts| ==> OwnAction(s.acts[i], s.actBlocks[i])
  }

  ghost predicate Slots(s: State) {
    && (s.pattern != 0 ==> s.pattern == Ceil(s.base + s.header))
    && (s.pattern == 0 ==> s.actions == 0 && s.items == [])
    && (s.actions == 0 ==> s.acts == [])
    && (s.actions != 0 ==> s.actions == s.pattern + ITEM * |s.items|)
    && (s.items != [] || s.acts != [] ==> SlotsEnd(s) <= s.data)
  }

  ghost predicate Safe(s: State) {
    && s.base > 0 && Owned(s) && Slots(s)
    && (s.started ==> s.header <= s.size && Carved(s.itemBlocks + s.actBlocks, s.base + s.size, s.data))
    && (!s.started ==> s.pattern == 0)
  }

  lemma StartIsSafe(base: int, size: nat, header: nat)
    requires base > 0
    ensures Safe(Start(base, size, header))
  {
  }

  lemma CarvedBelow(blocks: seq<Block>, top: int, data: int, b: Block)
    requires Carved(blocks, top, data) && b.lo == Floor(data - b.size)
    ensures Carved(blocks + [b], top, b.lo)
  {
    assert (blocks + [b])[..|blocks|] == blocks;
    assert b.lo % ALIGN == 0;
  }

  lemma ItemKeepsSafe(s: State, kind: nat, size: nat)
    requires Safe(s) && s.started && s.pattern != 0 && s.actions == 0
    ensures Safe(StepItem(s, kind, size).0)
  {
    hide Carved, Floor, Ceil;
    var r := StepItem(s, kind, size);
    if r.1 {
      var b := Block(NewData(s, 3 * size), 3 * size);
      CarvedBelow(s.itemBlocks + s.actBlocks, s.base + s.size, s.data, b);
      assert s.actBlocks == [] && r.0.itemBlocks + r.0.actBlocks == s.itemBlocks + s.actBlocks + [b];
    }
  }

  lemma ActionKeepsSafe(s: State, kind: nat, size: nat)
    requires Safe(s) && s.started && s.actions != 0
    ensures Safe(StepAction(s, kind, size).0)
  {
    hide Carved, Floor, Ceil;
    var r := StepAction(s, kind, size);
    if r.1 {
      var b := Block(NewData(s, size), size);
      CarvedBelow(s.itemBlocks + s.actBlocks, s.base + s.size, s.data, b);
      assert r.0.itemBlocks + r.0.actBlocks == s.itemBlocks + s.actBlocks + [b];
    }
  }

  lemma LastBlockIsAtData(blocks: seq<Block>, top: int, data: int)
    requires Carved(blocks, top, data) && blocks != []
    ensures blocks[|blocks| - 1].lo == data
  {
  }

  lemma ParamKeepsSafe(s: State, p: Param)
    requires Safe(s) && s.started && Follows(s, ItemParam(p))
    ensures Safe(StepParam(s, p).0)
  {
    hide Carved, Ceil;
    if s.items != [] {
      assert s.actBlocks == [] && s.itemBlocks + s.actBlocks == s.itemBlocks;
      LastBlockIsAtData(s.itemBlocks, s.base + s.size, s.data);
    }
  }

  lemma AlignedItems(s: State)
    requires Safe(s) && s.pattern != 0
    ensures Ceil(s.pattern + ITEM * |s.items|) == s.pattern + ITEM * |s.items|
    ensures s.pattern >= s.base + s.header
  {
    hide Owned, Carved;
    CeilOfAligned((s.base + s.header + ALIGN - 1) / ALIGN + 4 * |s.items|);
  }

  lemma CeilOfAligned(k: int)
    ensures Ceil(ALIGN * k) == ALIGN * k
  {
  }

  /** Every token keeps the invariant. */
  lemma StepKeepsSafe(s: State, t: Token)
    requires Safe(s) && Follows(s, t)
    ensures Safe(Step(s, t).0)
  {
    hide Carved, Ceil, Floor;
    match t
    case ItemToken(kind, size) => ItemKeepsSafe(s, kind, size);
    case ActionToken(kind, size) => ActionKeepsSafe(s, kind, size);
    case ItemParam(p) => ParamKeepsSafe(s, p);
    case Actions => AlignedItems(s);
    case Command =>
      assert s.itemBlocks + s.actBlocks == [];
      NothingCarved(s.base + s.size);
    case _ =>
  }

  lemma NothingCarved(top: int)
    ensures Carved([], top, top)
  {
  }

  // ---------------------------------------------------------------- what it means

  ghost predicate Apart(a: Block, b: Block) {
    a.lo + a.size <= b.lo || b.lo + b.size <= a.lo
  }

  ghost predicate Inside(s: State, b: Block) {
    s.base + s.header <= b.lo && b.lo + b.size <= s.base + s.size
  }

  /** All that the parser has laid out in the buffer: item slots, action slots, data blocks. */
  ghost function Regions(s: State): seq<Block> {
    seq(|s.items|, i => Block(s.pattern + ITEM * i, ITEM))
    + seq(|s.acts|, i => Block(s.actions + ACTION * i, ACTION))
    + (s.itemBlocks + s.actBlocks)
  }

  lemma {:induction false} CarvedApart(blocks: seq<Block>, top: int, data: int)
    requires Carved(blocks, top, data)
    ensures data <= top
    ensures forall i :: 0 <= i < |blocks| ==> data <= blocks[i].lo && blocks[i].lo + blocks[i].size <= top
    ensures forall i, j :: 0 <= i < j < |blocks| ==> blocks[j].lo + blocks[j].size <= blocks[i].lo
  {
    if blocks != [] {
      var n := |blocks| - 1;
      var above :| data + blocks[n].size <= above && Carved(blocks[..n], top, above);
      CarvedApart(blocks[..n], top, above);
      assert forall i :: 0 <= i < n ==> blocks[i] == blocks[..n][i];
    }
  }

  /** Everything laid out lies behind the header and inside the buffer, and no two pieces overlap. */
  lemma SafeIsDisjoint(s: State)
    requires Safe(s)
    ensures forall i :: 0 <= i < |Regions(s)| ==> Inside(s, Regions(s)[i])
    ensures forall i, j :: 0 <= i < j < |Regions(s)| ==> Apart(Regions(s)[i], Regions(s)[j])
  {
    hide Carved, Ceil, Floor, OwnItem, OwnAction;
    if s.started {
      if s.pattern != 0 {
        AlignedItems(s);
      }
      CarvedApart(s.itemBlocks + s.actBlocks, s.base + s.size, s.data);
    }
  }

  /** In every state any admissible run of tokens reaches, the layout is disjoint and inside the
      buffer and every pointer is into its owner's block. */
  lemma {:induction false} RunIsSafe(s: State, ts: seq<Token>)
    requires Safe(s) && InOrder(s, ts)
    ensures Safe(Run(s, ts)) && Owned(Run(s, ts))
    ensures forall i :: 0 <= i < |Regions(Run(s, ts))| ==> Inside(Run(s, ts), Regions(Run(s, ts))[i])
    ensures forall i, j :: 0 <= i < j < |Regions(Run(s, ts))| ==> Apart(Regions(Run(s, ts))[i], Regions(Run(s, ts))[j])
    decreases |ts|
  {
    hide *;
    if ts == [] {
      RunOfNothing(s);
    } else {
      RunOfMore(s, ts);
      StepKeepsSafe(s, ts[0]);
      RunIsSafe(Step(s, ts[0]).0, ts[1..]);
    }
    SafeIsOwned(Run(s, ts));
    SafeIsDisjoint(Run(s, ts));
  }

  /** So it is for every run from a zeroed buffer, of whatever size, anywhere in memory. */
  lemma EveryRunIsSafe(base: int, size: nat, header: nat, ts: seq<Token>)
    requires base > 0 && InOrder(Start(base, size, header), ts)
    ensures var s := Run(Start(base, size, header), ts);
      && Safe(s) && Owned(s)
      && (forall i :: 0 <= i < |Regions(s)| ==> Inside(s, Regions(s)[i]))
      && forall i, j :: 0 <= i < j < |Regions(s)| ==> Apart(Regions(s)[i], Regions(s)[j])
  {
    hide *;
    StartIsSafe(base, size, header);
    RunIsSafe(Start(base, size, header), ts);
  }

  lemma RunOfNothing(s: State)
    ensures Run(s, []) == s
  {
  }

  lemma RunOfMore(s: State, ts: seq<Token>)
    requires ts != [] && InOrder(s, ts)
    ensures Follows(s, ts[0]) && InOrder(Step(s, ts[0]).0, ts[1..])
    ensures Run(s, ts) == Run(Step(s, ts[0]).0, ts[1..])
  {
  }

  lemma SafeIsOwned(s: State)
    requires Safe(s)
    ensures Owned(s)
  {
  }

  // ---------------------------------------------------------------- what was asked for

  /** An accepted item or action of a run: its kind, the size of its structure, and, of an item, the
      parameters given for it. */
  datatype GivenItem = GivenItem(kind: nat, size: nat, params: set<Param>)

  datatype GivenAction = GivenAction(kind: nat, size: nat)

  datatype History = History(items: seq<GivenItem>, acts: seq<GivenAction>)

  /** What one token adds to the history, if it is accepted. */
  ghost function Noted(h: History, t: Token): History {
    match t
    case ItemToken(kind, size) => h.(items := h.items + [GivenItem(kind, size, {})])
    case ItemParam(p) =>
      if h.items == [] then h
      else
        var n := |h.items| - 1;
        h.(items := h.items[n := h.items[n].(params := h.items[n].params + {p})])
    case ActionToken(kind, size) => h.(acts := h.acts + [GivenAction(kind, size)])
    case _ => h
  }

  ghost function HistoryOf(s: State, h: History, ts: seq<Token>): History
    decreases |ts|
  {
    if ts == [] then h
    else HistoryOf(Step(s, ts[0]).0, if Step(s, ts[0]).1 then Noted(h, ts[0]) else h, ts[1..])
  }

  /** The item has the kind asked for and a block of three structures; its specification pointer is
      set exactly if `is` or `spec` was given, to the first of them, its last pointer exactly if
      `last` was, to the second, its mask pointer exactly if `is`, `mask` or `prefix` was, to the
      third. */
  ghost predicate ItemAsGiven(item: Item, b: Block, g: GivenItem) {
    && item.kind == g.kind && b.size == 3 * g.size && b.lo > 0
    && item.spec == (if Is in g.params || Spec in g.params then b.lo else 0)
    && item.last == (if Last in g.params then b.lo + g.size else 0)
    && item.mask == (if Is in g.params || Mask in g.params || Prefix in g.params then b.lo + 2 * g.size else 0)
  }

  ghost predicate ActionAsGiven(a: Action, b: Block, g: GivenAction) {
    a.kind == g.kind && b.size == g.size && b.lo > 0 && a.conf == (if g.size > 0 then b.lo else 0)
  }

  ghost predicate AsGiven(s: State, h: History) {
    && |s.items| == |s.itemBlocks| == |h.items| && |s.acts| == |s.actBlocks| == |h.acts|
    && (forall i :: 0 <= i < |h.items| ==> ItemAsGiven(s.items[i], s.itemBlocks[i], h.items[i]))
    && forall i :: 0 <= i < |h.acts| ==> ActionAsGiven(s.acts[i], s.actBlocks[i], h.acts[i])
  }

  /** An accepted parameter of the last item, whose block has three parts: where the next value
      goes, which pointers it sets, and that nothing else of the items changes. */
  lemma ParamSets(s: State, p: Param)
    requires Safe(s) && Follows(s, ItemParam(p)) && s.items != []
    ensures var n := |s.items| - 1; var b := s.itemBlocks[n]; var r := Step(s, ItemParam(p));
      var was, third := s.items[n], b.size / 3;
      && r.1 && |r.0.items| == |s.items| && r.0.items[..n] == s.items[..n]
      && r.0.itemBlocks == s.itemBlocks && r.0.acts == s.acts && r.0.data == s.data
      && (p.Spec? ==> r.0.items[n] == was.(spec := b.lo) && r.0.target == At(b.lo) && r.0.objmask == 0)
      && (p.Last? ==> r.0.items[n] == was.(last := b.lo + third) && r.0.target == At(b.lo + third) && r.0.objmask == 0)
      && (p.Mask? || p.Prefix? ==>
            r.0.items[n] == was.(mask := b.lo + 2 * third) && r.0.target == At(b.lo + 2 * third) && r.0.objmask == 0)
      && (p.Is? ==> r.0.items[n] == was.(spec := b.lo, mask := b.lo + 2 * third))
      && (p.Is? ==> r.0.target == At(b.lo) && r.0.objmask == b.lo + 2 * third)
  {
    hide Carved, Ceil;
    assert s.itemBlocks + s.actBlocks == s.itemBlocks;
    LastBlockIsAtData(s.itemBlocks, s.base + s.size, s.data);
  }

  /** Which of the other tokens are accepted, and where the next value goes: into the header, the
      attributes or the tunnel option, to the start of the slots, which lies at the first multiple
      of 8 behind the header, to the slot just taken, or into the last action's block. */
  lemma WhereNext(s: State, t: Token)
    requires Safe(s) && Follows(s, t)
    ensures var (r, ok) := Step(s, t);
      && (t.Command? ==> (ok <==> s.header <= s.size))
      && (t.Command? && ok ==> r.target == Header && r.data == s.base + s.size)
      && (t.Attribute? ==> ok && r.target == if t.tunnel then Tunnel else Attributes)
      && (t.Pattern? ==> ok && r.target == At(r.pattern) && r.pattern % 8 == 0)
      && (t.Pattern? ==> s.base + s.header <= r.pattern < s.base + s.header + 8)
      && (t.Actions? ==> ok && r.target == At(r.actions) && r.actions == s.pattern + 32 * |s.items|)
      && (t.ItemToken? ==> r.target == if ok then At(s.pattern + 32 * |s.items|) else Attributes)
      && (t.ActionToken? ==> r.target == if ok then At(s.actions + 16 * |s.acts|) else Attributes)
      && (t.ActionConf? ==> ok && r.target == At(s.actBlocks[|s.actBlocks| - 1].lo))
      && ((ok || t.ItemToken? || t.ActionToken?) && !t.ItemParam? ==> r.objmask == 0)
      && (t.ItemToken? ==> r.objdata == if ok then 3 * t.size else 0)
      && (t.ActionToken? ==> r.objdata == if ok then t.size else 0)
  {
    hide Carved, NewData;
    if t.Actions? {
      AlignedItems(s);
    }
    if t.ActionConf? {
      LastActionAtData(s);
    }
  }

  /** Without an item a parameter is refused and changes nothing. */
  lemma ParamWithoutItem(s: State, p: Param)
    requires s.items == []
    ensures Step(s, ItemParam(p)) == (s, false)
  {
  }

  lemma ParamAsGiven(s: State, h: History, p: Param)
    requires Safe(s) && Follows(s, ItemParam(p)) && AsGiven(s, h) && s.items != []
    ensures AsGiven(Step(s, ItemParam(p)).0, Noted(h, ItemParam(p)))
  {
    hide Safe, Step, Follows;
    ParamSets(s, p);
    ParamLeavesActions(s, p);
    var n := |s.items| - 1;
    var r := Step(s, ItemParam(p)).0;
    forall i | 0 <= i < n ensures r.items[i] == s.items[i] {
      assert r.items[..n][i] == s.items[..n][i];
    }
  }

  lemma ParamLeavesActions(s: State, p: Param)
    ensures Step(s, ItemParam(p)).0.acts == s.acts && Step(s, ItemParam(p)).0.actBlocks == s.actBlocks
  {
  }

  lemma ItemAdds(s: State, h: History, kind: nat, size: nat)
    requires Safe(s) && Follows(s, ItemToken(kind, size)) && AsGiven(s, h) && Step(s, ItemToken(kind, size)).1
    ensures AsGiven(Step(s, ItemToken(kind, size)).0, Noted(h, ItemToken(kind, size)))
  {
    hide Carved, Ceil, NewData;
    BlockFits(s, 3 * size);
  }

  lemma ActionAdds(s: State, h: History, kind: nat, size: nat)
    requires Safe(s) && Follows(s, ActionToken(kind, size)) && AsGiven(s, h) && Step(s, ActionToken(kind, size)).1
    ensures AsGiven(Step(s, ActionToken(kind, size)).0, Noted(h, ActionToken(kind, size)))
  {
    hide Carved, Ceil, NewData;
    BlockFits(s, size);
  }

  /** Every token keeps the descriptors as asked for. */
  lemma StepAsGiven(s: State, h: History, t: Token)
    requires Safe(s) && Follows(s, t) && AsGiven(s, h)
    ensures AsGiven(Step(s, t).0, if Step(s, t).1 then Noted(h, t) else h)
  {
    hide Safe, AsGiven, Follows, NewData, Ceil;
    match t
    case ItemToken(kind, size) =>
      if Step(s, t).1 {
        ItemAdds(s, h, kind, size);
      } else {
        SameDescriptors(s, Step(s, t).0, h);
      }
    case ActionToken(kind, size) =>
      if Step(s, t).1 {
        ActionAdds(s, h, kind, size);
      } else {
        SameDescriptors(s, Step(s, t).0, h);
      }
    case ItemParam(p) =>
      if s.items != [] {
        ParamAsGiven(s, h, p);
      }
    case _ => SameDescriptors(s, Step(s, t).0, h);
  }

  lemma SameDescriptors(s: State, s': State, h: History)
    requires AsGiven(s, h) && s'.items == s.items && s'.itemBlocks == s.itemBlocks
    requires s'.acts == s.acts && s'.actBlocks == s.actBlocks
    ensures AsGiven(s', h)
  {
  }

  lemma {:induction false} RunAsGivenFrom(s: State, h: History, ts: seq<Token>)
    requires Safe(s) && InOrder(s, ts) && AsGiven(s, h)
    ensures AsGiven(Run(s, ts), HistoryOf(s, h, ts))
    decreases |ts|
  {
    hide Safe, AsGiven, Follows, Step;
    if ts != [] {
      StepKeepsSafe(s, ts[0]);
      StepAsGiven(s, h, ts[0]);
      RunAsGivenFrom(Step(s, ts[0]).0, if Step(s, ts[0]).1 then Noted(h, ts[0]) else h, ts[1..]);
    }
  }

  /** In every state reached from a zeroed buffer the items and actions are those accepted, in order,
      and a pointer is set exactly if a parameter was given for it, to its own part of the block. */
  lemma EveryRunIsAsGiven(base: int, size: nat, header: nat, ts: seq<Token>)
    requires base > 0 && InOrder(Start(base, size, header), ts)
    ensures AsGiven(Run(Start(base, size, header), ts), HistoryOf(Start(base, size, header), History([], []), ts))
  {
    StartIsSafe(base, size, header);
    RunAsGivenFrom(Start(base, size, header), History([], []), ts);
  }

  /** An item is refused exactly when no aligned block of three times its size fits between the
      end of its slot and the data already stored. */
  lemma ItemRefusedExactly(s: State, kind: nat, size: nat)
    ensures StepItem(s, kind, size).1 <==>
      exists a :: a % ALIGN == 0 && s.pattern + ITEM * |s.items| + ITEM <= a && a + 3 * size <= s.data
  {
    var data := NewData(s, 3 * size);
    assert data % ALIGN == 0 && data + 3 * size <= s.data;
  }

  /** An action is refused exactly when no aligned block of its size fits behind its slot. */
  lemma ActionRefusedExactly(s: State, kind: nat, size: nat)
    ensures StepAction(s, kind, size).1 <==>
      exists a :: a % ALIGN == 0 && s.actions + ACTION * |s.acts| + ACTION <= a && a + size <= s.data
  {
    var data := NewData(s, size);
    assert data % ALIGN == 0 && data + size <= s.data;
  }

  // ---------------------------------------------------------------- octets in the buffer

  function Pointer(address: int): (o: seq<Byte>)
    ensures |o| == 8
  {
    LeBytes(if address < 0 then 0 else address, 8)
  }

  /** A pattern item in memory: its type, padding, three pointers. */
  function ItemOctets(item: Item): (o: seq<Byte>)
    ensures |o| == ITEM
  {
    LeBytes(item.kind, 4) + Zeros(4) + Pointer(item.spec) + Pointer(item.last) + Pointer(item.mask)
  }

  /** An action in memory: its type, padding, one pointer. */
  function ActionOctets(a: Action): (o: seq<Byte>)
    ensures |o| == ACTION
  {
    LeBytes(a.kind, 4) + Zeros(4) + Pointer(a.conf)
  }

  /** Where in a slot the type and the pointers stand, each as a little-endian number. */
  lemma DescriptorLayout(item: Item, a: Action)
    requires item.kind < 0x1_0000_0000 && a.kind < 0x1_0000_0000
    requires 0 <= item.spec < Pow256(8) && 0 <= item.last < Pow256(8) && 0 <= item.mask < Pow256(8)
    requires 0 <= a.conf < Pow256(8)
    ensures LeValue(ItemOctets(item)[0..4]) == item.kind && LeValue(ItemOctets(item)[8..16]) == item.spec
    ensures LeValue(ItemOctets(item)[16..24]) == item.last && LeValue(ItemOctets(item)[24..32]) == item.mask
    ensures LeValue(ActionOctets(a)[0..4]) == a.kind && LeValue(ActionOctets(a)[8..16]) == a.conf
  {
    hide LeBytes, LeValue, Pow256, Pointer;
    FourOctets();
    PointerIs(item.mask);
    PointerIs(item.spec);
    PointerIs(item.last);
    PointerIs(a.conf);
    LeValueOfLeBytes(item.kind, 4);
    LeValueOfLeBytes(item.spec, 8);
    LeValueOfLeBytes(item.last, 8);
    LeValueOfLeBytes(item.mask, 8);
    LeValueOfLeBytes(a.kind, 4);
    LeValueOfLeBytes(a.conf, 8);
    assert ItemOctets(item)[0..4] == LeBytes(item.kind, 4) && ItemOctets(item)[8..16] == Pointer(item.spec);
    assert ItemOctets(item)[16..24] == Pointer(item.last);
    var front := LeBytes(item.kind, 4) + Zeros(4) + Pointer(item.spec) + Pointer(item.last);
    assert ItemOctets(item) == front + Pointer(item.mask) && |front| == 24;
    assert (front + Pointer(item.mask))[24..32] == Pointer(item.mask);
    assert ActionOctets(a)[0..4] == LeBytes(a.kind, 4) && ActionOctets(a)[8..16] == Pointer(a.conf);
  }

  lemma PointerIs(address: nat)
    ensures Pointer(address) == LeBytes(address, 8)
  {
  }

  lemma FourOctets()
    ensures Pow256(4) == 0x1_0000_0000
  {
    assert Pow256(2) == 65536;
  }

  ghost predicate Shows(mem: seq<Byte>, at: int, octets: seq<Byte>) {
    0 <= at && at + |octets| <= |mem| && mem[at..at + |octets|] == octets
  }

  /** The slots of the buffer show the descriptors. */
  ghost predicate Stored(s: State, mem: seq<Byte>) {
    && (forall i :: 0 <= i < |s.items| ==> Shows(mem, s.pattern + ITEM * i - s.base, ItemOctets(s.items[i])))
    && (forall i :: 0 <= i < |s.acts| ==> Shows(mem, s.actions + ACTION * i - s.base, ActionOctets(s.acts[i])))
  }

  lemma ShowsBounds(mem: seq<Byte>, at: int, octets: seq<Byte>)
    requires Shows(mem, at, octets)
    ensures 0 <= at && at + |octets| <= |mem|
  {
  }

  lemma ShowsWritten(mem: seq<Byte>, at: nat, octets: seq<Byte>)
    requires at + |octets| <= |mem|
    ensures Shows(Overwritten(mem, octets, at), at, octets)
  {
  }

  lemma ShowsElsewhere(mem: seq<Byte>, at: int, octets: seq<Byte>, buf: seq<Byte>, offset: nat)
    requires Shows(mem, at, octets) && offset + |buf| <= |mem|
    requires at + |octets| <= offset || offset + |buf| <= at
    ensures Shows(Overwritten(mem, buf, offset), at, octets)
  {
    var mem' := Overwritten(mem, buf, offset);
    forall k | 0 <= k < |octets| ensures mem'[at + k] == octets[k] {
      assert mem[at..at + |octets|][k] == mem[at + k];
    }
    assert mem'[at..at + |octets|] == octets;
  }

  /** The octets an accepted item or action changes behind the header: those of its slot, and
      those of its block, which are cleared. */
  ghost predicate OnlyNewOctets(s: State, s': State, mem: seq<Byte>, mem': seq<Byte>) {
    && |mem'| == |mem|
    && forall i :: s.header <= i < |mem| ==>
      && (s'.data <= s.base + i < s'.data + s'.objdata ==> mem'[i] == 0)
      && (!(SlotsEnd(s) <= s.base + i < SlotsEnd(s')) && !(s'.data <= s.base + i < s'.data + s'.objdata) ==>
            mem'[i] == mem[i])
  }

  lemma StoredIgnores(s: State, s': State, mem: seq<Byte>)
    requires Stored(s, mem) && s'.base == s.base && s'.pattern == s.pattern && s'.actions == s.actions
    requires s'.items == s.items && s'.acts == s.acts
    ensures Stored(s', mem)
  {
  }

  lemma TokenKeepsStored(s: State, t: Token, mem: seq<Byte>)
    requires Safe(s) && Follows(s, t) && Stored(s, mem)
    requires t.Command? || t.Attribute? || t.Pattern? || t.Actions?
    ensures Stored(Step(s, t).0, mem)
  {
    hide ItemOctets, ActionOctets, Shows, Carved, Owned, Ceil;
    if t.Actions? {
      AlignedItems(s);
    }
  }

  /** Writing into the free room between the slots and the data disturbs no descriptor. */
  lemma StoredElsewhere(s: State, mem: seq<Byte>, buf: seq<Byte>, offset: nat)
    requires Safe(s) && Stored(s, mem) && s.pattern != 0
    requires SlotsEnd(s) - s.base <= offset && offset + |buf| <= |mem|
    ensures Stored(s, Overwritten(mem, buf, offset))
  {
    hide ItemOctets, ActionOctets, Shows, Overwritten, Carved, Owned;
    forall i | 0 <= i < |s.items|
      ensures Shows(Overwritten(mem, buf, offset), s.pattern + ITEM * i - s.base, ItemOctets(s.items[i]))
    {
      ShowsElsewhere(mem, s.pattern + ITEM * i - s.base, ItemOctets(s.items[i]), buf, offset);
    }
    forall i | 0 <= i < |s.acts|
      ensures Shows(Overwritten(mem, buf, offset), s.actions + ACTION * i - s.base, ActionOctets(s.acts[i]))
    {
      ShowsElsewhere(mem, s.actions + ACTION * i - s.base, ActionOctets(s.acts[i]), buf, offset);
    }
  }

  /** Writing a slot and clearing a block behind it. */
  lemma TwoWrites(s: State, s': State, mem: seq<Byte>, octets: seq<Byte>, at: nat, blockSize: nat, lo: nat)
    requires at + |octets| <= lo && lo + blockSize <= |mem|
    requires SlotsEnd(s) == s.base + at && SlotsEnd(s') == s.base + at + |octets|
    requires s'.data == s.base + lo && s'.objdata == blockSize
    ensures OnlyNewOctets(s, s', mem, Overwritten(Overwritten(mem, octets, at), Zeros(blockSize), lo))
  {
    hide SlotsEnd;
  }

  /** The buffer after an item has been stored: its slot is written, its block cleared. */
  lemma ItemKeepsStored(s: State, mem: seq<Byte>, kind: nat, size: nat)
    requires Safe(s) && s.pattern != 0 && s.actions == 0 && Stored(s, mem) && |mem| == s.size
    requires StepItem(s, kind, size).1
    ensures 0 <= s.pattern + ITEM * |s.items| - s.base
    ensures s.pattern + ITEM * |s.items| + ITEM <= NewData(s, 3 * size)
      && NewData(s, 3 * size) - s.base + 3 * size <= |mem|
    ensures var at, lo := s.pattern + ITEM * |s.items| - s.base, NewData(s, 3 * size) - s.base;
      var mem' := Overwritten(Overwritten(mem, ItemOctets(Item(kind, 0, 0, 0)), at), Zeros(3 * size), lo);
      Stored(StepItem(s, kind, size).0, mem') && OnlyNewOctets(s, StepItem(s, kind, size).0, mem, mem')
  {
    hide ItemOctets, ActionOctets, Shows, Overwritten, Carved, Owned, NewData, Ceil, OnlyNewOctets;
    BlockFits(s, 3 * size);
    var at, lo := s.pattern + ITEM * |s.items| - s.base, NewData(s, 3 * size) - s.base;
    var octets := ItemOctets(Item(kind, 0, 0, 0));
    StoredElsewhere(s, mem, octets, at);
    ShowsWritten(mem, at, octets);
    var mem1 := Overwritten(mem, octets, at);
    StoredElsewhere(s, mem1, Zeros(3 * size), lo);
    ShowsElsewhere(mem1, at, octets, Zeros(3 * size), lo);
    TwoWrites(s, StepItem(s, kind, size).0, mem, octets, at, 3 * size, lo);
  }

  lemma ActionKeepsStored(s: State, mem: seq<Byte>, kind: nat, size: nat)
    requires Safe(s) && s.pattern != 0 && s.actions != 0 && Stored(s, mem) && |mem| == s.size
    requires StepAction(s, kind, size).1
    ensures 0 <= s.actions + ACTION * |s.acts| - s.base
    ensures s.actions + ACTION * |s.acts| + ACTION <= NewData(s, size) && NewData(s, size) - s.base + size <= |mem|
    ensures var at, lo := s.actions + ACTION * |s.acts| - s.base, NewData(s, size) - s.base;
      var octets := ActionOctets(Action(kind, if size == 0 then 0 else NewData(s, size)));
      var mem' := Overwritten(Overwritten(mem, octets, at), Zeros(size), lo);
      Stored(StepAction(s, kind, size).0, mem') && OnlyNewOctets(s, StepAction(s, kind, size).0, mem, mem')
  {
    hide ItemOctets, ActionOctets, Shows, Overwritten, Carved, Owned, NewData, Ceil, OnlyNewOctets;
    BlockFits(s, size);
    var at, lo := s.actions + ACTION * |s.acts| - s.base, NewData(s, size) - s.base;
    var octets := ActionOctets(Action(kind, if size == 0 then 0 else NewData(s, size)));
    StoredElsewhere(s, mem, octets, at);
    ShowsWritten(mem, at, octets);
    var mem1 := Overwritten(mem, octets, at);
    StoredElsewhere(s, mem1, Zeros(size), lo);
    ShowsElsewhere(mem1, at, octets, Zeros(size), lo);
    TwoWrites(s, StepAction(s, kind, size).0, mem, octets, at, size, lo);
  }

  /** A pointer of the item stored last, set in its slot. */
  function WithPointer(item: Item, index: nat, address: int): Item {
    if index == 0 then item.(spec := address) else if index == 1 then item.(last := address) else item.(mask := address)
  }

  lemma PointerWritten(item: Item, index: nat, address: int)
    requires index < 3
    ensures Overwritten(ItemOctets(item), Pointer(address), 8 + 8 * index) ==
      ItemOctets(WithPointer(item, index, address))
  {
    hide Pointer;
  }

  lemma ShowsPart(mem: seq<Byte>, at: nat, octets: seq<Byte>, buf: seq<Byte>, offset: nat)
    requires Shows(mem, at, octets) && offset + |buf| <= |octets|
    ensures at + offset + |buf| <= |mem|
    ensures Shows(Overwritten(mem, buf, at + offset), at, Overwritten(octets, buf, offset))
  {
    var mem' := Overwritten(mem, buf, at + offset);
    var octets' := Overwritten(octets, buf, offset);
    forall k | 0 <= k < |octets| ensures mem'[at + k] == octets'[k] {
      assert mem[at..at + |octets|][k] == mem[at + k];
    }
    assert mem'[at..at + |octets|] == octets';
  }

  /** Setting a pointer in the last slot keeps all slots showing their descriptors. */
  lemma PointerKeepsStored(s: State, mem: seq<Byte>, index: nat, address: int)
    requires s.items != [] && s.acts == [] && Stored(s, mem) && index < 3
    ensures var n := |s.items| - 1; var at := s.pattern + ITEM * n - s.base;
      && 0 <= at && at + ITEM <= |mem|
      && Stored(s.(items := s.items[n := WithPointer(s.items[n], index, address)]),
                Overwritten(mem, Pointer(address), at + 8 + 8 * index))
  {
    hide ItemOctets, Overwritten, Pointer, WithPointer, Shows;
    var n := |s.items| - 1;
    var at := s.pattern + ITEM * n - s.base;
    ShowsBounds(mem, at, ItemOctets(s.items[n]));
    ShowsPart(mem, at, ItemOctets(s.items[n]), Pointer(address), 8 + 8 * index);
    PointerWritten(s.items[n], index, address);
    forall i | 0 <= i < n
      ensures Shows(Overwritten(mem, Pointer(address), at + 8 + 8 * index),
                    s.pattern + ITEM * i - s.base, ItemOctets(s.items[i]))
    {
      ShowsElsewhere(mem, s.pattern + ITEM * i - s.base, ItemOctets(s.items[i]), Pointer(address), at + 8 + 8 * index);
    }
  }

  // ---------------------------------------------------------------- the parser's state in place

  class Context {
    const mem: array<Byte>
    const base: int
    const header: nat
    var started: bool
    var pattern: int
    var actions: int
    var items: seq<Item>
    var acts: seq<Action>
    ghost var itemBlocks: seq<Block>
    ghost var actBlocks: seq<Block>
    var data: int
    var target: Object
    var objmask: int
    var objdata: nat

    ghost function View(): State
      reads this
    {
      State(base, mem.Length, header, started, pattern, actions, items, acts, itemBlocks, actBlocks,
            data, target, objmask, objdata)
    }

    constructor (mem: array<Byte>, base: int, header: nat)
      requires base > 0
      ensures this.mem == mem && View() == Start(base, mem.Length, header) && Safe(View())
      ensures Stored(View(), mem[..])
    {
      this.mem, this.base, this.header := mem, base, header;
      started, pattern, actions, items, acts, itemBlocks, actBlocks := false, 0, 0, [], [], [], [];
      data, target, objmask, objdata := 0, Header, 0, 0;
    }

    /** Writing octets at an address; all others stay. */
    method Put(address: int, octets: seq<Byte>)
      requires base <= address && address + |octets| <= base + mem.Length
      modifies mem
      ensures mem[..] == Overwritten(old(mem[..]), octets, address - base)
    {
      forall i | 0 <= i < |octets| {
        mem[address - base + i] := octets[i];
      }
    }

    /** `parse_vc` on every token but the parameters. Octets behind the header change only for an
        accepted item or action. */
    method ParseVc(t: Token) returns (ok: bool)
      requires Safe(View()) && Stored(View(), mem[..]) && Follows(View(), t) && !t.ItemParam? && !t.ActionConf?
      modifies this, mem
      ensures (View(), ok) == Step(old(View()), t)
      ensures Safe(View()) && Stored(View(), mem[..])
      ensures if ok && (t.ItemToken? || t.ActionToken?)
        then OnlyNewOctets(old(View()), View(), old(mem[..]), mem[..]) else mem[..] == old(mem[..])
    {
      hide Carved, Ceil, Floor, Owned, Slots, Stored, OnlyNewOctets;
      StepKeepsSafe(View(), t);
      if !t.ItemToken? && !t.ActionToken? {
        TokenKeepsStored(View(), t, mem[..]);
      }
      if t.Command? {
        if header > mem.Length {
          return false;
        }
        started := true;
        objdata, target, objmask := 0, Header, 0;
        data := base + mem.Length;
        return true;
      }
      if t.ItemToken? {
        ok := StoreItem(t.kind, t.size);
        return;
      }
      if t.ActionToken? {
        ok := StoreAction(t.kind, t.size);
        return;
      }
      objdata, objmask := 0, 0;
      if t.Attribute? {
        target := if t.tunnel then Tunnel else Attributes;
      } else if t.Pattern? {
        pattern := Ceil(base + header);
        target := At(pattern);
      } else {
        actions := Ceil(pattern + ITEM * |items|);
        target := At(actions);
      }
      ok := true;
    }

    /** Storing an item descriptor and carving its block of three equal parts. */
    method StoreItem(kind: nat, size: nat) returns (ok: bool)
      requires Safe(View()) && Stored(View(), mem[..]) && Follows(View(), ItemToken(kind, size))
      modifies this, mem
      ensures (View(), ok) == StepItem(old(View()), kind, size)
      ensures Stored(View(), mem[..])
      ensures if ok then OnlyNewOctets(old(View()), View(), old(mem[..]), mem[..]) else mem[..] == old(mem[..])
    {
      hide Safe, Ceil, Floor, Stored, ItemOctets, OnlyNewOctets, Overwritten;
      BlockFits(View(), 3 * size);
      objdata, target, objmask := 0, Attributes, 0;
      var item := pattern + ITEM * |items|;
      var dataSize := size * 3;
      var d := Floor(data - dataSize);
      StoredIgnores(old(View()), View(), mem[..]);
      if item + ITEM > d {
        return false;
      }
      ItemKeepsStored(old(View()), old(mem[..]), kind, size);
      items, itemBlocks := items + [Item(kind, 0, 0, 0)], itemBlocks + [Block(d, dataSize)];
      Put(item, ItemOctets(Item(kind, 0, 0, 0)));
      target := At(item);
      Put(d, Zeros(dataSize));
      data, objdata := d, dataSize;
      ok := true;
    }

    method StoreAction(kind: nat, size: nat) returns (ok: bool)
      requires Safe(View()) && Stored(View(), mem[..]) && Follows(View(), ActionToken(kind, size))
      modifies this, mem
      ensures (View(), ok) == StepAction(old(View()), kind, size)
      ensures Stored(View(), mem[..])
      ensures if ok then OnlyNewOctets(old(View()), View(), old(mem[..]), mem[..]) else mem[..] == old(mem[..])
    {
      hide Safe, Ceil, Floor, Stored, ActionOctets, OnlyNewOctets, Overwritten;
      PatternFirst(View());
      BlockFits(View(), size);
      objdata, target, objmask := 0, Attributes, 0;
      var action := actions + ACTION * |acts|;
      var d := Floor(data - size);
      StoredIgnores(old(View()), View(), mem[..]);
      if action + ACTION > d {
        return false;
      }
      ActionKeepsStored(old(View()), old(mem[..]), kind, size);
      var stored := Action(kind, if size == 0 then 0 else d);
      acts, actBlocks := acts + [stored], actBlocks + [Block(d, size)];
      Put(action, ActionOctets(stored));
      target := At(action);
      Put(d, Zeros(size));
      data, objdata := d, size;
      ok := true;
    }

    /** `parse_vc_spec`: select the part of the last item's block that a parameter fills, and set
        the pointers to it in the item's slot. */
    method ParseSpec(p: Param) returns (ok: bool)
      requires Safe(View()) && Stored(View(), mem[..]) && Follows(View(), ItemParam(p))
      modifies this, mem
      ensures (View(), ok) == Step(old(View()), ItemParam(p))
      ensures Safe(View()) && Stored(View(), mem[..])
      ensures forall i :: 0 <= i < mem.Length && !(SlotsEnd(View()) - ITEM <= base + i < SlotsEnd(View())) ==>
        mem[i] == old(mem[i])
    {
      hide Carved, Ceil, Floor, Owned, Stored, Slots;
      StepKeepsSafe(View(), ItemParam(p));
      var index := 0;
      match p {
        case Is => index := 0;
        case Spec => index := 0;
        case Last => index := 1;
        case _ => index := 2;
      }
      if |items| == 0 {
        return false;
      }
      var dataSize := objdata / 3;
      var address := data + dataSize * index;
      NoActionsYet(old(View()));
      target := At(address);
      objmask := if p.Is? then data + dataSize * 2 else 0;
      StoredIgnores(old(View()), View(), mem[..]);
      if p.Is? {
        SetPointer(2, objmask);
      }
      SetPointer(index, address);
      ghost var n := |items| - 1;
      assert items[n] == StepParam(old(View()), p).0.items[n];
      assert items == old(items)[n := items[n]];
      ok := true;
    }

    /** One pointer of the item stored last. */
    method SetPointer(index: nat, address: int)
      requires items != [] && acts == [] && Stored(View(), mem[..]) && index < 3
      modifies this`items, mem
      ensures items == old(items)[|old(items)| - 1 := WithPointer(old(items)[|old(items)| - 1], index, address)]
      ensures Stored(View(), mem[..])
      ensures forall i :: 0 <= i < mem.Length && !(SlotsEnd(View()) - ITEM <= base + i < SlotsEnd(View())) ==>
        mem[i] == old(mem[i])
    {
      hide Stored, Pointer, WithPointer;
      var n := |items| - 1;
      PointerKeepsStored(View(), mem[..], index, address);
      items := items[n := WithPointer(items[n], index, address)];
      Put(pattern + ITEM * n + 8 + 8 * index, Pointer(address));
    }

    /** `parse_vc_conf`: select the last action's block. */
    method ParseConf() returns (ok: bool)
      requires Safe(View()) && Stored(View(), mem[..]) && Follows(View(), ActionConf)
      modifies this
      ensures (View(), ok) == Step(old(View()), ActionConf)
      ensures Safe(View())
      ensures target == At(actBlocks[|actBlocks| - 1].lo)
    {
      hide Carved, Ceil, Floor, Owned, Slots;
      StepKeepsSafe(View(), ActionConf);
      LastActionAtData(View());
      target, objmask := At(data), 0;
      ok := true;
    }
  }

  lemma PatternFirst(s: State)
    requires Safe(s) && s.actions != 0
    ensures s.pattern != 0
  {
  }

  lemma NoActionsYet(s: State)
    requires Safe(s) && s.actions == 0
    ensures s.acts == []
  {
  }

  lemma LastActionAtData(s: State)
    requires Safe(s) && s.actBlocks != []
    ensures s.started ==> s.actBlocks[|s.actBlocks| - 1].lo == s.data
    ensures s.started
  {
    LastBlockIsAtData(s.itemBlocks + s.actBlocks, s.base + s.size, s.data);
  }

  lemma BlockFits(s: State, size: nat)
    requires Safe(s) && s.pattern != 0
    ensures s.started && s.base <= s.pattern + ITEM * |s.items|
    ensures s.actions != 0 ==> s.base <= s.actions + ACTION * |s.acts|
    ensures NewData(s, size) + size <= s.data <= s.base + s.size
  {
    CarvedApart(s.itemBlocks + s.actBlocks, s.base + s.size, s.data);
  }
}
