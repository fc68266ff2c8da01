/** The quota file system around an in-memory file system (internal/git/fs.go). */
module QuotaFs {
  import opened Common
  import opened GoInt

  /** A regular file; once unlinked it has no name and only open handles reach it. */
  datatype Node = Node(name: Option<string>, size: nat)

  /** An open file: the node behind it and the name it was opened under. */
  datatype Handle = Handle(node: nat, name: string, offset: nat)

  datatype Limits = Limits(maxFiles: int, total: int)

  datatype Fs = Fs(nodes: seq<Node>, handles: seq<Handle>, currentFiles: int, currentSize: int)

  /** `works` is the underlying file system's own answer. */
  datatype Op =
    | Create(name: string, works: bool)
    | OpenFile(name: string, create: bool, truncate: bool, append: bool, works: bool)
    | TempFile(name: string, works: bool)
    | MkdirAll(works: bool)
    | Symlink(works: bool)
    | Write(h: nat, len: nat, works: bool)
    | Truncate(h: nat, size: int, works: bool)
    | Seek(h: nat, pos: nat)
    | Remove(name: string)
    | Rename(oldName: string, newName: string)

  datatype Result = Done | TooManyFiles | TooBig | NotFound | Refused

  function Max(a: int, b: int): int { if a < b then b else a }

  // ---------------------------------------------------------------- the underlying file system

  function FindFrom(nodes: seq<Node>, name: string, from: nat): (r: Option<nat>)
    requires from <= |nodes|
    ensures r.Some? ==> from <= r.value < |nodes| && nodes[r.value].name == Some(name)
    ensures r.None? ==> forall i :: from <= i < |nodes| ==> nodes[i].name != Some(name)
    decreases |nodes| - from
  {
    if from == |nodes| then None
    else if nodes[from].name == Some(name) then Some(from)
    else FindFrom(nodes, name, from + 1)
  }

  function Find(nodes: seq<Node>, name: string): (r: Option<nat>)
    ensures r.Some? ==> r.value < |nodes| && nodes[r.value].name == Some(name)
    ensures r.None? ==> forall i :: 0 <= i < |nodes| ==> nodes[i].name != Some(name)
  {
    FindFrom(nodes, name, 0)
  }

  /** Open a file that exists, or make an empty one. */
  function Opened(st: Fs, name: string, truncate: bool, append: bool): Fs {
    var at := Find(st.nodes, name);
    if at.None? then
      st.(nodes := st.nodes + [Node(Some(name), 0)], handles := st.handles + [Handle(|st.nodes|, name, 0)])
    else
      var nodes := if truncate then st.nodes[at.value := Node(Some(name), 0)] else st.nodes;
      st.(nodes := nodes,
          handles := st.handles + [Handle(at.value, name, if append then nodes[at.value].size else 0)])
  }

  function Unlinked(nodes: seq<Node>, name: string): (r: seq<Node>)
    ensures |r| == |nodes|
  {
    var at := Find(nodes, name);
    if at.None? then nodes else nodes[at.value := nodes[at.value].(name := None)]
  }

  function Renamed(nodes: seq<Node>, oldName: string, newName: string): seq<Node>
    requires Find(nodes, oldName).Some?
  {
    var at := Find(nodes, oldName).value;
    if oldName == newName then nodes
    else var rest := Unlinked(nodes, newName); rest[at := rest[at].(name := Some(newName))]
  }

  // ---------------------------------------------------------------- the wrapper

  predicate Creates(op: Op) {
    op.Create? || op.TempFile? || op.MkdirAll? || op.Symlink? || (op.OpenFile? && op.create)
  }

  /** What a write charges: the distance its end lies past the size of the file its name denotes. */
  function WriteGrowth(size: nat, offset: nat, len: nat): int {
    Max(0, Int64(Int64(offset + len) - size))
  }

  /** The file system after one call, and the call's answer. */
  function Next(lim: Limits, st: Fs, op: Op): (Fs, Result) {
    var st1 := if Creates(op) then st.(currentFiles := st.currentFiles + 1) else st;
    if Creates(op) && st1.currentFiles >= lim.maxFiles then (st1, TooManyFiles)
    else
      match op
      case Create(name, works) => if works then (Opened(st1, name, true, false), Done) else (st1, Refused)
      case OpenFile(name, create, trunc, append, works) =>
        if !works then (st1, Refused)
        else if !create && Find(st1.nodes, name).None? then (st1, NotFound)
        else (Opened(st1, name, trunc, append), Done)
      case TempFile(name, works) =>
        if works && Find(st1.nodes, name).None? then (Opened(st1, name, true, false), Done) else (st1, Refused)
      case MkdirAll(works) => (st1, if works then Done else Refused)
      case Symlink(works) => (st1, if works then Done else Refused)
      case Write(h, len, works) =>
        if h >= |st.handles| || Find(st.nodes, st.handles[h].name).None? then (st, NotFound)
        else Written(lim, st, h, len, works)
      case Truncate(h, size, works) =>
        if h >= |st.handles| || Find(st.nodes, st.handles[h].name).None? then (st, NotFound)
        else Truncated(lim, st, h, size, works)
      case Seek(h, pos) =>
        if h >= |st.handles| then (st, NotFound)
        else (st.(handles := st.handles[h := st.handles[h].(offset := pos)]), Done)
      case Remove(name) =>
        if Find(st.nodes, name).None? then (st, NotFound) else (st.(nodes := Unlinked(st.nodes, name)), Done)
      case Rename(o, n) =>
        if Find(st.nodes, o).None? then (st, NotFound) else (st.(nodes := Renamed(st.nodes, o, n)), Done)
  }

  /** The size the wrapper believes the handle's file has. */
  function StatSize(st: Fs, h: nat): nat
    requires h < |st.handles| && Find(st.nodes, st.handles[h].name).Some?
  {
    st.nodes[Find(st.nodes, st.handles[h].name).value].size
  }

  function Written(lim: Limits, st: Fs, h: nat, len: nat, works: bool): (Fs, Result)
    requires h < |st.handles| && Find(st.nodes, st.handles[h].name).Some?
  {
    var f := st.handles[h];
    var growth := WriteGrowth(StatSize(st, h), f.offset, len);
    if Int64(growth + st.currentSize) > lim.total then (st, TooBig)
    else
      var charged := st.(currentSize := Int64(st.currentSize + growth));
      if !works || f.node >= |st.nodes| then (charged, Refused)
      else
        var n := st.nodes[f.node];
        (charged.(nodes := st.nodes[f.node := n.(size := if n.size < f.offset + len then f.offset + len else n.size)],
                  handles := st.handles[h := f.(offset := f.offset + len)]), Done)
  }

  function Truncated(lim: Limits, st: Fs, h: nat, size: int, works: bool): (Fs, Result)
    requires h < |st.handles| && Find(st.nodes, st.handles[h].name).Some?
  {
    var f := st.handles[h];
    var growth := Int64(size - StatSize(st, h));
    if Int64(growth + st.currentSize) > lim.total then (st, TooBig)
    else
      var charged := st.(currentSize := Int64(st.currentSize + growth));
      if !works || size < 0 || f.node >= |st.nodes| then (charged, Refused)
      else (charged.(nodes := st.nodes[f.node := st.nodes[f.node].(size := size)]), Done)
  }

  function Run(lim: Limits, st: Fs, ops: seq<Op>): Fs
    decreases |ops|
  {
    if ops == [] then st else Run(lim, Next(lim, st, ops[0]).0, ops[1..])
  }

  const EMPTY := Fs([], [], 0, 0)

  // ---------------------------------------------------------------- what the quota is about

  function SizeOf(n: Node): nat { if n.name.Some? then n.size else 0 }

  /** Total size of the files that have a name. */
  function Live(nodes: seq<Node>): nat {
    if nodes == [] then 0 else Live(nodes[..|nodes| - 1]) + SizeOf(nodes[|nodes| - 1])
  }

  function Count(nodes: seq<Node>): nat {
    if nodes == [] then 0
    else Count(nodes[..|nodes| - 1]) + (if nodes[|nodes| - 1].name.Some? then 1 else 0)
  }

  /** Unspent quota that was charged but is not occupied. */
  function Slack(st: Fs): int { st.currentSize - Live(st.nodes) }

  lemma {:induction false} LiveUpdate(nodes: seq<Node>, i: nat, n: Node)
    requires i < |nodes|
    ensures Live(nodes[i := n]) == Live(nodes) - SizeOf(nodes[i]) + SizeOf(n)
    ensures Count(nodes[i := n]) == Count(nodes) - (if nodes[i].name.Some? then 1 else 0)
                                    + (if n.name.Some? then 1 else 0)
    ensures SizeOf(nodes[i]) <= Live(nodes)
  {
    var last := |nodes| - 1;
    if i < last {
      LiveUpdate(nodes[..last], i, n);
      assert nodes[i := n][..last] == nodes[..last][i := n];
    } else {
      assert nodes[i := n][..last] == nodes[..last];
    }
  }

  lemma {:induction false} LiveAppend(nodes: seq<Node>, n: Node)
    ensures Live(nodes + [n]) == Live(nodes) + SizeOf(n)
    ensures Count(nodes + [n]) == Count(nodes) + (if n.name.Some? then 1 else 0)
  {
    assert (nodes + [n])[..|nodes|] == nodes;
  }

  lemma LiveOpened(st: Fs, name: string, truncate: bool, append: bool)
    ensures var st' := Opened(st, name, truncate, append);
            && Live(st'.nodes) <= Live(st.nodes)
            && Count(st'.nodes) == Count(st.nodes) + (if Find(st.nodes, name).None? then 1 else 0)
            && (Handles(st) ==> Handles(st'))
  {
    var at := Find(st.nodes, name);
    if at.None? {
      LiveAppend(st.nodes, Node(Some(name), 0));
    } else if truncate {
      LiveUpdate(st.nodes, at.value, Node(Some(name), 0));
    }
  }

  lemma {:induction false} LiveUnlinked(nodes: seq<Node>, name: string)
    ensures Live(Unlinked(nodes, name)) <= Live(nodes) && Count(Unlinked(nodes, name)) <= Count(nodes)
  {
    var at := Find(nodes, name);
    if at.Some? {
      LiveUpdate(nodes, at.value, nodes[at.value].(name := None));
    }
  }

  lemma {:induction false} LiveRenamed(nodes: seq<Node>, o: string, n: string)
    requires Find(nodes, o).Some?
    ensures Live(Renamed(nodes, o, n)) <= Live(nodes) && Count(Renamed(nodes, o, n)) <= Count(nodes)
  {
    if o != n {
      var at := Find(nodes, o).value;
      LiveUnlinked(nodes, n);
      var rest := Unlinked(nodes, n);
      assert rest[at] == nodes[at];
      LiveUpdate(rest, at, rest[at].(name := Some(n)));
    }
  }

  // ---------------------------------------------------------------- exact accounting of one call

  /** Every handle has a node behind it. */
  predicate Handles(st: Fs) {
    forall h :: 0 <= h < |st.handles| ==> st.handles[h].node < |st.nodes|
  }

  /** The size that the handle's own file contributes to the total. */
  function OwnSize(st: Fs, h: nat): nat
    requires h < |st.handles| && st.handles[h].node < |st.nodes|
  {
    SizeOf(st.nodes[st.handles[h].node])
  }

  predicate OwnLive(st: Fs, h: nat)
    requires h < |st.handles| && st.handles[h].node < |st.nodes|
  {
    st.nodes[st.handles[h].node].name.Some?
  }

  /**
   A truncate keeps the total covered exactly when the file named by the handle is no larger than the handle's own
   file plus the slack. (An unlinked own file occupies nothing before and after.)
   */
  lemma TruncateCoveredIff(lim: Limits, st: Fs, h: nat, size: nat)
    requires h < |st.handles| && Handles(st) && Find(st.nodes, st.handles[h].name).Some?
    requires InRange(size - StatSize(st, h)) && InRange(size - StatSize(st, h) + st.currentSize)
    requires Truncated(lim, st, h, size, true).1 == Done
    ensures Slack(Truncated(lim, st, h, size, true).0) >= 0 <==>
            StatSize(st, h) <= Slack(st) + (if OwnLive(st, h) then OwnSize(st, h) else size)
  {
    var f := st.handles[h];
    LiveUpdate(st.nodes, f.node, st.nodes[f.node].(size := size));
  }

  /** The same for a write: the end of the write must not outgrow the own file by more than the named one plus slack. */
  lemma WriteCoveredIff(lim: Limits, st: Fs, h: nat, len: nat)
    requires h < |st.handles| && Handles(st) && Find(st.nodes, st.handles[h].name).Some?
    requires InRange(st.handles[h].offset + len)
    requires InRange(WriteGrowth(StatSize(st, h), st.handles[h].offset, len) + st.currentSize)
    requires InRange(StatSize(st, h))
    requires Written(lim, st, h, len, true).1 == Done
    ensures var end := st.handles[h].offset + len;
            Slack(Written(lim, st, h, len, true).0) >= 0 <==>
            (if OwnLive(st, h) then Max(0, end - OwnSize(st, h)) else 0) <=
            Slack(st) + Max(0, end - StatSize(st, h))
  {
    var f := st.handles[h];
    var n := st.nodes[f.node];
    LiveUpdate(st.nodes, f.node, n.(size := if n.size < f.offset + len then f.offset + len else n.size));
  }

  /**
   A truncate is refused exactly when the sum exceeds the quota and still fits in an int64: a request so large that
   the sum wraps around passes the check.
   */
  lemma TruncateRefusedIff(lim: Limits, st: Fs, h: nat, size: nat, works: bool)
    requires h < |st.handles| && Find(st.nodes, st.handles[h].name).Some?
    requires 0 <= st.currentSize <= lim.total < TWO_63 && size < TWO_63 && StatSize(st, h) < TWO_63
    ensures Truncated(lim, st, h, size, works).1 == TooBig <==>
            lim.total < size - StatSize(st, h) + st.currentSize < TWO_63
  {
    var sum := size - StatSize(st, h) + st.currentSize;
    if sum >= TWO_63 {
      assert sum + TWO_63 - TWO_64 == (sum + TWO_63) % TWO_64;
    }
  }

  /** The call is a write or a truncate whose numbers are int64 numbers, within the quota so far. */
  predicate Sized(lim: Limits, st: Fs, h: nat) {
    && h < |st.handles| && Find(st.nodes, st.handles[h].name).Some?
    && 0 <= st.currentSize <= lim.total < TWO_63 && StatSize(st, h) < TWO_63
  }

  /**
   A write is refused exactly when its growth, the distance from the named file's size to the end of the write, takes
   the charge above the quota: overwriting in place never is. A sum past the int64 range passes here, too.
   */
  lemma WriteRefusedIff(lim: Limits, st: Fs, h: nat, len: nat, works: bool)
    requires Sized(lim, st, h) && st.handles[h].offset + len < TWO_63
    ensures var growth := Max(0, st.handles[h].offset + len - StatSize(st, h));
            Next(lim, st, Write(h, len, works)).1 == TooBig <==> lim.total < growth + st.currentSize < TWO_63
  {
    var sum := Max(0, st.handles[h].offset + len - StatSize(st, h)) + st.currentSize;
    if sum >= TWO_63 {
      assert sum + TWO_63 - TWO_64 == (sum + TWO_63) % TWO_64;
    }
  }

  /** After a write that works: growth charged, own file reaching the end of the write, handle standing there. */
  function AfterWrite(st: Fs, h: nat, len: nat): Fs
    requires h < |st.handles| && Find(st.nodes, st.handles[h].name).Some? && st.handles[h].node < |st.nodes|
  {
    var f := st.handles[h];
    var end := f.offset + len;
    Fs(st.nodes[f.node := Node(st.nodes[f.node].name, Max(end, st.nodes[f.node].size))],
       st.handles[h := Handle(f.node, f.name, end)],
       st.currentFiles,
       st.currentSize + Max(0, end - StatSize(st, h)))
  }

  /** The write's growth fits into the quota, and its numbers are int64 numbers. */
  predicate Fits(lim: Limits, st: Fs, h: nat, len: nat) {
    && Sized(lim, st, h) && Handles(st) && st.handles[h].offset + len < TWO_63
    && Max(0, st.handles[h].offset + len - StatSize(st, h)) + st.currentSize <= lim.total
  }

  /** A write that fits does exactly that; if the underlying write fails, the growth is charged all the same. */
  lemma WriteEffect(lim: Limits, st: Fs, h: nat, len: nat, works: bool)
    requires Fits(lim, st, h, len)
    ensures var after := AfterWrite(st, h, len);
            Next(lim, st, Write(h, len, works)) ==
            if works then (after, Done) else (st.(currentSize := after.currentSize), Refused)
  {
    GrowthExact(StatSize(st, h), st.handles[h].offset, len);
  }

  lemma AfterTwoWrites(st: Fs, h: nat, a: nat, b: nat)
    requires Handles(st) && h < |st.handles| && Find(st.nodes, st.handles[h].name) == Some(st.handles[h].node)
    ensures var st1 := AfterWrite(st, h, a);
            && Handles(st1) && h < |st1.handles| && Find(st1.nodes, st1.handles[h].name) == Some(st1.handles[h].node)
            && AfterWrite(st1, h, b) == AfterWrite(st, h, a + b)
  {
    var st1, own := AfterWrite(st, h, a), st.handles[h].node;
    FindResized(st.nodes, st.handles[h].name, st1.nodes);
    OverwrittenTwice(st.nodes, own, st1.nodes[own], AfterWrite(st1, h, b).nodes[own]);
    assert AfterWrite(st1, h, b).handles == AfterWrite(st, h, a + b).handles;
  }

  lemma FitsInParts(lim: Limits, st: Fs, h: nat, a: nat, b: nat)
    requires Fits(lim, st, h, a + b) && Find(st.nodes, st.handles[h].name) == Some(st.handles[h].node)
    ensures Fits(lim, st, h, a) && Fits(lim, AfterWrite(st, h, a), h, b)
  {
    AfterTwoWrites(st, h, a, b);
  }

  /** Writing in two calls is writing in one. */
  lemma TwoWritesAreOne(lim: Limits, st: Fs, h: nat, a: nat, b: nat)
    requires Fits(lim, st, h, a + b) && Find(st.nodes, st.handles[h].name) == Some(st.handles[h].node)
    ensures var (st1, r1) := Next(lim, st, Write(h, a, true));
            r1 == Done && Next(lim, st1, Write(h, b, true)) == Next(lim, st, Write(h, a + b, true))
  {
    FitsInParts(lim, st, h, a, b);
    WriteEffect(lim, st, h, a, true);
    WriteEffect(lim, st, h, a + b, true);
    WriteEffect(lim, AfterWrite(st, h, a), h, b, true);
    AfterTwoWrites(st, h, a, b);
  }

  lemma OverwrittenTwice(nodes: seq<Node>, i: nat, x: Node, y: Node)
    requires i < |nodes|
    ensures nodes[i := x][i := y] == nodes[i := y]
  {
  }

  lemma {:induction false} FindResizedFrom(nodes: seq<Node>, name: string, nodes': seq<Node>, from: nat)
    requires |nodes'| == |nodes| && from <= |nodes|
    requires forall i :: 0 <= i < |nodes| ==> nodes'[i].name == nodes[i].name
    ensures FindFrom(nodes', name, from) == FindFrom(nodes, name, from)
    decreases |nodes| - from
  {
    if from < |nodes| {
      FindResizedFrom(nodes, name, nodes', from + 1);
    }
  }

  lemma FindResized(nodes: seq<Node>, name: string, nodes': seq<Node>)
    requires |nodes'| == |nodes| && forall i :: 0 <= i < |nodes| ==> nodes'[i].name == nodes[i].name
    ensures Find(nodes', name) == Find(nodes, name)
  {
    FindResizedFrom(nodes, name, nodes', 0);
  }

  /** The same for a truncate: the difference is charged or refunded first, and only the own file's size moves. */
  lemma TruncateEffect(lim: Limits, st: Fs, h: nat, size: nat, works: bool)
    requires Sized(lim, st, h) && Handles(st) && size - StatSize(st, h) + st.currentSize <= lim.total && size < TWO_63
    ensures var (st', r) := Next(lim, st, Truncate(h, size, works));
            var own := st.handles[h].node;
            && r == (if works then Done else Refused) && st'.handles == st.handles
            && st'.currentSize == st.currentSize + size - StatSize(st, h) && st'.currentFiles == st.currentFiles
            && st'.nodes == if works then st.nodes[own := Node(st.nodes[own].name, size)] else st.nodes
  {
  }

  /** No other call charges or refunds: what is removed, renamed over or emptied stays paid for. */
  lemma OnlyResizingCharges(lim: Limits, st: Fs, op: Op)
    requires !op.Write? && !op.Truncate?
    ensures Next(lim, st, op).0.currentSize == st.currentSize
  {
  }

  /** Two files and two handles, both opened under the name p; the first file was renamed to q since. */
  function Misnamed(p: string, q: string): Fs {
    Fs([Node(Some(q), 0), Node(Some(p), 0)], [Handle(0, p, 0), Handle(1, p, 0)], 2, 0)
  }

  lemma {:induction false} MisnamedReached(lim: Limits, p: string, q: string)
    requires p != q && lim.maxFiles > 2
    ensures Run(lim, EMPTY, [Create(p, true), Rename(p, q), Create(p, true)]) == Misnamed(p, q)
  {
    var a, b := Create(p, true), Rename(p, q);
    var s1 := Next(lim, EMPTY, a).0;
    assert s1.nodes == [Node(Some(p), 0)];
    var s2 := Next(lim, s1, b).0;
    assert s2.nodes == [Node(Some(q), 0)];
    assert Next(lim, s2, a).0 == Misnamed(p, q);
    assert [a, b, a][1..] == [b, a] && [b, a][1..] == [a] && [a][1..] == [];
    assert Run(lim, s2, [a]) == Run(lim, Misnamed(p, q), []);
    assert Run(lim, s1, [b, a]) == Run(lim, s2, [a]);
  }

  /** A file renamed away keeps its old name in its handle: both files grow to the quota and one is charged. */
  lemma {:induction false} MisnamedHandleEscapes(lim: Limits, p: string, q: string)
    requires p != q && 0 < lim.total < TWO_63
    ensures var st := Run(lim, Misnamed(p, q), [Truncate(1, lim.total, true), Truncate(0, lim.total, true)]);
            Live(st.nodes) == 2 * lim.total && st.currentSize == lim.total
  {
    var d, e := Truncate(1, lim.total, true), Truncate(0, lim.total, true);
    var s3 := Misnamed(p, q);
    assert Find(s3.nodes, p) == Some(1) by {
      assert s3.nodes[1].name == Some(p);
    }
    var s4 := Next(lim, s3, d).0;
    assert s4.nodes == s3.nodes[1 := Node(Some(p), lim.total)];
    LiveUpdate(s3.nodes, 1, Node(Some(p), lim.total));
    assert Find(s4.nodes, p) == Some(1) by {
      assert s4.nodes[1].name == Some(p);
    }
    assert Next(lim, s4, e).0.nodes == s4.nodes[0 := Node(Some(q), lim.total)];
    LiveUpdate(s4.nodes, 0, Node(Some(q), lim.total));
    assert [d, e][1..] == [e] && [e][1..] == [];
    assert Run(lim, s4, [e]) == Run(lim, Next(lim, s4, e).0, []);
    assert Run(lim, s3, [d, e]) == Run(lim, s4, [e]);
    assert Live(s3.nodes) == 0 by {
      LiveAppend([Node(Some(q), 0)], Node(Some(p), 0));
      assert s3.nodes == [Node(Some(q), 0)] + [Node(Some(p), 0)];
      assert Live([Node(Some(q), 0)]) == 0;
    }
  }

  // ---------------------------------------------------------------- whole runs

  predicate Covered(lim: Limits, st: Fs) {
    && Handles(st)
    && Live(st.nodes) <= st.currentSize <= lim.total
  }

  /** The call goes through a handle that still names its own file, and its sums fit in an int64. */
  predicate Proper(lim: Limits, st: Fs, op: Op) {
    (op.Write? || op.Truncate?) && op.h < |st.handles| ==>
      var f := st.handles[op.h];
      && (Find(st.nodes, f.name).Some? ==> Find(st.nodes, f.name) == Some(f.node))
      && (op.Write? ==> InRange(f.offset + op.len + st.currentSize))
      && (op.Truncate? ==> op.works && 0 <= op.size && InRange(op.size + st.currentSize))
  }

  predicate ProperRun(lim: Limits, st: Fs, ops: seq<Op>)
    decreases |ops|
  {
    ops == [] || (Proper(lim, st, ops[0]) && ProperRun(lim, Next(lim, st, ops[0]).0, ops[1..]))
  }

  lemma GrowthExact(size: nat, offset: nat, len: nat)
    requires InRange(offset + len) && InRange(size)
    ensures WriteGrowth(size, offset, len) == Max(0, offset + len - size)
  {
  }

  lemma CoveredWritten(lim: Limits, st: Fs, h: nat, len: nat, works: bool)
    requires h < |st.handles| && Find(st.nodes, st.handles[h].name) == Some(st.handles[h].node)
    requires InRange(st.handles[h].offset + len + st.currentSize) && InRange(lim.total) && Covered(lim, st)
    ensures Covered(lim, Written(lim, st, h, len, works).0)
  {
    var f := st.handles[h];
    var n := st.nodes[f.node];
    var end := f.offset + len;
    LiveUpdate(st.nodes, f.node, n.(size := if n.size < end then end else n.size));
    GrowthExact(n.size, f.offset, len);
    assert InRange(Max(0, end - n.size) + st.currentSize);
  }

  lemma CoveredWrite(lim: Limits, st: Fs, h: nat, len: nat, works: bool)
    requires 0 <= lim.total < TWO_63 && Covered(lim, st) && Proper(lim, st, Write(h, len, works))
    ensures Covered(lim, Next(lim, st, Write(h, len, works)).0)
  {
    if h < |st.handles| && Find(st.nodes, st.handles[h].name).Some? {
      CoveredWritten(lim, st, h, len, works);
    }
  }

  lemma CoveredTruncate(lim: Limits, st: Fs, h: nat, size: int)
    requires 0 <= lim.total < TWO_63 && Covered(lim, st) && Proper(lim, st, Truncate(h, size, true))
    ensures Covered(lim, Next(lim, st, Truncate(h, size, true)).0)
  {
    if h < |st.handles| && Find(st.nodes, st.handles[h].name).Some? {
      var f := st.handles[h];
      LiveUpdate(st.nodes, f.node, st.nodes[f.node].(size := size));
    }
  }

  lemma CoveredCreate(lim: Limits, st: Fs, op: Op)
    requires Covered(lim, st) && (op.Create? || op.OpenFile? || op.TempFile?)
    ensures Covered(lim, Next(lim, st, op).0)
  {
    var st1 := if Creates(op) then st.(currentFiles := st.currentFiles + 1) else st;
    match op
    case Create(name, _) => LiveOpened(st1, name, true, false);
    case OpenFile(name, _, trunc, append, _) => LiveOpened(st1, name, trunc, append);
    case TempFile(name, _) => LiveOpened(st1, name, true, false);
  }

  lemma CoveredMove(lim: Limits, st: Fs, op: Op)
    requires Covered(lim, st) && (op.Remove? || op.Rename? || op.MkdirAll? || op.Symlink? || op.Seek?)
    ensures Covered(lim, Next(lim, st, op).0)
  {
    if op.Remove? {
      LiveUnlinked(st.nodes, op.name);
    } else if op.Rename? && Find(st.nodes, op.oldName).Some? {
      LiveRenamed(st.nodes, op.oldName, op.newName);
    }
  }

  lemma CoveredStep(lim: Limits, st: Fs, op: Op)
    requires 0 <= lim.total < TWO_63 && Covered(lim, st) && Proper(lim, st, op)
    ensures Covered(lim, Next(lim, st, op).0)
  {
    if op.Write? {
      CoveredWrite(lim, st, op.h, op.len, op.works);
    } else if op.Truncate? {
      if op.h < |st.handles| {
        CoveredTruncate(lim, st, op.h, op.size);
      }
    } else if op.Create? || op.OpenFile? || op.TempFile? {
      CoveredCreate(lim, st, op);
    } else {
      CoveredMove(lim, st, op);
    }
  }

  /**
   From an empty file system, through any calls whose handles name their own files, the named files together never
   exceed what was charged, and what was charged is never negative and never above the quota.
   */
  lemma {:induction false} QuotaConserved(lim: Limits, st: Fs, ops: seq<Op>)
    requires 0 <= lim.total < TWO_63 && Covered(lim, st) && ProperRun(lim, st, ops)
    ensures Covered(lim, Run(lim, st, ops))
    decreases |ops|
  {
    if ops != [] {
      CoveredStep(lim, st, ops[0]);
      QuotaConserved(lim, Next(lim, st, ops[0]).0, ops[1..]);
    }
  }

  lemma {:induction false} QuotaConservedFromEmpty(lim: Limits, ops: seq<Op>)
    requires 0 <= lim.total < TWO_63 && ProperRun(lim, EMPTY, ops)
    ensures var st := Run(lim, EMPTY, ops); 0 <= Live(st.nodes) <= st.currentSize <= lim.total
  {
    QuotaConserved(lim, EMPTY, ops);
  }

  // ---------------------------------------------------------------- names

  /** No two files have the same name. */
  predicate Distinct(nodes: seq<Node>) {
    forall i, j :: 0 <= i < j < |nodes| && nodes[i].name.Some? ==> nodes[i].name != nodes[j].name
  }

  lemma FindDistinct(nodes: seq<Node>, i: nat, name: string)
    requires Distinct(nodes) && i < |nodes| && nodes[i].name == Some(name)
    ensures Find(nodes, name) == Some(i)
  {
    assert Find(nodes, name).Some?;
  }

  /** Removing takes exactly this name away. */
  lemma RemoveEffect(lim: Limits, st: Fs, name: string, other: string)
    requires Distinct(st.nodes) && Find(st.nodes, name).Some?
    ensures var (st', r) := Next(lim, st, Remove(name));
            && r == Done && st'.handles == st.handles && Distinct(st'.nodes)
            && Find(st'.nodes, other) == if other == name then None else Find(st.nodes, other)
  {
    var st' := Next(lim, st, Remove(name)).0;
    var at := Find(st.nodes, name).value;
    assert forall i :: 0 <= i < |st.nodes| && i != at ==> st'.nodes[i] == st.nodes[i];
    if other != name && Find(st.nodes, other).Some? {
      FindDistinct(st'.nodes, Find(st.nodes, other).value, other);
    }
  }

  lemma DistinctUnlinked(nodes: seq<Node>, name: string, other: string)
    requires Distinct(nodes)
    ensures Distinct(Unlinked(nodes, name))
    ensures Find(Unlinked(nodes, name), other) == if other == name then None else Find(nodes, other)
  {
    if Find(nodes, name).Some? {
      RemoveEffect(Limits(0, 0), Fs(nodes, [], 0, 0), name, other);
    }
  }

  /** Renaming moves the file to its new name, takes that name from any other, and leaves all others theirs. */
  lemma RenameEffect(lim: Limits, st: Fs, o: string, n: string, other: string)
    requires Distinct(st.nodes) && Find(st.nodes, o).Some?
    ensures var (st', r) := Next(lim, st, Rename(o, n));
            && r == Done && st'.handles == st.handles && Distinct(st'.nodes) && |st'.nodes| == |st.nodes|
            && Find(st'.nodes, other) ==
               (if other == n then Find(st.nodes, o) else if other == o then None else Find(st.nodes, other))
            && forall i :: 0 <= i < |st.nodes| ==> st'.nodes[i].size == st.nodes[i].size
  {
    if o != n {
      var st' := Next(lim, st, Rename(o, n)).0;
      var at, rest := Find(st.nodes, o).value, Unlinked(st.nodes, n);
      DistinctUnlinked(st.nodes, n, n);
      DistinctUnlinked(st.nodes, n, o);
      DistinctUnlinked(st.nodes, n, other);
      assert st'.nodes == rest[at := rest[at].(name := Some(n))];
      assert Distinct(st'.nodes);
      FindDistinct(st'.nodes, at, n);
      if other != n && other != o && Find(rest, other).Some? {
        FindDistinct(st'.nodes, Find(rest, other).value, other);
      }
    }
  }

  /** Opening finds the file of this name or makes an empty one; the handle stands at its start or, appending, end. */
  lemma OpenEffect(lim: Limits, st: Fs, name: string, create: bool, trunc: bool, append: bool)
    requires Distinct(st.nodes) && st.currentFiles + 1 < lim.maxFiles && (create || Find(st.nodes, name).Some?)
    ensures var (st', r) := Next(lim, st, OpenFile(name, create, trunc, append, true));
            var was := Find(st.nodes, name);
            var own := if was.Some? then was.value else |st.nodes|;
            var size := if was.Some? && !trunc then st.nodes[was.value].size else 0;
            && r == Done && Distinct(st'.nodes) && Find(st'.nodes, name) == Some(own) && st'.nodes[own].size == size
            && (forall i :: 0 <= i < |st.nodes| && i != own ==> st'.nodes[i] == st.nodes[i])
            && st'.handles == st.handles + [Handle(own, name, if append then size else 0)]
  {
    var st' := Next(lim, st, OpenFile(name, create, trunc, append, true)).0;
    var was := Find(st.nodes, name);
    var own := if was.Some? then was.value else |st.nodes|;
    assert Distinct(st'.nodes);
    FindDistinct(st'.nodes, own, name);
  }

  /** Creating is opening with emptying, for an ordinary and for a temporary file, which must be new. */
  lemma CreateEffect(lim: Limits, st: Fs, name: string)
    requires st.currentFiles + 1 < lim.maxFiles
    ensures Next(lim, st, Create(name, true)) == Next(lim, st, OpenFile(name, true, true, false, true))
    ensures Next(lim, st, TempFile(name, true)).1 == Done <==> Find(st.nodes, name).None?
    ensures Find(st.nodes, name).None? ==> Next(lim, st, TempFile(name, true)) == Next(lim, st, Create(name, true))
  {
  }

  /** A handle moved to a position writes from there. */
  lemma SeekEffect(lim: Limits, st: Fs, h: nat, pos: nat)
    requires h < |st.handles|
    ensures var st' := Next(lim, st, Seek(h, pos)).0;
            st' == Fs(st.nodes, st'.handles, st.currentFiles, st.currentSize)
            && st'.handles == st.handles[h := Handle(st.handles[h].node, st.handles[h].name, pos)]
  {
  }

  lemma DistinctStep(lim: Limits, st: Fs, op: Op)
    requires Distinct(st.nodes)
    ensures Distinct(Next(lim, st, op).0.nodes)
  {
    if op.Remove? {
      DistinctUnlinked(st.nodes, op.name, op.name);
    } else if op.Rename? && Find(st.nodes, op.oldName).Some? {
      RenameEffect(lim, st, op.oldName, op.newName, op.newName);
    }
  }

  /** In every run names stay distinct, so the size found under a name is that of the one file that has it. */
  lemma {:induction false} NamesStayDistinct(lim: Limits, st: Fs, ops: seq<Op>)
    requires Distinct(st.nodes)
    ensures Distinct(Run(lim, st, ops).nodes)
    decreases |ops|
  {
    if ops != [] {
      DistinctStep(lim, st, ops[0]);
      NamesStayDistinct(lim, Next(lim, st, ops[0]).0, ops[1..]);
    }
  }

  // ---------------------------------------------------------------- the file count

  /** How many creating calls of a run get past the count check. */
  function Passed(lim: Limits, st: Fs, ops: seq<Op>): nat
    decreases |ops|
  {
    if ops == [] then 0
    else (if Creates(ops[0]) && Next(lim, st, ops[0]).1 != TooManyFiles then 1 else 0)
         + Passed(lim, Next(lim, st, ops[0]).0, ops[1..])
  }

  /** Writing and truncating leave the set of files as it was. */
  lemma CountResize(lim: Limits, st: Fs, op: Op)
    requires op.Write? || op.Truncate?
    ensures Count(Next(lim, st, op).0.nodes) == Count(st.nodes)
    ensures Next(lim, st, op).0.currentFiles == st.currentFiles
  {
    if op.h < |st.handles| && st.handles[op.h].node < |st.nodes| {
      var f := st.handles[op.h];
      var n := st.nodes[f.node];
      if op.Write? {
        LiveUpdate(st.nodes, f.node, n.(size := if n.size < f.offset + op.len then f.offset + op.len else n.size));
      } else if op.size >= 0 {
        LiveUpdate(st.nodes, f.node, n.(size := op.size));
      }
    }
  }

  lemma CountCreate(lim: Limits, st: Fs, op: Op)
    requires op.Create? || op.OpenFile? || op.TempFile?
    ensures var (st', r) := Next(lim, st, op);
            Count(st'.nodes) <= Count(st.nodes) + (if Creates(op) && r != TooManyFiles then 1 else 0)
  {
    var st1 := if Creates(op) then st.(currentFiles := st.currentFiles + 1) else st;
    match op
    case Create(name, _) => LiveOpened(st1, name, true, false);
    case OpenFile(name, _, trunc, append, _) => LiveOpened(st1, name, trunc, append);
    case TempFile(name, _) => LiveOpened(st1, name, true, false);
  }

  lemma CountMove(lim: Limits, st: Fs, op: Op)
    requires op.Remove? || op.Rename?
    ensures Count(Next(lim, st, op).0.nodes) <= Count(st.nodes)
  {
    if op.Remove? {
      LiveUnlinked(st.nodes, op.name);
    } else if Find(st.nodes, op.oldName).Some? {
      LiveRenamed(st.nodes, op.oldName, op.newName);
    }
  }

  /** Only creating calls move the counter, one each, whether they pass or not. */
  lemma CountStep(lim: Limits, st: Fs, op: Op)
    ensures var (st', r) := Next(lim, st, op);
            && st'.currentFiles == st.currentFiles + (match op
                                                      case Create(_, _) => 1
                                                      case TempFile(_, _) => 1
                                                      case MkdirAll(_) => 1
                                                      case Symlink(_) => 1
                                                      case OpenFile(_, create, _, _, _) => if create then 1 else 0
                                                      case _ => 0)
            && Count(st'.nodes) <= Count(st.nodes) + (if Creates(op) && r != TooManyFiles then 1 else 0)
            && (Creates(op) ==> (r == TooManyFiles <==> st.currentFiles + 1 >= lim.maxFiles))
  {
    if op.Write? || op.Truncate? {
      CountResize(lim, st, op);
    } else if op.Create? || op.OpenFile? || op.TempFile? {
      CountCreate(lim, st, op);
    } else if op.Remove? || op.Rename? {
      CountMove(lim, st, op);
    }
  }

  /** Over any run at most maxFiles - 1 creating calls pass, and no more files than that exist at its end. */
  lemma {:induction false} FileCountBound(lim: Limits, st: Fs, ops: seq<Op>)
    ensures Passed(lim, st, ops) <= Max(0, lim.maxFiles - 1 - st.currentFiles)
    ensures Count(Run(lim, st, ops).nodes) <= Count(st.nodes) + Passed(lim, st, ops)
    decreases |ops|
  {
    if ops != [] {
      CountStep(lim, st, ops[0]);
      FileCountBound(lim, Next(lim, st, ops[0]).0, ops[1..]);
    }
  }

  lemma {:induction false} FileCountBoundFromEmpty(lim: Limits, ops: seq<Op>)
    ensures Passed(lim, EMPTY, ops) <= Max(0, lim.maxFiles - 1)
    ensures Count(Run(lim, EMPTY, ops).nodes) <= Max(0, lim.maxFiles - 1)
  {
    FileCountBound(lim, EMPTY, ops);
  }

  /** Once a creating call has been refused for the count, every later one is, after whatever else happened. */
  lemma {:induction false} RefusalIsFinal(lim: Limits, st: Fs, ops: seq<Op>, op: Op)
    requires st.currentFiles >= lim.maxFiles && Creates(op)
    ensures Next(lim, Run(lim, st, ops), op).1 == TooManyFiles
    decreases |ops|
  {
    if ops != [] {
      CountStep(lim, st, ops[0]);
      RefusalIsFinal(lim, Next(lim, st, ops[0]).0, ops[1..], op);
    }
  }

  // ---------------------------------------------------------------- the object

  class LimitedFs {
    const maxFiles: int
    const totalFileSize: int
    var currentFiles: int
    var currentSize: int
    // the wrapped file system and the handles it has given out
    var nodes: seq<Node>
    var handles: seq<Handle>

    function State(): Fs
      reads this
    {
      Fs(nodes, handles, currentFiles, currentSize)
    }

    function Limit(): Limits { Limits(maxFiles, totalFileSize) }

    constructor (maxFiles: int, totalFileSize: int)
      ensures this.maxFiles == maxFiles && this.totalFileSize == totalFileSize && State() == EMPTY
    {
      this.maxFiles, this.totalFileSize := maxFiles, totalFileSize;
      currentFiles, currentSize, nodes, handles := 0, 0, [], [];
    }

    /** The wrapped file system's open. */
    method Open(name: string, truncate: bool, append: bool)
      modifies this`nodes, this`handles
      ensures State() == Opened(old(State()), name, truncate, append)
    {
      var at := Find(nodes, name);
      if at.None? {
        nodes, handles := nodes + [Node(Some(name), 0)], handles + [Handle(|nodes|, name, 0)];
      } else {
        if truncate {
          nodes := nodes[at.value := Node(Some(name), 0)];
        }
        handles := handles + [Handle(at.value, name, if append then nodes[at.value].size else 0)];
      }
    }

    method Create(name: string, works: bool) returns (r: Result)
      modifies this
      ensures (State(), r) == Next(Limit(), old(State()), Op.Create(name, works))
    {
      currentFiles := currentFiles + 1;
      if currentFiles >= maxFiles {
        return TooManyFiles;
      }
      if !works {
        return Refused;
      }
      Open(name, true, false);
      r := Done;
    }

    method OpenFile(name: string, create: bool, truncate: bool, append: bool, works: bool) returns (r: Result)
      modifies this
      ensures (State(), r) == Next(Limit(), old(State()), Op.OpenFile(name, create, truncate, append, works))
    {
      if create {
        currentFiles := currentFiles + 1;
        if currentFiles >= maxFiles {
          return TooManyFiles;
        }
      }
      if !works {
        return Refused;
      }
      if !create && Find(nodes, name).None? {
        return NotFound;
      }
      Open(name, truncate, append);
      r := Done;
    }

    method TempFile(name: string, works: bool) returns (r: Result)
      modifies this
      ensures (State(), r) == Next(Limit(), old(State()), Op.TempFile(name, works))
    {
      currentFiles := currentFiles + 1;
      if currentFiles >= maxFiles {
        return TooManyFiles;
      }
      if !works || Find(nodes, name).Some? {
        return Refused;
      }
      Open(name, true, false);
      r := Done;
    }

    method MkdirAll(works: bool) returns (r: Result)
      modifies this
      ensures (State(), r) == Next(Limit(), old(State()), Op.MkdirAll(works))
    {
      currentFiles := currentFiles + 1;
      if currentFiles >= maxFiles {
        return TooManyFiles;
      }
      r := if works then Done else Refused;
    }

    method Symlink(works: bool) returns (r: Result)
      modifies this
      ensures (State(), r) == Next(Limit(), old(State()), Op.Symlink(works))
    {
      currentFiles := currentFiles + 1;
      if currentFiles >= maxFiles {
        return TooManyFiles;
      }
      r := if works then Done else Refused;
    }

    method Write(h: nat, len: nat, works: bool) returns (r: Result)
      modifies this
      ensures (State(), r) == Next(Limit(), old(State()), Op.Write(h, len, works))
    {
      if h >= |handles| {
        return NotFound;
      }
      var f := handles[h];
      var at := Find(nodes, f.name);
      if at.None? {
        return NotFound;
      }
      var growth := Int64(Int64(f.offset + len) - nodes[at.value].size);
      if growth < 0 {
        growth := 0;
      }
      if Int64(growth + currentSize) > totalFileSize {
        return TooBig;
      }
      currentSize := Int64(currentSize + growth);
      if !works || f.node >= |nodes| {
        return Refused;
      }
      var end := f.offset + len;
      if nodes[f.node].size < end {
        nodes := nodes[f.node := nodes[f.node].(size := end)];
      }
      handles := handles[h := f.(offset := end)];
      assert nodes == Next(Limit(), old(State()), Op.Write(h, len, works)).0.nodes;
      r := Done;
    }

    method Truncate(h: nat, size: int, works: bool) returns (r: Result)
      modifies this
      ensures (State(), r) == Next(Limit(), old(State()), Op.Truncate(h, size, works))
    {
      if h >= |handles| {
        return NotFound;
      }
      var f := handles[h];
      var at := Find(nodes, f.name);
      if at.None? {
        return NotFound;
      }
      var growth := Int64(size - nodes[at.value].size);
      if Int64(growth + currentSize) > totalFileSize {
        return TooBig;
      }
      currentSize := Int64(currentSize + growth);
      if !works || size < 0 || f.node >= |nodes| {
        return Refused;
      }
      nodes := nodes[f.node := nodes[f.node].(size := size)];
      r := Done;
    }

    method Seek(h: nat, pos: nat) returns (r: Result)
      modifies this`handles
      ensures (State(), r) == Next(Limit(), old(State()), Op.Seek(h, pos))
    {
      if h >= |handles| {
        return NotFound;
      }
      handles := handles[h := handles[h].(offset := pos)];
      r := Done;
    }

    method Remove(name: string) returns (r: Result)
      modifies this`nodes
      ensures (State(), r) == Next(Limit(), old(State()), Op.Remove(name))
    {
      var at := Find(nodes, name);
      if at.None? {
        return NotFound;
      }
      nodes := nodes[at.value := nodes[at.value].(name := None)];
      r := Done;
    }

    method Rename(oldName: string, newName: string) returns (r: Result)
      modifies this`nodes
      ensures (State(), r) == Next(Limit(), old(State()), Op.Rename(oldName, newName))
    {
      var at := Find(nodes, oldName);
      if at.None? {
        return NotFound;
      }
      nodes := Renamed(nodes, oldName, newName);
      r := Done;
    }
  }
}
