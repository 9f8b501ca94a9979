/** Radon complexity: the gate's summary and the baseline report's second implementation of the same inventory. */
module RadonInventory {
  import opened Common
  import opened Json
  import Text

  /** A node of the Radon report. Children keys that hold no list have no children. */
  datatype Node = NotADictionary | Block(name: string, rank: Value, complexity: Value, methods: seq<Node>,
      closures: seq<Node>)

  datatype FileBlocks = FileBlocks(path: string, blocks: seq<Node>)

  /** A collected block and the file it was found in. */
  datatype Located = Located(path: string, block: Node)

  // ---------------------------------------------------------------- flattening

  /** A block, then its methods, then its closures. */
  function Preorder(node: Node): seq<Node> {
    match node
    case NotADictionary => []
    case Block(_, _, _, methods, closures) => [node] + PreorderAll(methods) + PreorderAll(closures)
  }

  function PreorderAll(nodes: seq<Node>): seq<Node> {
    if nodes == [] then [] else Preorder(nodes[0]) + PreorderAll(nodes[1..])
  }

  /** Every node down the tree is a dictionary. */
  predicate AllDictionaries(node: Node) {
    match node
    case NotADictionary => false
    case Block(_, _, _, methods, closures) =>
      (forall n :: n in methods ==> AllDictionaries(n)) && (forall n :: n in closures ==> AllDictionaries(n))
  }

  function At(path: string, nodes: seq<Node>): seq<Located> {
    seq(|nodes|, i requires 0 <= i < |nodes| => Located(path, nodes[i]))
  }

  /** The `blocks` list that the nested `collect` appends to. */
  class Collector {
    var blocks: seq<Located>

    constructor ()
      ensures blocks == []
    {
      blocks := [];
    }

    /** `collect`; false is the `ValueError` of a node that is not a dictionary. */
    method Collect(node: Node, path: string) returns (ok: bool)
      modifies this
      ensures ok <==> AllDictionaries(node)
      ensures ok ==> blocks == old(blocks) + At(path, Preorder(node))
      decreases node, 0
    {
      match node
      case NotADictionary => return false;
      case Block(_, _, _, methods, closures) =>
        blocks := blocks + [Located(path, node)];
        ok := CollectAll(methods, path);
        if !ok {
          return false;
        }
        ok := CollectAll(closures, path);
    }

    method CollectAll(nodes: seq<Node>, path: string) returns (ok: bool)
      modifies this
      ensures ok <==> forall n :: n in nodes ==> AllDictionaries(n)
      ensures ok ==> blocks == old(blocks) + At(path, PreorderAll(nodes))
      decreases nodes
    {
      for i := 0 to |nodes|
        invariant forall n :: n in nodes[..i] ==> AllDictionaries(n)
        invariant blocks + At(path, PreorderAll(nodes[i..])) == old(blocks) + At(path, PreorderAll(nodes))
      {
        assert nodes[i..][1..] == nodes[i + 1..] && nodes[..i + 1] == nodes[..i] + [nodes[i]];
        ok := Collect(nodes[i], path);
        if !ok {
          return false;
        }
      }
      assert nodes[..|nodes|] == nodes;
      return true;
    }
  }

  /** `_iter_radon_blocks`: the report skips what is not a dictionary. */
  function ReportBlocks(files: seq<FileBlocks>): seq<Node> {
    if files == [] then [] else PreorderAll(files[0].blocks) + ReportBlocks(files[1..])
  }

  function GateBlocks(files: seq<FileBlocks>): seq<Located> {
    if files == [] then [] else At(files[0].path, PreorderAll(files[0].blocks)) + GateBlocks(files[1..])
  }

  // ---------------------------------------------------------------- ranks and complexity

  /** Position of a rank letter, 0 for anything else. */
  function RankOrder(text: string): nat {
    if text == "A" then 1 else if text == "B" then 2 else if text == "C" then 3
    else if text == "D" then 4 else if text == "E" then 5 else if text == "F" then 6 else 0
  }

  /** The gate ranks in upper case and ignores what is not a letter from A to F. */
  function GateRank(b: Node): Option<string> {
    if b.Block? && b.rank.Str? && RankOrder(Text.Upper(b.rank.s)) > 0 then Some(Text.Upper(b.rank.s)) else None
  }

  /** The report takes any text that is not empty, as it is. */
  function ReportRank(b: Node): Option<string> {
    if b.Block? && b.rank.Str? && b.rank.s != "" then Some(b.rank.s) else None
  }

  function Complexity(b: Node): int {
    if b.Block? && b.complexity.Int? then b.complexity.n
    else if b.Block? && b.complexity.Bool? && b.complexity.b then 1
    else 0
  }

  function CountRank(ranks: seq<Option<string>>, rank: string): nat {
    if ranks == [] then 0 else (if ranks[0] == Some(rank) then 1 else 0) + CountRank(ranks[1..], rank)
  }

  /** `max(blocks, key=complexity)`: the first of the most complex blocks. */
  method Worst(blocks: seq<Node>) returns (worst: Option<nat>)
    ensures worst == FirstMaximum(blocks)
    ensures worst.None? <==> blocks == []
    ensures worst.Some? ==> forall i :: 0 <= i < |blocks| ==> Complexity(blocks[i]) <= Complexity(blocks[worst.value])
    ensures worst.Some? ==> forall i :: 0 <= i < worst.value ==> Complexity(blocks[i]) < Complexity(blocks[worst.value])
  {
    if blocks == [] {
      return None;
    }
    var best := 0;
    for i := 1 to |blocks|
      invariant best < i && FirstMaximum(blocks[..i]) == Some(best)
      invariant forall j :: 0 <= j < i ==> Complexity(blocks[j]) <= Complexity(blocks[best])
      invariant forall j :: 0 <= j < best ==> Complexity(blocks[j]) < Complexity(blocks[best])
    {
      assert blocks[..i + 1][..i] == blocks[..i];
      if Complexity(blocks[i]) > Complexity(blocks[best]) {
        best := i;
      }
    }
    assert blocks[..|blocks|] == blocks;
    return Some(best);
  }

  function FirstMaximum(blocks: seq<Node>): (r: Option<nat>)
    ensures r.Some? ==> r.value < |blocks|
    ensures r.None? <==> blocks == []
  {
    if blocks == [] then None
    else
      var n := |blocks| - 1;
      var before := FirstMaximum(blocks[..n]);
      if before.None? || Complexity(blocks[n]) > Complexity(blocks[before.value]) then Some(n) else before
  }

  // ---------------------------------------------------------------- the two inventories

  datatype Inventory = Inventory(blockCount: nat, rankCount: string -> nat, worstRank: Option<string>,
                                 worstComplexity: Option<int>)

  function Blocks(located: seq<Located>): seq<Node> {
    seq(|located|, i requires 0 <= i < |located| => located[i].block)
  }

  function Ranks(blocks: seq<Node>, rank: Node -> Option<string>): seq<Option<string>> {
    seq(|blocks|, i requires 0 <= i < |blocks| => rank(blocks[i]))
  }

  /** `counted` is the rank a block is counted under, `shown` the rank shown for the worst block. */
  function Summarize(blocks: seq<Node>, counted: Node -> Option<string>, shown: Node -> Option<string>): Inventory {
    var worst := FirstMaximum(blocks);
    Inventory(|blocks|, r => CountRank(Ranks(blocks, counted), r),
              if worst.None? then None else shown(blocks[worst.value]),
              if worst.None? then None else Some(Complexity(blocks[worst.value])))
  }

  /** The gate shows the worst block's rank in upper case, whatever text it is. */
  function GateShownRank(b: Node): Option<string> {
    if b.Block? && b.rank.Str? then Some(Text.Upper(b.rank.s)) else None
  }

  function GateSummary(blocks: seq<Node>): Inventory {
    Summarize(blocks, b => GateRank(b), b => GateShownRank(b))
  }

  function GateInventory(files: seq<FileBlocks>): Inventory {
    GateSummary(Blocks(GateBlocks(files)))
  }

  function ReportInventory(files: seq<FileBlocks>): Inventory {
    Summarize(ReportBlocks(files), b => ReportRank(b), b => ReportRank(b))
  }

  predicate Readable(file: FileBlocks) {
    forall n :: n in file.blocks ==> AllDictionaries(n)
  }

  /** The text of a Radon report: JSON or not, and at its top an object or not. */
  datatype Payload = InvalidJson | NotAnObject | Files(entries: seq<FileEntry>)

  /** `blocks` is `None` where the value is not a list. */
  datatype FileEntry = FileEntry(path: string, blocks: Option<seq<Node>>)

  function FilesOf(entries: seq<FileEntry>): (files: seq<FileBlocks>)
    ensures |files| == |entries|
  {
    seq(|entries|, i requires 0 <= i < |entries| => FileBlocks(entries[i].path, entries[i].blocks.GetOr([])))
  }

  predicate Accepted(entry: FileEntry) {
    entry.blocks.Some? && Readable(FileBlocks(entry.path, entry.blocks.value))
  }

  /** `parse_radon_report`: `None` is a `ValueError`, for a text that is not JSON or maps something else than files to
      lists, an unknown fail rank, or a node that is not a dictionary. */
  method ParseReport(payload: Payload, failRank: string) returns (r: Option<(Inventory, seq<Located>)>)
    ensures r.Some? <==>
      payload.Files? && RankOrder(Text.Upper(failRank)) > 0 && forall f :: f in payload.entries ==> Accepted(f)
    ensures r.Some? ==>
      var files := FilesOf(payload.entries);
      r.value == (GateInventory(files), Failing(GateBlocks(files), RankOrder(Text.Upper(failRank))))
  {
    hide Accepted, RankOrder, GateSummary, GateBlocks, Failing, Text.Upper, FilesOf;
    if !payload.Files? {
      return None;
    }
    var threshold := RankOrder(Text.Upper(failRank));
    if threshold == 0 {
      return None;
    }
    var located := CollectFiles(payload.entries);
    if located.None? {
      return None;
    }
    var failing := FailingBlocks(located.value, threshold);
    var inventory := GateSummary(Blocks(located.value));
    return Some((inventory, failing));
  }

  method CollectFiles(entries: seq<FileEntry>) returns (located: Option<seq<Located>>)
    ensures located.Some? <==> forall f :: f in entries ==> Accepted(f)
    ensures located.Some? ==> located.value == GateBlocks(FilesOf(entries))
  {
    hide AllDictionaries, PreorderAll, GateBlocks, At, Readable;
    var collector := new Collector();
    ghost var files := FilesOf(entries);
    for i := 0 to |entries|
      invariant fresh(collector)
      invariant forall j :: 0 <= j < i ==> Accepted(entries[j])
      invariant collector.blocks + GateBlocks(files[i..]) == GateBlocks(files)
    {
      if entries[i].blocks.None? {
        assert entries[i] in entries;
        return None;
      }
      GateBlocksStep(files, i, collector.blocks);
      var ok := CollectFile(collector, FileBlocks(entries[i].path, entries[i].blocks.value));
      if !ok {
        assert entries[i] in entries;
        return None;
      }
    }
    GateBlocksEnd(files, collector.blocks);
    return Some(collector.blocks);
  }

  method CollectFile(collector: Collector, file: FileBlocks) returns (ok: bool)
    modifies collector
    ensures ok <==> Readable(file)
    ensures ok ==> collector.blocks == old(collector.blocks) + At(file.path, PreorderAll(file.blocks))
  {
    ok := collector.CollectAll(file.blocks, file.path);
  }

  lemma GateBlocksStep(files: seq<FileBlocks>, i: nat, before: seq<Located>)
    requires i < |files|
    ensures before + GateBlocks(files[i..])
         == before + At(files[i].path, PreorderAll(files[i].blocks)) + GateBlocks(files[i + 1..])
  {
  }

  lemma GateBlocksEnd(files: seq<FileBlocks>, blocks: seq<Located>)
    ensures blocks + GateBlocks(files[|files|..]) == blocks
  {
  }

  /** A rank letter from A to F and a whole-number complexity, down the tree. */
  predicate WellFormed(node: Node) {
    match node
    case NotADictionary => false
    case Block(_, rank, complexity, methods, closures) =>
      && rank.Str? && RankOrder(rank.s) > 0 && complexity.Int?
      && (forall n :: n in methods ==> WellFormed(n)) && (forall n :: n in closures ==> WellFormed(n))
  }

  lemma {:induction false} PreorderWellFormed(node: Node)
    requires WellFormed(node)
    ensures forall b :: b in Preorder(node) ==> WellFormed(b)
  {
    PreorderAllWellFormed(node.methods);
    PreorderAllWellFormed(node.closures);
  }

  lemma {:induction false} PreorderAllWellFormed(nodes: seq<Node>)
    requires forall n :: n in nodes ==> WellFormed(n)
    ensures forall b :: b in PreorderAll(nodes) ==> WellFormed(b)
  {
    if nodes != [] {
      assert nodes[0] in nodes;
      PreorderWellFormed(nodes[0]);
      PreorderAllWellFormed(nodes[1..]);
    }
  }

  lemma {:induction false} SameBlocks(files: seq<FileBlocks>)
    ensures Blocks(GateBlocks(files)) == ReportBlocks(files)
  {
    if files != [] {
      SameBlocks(files[1..]);
      var here, rest := At(files[0].path, PreorderAll(files[0].blocks)), GateBlocks(files[1..]);
      assert Blocks(here + rest) == Blocks(here) + Blocks(rest);
      assert Blocks(here) == PreorderAll(files[0].blocks);
    }
  }

  lemma {:induction false} ReportBlocksWellFormed(files: seq<FileBlocks>)
    requires forall f, n :: f in files && n in f.blocks ==> WellFormed(n)
    ensures forall b :: b in ReportBlocks(files) ==> WellFormed(b)
  {
    if files != [] {
      assert files[0] in files;
      PreorderAllWellFormed(files[0].blocks);
      ReportBlocksWellFormed(files[1..]);
    }
  }

  /** On well-formed reports the gate and the baseline report count, rank and measure the same. */
  lemma InventoriesAgree(files: seq<FileBlocks>)
    requires forall f, n :: f in files && n in f.blocks ==> WellFormed(n)
    ensures var gate, report := GateInventory(files), ReportInventory(files);
      && gate.blockCount == report.blockCount
      && (forall r :: gate.rankCount(r) == report.rankCount(r))
      && gate.worstRank == report.worstRank && gate.worstComplexity == report.worstComplexity
  {
    SameBlocks(files);
    ReportBlocksWellFormed(files);
    var blocks := ReportBlocks(files);
    forall i | 0 <= i < |blocks|
      ensures GateRank(blocks[i]) == ReportRank(blocks[i]) == GateShownRank(blocks[i])
    {
      assert WellFormed(blocks[i]);
    }
    assert Ranks(blocks, b => GateRank(b)) == Ranks(blocks, b => ReportRank(b));
  }

  // ---------------------------------------------------------------- the gate's verdict

  function BlockOrder(b: Node): nat {
    if b.Block? && b.rank.Str? then RankOrder(Text.Upper(b.rank.s)) else 0
  }

  /** The collected blocks at or above the fail rank, in report order. */
  function Failing(located: seq<Located>, threshold: nat): seq<Located> {
    if located == [] then []
    else (if BlockOrder(located[0].block) >= threshold then [located[0]] else []) + Failing(located[1..], threshold)
  }

  /** The comprehension that builds `failing_blocks`. */
  method FailingBlocks(located: seq<Located>, threshold: nat) returns (failing: seq<Located>)
    ensures failing == Failing(located, threshold)
    ensures forall b :: b in failing <==> b in located && BlockOrder(b.block) >= threshold
  {
    hide BlockOrder;
    failing := [];
    for i := 0 to |located|
      invariant failing + Failing(located[i..], threshold) == Failing(located, threshold)
    {
      assert located[i..][1..] == located[i + 1..];
      if BlockOrder(located[i].block) >= threshold {
        failing := failing + [located[i]];
      }
    }
    FailingMembers(located, threshold);
  }

  lemma {:induction false} FailingMembers(located: seq<Located>, threshold: nat)
    ensures forall b :: b in Failing(located, threshold) <==> b in located && BlockOrder(b.block) >= threshold
  {
    hide BlockOrder;
    if located != [] {
      FailingMembers(located[1..], threshold);
      assert located == [located[0]] + located[1..];
    }
  }

  /** Raising the fail rank only drops blocks, and keeps the order of the rest. */
  lemma {:induction false} FailingShrinks(located: seq<Located>, low: nat, high: nat)
    requires low <= high
    ensures Failing(Failing(located, low), high) == Failing(located, high)
  {
    if located != [] {
      FailingShrinks(located[1..], low, high);
      var rest := Failing(located[1..], low);
      if BlockOrder(located[0].block) >= low {
        assert ([located[0]] + rest)[1..] == rest;
        assert Failing(located, low) == [located[0]] + rest;
      } else {
        assert Failing(located, low) == rest;
      }
    }
  }
}
