// What the table of FAT entries means: disjoint chains of clusters.
module FatChains {
  type Table = seq<nat>

  // ---- Chains ----

  predicate InRange(fat: Table, c: nat) {
    2 <= c < |fat|
  }

  // c lists the clusters of one chain, from its head to the entry that ends it.
  ghost predicate Chain(fat: Table, c: seq<nat>) {
    && 0 < |c|
    && (forall i :: 0 <= i < |c| ==> InRange(fat, c[i]))
    && (forall i :: 0 <= i < |c| - 1 ==> fat[c[i]] == c[i + 1])
    && fat[c[|c| - 1]] >= |fat|
  }

  ghost predicate Disjoint(a: seq<nat>, b: seq<nat>) {
    forall k :: k in a ==> k !in b
  }

  // The table is exactly this set of chains.
  ghost predicate Forest(fat: Table, chains: set<seq<nat>>) {
    && (forall c :: c in chains ==> Chain(fat, c))
    && (forall a, b :: a in chains && b in chains && a != b ==> Disjoint(a, b))
    && (forall k: nat :: InRange(fat, k) && fat[k] != 0 ==> exists c :: c in chains && k in c)
  }

  lemma LinkAt(fat: Table, c: seq<nat>, i: nat)
    requires Chain(fat, c) && i < |c|
    ensures InRange(fat, c[i]) && 2 <= fat[c[i]]
    ensures if i + 1 < |c| then fat[c[i]] == c[i + 1] < |fat| else fat[c[i]] >= |fat|
  {
    if i + 1 < |c| {
      assert InRange(fat, c[i + 1]);
    }
  }

  lemma ChainInside(fat: Table, c: seq<nat>)
    requires Chain(fat, c)
    ensures 0 < |c| && forall k :: k in c ==> InRange(fat, k)
  {
  }

  // A chain that reaches its end visits no cluster twice.
  lemma {:induction false} ChainDistinct(fat: Table, c: seq<nat>, i: nat, j: nat)
    requires Chain(fat, c) && i < j < |c|
    ensures c[i] != c[j]
    decreases |c| - j
  {
    LinkAt(fat, c, i);
    LinkAt(fat, c, j);
    if j + 1 < |c| {
      ChainDistinct(fat, c, i + 1, j + 1);
    }
  }

  // A chain is determined by its head.
  lemma {:induction false} ChainUnique(fat: Table, a: seq<nat>, b: seq<nat>)
    requires Chain(fat, a) && Chain(fat, b) && a[0] == b[0]
    ensures a == b
    decreases |a|
  {
    LinkAt(fat, a, 0);
    LinkAt(fat, b, 0);
    if |a| > 1 {
      var at, bt := a[1..], b[1..];
      ChainUnique(fat, at, bt);
      assert a == [a[0]] + at && b == [b[0]] + bt;
    }
  }

  // A chain none of whose entries changes is still a chain.
  lemma ChainKept(fat: Table, next: Table, c: seq<nat>)
    requires Chain(fat, c) && |next| == |fat|
    requires forall k :: k in c ==> next[k] == fat[k]
    ensures Chain(next, c)
  {
    assert c[|c| - 1] in c;
    forall i | 0 <= i < |c| - 1
      ensures next[c[i]] == c[i + 1]
    {
      assert c[i] in c;
    }
  }

  lemma FreeOutside(fat: Table, c: seq<nat>, k: nat)
    requires Chain(fat, c) && InRange(fat, k) && fat[k] == 0
    ensures k !in c
  {
    if k in c {
      var i: nat :| i < |c| && c[i] == k;
      LinkAt(fat, c, i);
    }
  }

  ghost predicate InSome(chains: set<seq<nat>>, k: nat) {
    exists c :: c in chains && k in c
  }

  // When some chains go and at most one comes, and nothing else changes, the rest stay.
  lemma Replace(fat: Table, next: Table, chains: set<seq<nat>>, gone: set<seq<nat>>, come: set<seq<nat>>)
    requires Forest(fat, chains) && |next| == |fat|
    requires forall k: nat :: k < |fat| && InSome(chains - gone, k) ==> next[k] == fat[k]
    requires forall d :: d in come ==> Chain(next, d)
    requires forall d, e :: d in come && e in come ==> d == e
    requires forall d, e :: d in come && e in chains - gone ==> Disjoint(d, e)
    requires forall k: nat :: InRange(next, k) && next[k] != 0 ==> InSome(come, k) || InSome(chains - gone, k)
    ensures Forest(next, chains - gone + come)
  {
    var after := chains - gone + come;
    forall d | d in after
      ensures Chain(next, d)
    {
      if d !in come {
        ChainInside(fat, d);
        assert forall k :: k in d ==> InSome(chains - gone, k);
        ChainKept(fat, next, d);
      }
    }
    forall d, e | d in after && e in after && d != e
      ensures Disjoint(d, e)
    {
      if d !in come && e in come { assert Disjoint(e, d); }
    }
    forall k: nat | InRange(next, k) && next[k] != 0
      ensures exists c :: c in after && k in c
    {
      if InSome(come, k) {
        var c :| c in come && k in c;
        assert c in after;
      } else {
        var c :| c in chains - gone && k in c;
        assert c in after;
      }
    }
  }

  // ---- What the allocator does to the chains ----

  // A free cluster becomes a chain of its own.
  lemma NewChain(fat: Table, chains: set<seq<nat>>, ncl: nat, eoc: nat)
    requires Forest(fat, chains) && InRange(fat, ncl) && fat[ncl] == 0 && eoc >= |fat|
    ensures !InSome(chains, ncl)
    ensures Forest(fat[ncl := eoc], chains + {[ncl]})
  {
    var next := fat[ncl := eoc];
    forall c | c in chains
      ensures ncl !in c
    {
      FreeOutside(fat, c, ncl);
    }
    assert ncl in [ncl] && Chain(next, [ncl]);
    Replace(fat, next, chains, {}, {[ncl]});
    assert chains - {} + {[ncl]} == chains + {[ncl]};
  }

  // A free cluster is linked behind the last cluster of one chain; no other chain changes.
  lemma StretchedChain(fat: Table, chains: set<seq<nat>>, c: seq<nat>, ncl: nat, eoc: nat)
    requires Forest(fat, chains) && c in chains && InRange(fat, ncl) && fat[ncl] == 0 && eoc >= |fat|
    ensures Forest(fat[ncl := eoc][c[|c| - 1] := ncl], chains - {c} + {c + [ncl]})
  {
    hide Chain;
    ChainInside(fat, c);
    LinkAt(fat, c, |c| - 1);
    var tail := c[|c| - 1];
    var next := fat[ncl := eoc][tail := ncl];
    FreeOutside(fat, c, ncl);
    assert tail in c;
    forall d | d in chains - {c}
      ensures Disjoint(d, c) && Disjoint(c, d) && ncl !in d && tail !in d
    {
      FreeOutside(fat, d, ncl);
      assert Disjoint(c, d);
    }
    Longer(fat, c, ncl, eoc);
    forall k: nat | InRange(next, k) && next[k] != 0
      ensures InSome({c + [ncl]}, k) || InSome(chains - {c}, k)
    {
      if k == ncl || k in c {
        assert k in c + [ncl];
      } else {
        var d :| d in chains && k in d;
        assert d in chains - {c};
      }
    }
    Replace(fat, next, chains, {c}, {c + [ncl]});
  }

  lemma Longer(fat: Table, c: seq<nat>, ncl: nat, eoc: nat)
    requires Chain(fat, c) && InRange(fat, ncl) && ncl !in c && eoc >= |fat|
    ensures Chain(fat[ncl := eoc][c[|c| - 1] := ncl], c + [ncl])
  {
    var next := fat[ncl := eoc][c[|c| - 1] := ncl];
    var longer := c + [ncl];
    assert c[|c| - 1] in c;
    forall i | 0 <= i < |longer| - 1
      ensures next[longer[i]] == longer[i + 1]
    {
      assert longer[i] == c[i] && c[i] in c;
      if i < |c| - 1 {
        ChainDistinct(fat, c, i, |c| - 1);
        LinkAt(fat, c, i);
      }
    }
  }

  // ---- Freeing ----

  // Entries that are not free.
  function Used(fat: Table): nat {
    if fat == [] then 0 else (if fat[0] != 0 then 1 else 0) + Used(fat[1..])
  }

  lemma {:induction false} UsedUpdate(fat: Table, k: nat, v: nat)
    requires k < |fat|
    ensures Used(fat[k := v]) + (if fat[k] != 0 then 1 else 0) == Used(fat) + (if v != 0 then 1 else 0)
  {
    if k == 0 {
      assert fat[k := v][1..] == fat[1..];
    } else {
      UsedUpdate(fat[1..], k - 1, v);
      assert fat[k := v][1..] == fat[1..][k - 1 := v];
    }
  }

  // The table remove_chain leaves, on any contents, cycles included: every
  // step frees an entry that was not free.
  function Removed(fat: Table, clst: nat): (r: Table)
    requires 2 <= clst
    ensures |r| == |fat|
    decreases Used(fat)
  {
    if clst >= |fat| || fat[clst] < 2 then fat
    else
      UsedUpdate(fat, clst, 0);
      Removed(fat[clst := 0], fat[clst])
  }

  // remove_chain succeeds unless it runs into the reserved value 1.
  function RemoveOk(fat: Table, clst: nat): bool
    requires 2 <= clst
    decreases Used(fat)
  {
    if clst >= |fat| then true
    else if fat[clst] < 2 then fat[clst] == 0
    else
      UsedUpdate(fat, clst, 0);
      RemoveOk(fat[clst := 0], fat[clst])
  }

  // Removing a chain frees exactly its clusters.
  lemma {:induction false} RemovedChain(fat: Table, c: seq<nat>)
    requires Chain(fat, c)
    ensures InRange(fat, c[0]) && RemoveOk(fat, c[0])
    ensures forall k :: 0 <= k < |fat| ==> Removed(fat, c[0])[k] == if k in c then 0 else fat[k]
    decreases |c|
  {
    var next := fat[c[0] := 0];
    LinkAt(fat, c, 0);
    UsedUpdate(fat, c[0], 0);
    if |c| > 1 {
      var rest := c[1..];
      assert c == [c[0]] + rest;
      TailChain(fat, c);
      RemovedChain(next, rest);
    }
  }

  lemma TailChain(fat: Table, c: seq<nat>)
    requires Chain(fat, c) && |c| > 1
    ensures InRange(fat, c[0]) && Chain(fat[c[0] := 0], c[1..])
  {
    var next, rest := fat[c[0] := 0], c[1..];
    forall i | 0 <= i < |rest|
      ensures InRange(next, rest[i]) && next[rest[i]] == fat[c[i + 1]]
    {
      ChainDistinct(fat, c, 0, i + 1);
    }
    forall i | 0 <= i < |rest| - 1
      ensures next[rest[i]] == rest[i + 1]
    {
      LinkAt(fat, c, i + 1);
    }
  }

  // Removing the head of a chain removes that chain and changes no other.
  lemma RemovedHead(fat: Table, chains: set<seq<nat>>, c: seq<nat>)
    requires Forest(fat, chains) && c in chains
    ensures RemoveOk(fat, c[0])
    ensures Forest(Removed(fat, c[0]), chains - {c})
    ensures forall k :: k in c ==> Removed(fat, c[0])[k] == 0
    ensures forall k :: 0 <= k < |fat| && k !in c ==> Removed(fat, c[0])[k] == fat[k]
  {
    hide Chain;
    ChainInside(fat, c);
    RemovedChain(fat, c);
    var next := Removed(fat, c[0]);
    forall d | d in chains - {c}
      ensures Disjoint(d, c)
    {
    }
    forall k: nat | InRange(next, k) && next[k] != 0
      ensures InSome(chains - {c}, k)
    {
      var d :| d in chains && k in d;
      assert d in chains - {c};
    }
    Replace(fat, next, chains, {c}, {});
    assert chains - {c} + {} == chains - {c};
  }

  // Cutting a chain after its i-th cluster, then freeing the rest of it:
  // what f_truncate does. Only that chain changes, to its first i + 1 clusters.
  lemma CutThenFree(fat: Table, chains: set<seq<nat>>, c: seq<nat>, i: nat, eoc: nat)
    requires Forest(fat, chains) && c in chains && i + 1 < |c| && eoc >= |fat|
    ensures InRange(fat, c[i]) && fat[c[i]] == c[i + 1]
    ensures RemoveOk(fat[c[i] := eoc], c[i + 1])
    ensures Forest(Removed(fat[c[i] := eoc], c[i + 1]), chains - {c} + {c[..i + 1]})
    ensures forall k :: 0 <= k < |fat| && k !in c ==> Removed(fat[c[i] := eoc], c[i + 1])[k] == fat[k]
  {
    hide Chain;
    ChainInside(fat, c);
    CutEntries(fat, c, i, eoc);
    var keep, rest := c[..i + 1], c[i + 1..];
    assert c == keep + rest;
    var next := Removed(fat[c[i] := eoc], c[i + 1]);
    CutNotFreed(fat, c, i);
    KeptChain(fat, next, c, i);
    forall d | d in chains - {c}
      ensures Disjoint(d, c) && Disjoint(c, d) && Disjoint(keep, d)
    {
      assert forall k :: k in keep ==> k in c;
      assert Disjoint(c, d);
    }
    forall k: nat | InRange(next, k) && next[k] != 0
      ensures InSome({keep}, k) || InSome(chains - {c}, k)
    {
      if k in c {
        assert k in keep;
      } else {
        var d :| d in chains && k in d;
        assert d in chains - {c};
      }
    }
    Replace(fat, next, chains, {c}, {keep});
  }

  lemma CutEntries(fat: Table, c: seq<nat>, i: nat, eoc: nat)
    requires Chain(fat, c) && i + 1 < |c| && eoc >= |fat|
    ensures InRange(fat, c[i]) && fat[c[i]] == c[i + 1] && InRange(fat, c[i + 1])
    ensures RemoveOk(fat[c[i] := eoc], c[i + 1])
    ensures forall k :: 0 <= k < |fat| ==>
      Removed(fat[c[i] := eoc], c[i + 1])[k] == if k in c[i + 1..] then 0 else if k == c[i] then eoc else fat[k]
  {
    LinkAt(fat, c, i);
    LinkAt(fat, c, i + 1);
    var cut := fat[c[i] := eoc];
    var rest := c[i + 1..];
    forall j | 0 <= j < |rest|
      ensures InRange(cut, rest[j]) && cut[rest[j]] == fat[c[i + 1 + j]]
    {
      LinkAt(fat, c, i + 1 + j);
      ChainDistinct(fat, c, i, i + 1 + j);
    }
    forall j | 0 <= j < |rest| - 1
      ensures cut[rest[j]] == rest[j + 1]
    {
      LinkAt(fat, c, i + 1 + j);
    }
    RemovedChain(cut, rest);
  }

  lemma CutNotFreed(fat: Table, c: seq<nat>, i: nat)
    requires Chain(fat, c) && i + 1 < |c|
    ensures c[i] !in c[i + 1..]
  {
    if c[i] in c[i + 1..] {
      var m: nat :| m < |c[i + 1..]| && c[i + 1..][m] == c[i];
      ChainDistinct(fat, c, i, i + 1 + m);
    }
  }

  lemma KeptChain(fat: Table, next: Table, c: seq<nat>, i: nat)
    requires Chain(fat, c) && i + 1 < |c| && |next| == |fat|
    requires forall k :: 0 <= k < |fat|
               ==> next[k] == if k in c[i + 1..] then 0 else if k == c[i] then next[c[i]] else fat[k]
    requires InRange(fat, c[i]) && next[c[i]] >= |fat|
    ensures Chain(next, c[..i + 1])
  {
    var keep := c[..i + 1];
    forall j: nat | j < |keep|
      ensures keep[j] !in c[i + 1..]
    {
      if keep[j] in c[i + 1..] {
        var m: nat :| m < |c[i + 1..]| && c[i + 1..][m] == keep[j];
        ChainDistinct(fat, c, j, i + 1 + m);
      }
    }
    forall j | 0 <= j < |keep| - 1
      ensures next[keep[j]] == keep[j + 1]
    {
      LinkAt(fat, c, j);
      ChainDistinct(fat, c, j, i);
    }
  }

  // ---- Every sequence of allocator calls ----

  datatype AllocOp =
    | NewOp(ncl: nat)                     // create_chain(0) took free cluster ncl
    | StretchOp(c: seq<nat>, ncl: nat)    // create_chain of the last cluster of c took ncl
    | RemoveOp(c: seq<nat>)               // remove_chain of the head of c
    | CutOp(c: seq<nat>, i: nat)          // f_truncate's cut behind c[i]

  // The call may happen: what it takes is free, the chain it names is there.
  ghost predicate Enabled(fat: Table, chains: set<seq<nat>>, op: AllocOp) {
    match op
    case NewOp(ncl) => InRange(fat, ncl) && fat[ncl] == 0
    case StretchOp(c, ncl) => c in chains && InRange(fat, ncl) && fat[ncl] == 0
    case RemoveOp(c) => c in chains
    case CutOp(c, i) => c in chains && i + 1 < |c|
  }

  // The table the call leaves.
  ghost function Apply(fat: Table, eoc: nat, op: AllocOp): (r: Table)
    ensures |r| == |fat|
  {
    match op
    case NewOp(ncl) => if ncl < |fat| then fat[ncl := eoc] else fat
    case StretchOp(c, ncl) =>
      if 0 < |c| && c[|c| - 1] < |fat| && ncl < |fat| then fat[ncl := eoc][c[|c| - 1] := ncl] else fat
    case RemoveOp(c) => if 0 < |c| && 2 <= c[0] then Removed(fat, c[0]) else fat
    case CutOp(c, i) =>
      if i + 1 < |c| && c[i] < |fat| && 2 <= c[i + 1] then Removed(fat[c[i] := eoc], c[i + 1]) else fat
  }

  // The set of chains it leaves: one chain new, longer, gone or shorter.
  ghost function ApplyChains(chains: set<seq<nat>>, op: AllocOp): set<seq<nat>> {
    match op
    case NewOp(ncl) => chains + {[ncl]}
    case StretchOp(c, ncl) => chains - {c} + {c + [ncl]}
    case RemoveOp(c) => chains - {c}
    case CutOp(c, i) => chains - {c} + {if i < |c| then c[..i + 1] else c}
  }

  // One call turns the forest into the forest of ApplyChains.
  lemma StepKeepsForest(fat: Table, chains: set<seq<nat>>, eoc: nat, op: AllocOp)
    requires Forest(fat, chains) && Enabled(fat, chains, op) && eoc >= |fat|
    ensures Forest(Apply(fat, eoc, op), ApplyChains(chains, op))
  {
    hide Chain, Removed;
    match op {
      case NewOp(ncl) => NewChain(fat, chains, ncl, eoc);
      case StretchOp(c, ncl) =>
        ChainInside(fat, c);
        assert c[|c| - 1] in c;
        StretchedChain(fat, chains, c, ncl, eoc);
      case RemoveOp(c) =>
        ChainInside(fat, c);
        assert c[0] in c;
        RemovedHead(fat, chains, c);
      case CutOp(c, i) =>
        ChainInside(fat, c);
        assert c[i] in c && c[i + 1] in c;
        CutThenFree(fat, chains, c, i, eoc);
    }
  }

  // A run: each call may happen in the state the calls before it left.
  ghost predicate Run(fat: Table, chains: set<seq<nat>>, eoc: nat, ops: seq<AllocOp>)
    decreases |ops|
  {
    ops == [] || (Enabled(fat, chains, ops[0])
        && Run(Apply(fat, eoc, ops[0]), ApplyChains(chains, ops[0]), eoc, ops[1..]))
  }

  ghost function RunTable(fat: Table, eoc: nat, ops: seq<AllocOp>): Table
    decreases |ops|
  {
    if ops == [] then fat else RunTable(Apply(fat, eoc, ops[0]), eoc, ops[1..])
  }

  ghost function RunChains(chains: set<seq<nat>>, ops: seq<AllocOp>): set<seq<nat>>
    decreases |ops|
  {
    if ops == [] then chains else RunChains(ApplyChains(chains, ops[0]), ops[1..])
  }

  // Whatever the sequence of calls, the table stays a set of disjoint, acyclic,
  // terminated chains, and exactly the ones the calls name have changed.
  lemma {:induction false} RunKeepsForest(fat: Table, chains: set<seq<nat>>, eoc: nat, ops: seq<AllocOp>)
    requires Forest(fat, chains) && Run(fat, chains, eoc, ops) && eoc >= |fat|
    ensures Forest(RunTable(fat, eoc, ops), RunChains(chains, ops))
    decreases |ops|
  {
    if ops != [] {
      StepKeepsForest(fat, chains, eoc, ops[0]);
      RunKeepsForest(Apply(fat, eoc, ops[0]), ApplyChains(chains, ops[0]), eoc, ops[1..]);
    }
  }

  // ---- Counting free clusters ----

  function FreeBelow(fat: Table, m: nat): nat
    requires m <= |fat|
  {
    if m <= 2 then 0 else FreeBelow(fat, m - 1) + (if fat[m - 1] == 0 then 1 else 0)
  }

  // Number of free clusters.
  function Free(fat: Table): nat {
    FreeBelow(fat, |fat|)
  }

  lemma {:induction false} FreeUpdate(fat: Table, k: nat, v: nat, m: nat)
    requires InRange(fat, k) && m <= |fat|
    ensures FreeBelow(fat[k := v], m) + (if k < m && fat[k] == 0 then 1 else 0)
         == FreeBelow(fat, m) + (if k < m && v == 0 then 1 else 0)
  {
    if m > 2 {
      FreeUpdate(fat, k, v, m - 1);
    }
  }

  lemma {:induction false} FreeBound(fat: Table, m: nat)
    requires 2 <= m <= |fat|
    ensures FreeBelow(fat, m) <= m - 2
  {
    if m > 2 {
      FreeBound(fat, m - 1);
    }
  }
}
