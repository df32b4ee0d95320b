// Runs of allocator calls on a volume (ff.c: create_chain, remove_chain and the cut of
// f_truncate), against the model of such runs.
module FatRuns {
  import opened FatVolume
  import opened FatChains
  import opened FatAlloc
  import opened Options

  datatype Call =
    | Create                     // create_chain(0)
    | Stretch(tail: nat)         // create_chain of the last cluster of a chain
    | Remove(head: nat)          // remove_chain of the first cluster of a chain
    | Cut(clst: nat)             // f_truncate's cut behind a cluster of a chain

  // What a call may amount to: one operation, or none where nothing is free or nothing
  // lies behind the cut.
  ghost predicate Outcome(fat: Table, chains: set<seq<nat>>, call: Call, did: Option<AllocOp>) {
    match did
    case None =>
      (match call
       case Cut(clst) => clst < |fat| <= fat[clst]
       case Remove(_) => false
       case _ => forall k :: 2 <= k < |fat| ==> fat[k] != 0)
    case Some(op) => Enabled(fat, chains, op) && match call
      case Create => op.NewOp?
      case Stretch(tail) => op.StretchOp? && op.c != [] && op.c[|op.c| - 1] == tail
      case Remove(head) => op.RemoveOp? && op.c != [] && op.c[0] == head
      case Cut(clst) => op.CutOp? && op.i < |op.c| && op.c[op.i] == clst
  }

  // What the caller is told: the cluster allocated, or 0.
  function ResultOf(did: Option<AllocOp>): nat {
    match did
    case Some(NewOp(ncl)) => ncl
    case Some(StretchOp(_, ncl)) => ncl
    case _ => 0
  }

  ghost function Follow(fat: Table, eoc: nat, did: Option<AllocOp>): Table {
    if did.None? then fat else Apply(fat, eoc, did.value)
  }

  ghost function FollowChains(chains: set<seq<nat>>, did: Option<AllocOp>): set<seq<nat>> {
    if did.None? then chains else ApplyChains(chains, did.value)
  }

  // The call names a chain of the volume.
  ghost predicate Named(chains: set<seq<nat>>, call: Call) {
    match call
    case Create => true
    case Stretch(tail) => exists c :: c in chains && c != [] && c[|c| - 1] == tail
    case Remove(head) => exists c :: c in chains && c != [] && c[0] == head
    case Cut(clst) => exists c :: c in chains && clst in c
  }

  // A client chooses each call by the results of its calls so far.
  type Client = seq<nat> -> Call

  // Its next n calls each name a chain of the volume at their time, whatever the calls
  // before came to.
  ghost predicate Proper(fat: Table, chains: set<seq<nat>>, eoc: nat, client: Client, results: seq<nat>, n: nat)
    decreases n
  {
    n == 0 || (Named(chains, client(results))
      && forall did :: Outcome(fat, chains, client(results), did) ==>
           Proper(Follow(fat, eoc, did), FollowChains(chains, did), eoc, client, results + [ResultOf(did)], n - 1))
  }

  // The volume came from one state to another by these operations.
  ghost predicate Reached(fat: Table, chains: set<seq<nat>>, eoc: nat, ops: seq<AllocOp>, now: Table,
                          nowChains: set<seq<nat>>) {
    Run(fat, chains, eoc, ops) && now == RunTable(fat, eoc, ops) && nowChains == RunChains(chains, ops)
  }

  lemma {:induction false} OneMoreOp(fat: Table, chains: set<seq<nat>>, eoc: nat, ops: seq<AllocOp>, now: Table,
                                     nowChains: set<seq<nat>>, op: AllocOp)
    requires Reached(fat, chains, eoc, ops, now, nowChains) && Enabled(now, nowChains, op)
    ensures Reached(fat, chains, eoc, ops + [op], Apply(now, eoc, op), ApplyChains(nowChains, op))
    decreases |ops|
  {
    hide Enabled, Apply, ApplyChains;
    if ops == [] {
      assert ops + [op] == [op] && [op][1..] == [];
      assert Reached(Apply(now, eoc, op), ApplyChains(nowChains, op), eoc, [], Apply(now, eoc, op),
                     ApplyChains(nowChains, op));
    } else {
      OneMoreOp(Apply(fat, eoc, ops[0]), ApplyChains(chains, ops[0]), eoc, ops[1..], now, nowChains, op);
      assert (ops + [op])[1..] == ops[1..] + [op];
    }
  }

  // The chain a call names, and where in it.
  lemma NamedChain(fat: Table, chains: set<seq<nat>>, call: Call) returns (c: seq<nat>, i: nat)
    requires Forest(fat, chains) && Named(chains, call) && !call.Create?
    ensures c in chains && Chain(fat, c) && i < |c| && InRange(fat, c[i]) && 2 <= fat[c[i]]
    ensures if i + 1 < |c| then fat[c[i]] == c[i + 1] < |fat| else fat[c[i]] >= |fat|
    ensures match call
      case Stretch(tail) => i == |c| - 1 && c[i] == tail
      case Remove(head) => i == 0 && c[i] == head
      case Cut(clst) => c[i] == clst
  {
    hide Chain;
    match call {
      case Stretch(tail) =>
        c :| c in chains && c != [] && c[|c| - 1] == tail;
        i := |c| - 1;
      case Remove(head) =>
        c :| c in chains && c != [] && c[0] == head;
        i := 0;
      case Cut(clst) =>
        c :| c in chains && clst in c;
        i :| i < |c| && c[i] == clst;
    }
    LinkAt(fat, c, i);
  }

  // One call on the volume, with one of its outcomes.
  method Do(fs: FatFs, call: Call, ghost chains: set<seq<nat>>) returns (result: nat, ghost did: Option<AllocOp>)
    requires fs.Valid() && Forest(Entries(fs), chains) && Named(chains, call)
    modifies fs`disk, fs`wflag, fs`winsect, fs`lastClust, fs`freeClust, fs`fsiDirty, fs.win
    ensures fs.Valid() && Outcome(old(Entries(fs)), chains, call, did) && result == ResultOf(did)
    ensures Entries(fs) == Follow(old(Entries(fs)), Eoc(fs.g.fsType), did)
    ensures old(CountRight(fs)) ==> CountRight(fs)
  {
    hide FatFs.Valid, FatFs.Synced, Forest, Chain, Removed, RemoveOk, OnlyFat, CountRight, Passed, Outcome, Apply,
         Named, Entries;
    ghost var fat, eoc := Entries(fs), Eoc(fs.g.fsType);
    NoReserved(fat, chains);
    did, result := None, 0;
    match call {
      case Create =>
        var ncl := CreateChain(fs, 0);
        NoneFree(fat, chains, call);
        if ncl >= 2 {
          did, result := Some(NewOp(ncl)), ncl;
          Created(fat, chains, eoc, ncl);
        }
      case Stretch(tail) =>
        ghost var c, i := NamedChain(fat, chains, call);
        var ncl := CreateChain(fs, tail);
        NoneFree(fat, chains, call);
        if ncl >= 2 {
          did, result := Some(StretchOp(c, ncl)), ncl;
          Stretched(fat, chains, eoc, c, ncl);
        }
      case Remove(head) =>
        ghost var c, i := NamedChain(fat, chains, call);
        var ok := RemoveChain(fs, head);
        did := Some(RemoveOp(c));
        Gone(fat, chains, eoc, c);
      case Cut(clst) =>
        ghost var c, i := NamedChain(fat, chains, call);
        CutBehind(fs, clst);
        if i + 1 < |c| {
          did := Some(CutOp(c, i));
          Shortened(fat, chains, eoc, c, i);
        } else {
          NothingBehind(fat, chains, clst);
        }
    }
  }

  lemma NoneFree(fat: Table, chains: set<seq<nat>>, call: Call)
    requires call.Create? || call.Stretch?
    ensures (forall k :: 2 <= k < |fat| ==> fat[k] != 0) ==> Outcome(fat, chains, call, None)
  {
  }

  lemma NothingBehind(fat: Table, chains: set<seq<nat>>, clst: nat)
    requires clst < |fat| <= fat[clst]
    ensures Outcome(fat, chains, Cut(clst), None)
  {
  }

  lemma Created(fat: Table, chains: set<seq<nat>>, eoc: nat, ncl: nat)
    requires InRange(fat, ncl) && fat[ncl] == 0
    ensures Outcome(fat, chains, Create, Some(NewOp(ncl))) && Apply(fat, eoc, NewOp(ncl)) == fat[ncl := eoc]
  {
  }

  lemma Stretched(fat: Table, chains: set<seq<nat>>, eoc: nat, c: seq<nat>, ncl: nat)
    requires c in chains && c != [] && c[|c| - 1] < |fat| && InRange(fat, ncl) && fat[ncl] == 0
    ensures Outcome(fat, chains, Stretch(c[|c| - 1]), Some(StretchOp(c, ncl)))
    ensures Apply(fat, eoc, StretchOp(c, ncl)) == fat[ncl := eoc][c[|c| - 1] := ncl]
  {
  }

  lemma Gone(fat: Table, chains: set<seq<nat>>, eoc: nat, c: seq<nat>)
    requires c in chains && c != [] && 2 <= c[0]
    ensures Outcome(fat, chains, Remove(c[0]), Some(RemoveOp(c))) && Apply(fat, eoc, RemoveOp(c)) == Removed(fat, c[0])
  {
    hide Removed;
  }

  lemma Shortened(fat: Table, chains: set<seq<nat>>, eoc: nat, c: seq<nat>, i: nat)
    requires c in chains && i + 1 < |c| && c[i] < |fat| && 2 <= c[i + 1]
    ensures Outcome(fat, chains, Cut(c[i]), Some(CutOp(c, i)))
    ensures Apply(fat, eoc, CutOp(c, i)) == Removed(fat[c[i] := eoc], c[i + 1])
  {
    hide Removed;
  }

  // No entry of a set of chains is the reserved value 1.
  lemma NoReserved(fat: Table, chains: set<seq<nat>>)
    requires Forest(fat, chains)
    ensures forall k :: 2 <= k < |fat| ==> fat[k] != 1
  {
    hide Chain;
    forall k | 2 <= k < |fat| ensures fat[k] != 1 {
      if fat[k] != 0 {
        assert InRange(fat, k);
        var c :| c in chains && k in c;
        var i: nat :| i < |c| && c[i] == k;
        LinkAt(fat, c, i);
      }
    }
  }

  // Any client, any number of calls: the volume ends where the model's run of their
  // outcomes ends, a set of disjoint, acyclic, terminated chains throughout.
  method RunCalls(fs: FatFs, client: Client, n: nat, ghost chains: set<seq<nat>>)
    returns (results: seq<nat>, ghost ops: seq<AllocOp>)
    requires fs.Valid() && Forest(Entries(fs), chains) && Proper(Entries(fs), chains, Eoc(fs.g.fsType), client, [], n)
    modifies fs`disk, fs`wflag, fs`winsect, fs`lastClust, fs`freeClust, fs`fsiDirty, fs.win
    ensures fs.Valid() && |results| == n >= |ops| && Run(old(Entries(fs)), chains, Eoc(fs.g.fsType), ops)
    ensures Entries(fs) == RunTable(old(Entries(fs)), Eoc(fs.g.fsType), ops)
    ensures Forest(Entries(fs), RunChains(chains, ops))
    ensures old(CountRight(fs)) ==> CountRight(fs)
  {
    hide FatFs.Valid, FatFs.Synced, Forest, Named, Outcome, Apply, ApplyChains, CountRight, Run, RunTable, RunChains,
         Reached;
    ghost var fat, eoc, now := Entries(fs), Eoc(fs.g.fsType), chains;
    results, ops := [], [];
    NothingYet(fat, chains, eoc);
    while |results| < n
      invariant |ops| <= |results| <= n && fs.Valid() && Forest(Entries(fs), now)
      invariant Reached(fat, chains, eoc, ops, Entries(fs), now)
      invariant Proper(Entries(fs), now, eoc, client, results, n - |results|)
      invariant old(CountRight(fs)) ==> CountRight(fs)
    {
      ghost var before := Entries(fs);
      var call := client(results);
      var result;
      ghost var did;
      result, did := Do(fs, call, now);
      if did.Some? {
        EndMark(fs);
        OutcomeEnabled(before, now, call, did.value);
        OneMoreOp(fat, chains, eoc, ops, before, now, did.value);
        StepKeepsForest(before, now, eoc, did.value);
        ops, now := ops + [did.value], ApplyChains(now, did.value);
      }
      results := results + [result];
    }
    Arrived(fat, chains, eoc, ops, Entries(fs), now);
  }

  // A client that creates a chain and stretches it for ever, starting another whenever
  // nothing is free.
  function Grow(results: seq<nat>): Call {
    if results == [] || results[|results| - 1] == 0 then Create else Stretch(results[|results| - 1])
  }

  // It is proper: what a call created can be named by the next.
  lemma {:induction false} GrowIsProper(fat: Table, chains: set<seq<nat>>, eoc: nat, results: seq<nat>, n: nat)
    requires Named(chains, Grow(results))
    ensures Proper(fat, chains, eoc, Grow, results, n)
    decreases n
  {
    hide Outcome, Follow, FollowChains, ResultOf, Named;
    if n > 0 {
      forall did | Outcome(fat, chains, Grow(results), did)
        ensures Proper(Follow(fat, eoc, did), FollowChains(chains, did), eoc, Grow, results + [ResultOf(did)], n - 1)
      {
        var more := results + [ResultOf(did)];
        assert more[|more| - 1] == ResultOf(did);
        if ResultOf(did) != 0 {
          GrownNamed(fat, chains, Grow(results), did);
        } else {
          AlwaysNamed(FollowChains(chains, did));
        }
        GrowIsProper(Follow(fat, eoc, did), FollowChains(chains, did), eoc, more, n - 1);
      }
    }
  }

  lemma AlwaysNamed(chains: set<seq<nat>>)
    ensures Named(chains, Create)
  {
  }

  lemma GrownNamed(fat: Table, chains: set<seq<nat>>, call: Call, did: Option<AllocOp>)
    requires Outcome(fat, chains, call, did) && ResultOf(did) != 0
    ensures Named(FollowChains(chains, did), Stretch(ResultOf(did)))
  {
    var next := FollowChains(chains, did);
    match did.value {
      case NewOp(ncl) => assert [ncl] in next;
      case StretchOp(c, ncl) =>
        assert c + [ncl] in next && (c + [ncl])[|c|] == ncl;
    }
  }

  lemma NothingYet(fat: Table, chains: set<seq<nat>>, eoc: nat)
    ensures Reached(fat, chains, eoc, [], fat, chains)
  {
  }

  lemma Arrived(fat: Table, chains: set<seq<nat>>, eoc: nat, ops: seq<AllocOp>, now: Table, nowChains: set<seq<nat>>)
    requires Reached(fat, chains, eoc, ops, now, nowChains)
    ensures Run(fat, chains, eoc, ops) && now == RunTable(fat, eoc, ops) && nowChains == RunChains(chains, ops)
  {
  }

  lemma OutcomeEnabled(fat: Table, chains: set<seq<nat>>, call: Call, op: AllocOp)
    requires Outcome(fat, chains, call, Some(op))
    ensures Enabled(fat, chains, op)
  {
  }

  lemma EndMark(fs: FatFs)
    requires fs.Valid()
    ensures Eoc(fs.g.fsType) >= |Entries(fs)|
  {
    Limits(fs.g, |fs.disk|);
  }
}
