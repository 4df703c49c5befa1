/** CREATE from end to end: the naming server together with the storage servers that it asks. */
module Creation {
  import opened Elements
  import opened Text
  import opened Registry
  import opened FileTree
  import opened Disks
  import opened NamingServer
  import StorageServer

  /** CREATE with one or two storage servers, where `disk` is the first one's. A path that is indexed is
      left alone; any other is indexed whatever the storage server does, and what it then names is
      there exactly under a condition on the tree before. */
  method CreateOnFirst(ns: NameServer, disk: Disk, path: string) returns (text: Option<string>)
    requires ns.Valid() && disk.Valid() && IsWord(path) && NUL !in path
    requires |ns.Current().servers| in {1, 2}
    requires !IsIndexed(ns.Current(), path) ==> ns.Current().servers[0].numPaths < MAX_PATHS
    modifies ns, ns.storageServers, ns.index, ns.index.buckets, ns.index.nodes, disk
    ensures ns.Valid() && disk.Valid()
    ensures text == None <==> IsIndexed(old(ns.Current()), path)
    ensures text == None ==> ns.Current() == old(ns.Current()) && disk.tree == old(disk.tree)
    ensures text != None ==> IsCreation(old(ns.Current()), ns.Current(), path)
    ensures text != None ==> IsWork(old(disk.tree), disk.tree, disk.cwd, path, text.value)
  {
    text := None;
    var s := ns.Resolve(path);
    if s == None {
      var reply := CreateNew(ns, disk, path, ns.Current(), disk.tree);
      text := Some(reply);
    }
  }

  method CreateNew(ns: NameServer, disk: Disk, path: string, ghost v: View, ghost t: Tree) returns (reply: string)
    requires ns.Valid() && disk.Valid() && IsWord(path) && NUL !in path
    requires v == ns.Current() && t == disk.tree && !IsIndexed(v, path)
    requires |v.servers| in {1, 2} && v.servers[0].numPaths < MAX_PATHS
    modifies ns, ns.storageServers, ns.index, ns.index.buckets, ns.index.nodes, disk
    ensures ns.Valid() && disk.Valid()
    ensures IsCreation(v, ns.Current(), path) && IsWork(t, disk.tree, disk.cwd, path, reply)
  {
    assert Sound(ns.storageServers[0]);
    reply := Ask(disk, "CREATE " + path, path);
    assert ns.Current() == v;
    var jobs := ns.Create(path, Some(reply));
  }

  /** What the storage server did: the answer is "1" or "4" exactly when the creation works, and
      something is there afterwards exactly under its own condition, whatever the answer. */
  ghost predicate IsWork(t: Tree, u: Tree, cwd: Position, path: string, reply: string)
    requires path != []
  {
    && reply != "-1" && (reply in {"1", "4"} <==> StorageServer.CreateWorks(t, cwd, path))
    && (StorageServer.Names(u, cwd, path) <==> StorageServer.WillName(t, cwd, path))
  }

  /** The request as the storage server gets it, takes it apart and does it. */
  method Ask(disk: Disk, request: string, ghost path: string) returns (reply: string)
    requires disk.Valid() && IsWord(path) && NUL !in path && request == "CREATE " + path
    modifies disk
    ensures disk.Valid() && IsWork(old(disk.tree), disk.tree, disk.cwd, path, reply)
  {
    WordAfterCreate(path);
    StorageServer.CreateSucceedsExactly(disk.tree, disk.cwd, path);
    StorageServer.CreateNamesExactly(disk.tree, disk.cwd, path);
    reply := StorageServer.Create(disk, Words(request)[1]);
  }

  /** The servers whose replies are taken for a success, in the order of the replies. */
  function Succeeded(order: seq<nat>, replies: seq<string>): seq<nat>
    requires |order| == |replies|
    decreases |order|
  {
    if order == [] then []
    else
      var n := |order| - 1;
      Succeeded(order[..n], replies[..n]) + if replies[n] != "-1" then [order[n]] else []
  }

  lemma {:induction false} SucceededContent(order: seq<nat>, replies: seq<string>)
    requires |order| == |replies|
    ensures forall k :: k in Succeeded(order, replies) <==>
      exists j :: 0 <= j < |order| && order[j] == k && replies[j] != "-1"
    ensures Distinct(order) ==> Distinct(Succeeded(order, replies))
    decreases |order|
  {
    if order != [] {
      var n := |order| - 1;
      SucceededContent(order[..n], replies[..n]);
      var r := Succeeded(order[..n], replies[..n]);
      SucceededSnoc(order, replies, r);
      if Distinct(order) {
        forall i | 0 <= i < |r| ensures r[i] != order[n] {
          assert r[i] in r && r[i] in order[..n];
        }
      }
    }
  }

  lemma {:induction false} SucceededSnoc(order: seq<nat>, replies: seq<string>, r: seq<nat>)
    requires |order| == |replies| > 0
    requires forall k :: k in r <==> exists j :: 0 <= j < |order| - 1 && order[j] == k && replies[j] != "-1"
    ensures var s := r + if replies[|order| - 1] != "-1" then [order[|order| - 1]] else [];
      forall k :: k in s <==> exists j :: 0 <= j < |order| && order[j] == k && replies[j] != "-1"
  {
  }

  /** CREATE with three storage servers or more: the jobs are started, and the handlers of some of
      servers 0, 1 and 2 complete in the given order with the given replies. */
  method CreateOnThree(ns: NameServer, path: string, order: seq<nat>, replies: seq<string>)
    requires ns.Valid() && IsWord(path) && |ns.Current().servers| >= 3 && !IsIndexed(ns.Current(), path)
    requires |order| == |replies| && forall j :: 0 <= j < |order| ==> order[j] < 3
    modifies ns, ns.storageServers, ns.index, ns.index.buckets, ns.index.nodes
    ensures ns.Valid()
    ensures Completes(old(ns.Current()), Replicas(path), Succeeded(order, replies), ns.Current())
  {
    var jobs := ns.Create(path, None);
    HandleAll(ns, jobs, path, order, replies, ns.Current());
  }

  method HandleAll(ns: NameServer, jobs: seq<Job>, path: string, order: seq<nat>, replies: seq<string>, ghost v: View)
    requires ns.Valid() && IsWord(path) && |v.servers| >= 3 && v == ns.Current() && jobs == Jobs(path)
    requires |order| == |replies| && forall j :: 0 <= j < |order| ==> order[j] < 3
    modifies ns, ns.storageServers, ns.index, ns.index.buckets, ns.index.nodes
    ensures ns.Valid() && Completes(v, Replicas(path), Succeeded(order, replies), ns.Current())
  {
    ghost var done := [];
    var i := 0;
    while i < |order|
      invariant 0 <= i <= |order| && ns.Valid() && ns.IndexKept()
      invariant |ns.Current().servers| >= 3 && done == Succeeded(order[..i], replies[..i])
      invariant Completes(v, Replicas(path), done, ns.Current())
    {
      done := Handle(ns, jobs, path, order[i], replies[i], v, done);
      SucceededNext(order, replies, i);
      i := i + 1;
    }
    assert order[..i] == order && replies[..i] == replies;
  }

  lemma {:induction false} SucceededNext(order: seq<nat>, replies: seq<string>, i: nat)
    requires i < |order| == |replies|
    ensures Succeeded(order[..i + 1], replies[..i + 1])
      == Succeeded(order[..i], replies[..i]) + if replies[i] != "-1" then [order[i]] else []
  {
    assert order[..i + 1][..i] == order[..i] && replies[..i + 1][..i] == replies[..i];
  }

  /** The handler of server `k` completes. */
  method Handle(ns: NameServer, jobs: seq<Job>, path: string, k: nat, reply: string, ghost v: View,
                ghost done: seq<nat>)
    returns (ghost done': seq<nat>)
    requires ns.Valid() && IsWord(path) && |ns.Current().servers| >= 3 && k < 3 && jobs == Jobs(path)
    requires Completes(v, Replicas(path), done, ns.Current())
    modifies ns, ns.storageServers, ns.index, ns.index.buckets, ns.index.nodes
    ensures ns.Valid() && ns.IndexKept() && |ns.Current().servers| >= 3
    ensures done' == done + (if reply != "-1" then [k] else [])
    ensures Completes(v, Replicas(path), done', ns.Current())
  {
    ghost var w := ns.Current();
    var job := JobOf(jobs, path, k);
    ns.CompleteJob(job, reply);
    done' := done + if reply != "-1" then [k] else [];
    HandledNext(v, Replicas(path), done, w, k, reply != "-1", done', ns.Current());
  }

  method JobOf(jobs: seq<Job>, ghost path: string, k: nat) returns (job: Job)
    requires k < 3 && jobs == Jobs(path) && IsWord(path)
    ensures job.server == k && PathOf(job.buffer) == Some(Replicas(path)[k])
  {
    JobsIndexReplicas(path);
    job := if k == 0 then jobs[2] else jobs[k - 1];
  }

  lemma {:induction false} HandledNext(v: View, keys: seq<string>, done: seq<nat>, w: View, k: nat, noted: bool,
                                       done': seq<nat>, w': View)
    requires Completes(v, keys, done, w) && InReach(w, keys, k)
    requires w' == if noted then Created(w, k, k, keys[k]) else w
    requires done' == done + if noted then [k] else []
    ensures Completes(v, keys, done', w')
  {
    if noted {
      CompletesSnoc(v, keys, done, w, k);
    } else {
      assert done' == done;
    }
  }

  /** In whatever order the handlers complete, a lookup then finds each of the three paths that was
      created, and was not indexed before, on its own server, with that server's record. */
  method CreateAndResolve(ns: NameServer, path: string, order: seq<nat>, replies: seq<string>, k: nat)
    returns (found: Option<Server>)
    requires ns.Valid() && IsWord(path) && |ns.Current().servers| >= 3 && !IsIndexed(ns.Current(), path)
    requires |order| == |replies| && Distinct(order) && forall j :: 0 <= j < |order| ==> order[j] < 3
    requires k in Succeeded(order, replies) && k < 3 && !IsIndexed(ns.Current(), Replicas(path)[k])
    modifies ns, ns.storageServers, ns.index, ns.index.buckets, ns.index.nodes
    ensures ns.Valid() && k < |ns.Current().servers| && found == Some(ns.Current().servers[k])
  {
    ghost var v := ns.Current();
    CreateOnThree(ns, path, order, replies);
    SucceededContent(order, replies);
    FanOutBinds(v, path, Succeeded(order, replies), ns.Current(), k);
    found := ns.Resolve(Replicas(path)[k]);
  }
}
