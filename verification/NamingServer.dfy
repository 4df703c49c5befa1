/** The naming server: the array of storage servers and the path index, updated in place. What a
    storage server replies, and what fetching its path list comes to, are inputs. */
module NamingServer {
  import opened Elements
  import opened Text
  import opened Chains
  import opened PathIndex
  import opened LookupOrder
  import opened IndexRuns
  import opened RepeatedKeys
  import opened Registry
  import Listing

  /** What one of the asynchronous handlers of a creation is given: the number of a storage server
      and the request to send it. */
  datatype Job = Job(server: nat, buffer: string)

  /** What becomes of a COPY: a reply to the client, or a transfer between two storage servers. */
  datatype Copying = NoSource | NoDestination | Conflict | Transfer(source: Endpoint, destination: Endpoint)

  const NO_SERVER: Server := Server(Endpoint("", 0, 0, 0, 0), 0, seq(MAX_PATHS, _ => ""))

  /** The jobs of a creation, in the order they are started. */
  function Jobs(path: string): seq<Job> {
    [Job(1, "CREATE " + Backup('0', path)), Job(2, "CREATE " + Backup('1', path)), Job(0, "CREATE " + path)]
  }

  /** Their texts, for a path that starts with a dot and for one that does not. */
  lemma {:induction false} JobTexts(rest: string)
    ensures JobsAre("." + rest, "./Backup0" + rest, "./Backup1" + rest)
    ensures "." <= rest || JobsAre(rest, "./Backup0" + rest, "./Backup1" + rest)
  {
    BackupTexts(rest);
    TextsOfJobs("." + rest);
    TextsOfJobs(rest);
  }

  predicate JobsAre(path: string, path1: string, path2: string) {
    Jobs(path) == [Job(1, "CREATE " + path1), Job(2, "CREATE " + path2), Job(0, "CREATE " + path)]
  }

  lemma {:induction false} TextsOfJobs(path: string)
    ensures JobsAre(path, Replicas(path)[1], Replicas(path)[2])
  {
  }

  /** The path that a handler reads back from its request. */
  function PathOf(buffer: string): Option<string> {
    if |Words(buffer)| >= 2 then Some(Words(buffer)[1]) else None
  }

  lemma {:induction false} WordAfterCreate(path: string)
    requires IsWord(path)
    ensures PathOf("CREATE " + path) == Some(path)
  {
    assert IsWord("CREATE");
    assert "CREATE " + path == "CREATE" + [' '] + path;
    WordsOfTwo("CREATE", path);
    WordsOfOne(path);
  }

  /** For a path without white space, the handler of server `k` indexes replica `k`. */
  lemma {:induction false} JobsIndexReplicas(path: string)
    requires IsWord(path)
    ensures forall j :: 0 <= j < 3 ==> PathOf(Jobs(path)[j].buffer) == Some(Replicas(path)[Jobs(path)[j].server])
    ensures multiset([Jobs(path)[0].server, Jobs(path)[1].server, Jobs(path)[2].server]) == multiset{0, 1, 2}
  {
    var rest := RemovePrefix(path, ".");
    assert forall i :: 0 <= i < |rest| ==> rest[i] in path;
    WordAfterCreate(path);
    WordAfterCreate(Backup('0', path));
    WordAfterCreate(Backup('1', path));
  }

  /** getFileName: what follows the last slash of a path. */
  function FileName(path: string): string {
    path[LastSlash(path) + 1..]
  }

  /** The name at the end of a path: what follows a slash and has none, or all of a path without one. */
  ghost predicate EndsIn(path: string, name: string) {
    '/' !in name && (path == name || exists u :: path == u + "/" + name)
  }

  lemma {:induction false} FileNameExactly(path: string, name: string)
    ensures name == FileName(path) <==> EndsIn(path, name)
  {
    if EndsIn(path, name) && path != name {
      var u :| path == u + "/" + name;
      NameAfterSlash(path, u, name);
    }
    FileNameEnds(path);
  }

  lemma {:induction false} FileNameEnds(path: string)
    ensures EndsIn(path, FileName(path))
  {
    var i := LastSlash(path);
    NameAfterLast(path, i);
    if i >= 0 {
      SplitAtSlash(path, i);
    }
  }

  lemma {:induction false} NameAfterLast(path: string, i: int)
    requires -1 <= i < |path| && forall k :: i < k < |path| ==> path[k] != '/'
    ensures '/' !in path[i + 1..] && (i == -1 ==> path[i + 1..] == path)
  {
  }

  lemma {:induction false} SplitAtSlash(path: string, i: nat)
    requires i < |path| && path[i] == '/'
    ensures path == path[..i] + "/" + path[i + 1..]
  {
  }

  lemma {:induction false} NameAfterSlash(path: string, u: string, name: string)
    requires path == u + "/" + name && '/' !in name
    ensures FileName(path) == name
  {
    var n := |u|;
    assert path[n] == '/' && path[n + 1..] == name;
    assert forall k :: n < k < |path| ==> path[k] == name[k - n - 1];
    assert LastSlash(path) == n;
  }

  /** A server record with as many slots as the array has. */
  predicate Sound(s: Server) {
    |s.paths| == MAX_PATHS
  }

  /** Its count is one that the slots can hold. */
  predicate Listable(s: Server) {
    s.numPaths <= |s.paths|
  }

  /** What the two linear searches compare. */
  predicate IsNamed(s: Server, ip: string, nmPort: int) {
    s.endpoint.ip == ip && s.endpoint.nmPort == nmPort
  }

  predicate IsReceiver(s: Server, ip: string, port: int) {
    s.endpoint.ip == ip && s.endpoint.ssPortRecv == port
  }

  predicate AllListable(servers: seq<Server>) {
    forall i {:trigger servers[i]} :: 0 <= i < |servers| ==> Listable(servers[i])
  }

  /** The path lists of the servers, as LISTALL shows them. */
  function ListsOf(servers: seq<Server>): (lists: seq<seq<string>>)
    requires AllListable(servers)
    ensures |lists| == |servers|
    ensures forall i :: 0 <= i < |servers| ==> lists[i] == servers[i].paths[..servers[i].numPaths]
  {
    seq(|servers|, i requires 0 <= i < |servers| => ListOf(servers[i]))
  }

  /** The entry `e` is in the index under the path. */
  ghost predicate Binds(v: View, path: string, e: Entry) {
    e.path == path && e in v.entries
  }

  /** Some entry for the path leads to the endpoint. */
  ghost predicate LeadsTo(v: View, path: string, ep: Endpoint) {
    exists e :: Binds(v, path, e) && e.server.endpoint == ep
  }

  /** Server `k` is the first with the address and naming-server port of some entry for the path. */
  ghost predicate FirstNamed(v: View, path: string, k: nat) {
    exists e {:trigger Binds(v, path, e)} :: Binds(v, path, e) && k < |v.servers|
      && var s, ep := v.servers, e.server.endpoint;
        s[k].endpoint.ip == ep.ip && s[k].endpoint.nmPort == ep.nmPort
        && forall i :: 0 <= i < k ==> s[i].endpoint.ip != ep.ip || s[i].endpoint.nmPort != ep.nmPort
  }

  /** Server `k` is the first with the address and receiving port of some entry for the path. */
  ghost predicate FirstReceiving(v: View, path: string, k: nat) {
    exists e {:trigger Binds(v, path, e)} :: Binds(v, path, e) && k < |v.servers|
      && var s, ep := v.servers, e.server.endpoint;
        s[k].endpoint.ip == ep.ip && s[k].endpoint.ssPortRecv == ep.ssPortRecv
        && forall i :: 0 <= i < k ==> s[i].endpoint.ip != ep.ip || s[i].endpoint.ssPortRecv != ep.ssPortRecv
  }

  function RecordOf(e: Option<Entry>): Option<Server> {
    if e == None then None else Some(e.value.server)
  }

  /** Adds an element for each path of a server that registers. */
  method IndexPaths(index: Index, s: Server, ghost entries: seq<Entry>)
    requires AddedTo(index) && Entries(index.app) == entries && s.numPaths <= |s.paths|
    modifies index, index.buckets, index.nodes
    ensures AddedTo(index) && Entries(index.app) == entries + RegistrationEntries(s, s.numPaths)
    ensures index.buckets == old(index.buckets) || fresh(index.buckets)
    ensures fresh(index.nodes - old(index.nodes))
  {
    assert entries + RegistrationEntries(s, 0) == entries;
    var pathNo := 0;
    while pathNo < s.numPaths
      invariant 0 <= pathNo <= s.numPaths
      invariant AddedTo(index) && Entries(index.app) == entries + RegistrationEntries(s, pathNo)
      invariant index.buckets == old(index.buckets) || fresh(index.buckets)
      invariant fresh(index.nodes - old(index.nodes))
    {
      IndexPath(index, s, pathNo, entries);
      pathNo := pathNo + 1;
    }
  }

  method IndexPath(index: Index, s: Server, pathNo: nat, ghost entries: seq<Entry>)
    requires AddedTo(index) && pathNo < s.numPaths <= |s.paths|
    requires Entries(index.app) == entries + RegistrationEntries(s, pathNo)
    modifies index, index.buckets, index.nodes
    ensures AddedTo(index) && Entries(index.app) == entries + RegistrationEntries(s, pathNo + 1)
    ensures index.buckets == old(index.buckets) || fresh(index.buckets)
    ensures fresh(index.nodes - old(index.nodes))
  {
    RegistrationNext(entries, s, pathNo);
    AddEntry(index, Entry(s.paths[pathNo], s), entries + RegistrationEntries(s, pathNo));
  }

  class NameServer {
    const storageServers: array<Server>
    var storageServerCount: nat
    const index: Index

    ghost predicate Valid()
      reads this, storageServers, index, index.buckets, index.nodes
    {
      && AddedTo(index)
      && storageServers.Length == MAX_STORAGE_SERVERS && storageServerCount <= MAX_STORAGE_SERVERS
      && (forall i :: 0 <= i < storageServerCount ==> Sound(storageServers[i]))
      && Known(Current())
    }

    ghost function Current(): View
      reads this, storageServers, index
      requires storageServerCount <= storageServers.Length
    {
      View(storageServers[..storageServerCount], Entries(index.app))
    }

    constructor (hash: Hash)
      ensures Valid() && Current() == View([], [])
      ensures fresh(storageServers) && fresh(index) && fresh(index.buckets) && fresh(index.nodes)
    {
      storageServers := new Server[MAX_STORAGE_SERVERS](_ => NO_SERVER);
      storageServerCount := 0;
      index := new Index(hash);
      new;
      NewIsAddedTo(index);
    }

    /** The elements made since `before` and the buckets, as the frame of one more addition. */
    twostate predicate IndexKept()
      reads this, index
    {
      && (index.buckets == old(index.buckets) || fresh(index.buckets))
      && fresh(index.nodes - old(index.nodes))
    }

    /** handleStorageServer: takes up the server if there is room, and indexes all its paths. */
    method Register(newServer: Server) returns (accepted: bool)
      requires Valid() && Sound(newServer) && Listable(newServer)
      modifies this, storageServers, index, index.buckets, index.nodes
      ensures Valid() && IndexKept()
      ensures accepted <==> |old(Current()).servers| < 10
      ensures Current() == Registered(old(Current()), newServer)
      ensures !accepted ==> Current() == old(Current())
      ensures accepted ==>
        && Current().servers == old(Current()).servers + [newServer]
        && |Current().entries| == |old(Current()).entries| + newServer.numPaths
        && old(Current()).entries <= Current().entries
        && forall j :: 0 <= j < newServer.numPaths ==>
          Current().entries[|old(Current()).entries| + j] == Entry(newServer.paths[j], newServer)
    {
      RegisteredExactly(Current(), newServer);
      EventKeepsKnown(Current(), Event.Register(newServer));
      accepted := storageServerCount < MAX_STORAGE_SERVERS;
      if accepted {
        ghost var v := Current();
        storageServers[storageServerCount] := newServer;
        storageServerCount := storageServerCount + 1;
        assert Current().servers == v.servers + [newServer];
        IndexPaths(index, newServer, v.entries);
      }
    }

    /** A path is found exactly when it is in the index. Of several entries for it, the record found is
        that of the one which the additions and the expansions have left in front. */
    method Resolve(path: string) returns (s: Option<Server>)
      requires Valid()
      ensures s.Some? <==> IsIndexed(Current(), path)
      ensures s.Some? ==>
        Binds(Current(), path, Entry(path, s.value)) && HasEndpoint(Current().servers, s.value.endpoint)
      ensures s == RecordOf(EntryOf(InFront(index, path)))
    {
      EntriesIndexed(index.app);
      var x := index.Find(path);
      if x == null {
        s := None;
        assert forall j :: 0 <= j < |index.app| ==> index.app[j] in index.app;
      } else {
        s := Some(x.elem.server);
        ghost var j :| 0 <= j < |index.app| && index.app[j] == x;
        assert Current().entries[j] == x.elem;
      }
    }

    /** Which record that is: the newest entry's, if there is one entry or the expansions since the
        path was last added are even in number, and of two the older entry's otherwise. */
    lemma {:induction false} RecordInFront(path: string)
      requires Valid()
      ensures var s := RecordOf(EntryOf(InFront(index, path)));
        && InFront(index, path) == Head(Preference(index.hash, index.app, path))
        && (|WithKey(index.app, path)| <= 1 || !Turned(index.hash, index.app, path) ==>
             s == RecordOf(LookupLast(Current().entries, path)))
        && (|WithKey(index.app, path)| == 2 && Turned(index.hash, index.app, path) ==>
             s == RecordOf(Lookup(Current().entries, path)))
    {
      EndsOfEntries(index.app, path);
      FoundInFront(index, path);
    }

    /** A creation succeeded on server `k`: its path goes into slot `slot` and into the index. */
    method NoteCreated(k: nat, slot: nat, path: string)
      requires Valid() && k < storageServerCount && slot < MAX_PATHS
      modifies this, storageServers, index, index.buckets, index.nodes
      ensures Valid() && IndexKept()
      ensures Current() == Created(old(Current()), k, slot, path)
      ensures IsNoted(old(Current()), Current(), k, slot, path)
    {
      CreatedExactly(Current(), k, slot, path);
      EventKeepsKnown(Current(), Event.Create(k, slot, path));
      ghost var v := Current();
      var s := storageServers[k];
      storageServers[k] := s.(numPaths := s.numPaths + 1, paths := s.paths[slot := path]);
      assert Current().servers == Created(v, k, slot, path).servers;
      AddEntry(index, Entry(path, storageServers[k]), v.entries);
    }

    /** CREATE. A path that is in the index is left alone. With three servers or more the jobs for
        the path and its two backups are started; with fewer, server 0 alone is asked, and its
        `reply` (none if it is not reached) decides. */
    method Create(path: string, reply: Option<string>) returns (jobs: seq<Job>)
      requires Valid()
      requires !IsIndexed(Current(), path) && storageServerCount in {1, 2} && reply !in {None, Some("-1")} ==>
        storageServers[0].numPaths < MAX_PATHS
      modifies this, storageServers, index, index.buckets, index.nodes
      ensures Valid() && IndexKept()
      ensures jobs == if IsIndexed(old(Current()), path) || |old(Current()).servers| < 3 then [] else Jobs(path)
      ensures Current() ==
        if IsIndexed(old(Current()), path) || |old(Current()).servers| !in {1, 2} || reply in {None, Some("-1")}
        then old(Current())
        else Created(old(Current()), 0, old(Current()).servers[0].numPaths, path)
      ensures !IsIndexed(old(Current()), path) && |old(Current()).servers| in {1, 2} && reply !in {None, Some("-1")} ==>
        IsCreation(old(Current()), Current(), path)
    {
      jobs := [];
      var s := Resolve(path);
      if s == None {
        if storageServerCount >= 3 {
          var withoutPrefix := RemovePrefix(path, ".");
          var path1 := "./Backup0" + withoutPrefix;
          var path2 := "./Backup1" + withoutPrefix;
          assert path1 == Backup('0', path) && path2 == Backup('1', path);
          jobs := [Job(1, "CREATE " + path1), Job(2, "CREATE " + path2), Job(0, "CREATE " + path)];
        } else if storageServerCount > 0 && reply.Some? && reply.value != "-1" {
          CreatedExactly(Current(), 0, storageServers[0].numPaths, path);
          NoteCreated(0, storageServers[0].numPaths, path);
        }
      }
    }

    /** send_request_async for a creation: unless the reply is "-1", the path in the request is
        noted in the slot that has the server's own number. */
    method CompleteJob(job: Job, reply: string)
      requires Valid() && job.server < storageServerCount && PathOf(job.buffer).Some?
      modifies this, storageServers, index, index.buckets, index.nodes
      ensures Valid() && IndexKept()
      ensures Current() == if reply == "-1" then old(Current())
        else Created(old(Current()), job.server, job.server, PathOf(job.buffer).value)
      ensures reply != "-1" ==>
        IsNoted(old(Current()), Current(), job.server, job.server, PathOf(job.buffer).value)
    {
      var path := Words(job.buffer)[1];
      if reply != "-1" {
        NoteCreated(job.server, job.server, path);
      }
    }

    /** The first server with the address and port, or the number of servers if there is none. */
    method ServerNamed(ip: string, nmPort: int) returns (k: nat)
      requires Valid()
      ensures k <= storageServerCount
      ensures k < storageServerCount ==> IsNamed(Current().servers[k], ip, nmPort)
      ensures forall i :: 0 <= i < k ==> !IsNamed(Current().servers[i], ip, nmPort)
    {
      k := 0;
      while k < storageServerCount
        invariant 0 <= k <= storageServerCount
        invariant forall i :: 0 <= i < k ==> !IsNamed(storageServers[i], ip, nmPort)
      {
        if storageServers[k].endpoint.ip == ip && storageServers[k].endpoint.nmPort == nmPort {
          break;
        }
        k := k + 1;
      }
    }

    /** The same search by receiving port. */
    method ServerReceiving(ip: string, port: int) returns (k: nat)
      requires Valid()
      ensures k <= storageServerCount
      ensures k < storageServerCount ==> IsReceiver(Current().servers[k], ip, port)
      ensures forall i :: 0 <= i < k ==> !IsReceiver(Current().servers[i], ip, port)
    {
      k := 0;
      while k < storageServerCount
        invariant 0 <= k <= storageServerCount
        invariant forall i :: 0 <= i < k ==> !IsReceiver(storageServers[i], ip, port)
      {
        if storageServers[k].endpoint.ip == ip && storageServers[k].endpoint.ssPortRecv == port {
          break;
        }
        k := k + 1;
      }
    }

    /** update_list_of_accessiblepaths, given what the exchange with the server comes to. */
    method UpdateList(k: nat, fetch: Fetch)
      requires Valid() && k < storageServerCount && Fits(fetch)
      modifies storageServers
      ensures Valid() && Current() == Refreshed(old(Current()), k, fetch)
    {
      EventKeepsKnown(Current(), Event.Refresh(k, fetch));
      ghost var v := Current();
      match fetch
      case Unreached =>
        assert v.servers[k := v.servers[k]] == v.servers;
      case Counted(n) =>
        storageServers[k] := storageServers[k].(numPaths := n);
        assert Current().servers == Refreshed(v, k, fetch).servers;
      case Listed(n, list) =>
        var empty := seq(MAX_PATHS - |list|, _ => "");
        storageServers[k] := storageServers[k].(numPaths := n, paths := list + empty);
        assert Current().servers == Refreshed(v, k, fetch).servers;
    }

    /** DELETE, once the server has replied. The path stays in the index. The search for the server
        whose list is fetched again always finds one. */
    method Delete(path: string, fetch: Fetch) returns (found: bool, ghost k: nat)
      requires Valid() && Fits(fetch)
      modifies storageServers
      ensures Valid()
      ensures found <==> IsIndexed(old(Current()), path)
      ensures !found ==> Current() == old(Current())
      ensures found ==> k < |old(Current()).servers| && Current() == Refreshed(old(Current()), k, fetch)
      ensures found ==> FirstNamed(old(Current()), path, k)
    {
      var s := Resolve(path);
      found, k := s.Some?, 0;
      if found {
        var storageServerIndex := ServerNamed(s.value.endpoint.ip, s.value.endpoint.nmPort);
        ghost var i :| 0 <= i < |Current().servers| && Current().servers[i].endpoint == s.value.endpoint;
        assert IsNamed(Current().servers[i], s.value.endpoint.ip, s.value.endpoint.nmPort);
        assert storageServerIndex < storageServerCount;
        k := storageServerIndex;
        UpdateList(storageServerIndex, fetch);
      }
    }

    /** The server that receives what is copied to a path, of which `s` is the record found. */
    method Destination(ghost pathThird: string, s: Server) returns (k: nat)
      requires Valid() && Binds(Current(), pathThird, Entry(pathThird, s)) && HasEndpoint(Current().servers, s.endpoint)
      ensures k < storageServerCount && FirstReceiving(Current(), pathThird, k)
    {
      k := ServerReceiving(s.endpoint.ip, s.endpoint.ssPortRecv);
      ghost var i :| 0 <= i < |Current().servers| && Current().servers[i].endpoint == s.endpoint;
      assert IsReceiver(Current().servers[i], s.endpoint.ip, s.endpoint.ssPortRecv);
      assert Entry(pathThird, s).server == s;
    }

    /** COPY up to the transfer. Both paths must be in the index, and the server that receives must
        not list the new path yet; the search for that server always finds one. */
    method Copy(path: string, pathThird: string) returns (outcome: Copying, ghost k: nat)
      requires Valid()
      requires forall k: nat :: IsIndexed(Current(), path) && FirstReceiving(Current(), pathThird, k) ==>
        Listable(Current().servers[k])
      ensures outcome.NoSource? <==> !IsIndexed(Current(), path)
      ensures outcome.NoDestination? <==> IsIndexed(Current(), path) && !IsIndexed(Current(), pathThird)
      ensures outcome.Transfer? || outcome.Conflict? ==>
        && FirstReceiving(Current(), pathThird, k) && Listable(Current().servers[k])
        && forall name :: EndsIn(path, name) ==>
          (outcome.Conflict? <==>
            pathThird + "/" + name in Current().servers[k].paths[..Current().servers[k].numPaths])
      ensures outcome.Transfer? ==>
        && LeadsTo(Current(), path, outcome.source) && HasEndpoint(Current().servers, outcome.source)
        && LeadsTo(Current(), pathThird, outcome.destination) && HasEndpoint(Current().servers, outcome.destination)
    {
      k := 0;
      var s := Resolve(path);
      if s == None {
        return NoSource, k;
      }
      var s1 := Resolve(pathThird);
      if s1 == None {
        return NoDestination, k;
      }
      var destSsIndex := Destination(pathThird, s1.value);
      k := destSsIndex;
      var listed := ListsName(storageServers[destSsIndex], path, pathThird);
      outcome := if listed then Conflict else Transfer(s.value.endpoint, s1.value.endpoint);
    }

    /** LISTALL. */
    method ListAll() returns (response: string)
      requires Valid() && AllListable(Current().servers)
      ensures response == Listing.Suffix(ListsOf(Current().servers), 0)
    {
      response := Listing.Encode(ListsOf(storageServers[..storageServerCount]));
    }
  }

  /** Whether a server lists what the name of `path` is called in `pathThird`. */
  method ListsName(s: Server, path: string, pathThird: string) returns (g: bool)
    requires Listable(s)
    ensures forall name :: EndsIn(path, name) ==> (g <==> pathThird + "/" + name in s.paths[..s.numPaths])
  {
    g := Lists(s, pathThird + "/" + FileName(path));
    forall name | EndsIn(path, name) ensures name == FileName(path) {
      FileNameExactly(path, name);
    }
  }

  /** Whether a server lists a path. */
  method Lists(s: Server, newPath: string) returns (g: bool)
    requires Listable(s)
    ensures g <==> newPath in ListOf(s)
  {
    g := false;
    var ii := 0;
    while ii < s.numPaths
      invariant 0 <= ii <= s.numPaths && !g && newPath !in ListOf(s)[..ii]
    {
      if s.paths[ii] == newPath {
        assert ListOf(s)[ii] == newPath;
        g := true;
        break;
      }
      ii := ii + 1;
    }
  }

  /** A server registers, and then each of its paths is looked up. A path that was not in the index before
      is found with this server's record; any other with the record of some entry for it. */
  method RegisterAndResolve(ns: NameServer, newServer: Server) returns (accepted: bool, found: seq<Option<Server>>)
    requires ns.Valid() && Sound(newServer) && Listable(newServer)
    modifies ns, ns.storageServers, ns.index, ns.index.buckets, ns.index.nodes
    ensures ns.Valid() && |found| == newServer.numPaths
    ensures accepted <==> |old(ns.Current()).servers| < 10
    ensures accepted ==> forall j :: 0 <= j < |found| ==>
      found[j].Some? && (!IsIndexed(old(ns.Current()), newServer.paths[j]) ==> found[j] == Some(newServer))
  {
    ghost var v := ns.Current();
    accepted := ns.Register(newServer);
    found := ResolveAll(ns, ListOf(newServer));
    if accepted {
      RegisteredAreFound(v, ns.Current(), newServer, found);
    }
  }

  lemma {:induction false} RegisteredAreFound(v: View, w: View, s: Server, found: seq<Option<Server>>)
    requires s.numPaths <= |s.paths| && v.entries <= w.entries && |w.entries| == |v.entries| + s.numPaths
    requires forall i :: 0 <= i < s.numPaths ==> w.entries[|v.entries| + i] == Entry(s.paths[i], s)
    requires |found| == s.numPaths && forall j :: 0 <= j < |found| ==> Resolved(w, ListOf(s)[j], found[j])
    ensures forall j :: 0 <= j < |found| ==>
      found[j].Some? && (!IsIndexed(v, s.paths[j]) ==> found[j] == Some(s))
  {
    forall j | 0 <= j < |found| ensures found[j].Some? && (!IsIndexed(v, s.paths[j]) ==> found[j] == Some(s)) {
      RegisteredIsFound(v, w, s, j, found[j]);
    }
  }

  method ResolveAll(ns: NameServer, paths: seq<string>) returns (found: seq<Option<Server>>)
    requires ns.Valid()
    ensures |found| == |paths| && forall j :: 0 <= j < |paths| ==> Resolved(ns.Current(), paths[j], found[j])
  {
    found := [];
    while |found| < |paths|
      invariant |found| <= |paths| && forall j :: 0 <= j < |found| ==> Resolved(ns.Current(), paths[j], found[j])
    {
      var s := ns.Resolve(paths[|found|]);
      found := found + [s];
    }
  }

  /** A record is found if there is an entry for the path, and it is that of one of them. */
  ghost predicate Resolved(v: View, path: string, found: Option<Server>) {
    (found.Some? <==> IsIndexed(v, path)) && (found.Some? ==> Entry(path, found.value) in v.entries)
  }

  lemma {:induction false} RegisteredIsFound(v: View, w: View, s: Server, j: nat, found: Option<Server>)
    requires j < s.numPaths <= |s.paths| && v.entries <= w.entries && |w.entries| == |v.entries| + s.numPaths
    requires forall i :: 0 <= i < s.numPaths ==> w.entries[|v.entries| + i] == Entry(s.paths[i], s)
    requires Resolved(w, s.paths[j], found)
    ensures found.Some? && (!IsIndexed(v, s.paths[j]) ==> found == Some(s))
  {
    var path := s.paths[j];
    assert w.entries[|v.entries| + j].path == path;
    var i :| 0 <= i < |w.entries| && w.entries[i] == Entry(path, found.value);
    if i < |v.entries| {
      assert v.entries[i].path == path;
    } else {
      assert w.entries[|v.entries| + (i - |v.entries|)] == Entry(s.paths[i - |v.entries|], s);
    }
  }
}
