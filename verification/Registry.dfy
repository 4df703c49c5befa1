/** The naming server's registry as values: the storage servers it knows, the entries of its index,
    what registration, CREATE and DELETE do to both, and what holds over every run of them. */
module Registry {
  import opened Elements

  const MAX_PATHS: nat := 500

  /** The registered servers and the entries of the index, oldest first. */
  datatype View = View(servers: seq<Server>, entries: seq<Entry>)

  /** The index entries that a registration adds: one a path, each with a copy of the record. */
  function RegistrationEntries(s: Server, n: nat): seq<Entry>
    requires n <= |s.paths|
  {
    seq(n, j requires 0 <= j < n => Entry(s.paths[j], s))
  }

  function Registered(v: View, s: Server): View
    requires s.numPaths <= |s.paths|
  {
    if |v.servers| < MAX_STORAGE_SERVERS
    then View(v.servers + [s], v.entries + RegistrationEntries(s, s.numPaths))
    else v
  }

  /** A server record after a path was put in one of its slots and counted. */
  function WithPath(s: Server, slot: nat, path: string): Server
    requires slot < |s.paths|
  {
    s.(numPaths := s.numPaths + 1, paths := s.paths[slot := path])
  }

  /** A successful creation on server `k`, whose path goes into slot `slot`. */
  function Created(v: View, k: nat, slot: nat, path: string): View
    requires k < |v.servers| && slot < |v.servers[k].paths|
  {
    var s := WithPath(v.servers[k], slot, path);
    View(v.servers[k := s], v.entries + [Entry(path, s)])
  }

  /** What fetching a server's path list again comes to: nothing, because the server is not reached;
      a count that no list follows; or a count and the paths received, all of them or the first. */
  datatype Fetch = Unreached | Counted(n: nat) | Listed(n: nat, list: seq<string>)

  predicate Fits(f: Fetch) {
    match f
    case Unreached => true
    case Counted(_) => true
    case Listed(n, list) => |list| <= n && |list| <= MAX_PATHS
  }

  /** The record after the fetch: the slots are emptied once the list is about to come. */
  function Fetched(s: Server, f: Fetch): Server
    requires Fits(f)
  {
    match f
    case Unreached => s
    case Counted(n) => s.(numPaths := n)
    case Listed(n, list) => s.(numPaths := n, paths := list + seq(MAX_PATHS - |list|, _ => ""))
  }

  function Refreshed(v: View, k: nat, f: Fetch): View
    requires k < |v.servers| && Fits(f)
  {
    v.(servers := v.servers[k := Fetched(v.servers[k], f)])
  }

  datatype Event =
    | Register(server: Server)
    | Create(k: nat, slot: nat, path: string)
    | Refresh(k: nat, fetch: Fetch)

  predicate Possible(v: View, e: Event) {
    match e
    case Register(s) => s.numPaths <= |s.paths|
    case Create(k, slot, _) => k < |v.servers| && slot < |v.servers[k].paths|
    case Refresh(k, f) => k < |v.servers| && Fits(f)
  }

  function After(v: View, e: Event): View
    requires Possible(v, e)
  {
    match e
    case Register(s) => Registered(v, s)
    case Create(k, slot, path) => Created(v, k, slot, path)
    case Refresh(k, f) => Refreshed(v, k, f)
  }

  /** `w` is reached from `v` by the given events, each possible in turn. */
  ghost predicate Reaches(v: View, events: seq<Event>, w: View)
    decreases |events|
  {
    if events == [] then v == w
    else Possible(v, events[0]) && Reaches(After(v, events[0]), events[1..], w)
  }

  /** Some registered server is reached at `ep`. */
  ghost predicate HasEndpoint(servers: seq<Server>, ep: Endpoint) {
    exists i :: 0 <= i < |servers| && servers[i].endpoint == ep
  }

  /** At most ten servers, and every entry of the index leads to one of them. */
  ghost predicate Known(v: View) {
    && |v.servers| <= MAX_STORAGE_SERVERS
    && forall j {:trigger v.entries[j]} :: 0 <= j < |v.entries| ==> HasEndpoint(v.servers, v.entries[j].server.endpoint)
  }

  lemma {:induction false} RegistrationNext(entries: seq<Entry>, s: Server, n: nat)
    requires n < |s.paths|
    ensures entries + RegistrationEntries(s, n) + [Entry(s.paths[n], s)] == entries + RegistrationEntries(s, n + 1)
  {
  }

  /** A registration adds the server as the last, and an entry for each of its paths in their order,
      after those there are; an eleventh server changes nothing. */
  lemma {:induction false} RegisteredExactly(v: View, s: Server)
    requires s.numPaths <= |s.paths|
    ensures var w := Registered(v, s);
      if |v.servers| >= 10 then w == v
      else
        && w.servers == v.servers + [s]
        && |w.entries| == |v.entries| + s.numPaths && v.entries <= w.entries
        && forall j :: 0 <= j < s.numPaths ==> w.entries[|v.entries| + j] == Entry(s.paths[j], s)
  {
  }

  /** In `w`, one path is counted and stored in slot `slot` of server `k`, and has one entry more, with
      that server's new record; everything else is as in `v`. */
  ghost predicate IsNoted(v: View, w: View, k: nat, slot: nat, path: string) {
    && k < |v.servers| == |w.servers| && slot < |v.servers[k].paths| == |w.servers[k].paths|
    && w.servers[k].endpoint == v.servers[k].endpoint && w.servers[k].numPaths == v.servers[k].numPaths + 1
    && (forall i :: 0 <= i < |v.servers[k].paths| ==>
      w.servers[k].paths[i] == if i == slot then path else v.servers[k].paths[i])
    && (forall i :: 0 <= i < |v.servers| && i != k ==> w.servers[i] == v.servers[i])
    && w.entries == v.entries + [Entry(path, w.servers[k])]
  }

  /** In `w`, the path is at the end of server 0's list, and has one entry more, with that server's new
      record; everything else is as in `v`. */
  ghost predicate IsCreation(v: View, w: View, path: string) {
    && |v.servers| == |w.servers| > 0 && w.servers[1..] == v.servers[1..]
    && v.servers[0].numPaths < |v.servers[0].paths| && w.servers[0].numPaths <= |w.servers[0].paths|
    && w.servers[0].endpoint == v.servers[0].endpoint
    && ListOf(w.servers[0]) == ListOf(v.servers[0]) + [path]
    && w.entries == v.entries + [Entry(path, w.servers[0])]
  }

  lemma {:induction false} CreatedExactly(v: View, k: nat, slot: nat, path: string)
    requires k < |v.servers| && slot < |v.servers[k].paths|
    ensures IsNoted(v, Created(v, k, slot, path), k, slot, path)
    ensures k == 0 && slot == v.servers[0].numPaths ==> IsCreation(v, Created(v, k, slot, path), path)
  {
    if k == 0 && slot == v.servers[0].numPaths {
      CreateAppendsExactly(v.servers[0], slot, path);
    }
  }

  /** A fetch touches one server's count and slots only: nothing of them when the server is not
      reached; the count alone when no list follows; and otherwise the count and all 500 slots, which
      have the paths received and are empty after them. */
  lemma {:induction false} RefreshedExactly(v: View, k: nat, f: Fetch)
    requires k < |v.servers| && Fits(f)
    ensures var w := Refreshed(v, k, f);
      && |w.servers| == |v.servers| && w.entries == v.entries
      && (forall i :: 0 <= i < |v.servers| && i != k ==> w.servers[i] == v.servers[i])
      && var s, t := v.servers[k], w.servers[k];
        && t.endpoint == s.endpoint && t.numPaths == (if f == Unreached then s.numPaths else f.n)
        && if f.Listed?
           then |t.paths| == 500 && forall i :: 0 <= i < 500 ==> t.paths[i] == if i < |f.list| then f.list[i] else ""
           else t.paths == s.paths
  {
  }

  lemma {:induction false} EndpointStays(servers: seq<Server>, servers': seq<Server>, ep: Endpoint)
    requires HasEndpoint(servers, ep) && |servers| <= |servers'|
    requires forall i :: 0 <= i < |servers| ==> servers'[i].endpoint == servers[i].endpoint
    ensures HasEndpoint(servers', ep)
  {
    var i :| 0 <= i < |servers| && servers[i].endpoint == ep;
    assert servers'[i].endpoint == ep;
  }

  /** Every event leaves the endpoints of the servers there are as they were, and every entry led
      to a registered server afterwards if it was so before. */
  lemma {:induction false} EventKeepsKnown(v: View, e: Event)
    requires Known(v) && Possible(v, e)
    ensures var w := After(v, e);
      && Known(w)
      && |v.servers| <= |w.servers|
      && (forall i :: 0 <= i < |v.servers| ==> w.servers[i].endpoint == v.servers[i].endpoint)
      && v.entries <= w.entries
  {
    var w := After(v, e);
    forall j | 0 <= j < |w.entries| ensures HasEndpoint(w.servers, w.entries[j].server.endpoint) {
      if j < |v.entries| {
        assert w.entries[j] == v.entries[j];
        EndpointStays(v.servers, w.servers, v.entries[j].server.endpoint);
      } else {
        var k := if e.Register? then |v.servers| else e.k;
        assert w.servers[k].endpoint == w.entries[j].server.endpoint;
      }
    }
  }

  /** In every reachable state there are at most ten servers and every index entry carries the
      address and ports of a registered one. What has once been in the index stays in it. */
  lemma {:induction false} ReachableIsKnown(v: View, events: seq<Event>, w: View)
    requires Known(v) && Reaches(v, events, w)
    ensures Known(w) && |w.servers| <= 10 && v.entries <= w.entries
    decreases |events|
  {
    if events != [] {
      EventKeepsKnown(v, events[0]);
      ReachableIsKnown(After(v, events[0]), events[1..], w);
    }
  }

  /** Some entry of the index has the path. */
  ghost predicate IsIndexed(v: View, path: string) {
    exists j :: 0 <= j < |v.entries| && v.entries[j].path == path
  }

  /** Paths are never taken out of the index, whatever is deleted: one that is found once is found
      in every later state, so it can never be created again. */
  lemma {:induction false} IndexedForGood(v: View, events: seq<Event>, w: View, path: string)
    requires Known(v) && Reaches(v, events, w) && IsIndexed(v, path)
    ensures IsIndexed(w, path)
  {
    ReachableIsKnown(v, events, w);
    var j :| 0 <= j < |v.entries| && v.entries[j].path == path;
    assert w.entries[j] == v.entries[j];
  }

  /** What LISTALL and the copy conflict check take for a server's list. */
  function ListOf(s: Server): seq<string>
    requires s.numPaths <= |s.paths|
  {
    s.paths[..s.numPaths]
  }

  /** A creation appends to the server's list exactly when it uses the slot after the list, or the
      slots it should and does not fill already hold the path. With three servers or more the slot
      is the server's own number, whatever the length of its list. */
  lemma {:induction false} CreateAppendsExactly(s: Server, slot: nat, path: string)
    requires s.numPaths < |s.paths| && slot < |s.paths|
    ensures ListOf(WithPath(s, slot, path)) == ListOf(s) + [path]
      <==> slot == s.numPaths || (s.paths[s.numPaths] == path && (slot < s.numPaths ==> s.paths[slot] == path))
  {
    var n := s.numPaths;
    var l, m := ListOf(WithPath(s, slot, path)), ListOf(s) + [path];
    assert |l| == n + 1 == |m|;
    assert m[n] == path && l[n] == if slot == n then path else s.paths[n];
    if slot < n {
      assert l[slot] == path && m[slot] == s.paths[slot];
    }
    if slot == n || (s.paths[n] == path && (slot < n ==> s.paths[slot] == path)) {
      forall i | 0 <= i <= n ensures l[i] == m[i] {
      }
    }
  }

  // The replicas of a created path.

  /** remove_prefix. */
  function RemovePrefix(s: string, prefix: string): string {
    if prefix <= s then s[|prefix|..] else s
  }

  /** The path of replica 1 or 2 of `path`. */
  function Backup(digit: char, path: string): string {
    "./Backup" + [digit] + RemovePrefix(path, ".")
  }

  /** What is created on servers 0, 1 and 2. */
  function Replicas(path: string): seq<string> {
    [path, Backup('0', path), Backup('1', path)]
  }

  /** The three paths of one creation are always different. */
  lemma {:induction false} ReplicasAreDistinct(path: string)
    ensures forall i, j :: 0 <= i < j < 3 ==> Replicas(path)[i] != Replicas(path)[j]
  {
    assert |Backup('0', path)| > |path| && |Backup('1', path)| > |path|;
    assert Backup('0', path)[8] == '0' && Backup('1', path)[8] == '1';
  }

  /** What they are: `./x` has the backups `./Backup0/x` and `./Backup1/x`, and a path that does not
      start with a dot has its whole text after the digit. */
  lemma {:induction false} BackupTexts(rest: string)
    ensures Replicas("." + rest) == ["." + rest, "./Backup0" + rest, "./Backup1" + rest]
    ensures !("." <= rest) ==>
      Replicas(rest) == [rest, "./Backup0" + rest, "./Backup1" + rest]
  {
    assert ("." + rest)[1..] == rest;
    assert "./Backup" + ['0'] == "./Backup0" && "./Backup" + ['1'] == "./Backup1";
  }

  /** Two paths share a backup path exactly when they are the same, or differ only in one leading
      dot; and the two backups never meet. So backups of paths that start with a dot are
      one-to-one. */
  lemma {:induction false} BackupsCollideExactly(p: string, q: string, d: char)
    ensures Backup(d, p) == Backup(d, q)
      <==> p == q || (p == "." + q && !("." <= q)) || (q == "." + p && !("." <= p))
    ensures "." <= p && "." <= q ==> (Backup(d, p) == Backup(d, q) <==> p == q)
    ensures Backup('0', p) != Backup('1', q)
  {
    var u, w := RemovePrefix(p, "."), RemovePrefix(q, ".");
    assert Backup('0', p)[8] == '0' && Backup('1', q)[8] == '1';
    assert Backup(d, p)[9..] == u && Backup(d, q)[9..] == w;
    assert "." <= p ==> p == "." + u;
    assert "." <= q ==> q == "." + w;
  }

  // The replies to a creation, which come in any order.

  /** Server `k`'s record after its creation, and the entry made from it. */
  function Grown(v: View, keys: seq<string>, k: nat): Server
    requires k < |v.servers| && k < |keys| && k < |v.servers[k].paths|
  {
    WithPath(v.servers[k], k, keys[k])
  }

  ghost predicate CanComplete(v: View, keys: seq<string>, order: seq<nat>) {
    forall j :: 0 <= j < |order| ==> InReach(v, keys, order[j])
  }

  predicate InReach(v: View, keys: seq<string>, k: nat) {
    k < |v.servers| && k < |keys| && k < |v.servers[k].paths|
  }

  /** `w` is what the replies in `order`, one after another, make of `v`; the handler of server
      `k`'s reply uses slot `k`. */
  ghost predicate Completes(v: View, keys: seq<string>, order: seq<nat>, w: View)
    decreases |order|
  {
    if order == [] then v == w
    else
      InReach(v, keys, order[0]) && Completes(Created(v, order[0], order[0], keys[order[0]]), keys, order[1..], w)
  }

  /** What the replies come to when no server replies twice: each server in `order` has its path,
      the others are as before, and each path in `order` has one entry more. */
  lemma {:induction false} CompletedExactly(v: View, keys: seq<string>, order: seq<nat>, w: View)
    requires Completes(v, keys, order, w) && Distinct(order)
    ensures |w.servers| == |v.servers| && CanComplete(v, keys, order)
    ensures forall i :: 0 <= i < |v.servers| ==> w.servers[i] == if i in order then Grown(v, keys, i) else v.servers[i]
    ensures |w.entries| == |v.entries| + |order| && v.entries <= w.entries
    ensures forall j :: 0 <= j < |order| ==>
      w.entries[|v.entries| + j] == Entry(keys[order[j]], Grown(v, keys, order[j]))
    decreases |order|
  {
    if order != [] {
      var k, rest := order[0], order[1..];
      var u := Created(v, k, k, keys[k]);
      CompletedExactly(u, keys, rest, w);
      assert k !in rest;
      forall j | 0 <= j < |order|
        ensures InReach(v, keys, order[j])
        ensures w.entries[|v.entries| + j] == Entry(keys[order[j]], Grown(v, keys, order[j]))
      {
        if j == 0 {
          assert u.entries[|v.entries|] == w.entries[|v.entries|];
        } else {
          assert rest[j - 1] == order[j] && InReach(u, keys, rest[j - 1]);
          assert w.entries[|u.entries| + (j - 1)] == Entry(keys[rest[j - 1]], Grown(u, keys, rest[j - 1]));
        }
      }
    }
  }

  /** The order in which the replies come makes no difference to the servers, nor to which entries
      the index has. */
  lemma {:induction false} OrderMakesNoDifference(v: View, keys: seq<string>, order: seq<nat>, order': seq<nat>,
                                                  w: View, w': View)
    requires Completes(v, keys, order, w) && Completes(v, keys, order', w')
    requires Distinct(order) && Distinct(order') && multiset(order) == multiset(order')
    ensures w.servers == w'.servers
    ensures |w.entries| == |w'.entries| && forall e :: e in w.entries <==> e in w'.entries
  {
    CompletedExactly(v, keys, order, w);
    CompletedExactly(v, keys, order', w');
    assert forall k :: k in order <==> k in multiset(order);
    assert forall k :: k in order' <==> k in multiset(order');
    assert |order| == |multiset(order)| == |multiset(order')| == |order'|;
    forall e | e in w.entries ensures e in w'.entries {
      EntryOfEitherOrder(v, keys, order, order', w, w', e);
    }
    forall e | e in w'.entries ensures e in w.entries {
      EntryOfEitherOrder(v, keys, order', order, w', w, e);
    }
  }

  lemma {:induction false} EntryOfEitherOrder(v: View, keys: seq<string>, order: seq<nat>, order': seq<nat>, w: View,
                                              w': View, e: Entry)
    requires Completes(v, keys, order, w) && Completes(v, keys, order', w')
    requires Distinct(order) && Distinct(order') && forall k :: k in order ==> k in order'
    requires e in w.entries
    ensures e in w'.entries
  {
    CompletedExactly(v, keys, order, w);
    CompletedExactly(v, keys, order', w');
    var i :| 0 <= i < |w.entries| && w.entries[i] == e;
    if i < |v.entries| {
      assert w'.entries[i] == v.entries[i];
    } else {
      var j := i - |v.entries|;
      assert w.entries[|v.entries| + j] == e;
      assert order[j] in order';
      var j' :| 0 <= j' < |order'| && order'[j'] == order[j];
      assert w'.entries[|v.entries| + j'] == e;
    }
  }

  /** In whatever order the replies come, and whichever servers reply: each of the three paths whose
      server has replied, and that was not in the index yet, is bound to that server's record as it then
      is, and to nothing else. */
  lemma {:induction false} FanOutBinds(v: View, path: string, order: seq<nat>, w: View, k: nat)
    requires Completes(v, Replicas(path), order, w) && Distinct(order)
    requires k in order && (k < 3 ==> !IsIndexed(v, Replicas(path)[k]))
    ensures k < 3 && k < |v.servers| == |w.servers| && w.servers[k].endpoint == v.servers[k].endpoint
    ensures IsIndexed(w, Replicas(path)[k])
    ensures forall e :: e in w.entries && e.path == Replicas(path)[k] ==> e.server == w.servers[k]
  {
    var keys := Replicas(path);
    ReplicasAreDistinct(path);
    CompletedExactly(v, keys, order, w);
    var j :| 0 <= j < |order| && order[j] == k;
    assert InReach(v, keys, order[j]);
    assert w.entries[|v.entries| + j].path == keys[k];
    assert forall i :: 0 <= i < |v.entries| ==> w.entries[i].path != keys[k];
    forall e | e in w.entries && e.path == keys[k] ensures e.server == w.servers[k] {
      var i :| 0 <= i < |w.entries| && w.entries[i] == e;
      assert i >= |v.entries|;
      assert w.entries[|v.entries| + (i - |v.entries|)] == e;
      assert InReach(v, keys, order[i - |v.entries|]);
    }
  }

  /** One reply more. */
  lemma {:induction false} CompletesSnoc(v: View, keys: seq<string>, order: seq<nat>, w: View, k: nat)
    requires Completes(v, keys, order, w) && InReach(w, keys, k)
    ensures Completes(v, keys, order + [k], Created(w, k, k, keys[k]))
    decreases |order|
  {
    if order == [] {
      assert ([] + [k])[1..] == [];
    } else {
      CompletesSnoc(Created(v, order[0], order[0], keys[order[0]]), keys, order[1..], w, k);
      assert (order + [k])[1..] == order[1..] + [k];
    }
  }
}
