/** The elements of the naming server's path index: a path mapped to a copy of the record of the
    storage server that holds it, with the hash handle that links the element into the index. */
module Elements {

  /** How many storage servers there can be. */
  const MAX_STORAGE_SERVERS: nat := 10

  datatype Option<T> = None | Some(value: T)

  /** The fields of a storage server record that say where it is reached. */
  datatype Endpoint = Endpoint(ip: string, nmPort: int, clientPort: int, ssPortSend: int, ssPortRecv: int)

  /** A storage server record; `paths` are the slots of its accessible-path array. */
  datatype Server = Server(endpoint: Endpoint, numPaths: nat, paths: seq<string>)

  /** PathToServerMap without its hash handle. */
  datatype Entry = Entry(path: string, server: Server)

  /** An element with its hash handle: `prev`/`next` give application order, `hhPrev`/`hhNext`
      the order inside one bucket. */
  class Node {
    const elem: Entry
    var hashv: nat
    var prev: Node?
    var next: Node?
    var hhPrev: Node?
    var hhNext: Node?

    constructor (elem: Entry)
      ensures this.elem == elem
    {
      this.elem := elem;
      hashv, prev, next, hhPrev, hhNext := 0, null, null, null, null;
    }
  }

  ghost predicate Distinct<T>(s: seq<T>) {
    forall i, j :: 0 <= i < j < |s| ==> s[i] != s[j]
  }

  ghost predicate Within(s: seq<Node>, nodes: set<Node>) {
    forall i :: 0 <= i < |s| ==> s[i] in nodes
  }

  /** The first node of a list, or null. */
  function Head(s: seq<Node>): Node? {
    if s == [] then null else s[0]
  }

  /** The last node of a list, or null. */
  function Last(s: seq<Node>): Node? {
    if s == [] then null else s[|s| - 1]
  }

  lemma {:induction false} DistinctCount<T>(s: seq<T>)
    requires Distinct(s)
    ensures |set x | x in s| == |s|
  {
    if s != [] {
      var l, x := s[..|s| - 1], s[|s| - 1];
      DistinctCount(l);
      assert (set y | y in s) == (set y | y in l) + {x};
    }
  }
}
