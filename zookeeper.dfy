/** The peer-set logic of the Zookeeper charm layer: turning unit names into
    ensemble members, reading the members back from zoo.cfg, adding and
    removing members, and the override map handed to Puppet. */
module ZookeeperLayer {
  import opened Wrappers
  import opened Text

  /** Peer-communication and leader-election ports of every member. */
  const PeerPorts: string := ":2888:3888"

  /** Key prefix of the member lines in zoo.cfg. */
  const ServerPrefix: string := "server."

  const MyIdKey: string := "hadoop_zookeeper::server::myid"
  const EnsembleKey: string := "hadoop_zookeeper::server::ensemble"

  /** Bigtop roles this layer asks Puppet to apply. */
  const Roles: seq<string> := ["zookeeper-server", "zookeeper-client"]

  /** A member id. Read back from zoo.cfg it is an integer; made from a unit
      name it stays the text after the slash. The two never compare equal. */
  datatype PeerId = IntId(n: int) | StrId(s: string)

  /** A member as the Python tuple `(id, *rest)`. A formatted node has
      exactly one `rest` field, the connection string; a zoo.cfg line has
      one field per `=`-separated piece after the key. Equality is whole-tuple
      equality, as for Python tuples. */
  datatype Peer = Peer(id: PeerId, rest: seq<string>)

  /** The exceptions the peer-set code can raise. */
  datatype Error =
    | ConfigMissing            // zoo.cfg cannot be opened or read
    | BadServerKey(line: string) // `int()` (or the index after `.`) fails on a `server.` key
    | NoOrdinal(unit: string)  // a unit name without `/`

  /** `format_node`: the id is the text between the first and the second `/`
      of the unit name, the address is the IP with the fixed ports. */
  function FormatNode(unit: string, ip: string): (r: Result<Peer, Error>)
    ensures r.Ok? <==> '/' in unit
    ensures r.Ok? ==> r.value.id.StrId? && '/' !in r.value.id.s
    ensures r.Ok? ==> r.value.rest == [ip + PeerPorts]
    ensures r.Err? ==> r.error == NoOrdinal(unit)
  {
    var parts := Split(unit, '/');
    if |parts| < 2 then Err(NoOrdinal(unit))
    else Ok(Peer(StrId(parts[1]), [ip + PeerPorts]))
  }

  /** The list comprehension `[format_node(*node) for node in node_list]`:
      every node formatted in order, or the error of the first bad one. */
  function FormatNodes(nodeList: seq<(string, string)>): (r: Result<seq<Peer>, Error>)
    ensures r.Ok? <==> forall k :: 0 <= k < |nodeList| ==> '/' in nodeList[k].0
    ensures r.Ok? ==> |r.value| == |nodeList|
    ensures r.Ok? ==> forall k :: 0 <= k < |nodeList| ==>
                        FormatNode(nodeList[k].0, nodeList[k].1) == Ok(r.value[k])
    ensures r.Err? ==> exists k :: 0 <= k < |nodeList| && '/' !in nodeList[k].0
                        && r.error == NoOrdinal(nodeList[k].0)
                        && forall j :: 0 <= j < k ==> '/' in nodeList[j].0
  {
    if nodeList == [] then Ok([])
    else
      match FormatNode(nodeList[0].0, nodeList[0].1)
      case Err(e) => Err(e)
      case Ok(p) =>
        match FormatNodes(nodeList[1..])
        case Err(e) =>
          FirstMissingShifts(nodeList, e);
          Err(e)
        case Ok(ps) =>
          FormattedShifts(nodeList, p, ps);
          Ok([p] + ps)
  }

  /** The first unit without `/` in the tail is the first one in the list
      when the head has one. */
  lemma FirstMissingShifts(nodeList: seq<(string, string)>, e: Error)
    requires |nodeList| > 0 && '/' in nodeList[0].0
    requires exists k :: 0 <= k < |nodeList[1..]| && '/' !in nodeList[1..][k].0
                         && e == NoOrdinal(nodeList[1..][k].0)
                         && forall j :: 0 <= j < k ==> '/' in nodeList[1..][j].0
    ensures exists k :: 0 <= k < |nodeList| && '/' !in nodeList[k].0
                        && e == NoOrdinal(nodeList[k].0)
                        && forall j :: 0 <= j < k ==> '/' in nodeList[j].0
  {
    var k :| 0 <= k < |nodeList[1..]| && '/' !in nodeList[1..][k].0
             && e == NoOrdinal(nodeList[1..][k].0)
             && forall j :: 0 <= j < k ==> '/' in nodeList[1..][j].0;
    assert nodeList[k + 1] == nodeList[1..][k];
    forall j | 0 <= j < k + 1 ensures '/' in nodeList[j].0 {
      if j > 0 { assert nodeList[j] == nodeList[1..][j - 1]; }
    }
  }

  /** Formatting the head and then the tail formats the whole list. */
  lemma FormattedShifts(nodeList: seq<(string, string)>, p: Peer, ps: seq<Peer>)
    requires |nodeList| > 0 && FormatNode(nodeList[0].0, nodeList[0].1) == Ok(p)
    requires |ps| == |nodeList| - 1
    requires forall k :: 0 <= k < |nodeList[1..]| ==>
               FormatNode(nodeList[1..][k].0, nodeList[1..][k].1) == Ok(ps[k])
    ensures forall k :: 0 <= k < |nodeList| ==>
              FormatNode(nodeList[k].0, nodeList[k].1) == Ok(([p] + ps)[k])
  {
    forall k | 0 < k < |nodeList|
      ensures FormatNode(nodeList[k].0, nodeList[k].1) == Ok(([p] + ps)[k])
    {
      assert nodeList[k] == nodeList[1..][k - 1];
    }
  }

  /** `line.startswith("server.")`. */
  predicate IsServerLine(line: string) {
    ServerPrefix <= line
  }

  /** The body of the `_read_peers` loop for one kept line:
      `peer = line.strip().split("=")`, then
      `peer[0] = int(peer[0].split(".")[1])`, then `tuple(peer)`. */
  function ParseServerLine(line: string): (r: Result<Peer, Error>)
    ensures r.Ok? ==> r.value.id.IntId?
    ensures r.Ok? ==> forall k :: 0 <= k < |r.value.rest| ==> '=' !in r.value.rest[k]
    ensures r.Err? ==> r.error == BadServerKey(line)
  {
    var fields := Split(Strip(line), '=');
    var keyParts := Split(fields[0], '.');
    if |keyParts| < 2 then Err(BadServerKey(line))
    else
      match ParseInt(keyParts[1])
      case None => Err(BadServerKey(line))
      case Some(n) => Ok(Peer(IntId(n), fields[1..]))
  }

  /** The lines `_read_peers` keeps, in file order; `ServerLinesKeep`
      states that these are exactly the `server.` lines. */
  function ServerLines(lines: seq<string>): (r: seq<string>)
    ensures forall k :: 0 <= k < |r| ==> IsServerLine(r[k])
  {
    if lines == [] then []
    else
      var line := lines[|lines| - 1];
      ServerLines(lines[..|lines| - 1]) + (if IsServerLine(line) then [line] else [])
  }

  /** The kept lines are every `server.` line, as often as it occurs, in
      file order, and nothing else. */
  lemma ServerLinesKeep(lines: seq<string>)
    ensures var r := ServerLines(lines);
            && (forall x :: x in r <==> x in lines && IsServerLine(x))
            && (forall x :: IsServerLine(x) ==> multiset(r)[x] == multiset(lines)[x])
            && Subsequence(r, lines)
  {
    ServerLinesCount(lines);
    ServerLinesInOrder(lines);
  }

  /** Each line occurs among the kept lines as often as in the file when it
      is a `server.` line, and not at all otherwise. */
  lemma {:induction false} ServerLinesCount(lines: seq<string>)
    ensures forall x :: multiset(ServerLines(lines))[x] == if IsServerLine(x) then multiset(lines)[x] else 0
    decreases |lines|
  {
    if lines != [] {
      var init := lines[..|lines| - 1];
      var line := lines[|lines| - 1];
      ServerLinesCount(init);
      assert lines == init + [line];
      assert multiset(lines) == multiset(init) + multiset{line};
      var tail := if IsServerLine(line) then [line] else [];
      assert multiset(ServerLines(lines)) == multiset(ServerLines(init)) + multiset(tail);
    }
  }

  lemma {:induction false} ServerLinesInOrder(lines: seq<string>)
    ensures Subsequence(ServerLines(lines), lines)
    decreases |lines|
  {
    if lines != [] {
      var init := lines[..|lines| - 1];
      var line := lines[|lines| - 1];
      ServerLinesInOrder(init);
      SubsequenceExtend(ServerLines(init), init, line);
      assert lines == init + [line];
      if !IsServerLine(line) {
        assert ServerLines(lines) == ServerLines(init);
      }
    }
  }

  /** A subsequence stays one when the longer sequence grows, and when both
      grow by the same element. */
  lemma {:induction false} SubsequenceExtend<T>(a: seq<T>, b: seq<T>, x: T)
    requires Subsequence(a, b)
    ensures Subsequence(a, b + [x]) && Subsequence(a + [x], b + [x])
    decreases |b|
  {
    if b == [] {
      assert (a + [x])[1..] == [];
    } else {
      assert (b + [x])[0] == b[0] && (b + [x])[1..] == b[1..] + [x];
      if a == [] {
        SubsequenceExtend(a, b[1..], x);
        assert a + [x] == [x];
      } else {
        assert (a + [x])[0] == a[0] && (a + [x])[1..] == a[1..] + [x];
        if a[0] == b[0] {
          SubsequenceExtend(a[1..], b[1..], x);
        } else {
          SubsequenceExtend(a, b[1..], x);
        }
      }
    }
  }

  /** What `_read_peers` leaves behind: the peers appended so far, and the
      exception that stopped the loop, if any. */
  datatype Parsed = Parsed(peers: seq<Peer>, failure: Option<Error>)

  /** One turn of the `_read_peers` loop: skip a line without the prefix,
      append the tuple of a `server.` line, or stop at the line that raises. */
  function ReadLine(prior: Parsed, line: string): (r: Parsed)
    ensures prior.failure.Some? ==> r == prior
    ensures (forall k :: 0 <= k < |prior.peers| ==> prior.peers[k].id.IntId?) ==>
              forall k :: 0 <= k < |r.peers| ==> r.peers[k].id.IntId?
  {
    if prior.failure.Some? || !IsServerLine(line) then prior
    else
      match ParseServerLine(line)
      case Ok(p) => Parsed(prior.peers + [p], None)
      case Err(e) => Parsed(prior.peers, Some(e))
  }

  /** The `_read_peers` loop over the lines of zoo.cfg, from an empty list:
      the state after the last line, or after the first line that raised. */
  function ParseConfig(lines: seq<string>): (r: Parsed)
    ensures forall k :: 0 <= k < |r.peers| ==> r.peers[k].id.IntId?
  {
    if lines == [] then Parsed([], None)
    else ReadLine(ParseConfig(lines[..|lines| - 1]), lines[|lines| - 1])
  }

  /** `_read_peers` including the file open: `None` stands for a zoo.cfg
      that cannot be opened or read, which raises after `_peers` was reset. */
  function ReadConfig(cfg: Option<seq<string>>): (r: Parsed)
    ensures cfg.None? ==> r == Parsed([], Some(ConfigMissing))
    ensures cfg.Some? ==> r == ParseConfig(cfg.value)
  {
    match cfg
    case None => Parsed([], Some(ConfigMissing))
    case Some(lines) => ParseConfig(lines)
  }

  /** Once a line has raised, later lines change nothing. */
  lemma {:induction false} FailureIsFinal(lines: seq<string>, k: nat)
    requires k <= |lines|
    requires ParseConfig(lines[..k]).failure.Some?
    ensures ParseConfig(lines) == ParseConfig(lines[..k])
    decreases |lines|
  {
    if k < |lines| {
      var init := lines[..|lines| - 1];
      assert init[..k] == lines[..k];
      FailureIsFinal(init, k);
    } else {
      assert lines[..k] == lines;
    }
  }

  /** The append-if-absent loop of `increase_quorum`: each node in turn is
      appended unless the list built so far already holds an equal tuple. */
  function AddNodes(peers: seq<Peer>, nodes: seq<Peer>): (r: seq<Peer>)
    ensures |peers| <= |r| && r[..|peers|] == peers
    ensures forall x :: x in r <==> x in peers || x in nodes
  {
    if nodes == [] then peers
    else
      var acc := AddNodes(peers, nodes[..|nodes| - 1]);
      var node := nodes[|nodes| - 1];
      if node in acc then acc else acc + [node]
  }

  /** One more node is one more turn of the append-if-absent loop. */
  lemma AddNodesStep(peers: seq<Peer>, nodes: seq<Peer>, i: nat)
    requires i < |nodes|
    ensures var acc := AddNodes(peers, nodes[..i]);
            AddNodes(peers, nodes[..i + 1]) == if nodes[i] in acc then acc else acc + [nodes[i]]
  {
    assert nodes[..i + 1][..i] == nodes[..i];
  }

  /** Reference definition of what `increase_quorum` appends: the node at
      position k is kept when it is not among the peers and does not occur
      earlier in the node list. */
  function FirstNew(peers: seq<Peer>, nodes: seq<Peer>): (r: seq<Peer>)
    ensures forall x :: x in r <==> x in nodes && x !in peers
  {
    if nodes == [] then []
    else
      var init := nodes[..|nodes| - 1];
      var node := nodes[|nodes| - 1];
      FirstNew(peers, init) + (if node in peers || node in init then [] else [node])
  }

  /** `a` is `b` with some elements left out, order kept. */
  predicate Subsequence<T(==)>(a: seq<T>, b: seq<T>)
    decreases |b|
  {
    if a == [] then true
    else if b == [] then false
    else if a[0] == b[0] then Subsequence(a[1..], b[1..])
    else Subsequence(a, b[1..])
  }

  predicate NoDuplicates(s: seq<Peer>) {
    forall i, j :: 0 <= i < j < |s| ==> s[i] != s[j]
  }

  /** The comprehension of `decrease_quorum`:
      `[peer for peer in peers if peer not in nodes]`. */
  function RemoveNodes(peers: seq<Peer>, nodes: seq<Peer>): (r: seq<Peer>)
    ensures Subsequence(r, peers)
    ensures forall x :: x in r <==> x in peers && x !in nodes
    ensures forall x :: x !in nodes ==> multiset(r)[x] == multiset(peers)[x]
  {
    if peers == [] then []
    else
      var rest := RemoveNodes(peers[1..], nodes);
      assert peers == [peers[0]] + peers[1..];
      if peers[0] in nodes then rest else [peers[0]] + rest
  }

  /** A value of the override map: a plain string or the ensemble list. */
  datatype OverrideValue = Scalar(s: string) | Members(peers: seq<Peer>)

  /** The `_override` property: `myid` is always the local unit's ordinal;
      the ensemble is the peer list, or the local node alone when that list
      is empty. */
  function Override(peers: seq<Peer>, localUnit: string, localIp: string)
    : (r: Result<map<string, OverrideValue>, Error>)
    ensures r.Ok? <==> '/' in localUnit
    ensures r.Err? ==> r.error == NoOrdinal(localUnit)
    ensures r.Ok? ==> r.value.Keys == {MyIdKey, EnsembleKey}
    ensures r.Ok? ==> r.value[MyIdKey] == Scalar(FormatNode(localUnit, localIp).value.id.s)
    ensures r.Ok? ==> r.value[EnsembleKey].Members? && r.value[EnsembleKey].peers != []
    ensures r.Ok? && peers != [] ==> r.value[EnsembleKey].peers == peers
    ensures r.Ok? && peers == [] ==>
              r.value[EnsembleKey].peers == [Peer(StrId(r.value[MyIdKey].s), [localIp + PeerPorts])]
  {
    var parts := Split(localUnit, '/');
    if |parts| < 2 then Err(NoOrdinal(localUnit))
    else
      var ensemble := if peers != [] then peers else [FormatNode(localUnit, localIp).value];
      Ok(map[MyIdKey := Scalar(parts[1]), EnsembleKey := Members(ensemble)])
  }

  /** The arguments `install` hands to Bigtop's `render_site_yaml`. */
  datatype RenderRequest = RenderRequest(
    hosts: map<string, string>,
    roles: seq<string>,
    overrides: map<string, OverrideValue>)

  /** The `Zookeeper` helper object. Its `_dist_config` is used only by the
      port operations, which are not modelled. */
  class Zookeeper {
    /** `_peers`: the ensemble as last read or changed. */
    var peers: seq<Peer>
    const hosts: map<string, string>
    const roles: seq<string>

    constructor ()
      ensures peers == [] && hosts == map[] && roles == Roles
    {
      peers := [];
      hosts := map[];
      roles := Roles;
    }

    /** `_read_peers`: resets the list, then appends one tuple per
        `server.` line of zoo.cfg, in file order, until a line raises. */
    method ReadPeers(cfg: Option<seq<string>>) returns (failure: Option<Error>)
      modifies this
      ensures Parsed(peers, failure) == ReadConfig(cfg)
    {
      peers := [];
      if cfg.None? {
        return Some(ConfigMissing);
      }
      var lines := cfg.value;
      var i := 0;
      while i < |lines|
        invariant 0 <= i <= |lines|
        invariant ParseConfig(lines[..i]) == Parsed(peers, None)
      {
        var line := lines[i];
        assert lines[..i + 1][..i] == lines[..i];
        assert ParseConfig(lines[..i + 1]) == ReadLine(Parsed(peers, None), line);
        if IsServerLine(line) {
          match ParseServerLine(line)
          case Err(e) =>
            FailureIsFinal(lines, i + 1);
            return Some(e);
          case Ok(p) =>
            peers := peers + [p];
        }
        i := i + 1;
      }
      assert lines[..i] == lines;
      return None;
    }

    /** `install`, with the rendering and the Puppet run left out: the
        request it renders, built from the current peers. Changes nothing. */
    method Install(localUnit: string, localIp: string) returns (r: Result<RenderRequest, Error>)
      ensures r.Ok? <==> '/' in localUnit
      ensures r.Err? ==> r.error == NoOrdinal(localUnit)
      ensures r.Ok? ==> r.value == RenderRequest(hosts, roles, Override(peers, localUnit, localIp).value)
    {
      var o := Override(peers, localUnit, localIp);
      if o.Err? {
        return Err(o.error);
      }
      return Ok(RenderRequest(hosts, roles, o.value));
    }

    /** `increase_quorum`: re-read zoo.cfg, format the nodes, append each one
        not already present, then `install`. */
    method IncreaseQuorum(cfg: Option<seq<string>>, nodeList: seq<(string, string)>,
                          localUnit: string, localIp: string)
      returns (r: Result<RenderRequest, Error>)
      modifies this
      ensures ReadConfig(cfg).failure.Some? ==>
                peers == ReadConfig(cfg).peers && r == Err(ReadConfig(cfg).failure.value)
      ensures ReadConfig(cfg).failure.None? && FormatNodes(nodeList).Err? ==>
                peers == ReadConfig(cfg).peers && r == Err(FormatNodes(nodeList).error)
      ensures ReadConfig(cfg).failure.None? && FormatNodes(nodeList).Ok? ==>
                && peers == AddNodes(ReadConfig(cfg).peers, FormatNodes(nodeList).value)
                && (r.Ok? <==> '/' in localUnit)
                && (r.Err? ==> r.error == NoOrdinal(localUnit))
                && (r.Ok? ==> r.value == RenderRequest(hosts, roles, Override(peers, localUnit, localIp).value))
    {
      var failure := ReadPeers(cfg);
      if failure.Some? {
        return Err(failure.value);
      }
      var formatted := FormatNodes(nodeList);
      if formatted.Err? {
        return Err(formatted.error);
      }
      AppendAbsent(formatted.value);
      r := Install(localUnit, localIp);
    }

    /** The loop of `increase_quorum`: each node in turn is appended to
        `_peers` unless an equal tuple is already there. */
    method AppendAbsent(nodes: seq<Peer>)
      modifies this
      ensures peers == AddNodes(old(peers), nodes)
    {
      var i := 0;
      while i < |nodes|
        invariant 0 <= i <= |nodes|
        invariant peers == AddNodes(old(peers), nodes[..i])
      {
        AddNodesStep(old(peers), nodes, i);
        if nodes[i] !in peers {
          peers := peers + [nodes[i]];
        }
        i := i + 1;
      }
      assert nodes[..i] == nodes;
    }

    /** `decrease_quorum`: re-read zoo.cfg, format the nodes, keep only the
        peers not among them, then `install`. */
    method DecreaseQuorum(cfg: Option<seq<string>>, nodeList: seq<(string, string)>,
                          localUnit: string, localIp: string)
      returns (r: Result<RenderRequest, Error>)
      modifies this
      ensures ReadConfig(cfg).failure.Some? ==>
                peers == ReadConfig(cfg).peers && r == Err(ReadConfig(cfg).failure.value)
      ensures ReadConfig(cfg).failure.None? && FormatNodes(nodeList).Err? ==>
                peers == ReadConfig(cfg).peers && r == Err(FormatNodes(nodeList).error)
      ensures ReadConfig(cfg).failure.None? && FormatNodes(nodeList).Ok? ==>
                && peers == RemoveNodes(ReadConfig(cfg).peers, FormatNodes(nodeList).value)
                && (r.Ok? <==> '/' in localUnit)
                && (r.Err? ==> r.error == NoOrdinal(localUnit))
                && (r.Ok? ==> r.value == RenderRequest(hosts, roles, Override(peers, localUnit, localIp).value))
    {
      var failure := ReadPeers(cfg);
      if failure.Some? {
        return Err(failure.value);
      }
      var formatted := FormatNodes(nodeList);
      if formatted.Err? {
        return Err(formatted.error);
      }
      peers := RemoveNodes(peers, formatted.value);
      r := Install(localUnit, localIp);
    }
  }
}
