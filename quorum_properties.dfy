/** What `increase_quorum` and `decrease_quorum` do to the peer list, and
    what follows from ids read back from zoo.cfg being integers while ids
    made by `format_node` are strings. */
module QuorumProperties {
  import opened Wrappers
  import opened Text
  import opened ZookeeperLayer
  import opened ConfigProperties

  /** `increase_quorum` keeps the refreshed peers as a prefix and appends
      exactly the reference list `FirstNew`. */
  lemma {:induction false} AddNodesIsPeersThenFirstNew(peers: seq<Peer>, nodes: seq<Peer>)
    ensures AddNodes(peers, nodes) == peers + FirstNew(peers, nodes)
  {
    if nodes != [] {
      var init := nodes[..|nodes| - 1];
      var node := nodes[|nodes| - 1];
      AddNodesIsPeersThenFirstNew(peers, init);
      var added := FirstNew(peers, init);
      assert node in peers + added <==> node in peers || node in init;
      assert peers + added + [node] == peers + (added + [node]);
      assert added + [] == added;
    }
  }

  /** Nodes that are all present already change nothing. */
  lemma {:induction false} AddPresentNodes(peers: seq<Peer>, nodes: seq<Peer>)
    requires forall x :: x in nodes ==> x in peers
    ensures AddNodes(peers, nodes) == peers
  {
    if nodes != [] {
      var init := nodes[..|nodes| - 1];
      assert forall x :: x in init ==> x in nodes;
      AddPresentNodes(peers, init);
      assert nodes[|nodes| - 1] in nodes;
    }
  }

  /** Running the append-if-absent step twice with the same nodes gives
      the same list as running it once. */
  lemma AddNodesIdempotent(peers: seq<Peer>, nodes: seq<Peer>)
    ensures AddNodes(AddNodes(peers, nodes), nodes) == AddNodes(peers, nodes)
  {
    AddPresentNodes(AddNodes(peers, nodes), nodes);
  }

  lemma {:induction false} FirstNewNoDuplicates(peers: seq<Peer>, nodes: seq<Peer>)
    ensures NoDuplicates(FirstNew(peers, nodes))
  {
    if nodes != [] {
      FirstNewNoDuplicates(peers, nodes[..|nodes| - 1]);
    }
  }

  /** The appended part holds no tuple twice and none of the refreshed
      peers, even when the node list repeats a node; so a duplicate-free
      list stays duplicate-free. */
  lemma AddNodesNoDuplicates(peers: seq<Peer>, nodes: seq<Peer>)
    ensures NoDuplicates(AddNodes(peers, nodes)[|peers|..])
    ensures forall x :: x in AddNodes(peers, nodes)[|peers|..] ==> x !in peers
    ensures NoDuplicates(peers) ==> NoDuplicates(AddNodes(peers, nodes))
  {
    AddNodesIsPeersThenFirstNew(peers, nodes);
    FirstNewNoDuplicates(peers, nodes);
    var r := AddNodes(peers, nodes);
    var added := FirstNew(peers, nodes);
    assert r[|peers|..] == added;
    if NoDuplicates(peers) {
      forall i, j | 0 <= i < j < |r| ensures r[i] != r[j] {
        if j >= |peers| {
          assert r[j] == added[j - |peers|];
          if i >= |peers| {
            assert r[i] == added[i - |peers|];
          } else {
            assert r[i] in peers;
          }
        }
      }
    }
  }

  lemma {:induction false} RemoveNodesConcat(a: seq<Peer>, b: seq<Peer>, nodes: seq<Peer>)
    ensures RemoveNodes(a + b, nodes) == RemoveNodes(a, nodes) + RemoveNodes(b, nodes)
  {
    if a == [] {
      assert a + b == b;
    } else {
      assert (a + b)[0] == a[0] && (a + b)[1..] == a[1..] + b;
      RemoveNodesConcat(a[1..], b, nodes);
    }
  }

  /** Removing nodes none of which is present leaves the list unchanged. */
  lemma {:induction false} RemoveAbsentNodes(peers: seq<Peer>, nodes: seq<Peer>)
    requires forall x :: x in nodes ==> x !in peers
    ensures RemoveNodes(peers, nodes) == peers
  {
    if peers != [] {
      assert peers[0] in peers;
      assert forall x :: x in peers[1..] ==> x in peers;
      RemoveAbsentNodes(peers[1..], nodes);
    }
  }

  /** `decrease_quorum`'s filter is idempotent. */
  lemma RemoveNodesIdempotent(peers: seq<Peer>, nodes: seq<Peer>)
    ensures RemoveNodes(RemoveNodes(peers, nodes), nodes) == RemoveNodes(peers, nodes)
  {
    RemoveAbsentNodes(RemoveNodes(peers, nodes), nodes);
  }

  /** A list all of whose entries are among the nodes is emptied. */
  lemma {:induction false} RemoveCoveredNodes(peers: seq<Peer>, nodes: seq<Peer>)
    requires forall x :: x in peers ==> x in nodes
    ensures RemoveNodes(peers, nodes) == []
  {
    if peers != [] {
      assert peers[0] in peers;
      assert forall x :: x in peers[1..] ==> x in peers;
      RemoveCoveredNodes(peers[1..], nodes);
    }
  }

  /** Removing the nodes just added gives the same list as removing them
      from the list before the addition; when none of them was present
      before, that is the list before the addition. */
  lemma RemoveUndoesAdd(peers: seq<Peer>, nodes: seq<Peer>)
    ensures RemoveNodes(AddNodes(peers, nodes), nodes) == RemoveNodes(peers, nodes)
    ensures (forall x :: x in nodes ==> x !in peers) ==>
              RemoveNodes(AddNodes(peers, nodes), nodes) == peers
  {
    AddNodesIsPeersThenFirstNew(peers, nodes);
    var added := FirstNew(peers, nodes);
    RemoveNodesConcat(peers, added, nodes);
    RemoveCoveredNodes(added, nodes);
    assert RemoveNodes(peers, nodes) + [] == RemoveNodes(peers, nodes);
    if forall x :: x in nodes ==> x !in peers {
      RemoveAbsentNodes(peers, nodes);
    }
  }

  /** A node formatted from a unit name never equals a tuple read from
      zoo.cfg: the ids differ in type even when the ordinal and address
      agree. */
  lemma FormattedNeverRead(lines: seq<string>, unit: string, ip: string)
    requires '/' in unit
    ensures FormatNode(unit, ip).value !in ParseConfig(lines).peers
  {
    var peers := ParseConfig(lines).peers;
    var node := FormatNode(unit, ip).value;
    assert node.id.StrId?;
    assert forall k :: 0 <= k < |peers| ==> peers[k] != node;
  }

  lemma FormattedNodesNeverRead(cfg: Option<seq<string>>, nodeList: seq<(string, string)>)
    requires FormatNodes(nodeList).Ok?
    ensures forall x :: x in FormatNodes(nodeList).value ==> x !in ReadConfig(cfg).peers
  {
    var nodes := FormatNodes(nodeList).value;
    var peers := ReadConfig(cfg).peers;
    forall x | x in nodes ensures x !in peers {
      var k :| 0 <= k < |nodes| && nodes[k] == x;
      assert FormatNode(nodeList[k].0, nodeList[k].1) == Ok(x);
      assert x.id.StrId?;
      if cfg.Some? {
        assert forall j :: 0 <= j < |peers| ==> peers[j] != x;
      }
    }
  }

  /** `decrease_quorum` never removes anything: after the refresh every
      peer came from zoo.cfg, and none of them equals a formatted node. */
  lemma DecreaseKeepsReadPeers(cfg: Option<seq<string>>, nodeList: seq<(string, string)>)
    requires FormatNodes(nodeList).Ok?
    ensures RemoveNodes(ReadConfig(cfg).peers, FormatNodes(nodeList).value) == ReadConfig(cfg).peers
  {
    FormattedNodesNeverRead(cfg, nodeList);
    RemoveAbsentNodes(ReadConfig(cfg).peers, FormatNodes(nodeList).value);
  }

  lemma {:induction false} FirstNewOfAbsent(peers: seq<Peer>, nodes: seq<Peer>)
    requires forall x :: x in nodes ==> x !in peers
    ensures FirstNew(peers, nodes) == FirstNew([], nodes)
  {
    if nodes != [] {
      var init := nodes[..|nodes| - 1];
      assert forall x :: x in init ==> x in nodes;
      FirstNewOfAbsent(peers, init);
      assert nodes[|nodes| - 1] in nodes;
    }
  }

  /** `increase_quorum` appends every distinct formatted node, whatever
      zoo.cfg already lists: a member already on disk gets a second entry. */
  lemma IncreaseAppendsEveryNode(cfg: Option<seq<string>>, nodeList: seq<(string, string)>)
    requires FormatNodes(nodeList).Ok?
    ensures AddNodes(ReadConfig(cfg).peers, FormatNodes(nodeList).value)
            == ReadConfig(cfg).peers + FirstNew([], FormatNodes(nodeList).value)
  {
    FormattedNodesNeverRead(cfg, nodeList);
    AddNodesIsPeersThenFirstNew(ReadConfig(cfg).peers, FormatNodes(nodeList).value);
    FirstNewOfAbsent(ReadConfig(cfg).peers, FormatNodes(nodeList).value);
  }

  lemma FormatOneNode(unit: string, ip: string, node: Peer)
    requires FormatNode(unit, ip) == Ok(node)
    ensures FormatNodes([(unit, ip)]) == Ok([node])
  {
    var nodeList := [(unit, ip)];
    assert nodeList[0] == (unit, ip);
    var formatted := FormatNodes(nodeList);
    assert formatted.Ok? && |formatted.value| == 1;
    assert formatted.value[0] == node;
    assert formatted.value == [node];
    assert formatted == Ok(formatted.value);
  }

  lemma MemberLineIsServerLine(n: int, address: string, eol: string)
    ensures IsServerLine(MemberLine(n, address) + eol)
  {
    var line := MemberLine(n, address) + eol;
    assert line[..|ServerPrefix|] == ServerPrefix;
  }

  lemma ReadOneMember(n: int, address: string)
    requires '=' !in address && Trimmed(address)
    ensures ReadConfig(Some([MemberLine(n, address) + "\n"])).peers == [Peer(IntId(n), [address])]
  {
    ServerLineRoundTrip(n, address, "\n");
    MemberLineIsServerLine(n, address, "\n");
    ParseOneLine(MemberLine(n, address) + "\n", Peer(IntId(n), [address]));
  }

  lemma PeerAddressTrimmed(ip: string)
    requires ip == [] || !IsSpace(ip[0])
    ensures Trimmed(ip + PeerPorts)
  {
    var address := ip + PeerPorts;
    assert address[|address| - 1] == '8';
    if ip == [] { assert address[0] == ':'; } else { assert address[0] == ip[0]; }
  }

  /** With `server.3=<ip>:2888:3888` in zoo.cfg, adding unit `zookeeper/3`
      at the same IP lists that address twice, and removing it leaves
      the disk entry in place. */
  lemma SameMemberTwice(unit: string, ip: string)
    requires unit == "zookeeper/3"
    requires '=' !in ip && (ip == [] || !IsSpace(ip[0]))
    ensures var cfg := Some([MemberLine(3, ip + PeerPorts) + "\n"]);
            var nodeList := [(unit, ip)];
            && FormatNodes(nodeList) == Ok([Peer(StrId("3"), [ip + PeerPorts])])
            && ReadConfig(cfg).peers == [Peer(IntId(3), [ip + PeerPorts])]
            && AddNodes(ReadConfig(cfg).peers, FormatNodes(nodeList).value)
               == [Peer(IntId(3), [ip + PeerPorts]), Peer(StrId("3"), [ip + PeerPorts])]
            && RemoveNodes(ReadConfig(cfg).peers, FormatNodes(nodeList).value)
               == ReadConfig(cfg).peers
  {
    var address := ip + PeerPorts;
    var disk := Peer(IntId(3), [address]);
    var node := Peer(StrId("3"), [address]);
    FormatNodeOfUnitName("zookeeper", "3", "", ip);
    assert "zookeeper" + "/" + "3" + "" == unit;
    FormatOneNode(unit, ip, node);
    PeerAddressTrimmed(ip);
    ReadOneMember(3, address);
    assert AddNodes([disk], [node]) == [disk, node] by {
      assert [node][..0] == [];
    }
    RemoveAbsentNodes([disk], [node]);
  }
}
