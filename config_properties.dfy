/** What `format_node` and `_read_peers` compute, stated against the unit
    name and the zoo.cfg line format. */
module ConfigProperties {
  import opened Wrappers
  import opened Text
  import opened ZookeeperLayer

  /** The id of `app/ordinal[/...]` is the ordinal, kept as text. */
  lemma FormatNodeOfUnitName(app: string, ordinal: string, tail: string, ip: string)
    requires '/' !in app && '/' !in ordinal
    requires tail == [] || tail[0] == '/'
    ensures FormatNode(app + "/" + ordinal + tail, ip) == Ok(Peer(StrId(ordinal), [ip + PeerPorts]))
  {
    assert app + "/" + ordinal + tail == app + ['/'] + (ordinal + tail);
    SplitAtFirst(app, '/', ordinal + tail);
    if tail == [] {
      assert ordinal + tail == ordinal;
    } else {
      assert ordinal + tail == ordinal + ['/'] + tail[1..];
      SplitAtFirst(ordinal, '/', tail[1..]);
    }
  }

  /** The unit `zookeeper/3` on 10.0.0.5 becomes `("3", "10.0.0.5:2888:3888")`. */
  lemma FormatNodeExample(unit: string, ip: string)
    requires unit == "zookeeper/3" && ip == "10.0.0.5"
    ensures FormatNode(unit, ip) == Ok(Peer(StrId("3"), ["10.0.0.5:2888:3888"]))
  {
    FormatNodeOfUnitName("zookeeper", "3", "", ip);
    assert "zookeeper" + "/" + "3" + "" == unit;
    assert ip + PeerPorts == "10.0.0.5:2888:3888";
  }

  /** `line.startswith("server.")` looks at the raw line: its first seven
      characters must be `server.`, so a member line with leading whitespace
      or a capital letter is skipped. */
  lemma StartsWithServer(line: string)
    ensures IsServerLine(line) <==> |line| >= 7 && line[..7] == "server."
    ensures !IsServerLine(" " + line) && !IsServerLine("S" + line)
  {
    assert ServerPrefix[0] == 's';
    assert (" " + line)[0] == ' ' && ("S" + line)[0] == 'S';
  }

  /** The key `server.<ordinal>[.<more>]` splits at `.` into `server`, the
      ordinal, and whatever follows the next `.`. */
  lemma ServerKeySplit(ordinal: string, tail: string)
    requires '.' !in ordinal
    requires tail == [] || tail[0] == '.'
    ensures var parts := Split(ServerPrefix + ordinal + tail, '.');
            |parts| >= 2 && parts[1] == ordinal
  {
    assert ServerPrefix + ordinal + tail == ServerPrefix + (ordinal + tail);
    SplitAfterPrefix(ordinal + tail);
    SplitOrdinal(ordinal, tail);
  }

  lemma SplitAfterPrefix(rest: string)
    ensures Split(ServerPrefix + rest, '.') == ["server"] + Split(rest, '.')
  {
    assert ServerPrefix + rest == "server" + ['.'] + rest;
    SplitAtFirst("server", '.', rest);
  }

  lemma SplitOrdinal(ordinal: string, tail: string)
    requires '.' !in ordinal
    requires tail == [] || tail[0] == '.'
    ensures Split(ordinal + tail, '.')[0] == ordinal
  {
    if tail == [] {
      assert ordinal + tail == ordinal;
    } else {
      assert ordinal + tail == ordinal + ['.'] + tail[1..];
      SplitAtFirst(ordinal, '.', tail[1..]);
    }
  }

  lemma ParseServerLineFrom(line: string, key: string, ordinal: string, rest: seq<string>)
    requires Split(Strip(line), '=') == [key] + rest
    requires |Split(key, '.')| >= 2 && Split(key, '.')[1] == ordinal
    ensures ParseServerLine(line) ==
              match ParseInt(ordinal)
              case None => Err(BadServerKey(line))
              case Some(n) => Ok(Peer(IntId(n), rest))
  {
    assert ([key] + rest)[1..] == rest;
  }

  lemma SplitJoinedFields(key: string, rest: seq<string>)
    requires '=' !in key
    requires forall k :: 0 <= k < |rest| ==> '=' !in rest[k]
    ensures Split(Join([key] + rest, '='), '=') == [key] + rest
  {
    var pieces := [key] + rest;
    forall k | 0 <= k < |pieces| ensures '=' !in pieces[k] {
      if k > 0 { assert pieces[k] == rest[k - 1]; }
    }
    JoinThenSplit(pieces, '=');
  }

  lemma StripLineEnd(body: string, eol: string)
    requires Trimmed(body) && AllSpace(eol)
    ensures Strip(body + eol) == body
  {
    StripExact([], body, eol);
    assert [] + body + eol == body + eol;
  }

  lemma NoEqualsInKey(ordinal: string, tail: string)
    requires '=' !in ordinal && '=' !in tail
    ensures '=' !in ServerPrefix + ordinal + tail
  {
    assert '=' !in ServerPrefix by {
      assert ServerPrefix == ['s', 'e', 'r', 'v', 'e', 'r', '.'];
    }
  }

  /** A `server.` line: after stripping, the key is
      `server.<ordinal>[.<more>]` and the tuple is `(int(ordinal), <the
      =-separated pieces after the key>)`; `int` failing raises. */
  lemma ServerLineParts(ordinal: string, tail: string, rest: seq<string>, eol: string)
    requires '=' !in ordinal && '.' !in ordinal
    requires '=' !in tail && (tail == [] || tail[0] == '.')
    requires forall k :: 0 <= k < |rest| ==> '=' !in rest[k]
    requires Trimmed(Join([ServerPrefix + ordinal + tail] + rest, '=')) && AllSpace(eol)
    ensures var line := Join([ServerPrefix + ordinal + tail] + rest, '=') + eol;
            ParseServerLine(line) ==
              match ParseInt(ordinal)
              case None => Err(BadServerKey(line))
              case Some(n) => Ok(Peer(IntId(n), rest))
  {
    var key := ServerPrefix + ordinal + tail;
    var body := Join([key] + rest, '=');
    NoEqualsInKey(ordinal, tail);
    StripLineEnd(body, eol);
    SplitJoinedFields(key, rest);
    ServerKeySplit(ordinal, tail);
    ParseServerLineFrom(body + eol, key, ordinal, rest);
  }

  lemma MemberLineTrimmed(key: string, address: string)
    requires Trimmed(address)
    ensures Trimmed(ServerPrefix + key + "=" + address)
  {
    var body := ServerPrefix + key + "=" + address;
    if address == [] {
      assert body[|body| - 1] == '=';
    } else {
      assert body[|body| - 1] == address[|address| - 1];
    }
  }

  /** The line zoo.cfg holds for member `n`: `server.<n>=<address>`. */
  function MemberLine(n: int, address: string): string
  {
    ServerPrefix + Decimal(n) + "=" + address
  }

  /** zoo.cfg's member line reads back as `(n, address)`, with an integer id. */
  lemma ServerLineRoundTrip(n: int, address: string, eol: string)
    requires '=' !in address && Trimmed(address) && AllSpace(eol)
    ensures ParseServerLine(MemberLine(n, address) + eol) == Ok(Peer(IntId(n), [address]))
  {
    var key := Decimal(n);
    assert Join([ServerPrefix + key] + [address], '=') == ServerPrefix + key + "=" + address;
    MemberLineTrimmed(key, address);
    assert ServerPrefix + key + [] == ServerPrefix + key;
    ServerLineParts(key, [], [address], eol);
    ParseDecimal(n);
  }

  /** `ParseServerLine` applied to each line, in order. */
  function ParseEach(sl: seq<string>): (r: seq<Result<Peer, Error>>)
    ensures |r| == |sl|
  {
    if sl == [] then [] else ParseEach(sl[..|sl| - 1]) + [ParseServerLine(sl[|sl| - 1])]
  }

  lemma {:induction false} ParseEachAt(sl: seq<string>, k: nat)
    requires k < |sl|
    ensures ParseEach(sl)[k] == ParseServerLine(sl[k])
  {
    if k < |sl| - 1 {
      ParseEachAt(sl[..|sl| - 1], k);
    }
  }

  lemma ParseEachAppend(sl: seq<string>, line: string)
    ensures ParseEach(sl + [line]) == ParseEach(sl) + [ParseServerLine(line)]
  {
    assert (sl + [line])[..|sl|] == sl;
  }

  /** `r` is the outcome of parsing, in order, lines whose parses are
      `parsed`: its tuples are the first parses, one per line; it is
      complete exactly when nothing raised, and otherwise the next parse is
      the exception it stopped at. */
  predicate ReadsInOrder(parsed: seq<Result<Peer, Error>>, r: Parsed) {
    && |r.peers| <= |parsed|
    && (forall k :: 0 <= k < |r.peers| ==> parsed[k] == Ok(r.peers[k]))
    && (r.failure.None? <==> |r.peers| == |parsed|)
    && (r.failure.Some? ==> parsed[|r.peers|] == Err(r.failure.value))
  }

  lemma ReadsInOrderStep(parsed: seq<Result<Peer, Error>>, prior: Parsed, line: string)
    requires ReadsInOrder(parsed, prior) && IsServerLine(line)
    ensures ReadsInOrder(parsed + [ParseServerLine(line)], ReadLine(prior, line))
  {
    var parsed' := parsed + [ParseServerLine(line)];
    assert forall k :: 0 <= k < |parsed| ==> parsed'[k] == parsed[k];
    if prior.failure.None? {
      match ParseServerLine(line)
      case Ok(p) =>
        ReadLineAppends(prior, line, p);
        var peers := prior.peers + [p];
        assert forall k :: 0 <= k < |prior.peers| ==> peers[k] == prior.peers[k];
      case Err(e) =>
        ReadLineFails(prior, line, e);
    }
  }

  lemma {:induction false} ParseConfigInOrder(lines: seq<string>)
    ensures ReadsInOrder(ParseEach(ServerLines(lines)), ParseConfig(lines))
  {
    if lines == [] {
      assert ParseEach(ServerLines(lines)) == [];
      assert ParseConfig(lines) == Parsed([], None);
    } else {
      var init := lines[..|lines| - 1];
      var line := lines[|lines| - 1];
      var prior := ParseConfig(init);
      var sli := ServerLines(init);
      ParseConfigInOrder(init);
      assert lines == init + [line];
      ParseConfigStep(init, line);
      assert ParseConfig(lines) == ReadLine(prior, line);
      if IsServerLine(line) {
        assert ServerLines(lines) == sli + [line];
        ParseEachAppend(sli, line);
        var parsed := ParseEach(sli) + [ParseServerLine(line)];
        assert ParseEach(ServerLines(lines)) == parsed;
        ReadsInOrderStep(ParseEach(sli), prior, line);
        assert ReadsInOrder(parsed, ReadLine(prior, line));
      } else {
        ReadLineSkips(prior, line);
        assert ServerLines(lines) == sli + [];
        assert ServerLines(lines) == sli;
        assert ParseConfig(lines) == prior;
      }
    }
  }

  /** `_read_peers` in full: its tuples are the parses of the `server.`
      lines, one per line in file order, up to the first line that raises;
      every other line is ignored. */
  lemma ParseConfigMeaning(lines: seq<string>)
    ensures var r := ParseConfig(lines);
            var sl := ServerLines(lines);
            && |r.peers| <= |sl|
            && (forall k :: 0 <= k < |r.peers| ==> ParseServerLine(sl[k]) == Ok(r.peers[k]))
            && (r.failure.None? <==> |r.peers| == |sl|)
            && (r.failure.Some? ==> ParseServerLine(sl[|r.peers|]) == Err(r.failure.value))
  {
    var r := ParseConfig(lines);
    var sl := ServerLines(lines);
    ParseConfigInOrder(lines);
    forall k | 0 <= k < |r.peers| ensures ParseServerLine(sl[k]) == Ok(r.peers[k]) {
      ParseEachAt(sl, k);
    }
    if r.failure.Some? {
      ParseEachAt(sl, |r.peers|);
    }
  }

  /** One more line of zoo.cfg is one more turn of the loop. */
  lemma ParseConfigStep(lines: seq<string>, line: string)
    ensures ParseConfig(lines + [line]) == ReadLine(ParseConfig(lines), line)
  {
    assert (lines + [line])[..|lines|] == lines;
  }

  /** A line without the `server.` prefix changes nothing. */
  lemma ReadLineSkips(prior: Parsed, line: string)
    requires !IsServerLine(line)
    ensures ReadLine(prior, line) == prior
  {
  }

  /** A `server.` line that parses appends exactly its tuple. */
  lemma ReadLineAppends(prior: Parsed, line: string, p: Peer)
    requires prior.failure.None?
    requires IsServerLine(line) && ParseServerLine(line) == Ok(p)
    ensures ReadLine(prior, line) == Parsed(prior.peers + [p], None)
  {
  }

  /** A `server.` line that raises stops the loop with what was read so far. */
  lemma ReadLineFails(prior: Parsed, line: string, e: Error)
    requires prior.failure.None?
    requires IsServerLine(line) && ParseServerLine(line) == Err(e)
    ensures ReadLine(prior, line) == Parsed(prior.peers, Some(e))
  {
  }

  /** A line without the `server.` prefix leaves the outcome of the lines
      before it unchanged. */
  lemma ParseConfigSkips(lines: seq<string>, line: string)
    requires !IsServerLine(line)
    ensures ParseConfig(lines + [line]) == ParseConfig(lines)
  {
    ParseConfigStep(lines, line);
    ReadLineSkips(ParseConfig(lines), line);
  }

  /** After lines that raised nothing, a `server.` line that parses appends
      exactly its tuple. */
  lemma ParseConfigAppends(lines: seq<string>, line: string, p: Peer)
    requires ParseConfig(lines).failure.None?
    requires IsServerLine(line) && ParseServerLine(line) == Ok(p)
    ensures ParseConfig(lines + [line]) == Parsed(ParseConfig(lines).peers + [p], None)
  {
    ParseConfigStep(lines, line);
    ReadLineAppends(ParseConfig(lines), line, p);
  }

  /** Dropping every line without the `server.` prefix beforehand changes
      nothing: those lines are ignored. */
  lemma {:induction false} ParseConfigIgnoresOtherLines(lines: seq<string>)
    ensures ParseConfig(lines) == ParseConfig(ServerLines(lines))
  {
    if lines != [] {
      var init := lines[..|lines| - 1];
      var line := lines[|lines| - 1];
      var sli := ServerLines(init);
      ParseConfigIgnoresOtherLines(init);
      assert lines == init + [line];
      ParseConfigStep(init, line);
      if IsServerLine(line) {
        assert ServerLines(lines) == sli + [line];
        ParseConfigStep(sli, line);
      } else {
        ReadLineSkips(ParseConfig(init), line);
        assert ServerLines(lines) == sli + [];
        assert ServerLines(lines) == sli;
      }
    }
  }

  /** A zoo.cfg of one line that parses holds exactly that line's tuple. */
  lemma ParseOneLine(line: string, p: Peer)
    requires IsServerLine(line) && ParseServerLine(line) == Ok(p)
    ensures ParseConfig([line]) == Parsed([p], None)
  {
    ReadLineAppends(Parsed([], None), line, p);
    assert [line][..0] == [];
    assert [] + [p] == [p];
  }

  lemma OneOtherLine(a: string)
    requires !IsServerLine(a)
    ensures ParseConfig([a]) == Parsed([], None)
  {
    assert [a][..0] == [];
    ReadLineSkips(Parsed([], None), a);
  }

  lemma ThenFirstMember(a: string, b: string, p1: Peer)
    requires ParseConfig([a]) == Parsed([], None)
    requires IsServerLine(b) && ParseServerLine(b) == Ok(p1)
    ensures ParseConfig([a, b]) == Parsed([p1], None)
  {
    assert [a, b][..1] == [a];
    ReadLineAppends(Parsed([], None), b, p1);
    assert [] + [p1] == [p1];
  }

  lemma ThenSecondMember(a: string, b: string, c: string, p1: Peer, p2: Peer)
    requires ParseConfig([a, b]) == Parsed([p1], None)
    requires IsServerLine(c) && ParseServerLine(c) == Ok(p2)
    ensures ParseConfig([a, b, c]) == Parsed([p1, p2], None)
  {
    ParseConfigAppends([a, b], c, p2);
    assert [a, b] + [c] == [a, b, c];
    assert [p1] + [p2] == [p1, p2];
  }

  /** Another line, then two member lines: the two members' tuples, in
      file order. */
  lemma ParseThreeLines(other: string, line1: string, line2: string, p1: Peer, p2: Peer)
    requires !IsServerLine(other)
    requires IsServerLine(line1) && ParseServerLine(line1) == Ok(p1)
    requires IsServerLine(line2) && ParseServerLine(line2) == Ok(p2)
    ensures ParseConfig([other, line1, line2]) == Parsed([p1, p2], None)
  {
    OneOtherLine(other);
    ThenFirstMember(other, line1, p1);
    ThenSecondMember(other, line1, line2, p1, p2);
  }

  /** A zoo.cfg holding `tickTime=2000` and the member lines for ids 1
      and 2 (say `server.1=10.0.0.1:2888:3888`, `server.2=10.0.0.2:2888:3888`)
      yields exactly two tuples, with integer ids 1 and 2. */
  lemma ParseConfigExample(first: string, second: string)
    requires '=' !in first && Trimmed(first)
    requires '=' !in second && Trimmed(second)
    ensures ParseConfig(["tickTime=2000\n", MemberLine(1, first) + "\n", MemberLine(2, second) + "\n"])
            == Parsed([Peer(IntId(1), [first]), Peer(IntId(2), [second])], None)
  {
    ServerLineRoundTrip(1, first, "\n");
    ServerLineRoundTrip(2, second, "\n");
    ParseThreeLines("tickTime=2000\n", MemberLine(1, first) + "\n", MemberLine(2, second) + "\n",
                    Peer(IntId(1), [first]), Peer(IntId(2), [second]));
  }

  /** The member line for id 1 at 10.0.0.1, with its line ending. */
  lemma FirstMemberLine()
    ensures MemberLine(1, "10.0.0.1:2888:3888") + "\n" == "server.1=10.0.0.1:2888:3888\n"
  {
    assert Decimal(1) == "1";
  }

  /** The member line for id 2 at 10.0.0.2, with its line ending. */
  lemma SecondMemberLine()
    ensures MemberLine(2, "10.0.0.2:2888:3888") + "\n" == "server.2=10.0.0.2:2888:3888\n"
  {
    assert Decimal(2) == "2";
  }

  /** A zoo.cfg written out literally: `tickTime=2000`, then the members 1
      and 2 on 10.0.0.1 and 10.0.0.2, reads back as exactly those two
      members, in file order. */
  lemma ParseZooCfgExample()
    ensures ParseConfig(["tickTime=2000\n", "server.1=10.0.0.1:2888:3888\n", "server.2=10.0.0.2:2888:3888\n"])
            == Parsed([Peer(IntId(1), ["10.0.0.1:2888:3888"]), Peer(IntId(2), ["10.0.0.2:2888:3888"])], None)
  {
    var first := "10.0.0.1:2888:3888";
    var second := "10.0.0.2:2888:3888";
    FirstMemberLine();
    SecondMemberLine();
    assert '=' !in first && Trimmed(first);
    assert '=' !in second && Trimmed(second);
    ParseConfigExample(first, second);
  }
}
