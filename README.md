# Zookeeper charm layer: the peer-set logic

This project models the peer-set logic of the Juju Zookeeper charm layer (`lib/charms/layer/zookeeper.py`) in Dafny and proves properties of it. It covers:

- **`format_node`**: turns a unit name such as `zookeeper/3` and an IP into the member tuple `("3", "<ip>:2888:3888")`.
- **`_read_peers`**: re-reads the ensemble from the lines of zoo.cfg and keeps one tuple per `server.` line.
- **`increase_quorum` and `decrease_quorum`**: refresh the member list, then append or filter formatted nodes.
- **`_override`**: builds the map handed to Puppet, which holds `myid` and the ensemble.

The files are:

- `wrappers.dfy`: `Option` and `Result`.
- `text.dfy`: the Python string built-ins the code calls: `str.strip()` (with the `str.isspace` whitespace it removes), `str.split(sep)` and `int()` (as in CPython 3.6+). `int()` skips less whitespace than `strip()`: it refuses the ASCII information separators 0x1C to 0x1F. The fourth built-in the code calls, `str.startswith("server.")`, is `IsServerLine` in `zookeeper.dfy`. The fifth, `"{}:2888:3888".format(ip)` in `format_node`, is `ip + PeerPorts` in `FormatNode`, which is exact for a string IP. The code calls neither `sep.join` (`Join`) nor `str(n)` (`Decimal`). They are defined here only to state round trips: `Split` against `Join`, and `int(str(n)) == n`. They also describe the `server.<n>=<address>` lines Puppet writes into zoo.cfg (`MemberLine`).
- `zookeeper.dfy`: the data model and the operations. The `Zookeeper` class holds the `_peers` list as a field. `_read_peers` (`ReadPeers`) and the loop of `increase_quorum` (`AppendAbsent`, called by `IncreaseQuorum`) are methods with loops, proved against the specification functions `ReadConfig` and `AddNodes`. `format_node`, `_override` and the filter of `decrease_quorum` are functions.
- `config_properties.dfy`: what `format_node` and `_read_peers` compute, stated against the unit-name and zoo.cfg line formats.
- `quorum_properties.dfy`: properties of the membership changes, and the consequences of id types that differ.

A member tuple is `Peer(id, rest)`. The id is tagged: `IntId` for an id read back from zoo.cfg, where the code applies `int()`, and `StrId` for an id made by `format_node`, which keeps the text. Membership tests compare whole tuples, as Python does. The model therefore shows that a formatted node never equals the same member read back from disk. As a result, `increase_quorum` lists a member already in zoo.cfg a second time, and `decrease_quorum` removes nothing from the list it has just read.

Three behaviours of the code that a reader may not expect are modelled as written:

- A zoo.cfg that cannot be opened or read raises, after `_peers` has been reset. It is not tolerated.
- Membership is whole-tuple equality, not a comparison of connection strings.
- A `server.` line whose key is not an integer raises part-way through the loop. `_peers` then keeps the tuples appended before that line, and the model keeps them too.

Every exception is an `Err` outcome (`ConfigMissing`, `BadServerKey`, `NoOrdinal`). No precondition excludes it.

## Model

| member | source | states |
|---|---|---|
| ZookeeperLayer.FormatNode | lib/charms/layer/zookeeper.py:13-20 | succeeds exactly when the unit name has a `/`; the id is a string without `/` and the single address is the IP followed by `:2888:3888`; otherwise the error names the unit |
| ConfigProperties.FormatNodeOfUnitName | lib/charms/layer/zookeeper.py:13-20 | for `app/ordinal` or `app/ordinal/...` the id is exactly the ordinal text and the address is `ip:2888:3888` |
| ConfigProperties.FormatNodeExample | lib/charms/layer/zookeeper.py:13-20 | `zookeeper/3` at 10.0.0.5 gives `("3", "10.0.0.5:2888:3888")` |
| ZookeeperLayer.FormatNodes | lib/charms/layer/zookeeper.py:143 | the node-list comprehension succeeds exactly when every unit has a `/`; it then has one formatted node per input, in order; otherwise it fails with the first unit lacking a `/` |
| ZookeeperLayer.ParseServerLine | lib/charms/layer/zookeeper.py:61-63 | a parsed tuple has an integer id and no `=` in any later field; failure is `BadServerKey` of that line |
| ConfigProperties.ServerLineParts | lib/charms/layer/zookeeper.py:61-63 | a line `server.<ordinal>[.<more>]=<f1>=...` with trailing whitespace becomes `(int(ordinal), f1, ...)`, or raises exactly when `int(ordinal)` does; only the text between the first and second `.` of the key is read |
| ConfigProperties.ServerLineRoundTrip | lib/charms/layer/zookeeper.py:61-63 | the zoo.cfg line `server.<n>=<address>` reads back as `(n, address)` with an integer id |
| ConfigProperties.StartsWithServer | lib/charms/layer/zookeeper.py:60 | a line is kept exactly when its first seven characters are `server.`; the raw line is tested, so leading whitespace or a capital `S` makes it skipped |
| ZookeeperLayer.ServerLines | lib/charms/layer/zookeeper.py:59-60 | every kept line starts with `server.` |
| ZookeeperLayer.ServerLinesKeep | lib/charms/layer/zookeeper.py:59-60 | the kept lines are the `server.` lines of the file, each as often as it occurs there, in file order, and nothing else |
| ZookeeperLayer.ReadLine | lib/charms/layer/zookeeper.py:59-63 | after a line has raised, later lines change nothing; integer ids stay integer |
| ZookeeperLayer.ParseConfig | lib/charms/layer/zookeeper.py:54-63 | every tuple read from zoo.cfg has an integer id |
| ZookeeperLayer.ReadConfig | lib/charms/layer/zookeeper.py:54-63 | the definition `Zookeeper.ReadPeers` is proved against: a file that cannot be opened or read leaves an empty list and raises; otherwise the result is the loop `ParseConfig` over its lines, whose content `ParseConfigMeaning` states |
| ZookeeperLayer.FailureIsFinal | lib/charms/layer/zookeeper.py:59-63 | once a line has raised, the state is final: the rest of the file is not read |
| ConfigProperties.ParseEach | lib/charms/layer/zookeeper.py:61-63 | helper for `ParseConfigMeaning`, not a property of its own: one parse per kept line, the k-th given by `ParseEachAt` |
| ConfigProperties.ParseEachAt | lib/charms/layer/zookeeper.py:61-63 | the k-th parse is the parse of the k-th kept line |
| ConfigProperties.ReadsInOrderStep | lib/charms/layer/zookeeper.py:59-63 | one more turn of the loop over a `server.` line keeps the outcome in line with the parses, in order |
| ConfigProperties.ParseConfigInOrder | lib/charms/layer/zookeeper.py:54-63 | the outcome of the loop agrees, in order, with the parses of the `server.` lines |
| ConfigProperties.ParseConfigMeaning | lib/charms/layer/zookeeper.py:54-63 | the list starts empty and holds, in file order, the parse of each `server.` line, one per line, up to the first line that raises; it is complete exactly when nothing raised; other lines are ignored |
| ConfigProperties.ParseConfigIgnoresOtherLines | lib/charms/layer/zookeeper.py:59-60 | reading only the `server.` lines gives the same outcome as reading the whole file |
| ConfigProperties.ParseConfigSkips | lib/charms/layer/zookeeper.py:60 | a line without the `server.` prefix leaves the outcome of the earlier lines unchanged |
| ConfigProperties.ParseConfigAppends | lib/charms/layer/zookeeper.py:60-63 | after lines that raised nothing, a `server.` line that parses appends exactly its tuple |
| ConfigProperties.ParseOneLine | lib/charms/layer/zookeeper.py:54-63 | a file of one member line holds exactly that member |
| ConfigProperties.OneOtherLine | lib/charms/layer/zookeeper.py:54-60 | a file of one non-member line holds no member |
| ConfigProperties.ThenFirstMember | lib/charms/layer/zookeeper.py:59-63 | a member line after a non-member line gives exactly that member |
| ConfigProperties.ThenSecondMember | lib/charms/layer/zookeeper.py:59-63 | a second member line is appended after the first |
| ConfigProperties.ParseThreeLines | lib/charms/layer/zookeeper.py:59-63 | one other line and two member lines give exactly the two members' tuples, in order |
| ConfigProperties.ParseConfigExample | lib/charms/layer/zookeeper.py:54-63 | `tickTime=2000` plus the member lines for ids 1 and 2 give exactly `[(1, first), (2, second)]` |
| ConfigProperties.ParseZooCfgExample | lib/charms/layer/zookeeper.py:54-63 | the literal lines `tickTime=2000`, `server.1=10.0.0.1:2888:3888`, `server.2=10.0.0.2:2888:3888` give exactly `[(1, "10.0.0.1:2888:3888"), (2, "10.0.0.2:2888:3888")]` |
| ZookeeperLayer.Zookeeper.constructor | lib/charms/layer/zookeeper.py:29-35 | starts with no peers, no hosts and the two roles `zookeeper-server`, `zookeeper-client` |
| ZookeeperLayer.Zookeeper.ReadPeers | lib/charms/layer/zookeeper.py:54-63 | the loop resets `_peers` and leaves exactly the `ReadConfig` result of the file, the exception included |
| ZookeeperLayer.Override | lib/charms/layer/zookeeper.py:80-89 | keys are exactly `myid` and `ensemble`; `myid` is always the local unit's ordinal; the ensemble is never empty: it is the peers when there are any, else exactly the formatted local node; a local unit without `/` raises |
| ZookeeperLayer.Zookeeper.Install | lib/charms/layer/zookeeper.py:91-101 | changes nothing and yields the hosts, roles and override it renders; it fails exactly when the override does |
| ZookeeperLayer.AddNodes | lib/charms/layer/zookeeper.py:144-146 | the peers stay an unchanged prefix; a tuple is in the result exactly when it is a peer or a node |
| ZookeeperLayer.FirstNew | lib/charms/layer/zookeeper.py:144-146 | reference definition of the appended tuples: exactly the nodes not among the peers |
| ZookeeperLayer.Zookeeper.IncreaseQuorum | lib/charms/layer/zookeeper.py:141-148 | re-reads the peers (a raise stops it there), then appends each formatted node not already present, in input order, then renders; a local unit without `/` then raises `NoOrdinal` of that unit |
| ZookeeperLayer.Zookeeper.AppendAbsent | lib/charms/layer/zookeeper.py:144-146 | the loop leaves `_peers` equal to `AddNodes` of the peers it started from and the nodes |
| QuorumProperties.AddNodesIsPeersThenFirstNew | lib/charms/layer/zookeeper.py:144-146 | the result is the refreshed peers followed by the new nodes in input order, first occurrence only |
| QuorumProperties.AddPresentNodes | lib/charms/layer/zookeeper.py:144-146 | nodes that are all present already change nothing |
| QuorumProperties.AddNodesIdempotent | lib/charms/layer/zookeeper.py:144-146 | running the append-if-absent step twice with the same nodes gives the same list as running it once |
| QuorumProperties.FirstNewNoDuplicates | lib/charms/layer/zookeeper.py:144-146 | the appended tuples hold no duplicates, even when the input repeats a node |
| QuorumProperties.AddNodesNoDuplicates | lib/charms/layer/zookeeper.py:144-146 | the appended part has no duplicates and no refreshed peer; a duplicate-free list stays duplicate-free |
| ZookeeperLayer.RemoveNodes | lib/charms/layer/zookeeper.py:159 | the result is a subsequence of the peers; a tuple is in it exactly when it is a peer and not a node; tuples that are not nodes keep their multiplicity |
| ZookeeperLayer.Zookeeper.DecreaseQuorum | lib/charms/layer/zookeeper.py:157-161 | re-reads the peers (a raise stops it there), then keeps only the peers that are not formatted nodes, then renders; a local unit without `/` then raises `NoOrdinal` of that unit |
| QuorumProperties.RemoveNodesConcat | lib/charms/layer/zookeeper.py:159 | filtering distributes over concatenation |
| QuorumProperties.RemoveAbsentNodes | lib/charms/layer/zookeeper.py:157-159 | if none of the nodes is present, the list is unchanged |
| QuorumProperties.RemoveCoveredNodes | lib/charms/layer/zookeeper.py:159 | a list made only of nodes is emptied |
| QuorumProperties.RemoveNodesIdempotent | lib/charms/layer/zookeeper.py:159 | filtering twice with the same nodes gives the same list as filtering once |
| QuorumProperties.RemoveUndoesAdd | lib/charms/layer/zookeeper.py:144-146 | removing just-added nodes gives the same list as removing them beforehand; if none was present before, it restores the list |
| QuorumProperties.FormattedNeverRead | lib/charms/layer/zookeeper.py:20 | a formatted node is never among the tuples read from zoo.cfg, because its id is a string and theirs are integers |
| QuorumProperties.FormattedNodesNeverRead | lib/charms/layer/zookeeper.py:143 | no formatted node equals any refreshed peer |
| QuorumProperties.DecreaseKeepsReadPeers | lib/charms/layer/zookeeper.py:157-159 | after the refresh, the filter of `decrease_quorum` removes nothing |
| QuorumProperties.FirstNewOfAbsent | lib/charms/layer/zookeeper.py:144-146 | against peers none of the nodes is in, the appended tuples are the distinct nodes themselves |
| QuorumProperties.IncreaseAppendsEveryNode | lib/charms/layer/zookeeper.py:143-146 | after the refresh, every distinct formatted node is appended, whatever zoo.cfg lists |
| QuorumProperties.FormatOneNode | lib/charms/layer/zookeeper.py:143 | a one-unit node list formats to that unit's node |
| QuorumProperties.MemberLineIsServerLine | lib/charms/layer/zookeeper.py:60 | every member line is kept by the `server.` prefix test |
| QuorumProperties.ReadOneMember | lib/charms/layer/zookeeper.py:54-63 | a zoo.cfg with one member line reads back as that one member |
| QuorumProperties.PeerAddressTrimmed | lib/charms/layer/zookeeper.py:20 | a connection string has no surrounding whitespace when the IP does not start with any |
| QuorumProperties.SameMemberTwice | lib/charms/layer/zookeeper.py:141-161 | with `server.3=<ip>:2888:3888` on disk, adding `zookeeper/3` at that IP lists the address twice, and removing it leaves the disk entry |
| Text.AsciiWhitespace | lib/charms/layer/zookeeper.py:61-62 | among ASCII characters, `str.isspace` (what `strip()` removes) is exactly tab to carriage return, 0x1C to 0x1F and the space; the whitespace `int()` skips is the same without 0x1C to 0x1F |
| Text.LeadingSpaces | lib/charms/layer/zookeeper.py:61 | counts exactly the leading whitespace: all of it is whitespace, and the next character is not |
| Text.TrailingSpaces | lib/charms/layer/zookeeper.py:61 | counts exactly the trailing whitespace: all of it is whitespace, and the character before it is not |
| Text.Strip | lib/charms/layer/zookeeper.py:61 | the stripped line has no whitespace at either end |
| Text.LeadingOfSpaces | lib/charms/layer/zookeeper.py:61 | whitespace before a non-space start is exactly the leading whitespace |
| Text.TrailingOfSpaces | lib/charms/layer/zookeeper.py:61 | whitespace after a non-space end is exactly the trailing whitespace |
| Text.StripExact | lib/charms/layer/zookeeper.py:61 | whitespace around trimmed text is removed and the text kept |
| Text.Split | lib/charms/layer/zookeeper.py:61-62 | at least one piece, none holding the separator; text without the separator is one piece, text with it at least two |
| Text.SplitThenJoin | lib/charms/layer/zookeeper.py:61-62 | joining the pieces with the separator gives back the text |
| Text.SplitAtFirst | lib/charms/layer/zookeeper.py:20 | text split at its first separator: the part before it, then the split of the rest |
| Text.JoinThenSplit | lib/charms/layer/zookeeper.py:61 | pieces without the separator, joined, split back into the same pieces |
| Text.DigitBodyShape | lib/charms/layer/zookeeper.py:62 | the digits `int()` of CPython 3.6+ accepts, both directions: a non-empty run of ASCII digits and underscores that starts and ends with a digit and never has two underscores in a row |
| Text.ParseSignedChars | lib/charms/layer/zookeeper.py:62 | text `int()` accepts after skipping whitespace holds no whitespace |
| Text.ParseIntAround | lib/charms/layer/zookeeper.py:62 | `int()` of a sign and digits surrounded by the whitespace it skips is the value of the sign and digits |
| Text.ParseIntRejectsSeparator | lib/charms/layer/zookeeper.py:62 | an ASCII information separator anywhere in the text makes `int()` raise, although `strip()` would remove it at either end |
| Text.ParseIntSignedUnderscore | lib/charms/layer/zookeeper.py:62 | `int(" -0_7\n")` is -7: surrounding whitespace, a sign, a leading zero and an underscore are accepted (CPython 3.6+) |
| Text.ParseIntLeadingZeros | lib/charms/layer/zookeeper.py:62 | `int("+007")` is 7 |
| Text.ParseIntTrailingSeparator | lib/charms/layer/zookeeper.py:62 | `int("1\x1c")` raises |
| Text.ParseIntDoubleUnderscore | lib/charms/layer/zookeeper.py:62 | `int("1__0")` raises |
| Text.AllDigitsBody | lib/charms/layer/zookeeper.py:62 | a non-empty run of digits is accepted by `int()` |
| Text.Digits | lib/charms/layer/zookeeper.py:62 | a decimal rendering is non-empty and all digits |
| Text.DigitsValueOfDigits | lib/charms/layer/zookeeper.py:62 | the value `int()` gives a number's digits is the number |
| Text.DecimalStripped | lib/charms/layer/zookeeper.py:61-62 | a decimal rendering has no whitespace to strip |
| Text.ParseSignedDecimal | lib/charms/layer/zookeeper.py:62 | a signed decimal rendering reads back as the number |
| Text.ParseDecimal | lib/charms/layer/zookeeper.py:62 | `int(str(n)) == n` for every integer |

## Left out

- `start`, `stop`, `open_ports` and `close_ports` start and stop the service and open or close firewall ports through charmhelpers and `DistConfig`. Those are host side effects with no logic of their own. The `dist_config` property and the `DistConfig` construction in `__init__` are left out for the same reason.
- The framework event handlers in `reactive/zookeeper.py` are left out. They only dispatch on flags and make no decisions about the peer set.
- The open of `/usr/lib/zookeeper/conf/zoo.cfg` is I/O. zoo.cfg is an `Option` of its lines, and `None` stands for a file that cannot be opened or read, for example one that fails to decode during `readlines()`. Splitting the file into lines (`readlines`) is not modelled: each line is given as it comes, with its line ending.
- `log`, `local_unit()` and `unit_private_ip()` are host calls. The local unit name and IP are parameters, and log output is not modelled.
- Zookeeper.Install does not model Bigtop's `render_site_yaml` and `trigger_puppet`, which are foreign calls. It only returns the hosts, roles and override it would hand to them.
- Text.ParseInt follows `int()` of CPython 3.6 or later, which accepts single underscores between digits (PEP 515). Earlier versions refuse every underscore, so there a `server.` key such as `server.1_0` raises and `_read_peers` stops at that line, where this model reads ordinal 10.
- `int()` here accepts only ASCII digits. Python also accepts other Unicode decimal digits, and it limits the length of the digit string. Neither is modelled.
- `str.isspace` is modelled by its fixed list of whitespace characters. Unicode database changes are out of scope.
