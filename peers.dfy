/**
 * The global peer list `peers` (main.py line 8) and the code that changes it
 * or walks it: the accept path of `start_peer_server`, `connect_to_peer`,
 * the body of `listen_for_broadcasts`, and the per-peer loops of
 * `send_message_to_all_peers` and `send_file_to_all_peers`.
 *
 * The network is an oracle `up`: `up(p)` says whether `connect(p)` succeeds.
 */
module Peers {
  import opened Wrappers
  import opened Encoding
  import opened Announcement
  import opened Transfer

  predicate NoDuplicates(ps: seq<Address>) {
    forall i, j :: 0 <= i < j < |ps| ==> ps[i] != ps[j]
  }

  /**
   * `if a not in peers: peers.append(a)`: the list gains `a` at the end when
   * it was absent and is unchanged otherwise; earlier entries stay where they
   * were, and a list without duplicates keeps none.
   */
  function AddIfAbsent(ps: seq<Address>, a: Address): (r: seq<Address>)
    ensures a in r
    ensures |r| == if a in ps then |ps| else |ps| + 1
    ensures r[..|ps|] == ps
    ensures forall x :: x in r <==> x in ps || x == a
    ensures NoDuplicates(ps) ==> NoDuplicates(r)
  {
    if a in ps then ps else ps + [a]
  }

  /** The listener's test (main.py line 127): not this node itself, not yet known. */
  predicate IsNewPeer(ps: seq<Address>, self: Address, a: Address) {
    a != self && a !in ps
  }

  /**
   * The peer list after the listener read address `a`: the accept rule,
   * except that the node's own address is never added.
   */
  function Discover(ps: seq<Address>, self: Address, a: Address): (r: seq<Address>)
    ensures r == if a == self then ps else AddIfAbsent(ps, a)
    ensures self !in ps ==> self !in r
  {
    if IsNewPeer(ps, self, a) then ps + [a] else ps
  }

  /** `connect_to_peer` appends unconditionally, so reconnecting to a known peer always duplicates it. */
  lemma ConnectToKnownPeerDuplicates(ps: seq<Address>, a: Address)
    requires a in ps
    ensures !NoDuplicates(ps + [a])
  {
    var i :| 0 <= i < |ps| && ps[i] == a;
    assert (ps + [a])[i] == (ps + [a])[|ps|];
  }

  /**
   * The addresses the listener reads from `datagrams`, in order. The first
   * datagram that does not parse raises inside the listening loop, which has
   * no handler, so the listener thread ends there and later datagrams are
   * never read.
   */
  function Announced(datagrams: seq<string>): (r: seq<Address>)
    ensures |r| <= |datagrams|
  {
    if datagrams == [] then []
    else match ParseAnnouncement(datagrams[0])
      case Err(_) => []
      case Ok(a) => [a] + Announced(datagrams[1..])
  }

  /** The address read at position `j` is what the datagram at `j` parses to. */
  lemma {:induction false} AnnouncedAt(datagrams: seq<string>, j: nat)
    requires j < |Announced(datagrams)|
    ensures ParseAnnouncement(datagrams[j]) == Ok(Announced(datagrams)[j])
    decreases j
  {
    if j > 0 {
      var rest := datagrams[1..];
      AnnouncedAt(rest, j - 1);
      assert datagrams[j] == rest[j - 1];
    }
  }

  /** Reading stops exactly at a datagram that does not parse. */
  lemma {:induction false} AnnouncedStops(datagrams: seq<string>)
    ensures var n := |Announced(datagrams)|;
      n < |datagrams| ==> ParseAnnouncement(datagrams[n]).Err?
    decreases |datagrams|
  {
    if datagrams != [] && ParseAnnouncement(datagrams[0]).Ok? {
      var rest := datagrams[1..];
      AnnouncedStops(rest);
      assert |Announced(datagrams)| == |Announced(rest)| + 1;
      if |Announced(rest)| < |rest| {
        assert datagrams[|Announced(datagrams)|] == rest[|Announced(rest)|];
      }
    }
  }

  /**
   * Each address read is what its datagram parses to, and reading stops
   * exactly at the first datagram that does not parse.
   */
  lemma AnnouncedParse(datagrams: seq<string>)
    ensures var r := Announced(datagrams);
      forall j :: 0 <= j < |r| ==> ParseAnnouncement(datagrams[j]) == Ok(r[j])
    ensures var r := Announced(datagrams);
      |r| < |datagrams| ==> ParseAnnouncement(datagrams[|r|]).Err?
  {
    forall j | 0 <= j < |Announced(datagrams)|
      ensures ParseAnnouncement(datagrams[j]) == Ok(Announced(datagrams)[j])
    {
      AnnouncedAt(datagrams, j);
    }
    AnnouncedStops(datagrams);
  }

  /** Reading from `i` on: the datagram at `i`, then the rest unless it failed. */
  lemma AnnouncedStep(datagrams: seq<string>, i: nat)
    requires i < |datagrams|
    ensures var parsed := ParseAnnouncement(datagrams[i]);
      Announced(datagrams[i..]) ==
        if parsed.Err? then [] else [parsed.value] + Announced(datagrams[i + 1..])
  {
    var rest := datagrams[i..];
    assert rest[0] == datagrams[i] && rest[1..] == datagrams[i + 1..];
  }

  /** The peer list after the listener read `addrs` in order. */
  function DiscoverAll(ps: seq<Address>, self: Address, addrs: seq<Address>): (r: seq<Address>)
    ensures |r| <= |ps| + |addrs|
    decreases |addrs|
  {
    if addrs == [] then ps else DiscoverAll(Discover(ps, self, addrs[0]), self, addrs[1..])
  }

  /** Where the next address sits in the whole reading. */
  lemma PositionOfNext(prefix: seq<Address>, a: Address, later: seq<Address>, read: seq<Address>)
    requires prefix + ([a] + later) == read
    ensures |prefix| < |read| && read[|prefix|] == a && read[..|prefix|] == prefix
  {
    assert read[..|prefix|] == (prefix + ([a] + later))[..|prefix|];
  }

  /** Moving the head of a suffix to the end of its prefix keeps the whole. */
  lemma AppendShift(read: seq<Address>, a: Address, later: seq<Address>)
    ensures (read + [a]) + later == read + ([a] + later)
  {
  }

  /** Reading one more address is one more discovery step on the list reached so far. */
  lemma {:induction false} DiscoverAllAppend(ps: seq<Address>, self: Address, addrs: seq<Address>, a: Address)
    ensures DiscoverAll(ps, self, addrs + [a]) == Discover(DiscoverAll(ps, self, addrs), self, a)
    decreases |addrs|
  {
    if addrs == [] {
      assert [] + [a] == [a] && [a][1..] == [];
    } else {
      assert (addrs + [a])[0] == addrs[0] && (addrs + [a])[1..] == addrs[1..] + [a];
      DiscoverAllAppend(Discover(ps, self, addrs[0]), self, addrs[1..], a);
    }
  }

  /**
   * Discovery keeps the peer list clean: starting without duplicates and
   * without this node, it stays so.
   */
  lemma {:induction false} DiscoveryKeepsPeersClean(ps: seq<Address>, self: Address, addrs: seq<Address>)
    requires NoDuplicates(ps) && self !in ps
    ensures var r := DiscoverAll(ps, self, addrs); NoDuplicates(r) && self !in r
    decreases |addrs|
  {
    if addrs != [] {
      DiscoveryKeepsPeersClean(Discover(ps, self, addrs[0]), self, addrs[1..]);
    }
  }

  /** Discovery only appends: every peer known before keeps its place. */
  lemma {:induction false} DiscoveryKeepsKnownPeers(ps: seq<Address>, self: Address, addrs: seq<Address>)
    ensures var r := DiscoverAll(ps, self, addrs);
      |ps| <= |r| && forall i :: 0 <= i < |ps| ==> r[i] == ps[i]
    decreases |addrs|
  {
    if addrs != [] {
      var next := Discover(ps, self, addrs[0]);
      assert forall i :: 0 <= i < |ps| ==> next[i] == ps[i];
      DiscoveryKeepsKnownPeers(next, self, addrs[1..]);
    }
  }

  /** Discovery adds nothing but addresses it read, and never this node. */
  lemma {:induction false} DiscoveredPeersWereRead(ps: seq<Address>, self: Address, addrs: seq<Address>, x: Address)
    requires x in DiscoverAll(ps, self, addrs) && x !in ps
    ensures x in addrs && x != self
    decreases |addrs|
  {
    var next := Discover(ps, self, addrs[0]);
    if x != addrs[0] || x == self {
      DiscoveredPeersWereRead(next, self, addrs[1..], x);
    }
  }

  /** Every peer the listener adds was announced by a datagram it read. */
  lemma DiscoveredPeersWereAnnounced(ps: seq<Address>, self: Address, datagrams: seq<string>, x: Address)
    requires x in DiscoverAll(ps, self, Announced(datagrams)) && x !in ps
    ensures exists i :: 0 <= i < |datagrams| && ParseAnnouncement(datagrams[i]) == Ok(x)
  {
    var r := Announced(datagrams);
    DiscoveredPeersWereRead(ps, self, r, x);
    AnnouncedParse(datagrams);
    var k :| 0 <= k < |r| && r[k] == x;
    assert ParseAnnouncement(datagrams[k]) == Ok(x);
  }

  // ---------------------------------------------------------------- fan-out

  /** One iteration of `send_message_to_all_peers`: a peer that accepts the connection gets the encoded message. */
  function MessageAttempt(peer: Address, message: string, up: Address -> bool): (r: Attempt)
    ensures r.peer == peer && (r.sent <==> up(peer))
    ensures r.sent ==> r.received == Encode(message) && |r.received| >= |message|
    ensures !r.sent ==> r.received == []
  {
    if up(peer) then Attempt(peer, Encode(message), true) else Attempt(peer, [], false)
  }

  /** One iteration of `send_file_to_all_peers`. */
  function FileAttempt(peer: Address, name: Bytes, file: Option<Bytes>, up: Address -> bool): (r: Attempt)
    ensures r.peer == peer && (r.sent <==> up(peer) && file.Some?)
    ensures !up(peer) ==> r.received == []
    ensures up(peer) ==> r.received == FileStream(name, file)
    ensures r.sent ==> |r.received| == |FileTag| + |name| + |file.value|
  {
    if up(peer) then Attempt(peer, FileStream(name, file), file.Some?) else Attempt(peer, [], false)
  }

  /** The peers a log reports as reached, in order. */
  function SentTo(log: seq<Attempt>): seq<Address>
  {
    if log == [] then []
    else (if log[0].sent then [log[0].peer] else []) + SentTo(log[1..])
  }

  /** The peers of `ps` that satisfy `ok`, in order. */
  function Filter(ps: seq<Address>, ok: Address -> bool): (r: seq<Address>)
    ensures |r| <= |ps|
  {
    if ps == [] then [] else (if ok(ps[0]) then [ps[0]] else []) + Filter(ps[1..], ok)
  }

  /**
   * A log with one attempt per peer, in list order, whose success depends
   * only on that peer reports exactly the peers that passed, in order: no
   * failure removes any other peer from it.
   */
  lemma {:induction false} SentToIsFilter(ps: seq<Address>, log: seq<Attempt>, ok: Address -> bool)
    requires |log| == |ps|
    requires forall i :: 0 <= i < |ps| ==> log[i].peer == ps[i] && log[i].sent == ok(ps[i])
    ensures SentTo(log) == Filter(ps, ok)
  {
    if ps != [] {
      SentToIsFilter(ps[1..], log[1..], ok);
    }
  }

  /** What the listener did with an announcement that parsed. */
  datatype Heard =
    | Ignored(addr: Address)                      // this node, or a peer already known
    | Added(addr: Address, notices: seq<Attempt>) // appended, then "New peer discovered" sent to all

  /** The address of each outcome, in order. */
  function Addresses(heard: seq<Heard>): (r: seq<Address>)
    ensures |r| == |heard| && forall j :: 0 <= j < |heard| ==> r[j] == heard[j].addr
  {
    seq(|heard|, j requires 0 <= j < |heard| => heard[j].addr)
  }

  /** One more outcome adds its address at the end. */
  lemma AddressesAppend(heard: seq<Heard>, h: Heard)
    ensures Addresses(heard + [h]) == Addresses(heard) + [h.addr]
  {
    assert forall j :: 0 <= j < |heard| ==> (heard + [h])[j] == heard[j];
  }

  /**
   * `h` is what the listener does with the address it read while the list
   * was `known`: it adds the address exactly when it is new, and then sends
   * the "New peer discovered" notice to every peer of the grown list, in
   * order.
   */
  predicate IsReaction(h: Heard, known: seq<Address>, self: Address, up: Address -> bool) {
    && (h.Added? <==> IsNewPeer(known, self, h.addr))
    && (h.Added? ==>
          var grown := known + [h.addr];
          && |h.notices| == |grown|
          && forall q :: 0 <= q < |grown| ==> h.notices[q] == MessageAttempt(grown[q], NewPeerNotice(h.addr), up))
  }

  /** One more outcome, taken against the list discovery built from the addresses before it, extends the run of reactions. */
  lemma ReactionsExtend(ps: seq<Address>, self: Address, up: Address -> bool,
                        read: seq<Address>, heard: seq<Heard>, h: Heard)
    requires |heard| < |read| && read[|heard|] == h.addr
    requires forall j :: 0 <= j < |heard| ==> IsReaction(heard[j], DiscoverAll(ps, self, read[..j]), self, up)
    requires IsReaction(h, DiscoverAll(ps, self, read[..|heard|]), self, up)
    ensures forall j :: 0 <= j <= |heard| ==>
      IsReaction((heard + [h])[j], DiscoverAll(ps, self, read[..j]), self, up)
  {
  }

  class PeerRegistry {
    /** `peers`, in insertion order. */
    var peers: seq<Address>

    constructor ()
      ensures peers == []
    {
      peers := [];
    }

    /** The accept loop of `start_peer_server`, for one accepted connection from `client`. */
    method AcceptConnection(client: Address)
      modifies this
      ensures peers == AddIfAbsent(old(peers), client)
    {
      if client !in peers {
        peers := peers + [client];
      }
    }

    /** `connect_to_peer`: appended whenever `connect` succeeds, with no membership check. */
    method ConnectToPeer(target: Address, up: Address -> bool) returns (connected: bool)
      modifies this
      ensures connected == up(target)
      ensures peers == if connected then old(peers) + [target] else old(peers)
    {
      connected := up(target);
      if connected {
        peers := peers + [target];
      }
    }

    /**
     * `send_message_to_all_peers`: every peer is attempted, in list order;
     * the try/except inside the loop means each attempt's outcome depends on
     * that peer alone.
     */
    method SendMessageToAll(message: string, up: Address -> bool) returns (log: seq<Attempt>)
      ensures |log| == |peers|
      ensures forall i :: 0 <= i < |peers| ==> log[i] == MessageAttempt(peers[i], message, up)
    {
      log := [];
      for i := 0 to |peers|
        invariant |log| == i
        invariant forall j :: 0 <= j < i ==> log[j] == MessageAttempt(peers[j], message, up)
      {
        var peer := peers[i];
        var attempt;
        if up(peer) {
          attempt := Attempt(peer, Encode(message), true);
        } else {
          attempt := Attempt(peer, [], false);
        }
        log := log + [attempt];
      }
    }

    /**
     * `send_file_to_all_peers`: every peer is attempted in list order; each
     * connected peer gets the file stream, and is reported as sent only if
     * the file could be read.
     */
    method SendFileToAll(name: Bytes, file: Option<Bytes>, up: Address -> bool) returns (log: seq<Attempt>)
      ensures |log| == |peers|
      ensures forall i :: 0 <= i < |peers| ==> log[i] == FileAttempt(peers[i], name, file, up)
    {
      log := [];
      for i := 0 to |peers|
        invariant |log| == i
        invariant forall j :: 0 <= j < i ==> log[j] == FileAttempt(peers[j], name, file, up)
      {
        var peer := peers[i];
        var attempt;
        if up(peer) {
          var stream, ok := SendFile(name, file);
          attempt := Attempt(peer, stream, ok);
        } else {
          attempt := Attempt(peer, [], false);
        }
        log := log + [attempt];
      }
    }

    /**
     * One turn of the `listen_for_broadcasts` loop on the decoded datagram
     * `datagram`, for the node at `self`. A parse failure is the exception
     * that ends the loop; the peer list is then untouched.
     */
    method OnAnnouncement(datagram: string, self: Address, up: Address -> bool)
      returns (heard: Result<Heard, ParseError>)
      modifies this
      ensures heard.Err? <==> ParseAnnouncement(datagram).Err?
      ensures heard.Err? ==> heard.error == ParseAnnouncement(datagram).error && peers == old(peers)
      ensures heard.Ok? ==>
        var a := ParseAnnouncement(datagram).value;
        && heard.value.addr == a
        && peers == Discover(old(peers), self, a)
        && IsReaction(heard.value, old(peers), self, up)
    {
      match ParseAnnouncement(datagram)
      case Err(e) =>
        heard := Err(e);
      case Ok(a) =>
        if IsNewPeer(peers, self, a) {
          peers := peers + [a];
          var notices := SendMessageToAll(NewPeerNotice(a), up);
          heard := Ok(Added(a, notices));
        } else {
          heard := Ok(Ignored(a));
        }
    }

    /**
     * The `listen_for_broadcasts` loop over the datagrams it receives, in
     * order: one outcome per address read, and the error of the datagram
     * that ended the thread, if one did.
     */
    method ListenForBroadcasts(datagrams: seq<string>, self: Address, up: Address -> bool)
      returns (heard: seq<Heard>, failure: Option<ParseError>)
      modifies this
      ensures peers == DiscoverAll(old(peers), self, Announced(datagrams))
      ensures Addresses(heard) == Announced(datagrams)
      ensures forall j :: 0 <= j < |heard| ==>
        IsReaction(heard[j], DiscoverAll(old(peers), self, Announced(datagrams)[..j]), self, up)
      ensures failure.None? <==> |heard| == |datagrams|
      ensures failure.Some? ==> ParseAnnouncement(datagrams[|heard|]) == Err(failure.value)
    {
      ghost var read := Announced(datagrams);
      heard, failure := [], None;
      var i := 0;
      assert datagrams[i..] == datagrams;
      while i < |datagrams|
        invariant 0 <= i <= |datagrams| && |heard| == i
        invariant Addresses(heard) + Announced(datagrams[i..]) == read
        invariant peers == DiscoverAll(old(peers), self, Addresses(heard))
        invariant forall j :: 0 <= j < i ==>
          IsReaction(heard[j], DiscoverAll(old(peers), self, read[..j]), self, up)
      {
        AnnouncedStep(datagrams, i);
        var h := OnAnnouncement(datagrams[i], self, up);
        if h.Err? {
          assert Addresses(heard) + [] == Addresses(heard) == read;
          failure := Some(h.error);
          return;
        }
        PositionOfNext(Addresses(heard), h.value.addr, Announced(datagrams[i + 1..]), read);
        ReactionsExtend(old(peers), self, up, read, heard, h.value);
        DiscoverAllAppend(old(peers), self, Addresses(heard), h.value.addr);
        AppendShift(Addresses(heard), h.value.addr, Announced(datagrams[i + 1..]));
        AddressesAppend(heard, h.value);
        heard := heard + [h.value];
        i := i + 1;
      }
      assert datagrams[i..] == [] && Addresses(heard) == read;
    }
  }
}
