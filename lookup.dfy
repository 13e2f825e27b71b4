/**
 * The client's view of the nsqlookupd servers: a sorted list of their
 * `host:port` addresses, a 32-bit round-robin offset that picks the server for
 * each query, the query URLs, the result sets built from already-parsed
 * responses, and the periodic refresh of the address list.
 */
module Lookup {
  import opened Wrappers
  import opened JavaNumbers
  import opened JavaStrings
  import opened Entity

  /** One record of a `/lookup` response's `producers` array. */
  datatype Producer = Producer(broadcastAddress: string, tcpPort: int32)

  /** One record of a `/listlookup` response's `lookupdnodes` array. */
  datatype LookupNode = LookupNode(id: int32, nodeIP: string, httpPort: int32)

  datatype LookupError = IllegalArgumentException | NSQLookupException | ArithmeticException

  // ---------------------------------------------------------------- server selection

  /** `x & Integer.MAX_VALUE`: `x` itself when it is not negative, otherwise `x + 2^31`. */
  function Mask(x: int32): (r: int)
    ensures 0 <= r <= INT32_MAX
    ensures x >= 0 ==> r == x as int
    ensures x < 0 ==> r == x as int + TWO_31
  {
    if x >= 0 then x as int else x as int + TWO_31
  }

  /** The mask keeps exactly the low 31 bits of the offset's bit pattern. */
  lemma MaskLowBits(x: int32)
    ensures Mask(x) == Bits(x) % TWO_31
  {
    if x >= 0 {
      DivModUnique(Bits(x), TWO_31, 0, Mask(x));
    } else {
      DivModUnique(Bits(x), TWO_31, 1, Mask(x));
    }
  }

  /** `(offset & Integer.MAX_VALUE) % size`: always a valid index, whatever the sign of the offset. */
  function SelectIndex(offset: int32, size: nat): (i: nat)
    requires size > 0
    ensures i < size
    ensures i == Mask(offset) % size
  {
    Mask(offset) % size
  }

  /** The offset after `k` further uses, each `offset++` on a Java `int`. */
  function Advance(offset: int32, k: nat): int32 {
    if k == 0 then offset else Inc32(Advance(offset, k - 1))
  }

  /** `offset++` moves the masked offset one step around the 2^31 cycle, also across the wrap to `Integer.MIN_VALUE`. */
  lemma MaskInc(o: int32)
    ensures Mask(Inc32(o)) == if Mask(o) == INT32_MAX then 0 else Mask(o) + 1
  {
  }

  lemma {:induction false} MaskAdvance(o: int32, k: nat)
    ensures Mask(Advance(o, k)) == (Mask(o) + k) % TWO_31
  {
    if k == 0 {
      DivModUnique(Mask(o), TWO_31, 0, Mask(o));
    } else {
      var prev := Advance(o, k - 1);
      MaskAdvance(o, k - 1);
      MaskInc(prev);
      ModStep(Mask(o) + k - 1, Mask(prev), Mask(Advance(o, k)));
    }
  }

  /** One step around the cycle of residues modulo 2^31. */
  lemma ModStep(a: int, m: int, next: int)
    requires 0 <= a && m == a % TWO_31
    requires next == if m == INT32_MAX then 0 else m + 1
    ensures next == (a + 1) % TWO_31
  {
    var q := a / TWO_31;
    if m + 1 == TWO_31 {
      DivModUnique(a + 1, TWO_31, q + 1, 0);
    } else {
      DivModUnique(a + 1, TWO_31, q, m + 1);
    }
  }

  /** Away from the wrap of the masked offset, the k-th next query uses server `(o + k) mod size`. */
  lemma RoundRobin(o: int32, size: nat, k: nat)
    requires size > 0 && Mask(o) + k < TWO_31
    ensures SelectIndex(Advance(o, k), size) == (Mask(o) + k) % size
  {
    MaskAdvance(o, k);
    DivModUnique(Mask(o) + k, TWO_31, 0, Mask(o) + k);
    assert Mask(Advance(o, k)) == Mask(o) + k;
  }

  /** Away from the wrap, `size` consecutive queries use every server. */
  lemma RoundRobinCoversAll(o: int32, size: nat, server: nat)
    requires size > 0 && server < size && Mask(o) + size <= TWO_31
    ensures exists k :: 0 <= k < size && SelectIndex(Advance(o, k), size) == server
  {
    var x := Mask(o);
    var k := if server >= x % size then server - x % size else server + size - x % size;
    ModShift(x, size, k, server);
    RoundRobin(o, size, k);
  }

  /** Away from the wrap, `size` consecutive queries use no server twice. */
  lemma RoundRobinNoRepeat(o: int32, size: nat, k1: nat, k2: nat)
    requires Mask(o) + size <= TWO_31 && k1 < k2 < size
    ensures SelectIndex(Advance(o, k1), size) != SelectIndex(Advance(o, k2), size)
  {
    RoundRobin(o, size, k1);
    RoundRobin(o, size, k2);
    ModDistinct(Mask(o) + k1, k2 - k1, size);
  }

  /** Shifting by less than the modulus changes the residue. */
  lemma ModDistinct(a: int, j: int, size: int)
    requires 0 <= a && 0 < j < size
    ensures a % size != (a + j) % size
  {
    var q, r := a / size, a % size;
    DivModUnique(a, size, q, r);
    if r + j < size {
      DivModUnique(a + j, size, q, r + j);
    } else {
      assert a + j == (q + 1) * size + (r + j - size);
      DivModUnique(a + j, size, q + 1, r + j - size);
    }
  }

  /** Shifting `x` by the right `k < size` lands on any residue. */
  lemma ModShift(x: int, size: int, k: int, server: int)
    requires 0 <= x && 0 < size && 0 <= server < size
    requires k == if server >= x % size then server - x % size else server + size - x % size
    ensures 0 <= k < size && (x + k) % size == server
  {
    var q, m := x / size, x % size;
    assert x == q * size + m;
    if m + k < size {
      DivModUnique(x + k, size, q, m + k);
    } else {
      assert x + k == (q + 1) * size + (m + k - size);
      DivModUnique(x + k, size, q + 1, m + k - size);
    }
  }

  /** At the wrap the cycle breaks: with three servers, the query after offset `Integer.MAX_VALUE` uses 0, not 2. */
  lemma RoundRobinSkipsAtWrap()
    ensures SelectIndex(INT32_MAX as int32, 3) == 1
    ensures SelectIndex(Advance(INT32_MAX as int32, 1), 3) == 0
  {
  }

  // ---------------------------------------------------------------- URLs

  function LookupUrl(lookupd: string, topic: string, writable: bool): string {
    "http://" + lookupd + "/lookup?topic=" + topic + "&access=" + (if writable then "w" else "r")
  }

  /** The `/topics` URL of a server, which names that server. */
  function TopicsUrl(lookupd: string): (url: string)
    ensures '/' !in lookupd ==> UrlHost(url) == lookupd
    ensures |url| == 7 + |lookupd| + 7 && url[..7] == "http://" && url[7 + |lookupd|..] == "/topics"
  {
    var url := "http://" + lookupd + "/topics";
    assert url[7..] == lookupd + ['/'] + "topics";
    if '/' !in lookupd then UpToConcat(lookupd, '/', "topics"); url else url
  }

  /** The `/listlookup` URL of a server, which names that server. */
  function ListLookupUrl(lookupd: string): (url: string)
    ensures '/' !in lookupd ==> UrlHost(url) == lookupd
    ensures |url| == 7 + |lookupd| + 11 && url[..7] == "http://" && url[7 + |lookupd|..] == "/listlookup"
  {
    var url := "http://" + lookupd + "/listlookup";
    assert url[7..] == lookupd + ['/'] + "listlookup";
    if '/' !in lookupd then UpToConcat(lookupd, '/', "listlookup"); url else url
  }

  /** The server in a URL: what follows `http://` up to the first `/`. */
  function UrlHost(url: string): string {
    if |url| >= 7 then UpTo(url[7..], '/') else []
  }

  /** The query's topic: what follows `topic=` up to the first `&`. */
  function UrlTopic(url: string, host: string): string {
    var start := 7 + |host| + |"/lookup?topic="|;
    if start <= |url| then UpTo(url[start..], '&') else []
  }

  /**
   * The lookup URL names the chosen server, the topic and the access mode,
   * each recoverable from it when the server has no `/` and the topic no `&`.
   */
  lemma LookupUrlParts(lookupd: string, topic: string, writable: bool)
    requires '/' !in lookupd && '&' !in topic
    ensures var url := LookupUrl(lookupd, topic, writable);
      && url[..7] == "http://"
      && UrlHost(url) == lookupd
      && UrlTopic(url, lookupd) == topic
      && url[|url| - 1] == (if writable then 'w' else 'r')
  {
    LookupUrlHost(lookupd, topic, writable);
    LookupUrlTopic(lookupd, topic, writable);
  }

  lemma LookupUrlHost(lookupd: string, topic: string, writable: bool)
    requires '/' !in lookupd
    ensures UrlHost(LookupUrl(lookupd, topic, writable)) == lookupd
  {
    var url := LookupUrl(lookupd, topic, writable);
    var rest := "lookup?topic=" + topic + "&access=" + (if writable then "w" else "r");
    assert url[7..] == lookupd + ['/'] + rest;
    UpToConcat(lookupd, '/', rest);
  }

  lemma LookupUrlTopic(lookupd: string, topic: string, writable: bool)
    requires '&' !in topic
    ensures UrlTopic(LookupUrl(lookupd, topic, writable), lookupd) == topic
  {
    var url := LookupUrl(lookupd, topic, writable);
    var tail := "access=" + (if writable then "w" else "r");
    assert url[7 + |lookupd| + |"/lookup?topic="|..] == topic + ['&'] + tail;
    UpToConcat(topic, '&', tail);
  }

  // ---------------------------------------------------------------- response records

  function AddressOf(p: Producer): Address {
    Address(p.broadcastAddress, p.tcpPort)
  }

  /** The `Address` set `lookup` returns for a `producers` array. */
  function ProducerAddresses(ps: seq<Producer>): set<Address> {
    set i | 0 <= i < |ps| :: AddressOf(ps[i])
  }

  /** The set holds exactly the records' addresses, duplicates collapsed, so it is no larger than the array. */
  lemma {:induction false} ProducerAddressesBound(ps: seq<Producer>)
    ensures |ProducerAddresses(ps)| <= |ps|
    ensures forall p <- ps :: AddressOf(p) in ProducerAddresses(ps)
  {
    if ps != [] {
      var last := |ps| - 1;
      ProducerAddressesBound(ps[..last]);
      ProducerAddressesSnoc(ps);
    }
  }

  /** One more record adds its own address to the set. */
  lemma ProducerAddressesSnoc(ps: seq<Producer>)
    requires ps != []
    ensures ProducerAddresses(ps) == ProducerAddresses(ps[..|ps| - 1]) + {AddressOf(ps[|ps| - 1])}
  {
    var last := |ps| - 1;
    forall a | a in ProducerAddresses(ps) ensures a in ProducerAddresses(ps[..last]) + {AddressOf(ps[last])} {
      var i :| 0 <= i < |ps| && a == AddressOf(ps[i]);
      if i < last {
        assert ps[..last][i] == ps[i];
      }
    }
    forall a | a in ProducerAddresses(ps[..last]) ensures a in ProducerAddresses(ps) {
      var i :| 0 <= i < last && a == AddressOf(ps[..last][i]);
      assert ps[i] == ps[..last][i];
    }
  }

  /** `lookup`'s loop over the `producers` records. */
  method CollectAddresses(ps: seq<Producer>) returns (nsqds: set<Address>)
    ensures nsqds == ProducerAddresses(ps)
  {
    nsqds := {};
    var i := 0;
    while i < |ps|
      invariant 0 <= i <= |ps|
      invariant nsqds == ProducerAddresses(ps[..i])
    {
      ProducerAddressesSnoc(ps[..i + 1]);
      assert ps[..i + 1][..i] == ps[..i];
      nsqds := nsqds + {AddressOf(ps[i])};
      i := i + 1;
    }
    assert ps[..i] == ps;
  }

  /** The topic names `getAllTopics` keeps: the non-null, non-empty ones. */
  function TopicNames(names: seq<Option<string>>): set<string> {
    set i | 0 <= i < |names| && names[i].Some? && names[i].value != "" :: names[i].value
  }

  /** `getAllTopics`'s loop over the `topics` array. */
  method CollectTopics(names: seq<Option<string>>) returns (all: set<string>)
    ensures all == TopicNames(names)
    ensures "" !in all
    ensures forall t :: t in all <==> t != "" && Some(t) in names
  {
    all := {};
    var i := 0;
    while i < |names|
      invariant 0 <= i <= |names|
      invariant all == TopicNames(names[..i])
    {
      assert forall j :: 0 <= j < i ==> names[..i + 1][j] == names[..i][j];
      assert names[..i + 1][i] == names[i];
      if names[i].Some? && names[i].value != "" {
        all := all + {names[i].value};
      }
      i := i + 1;
    }
    assert names[..i] == names;
  }

  /** `NodeIP + ":" + HttpPort`. */
  function NodeAddress(n: LookupNode): string {
    n.nodeIP + ":" + DecimalString(n.httpPort as int)
  }

  /** A node's address gives back its host and its port when the host has no `:`. */
  lemma NodeAddressRoundTrip(n: LookupNode)
    requires ':' !in n.nodeIP
    ensures UpTo(NodeAddress(n), ':') == n.nodeIP
    ensures DecimalValue(NodeAddress(n)[|n.nodeIP| + 1..]) == n.httpPort as int
  {
    var a := NodeAddress(n);
    assert a == n.nodeIP + [':'] + DecimalString(n.httpPort as int);
    UpToConcat(n.nodeIP, ':', DecimalString(n.httpPort as int));
    assert a[|n.nodeIP| + 1..] == DecimalString(n.httpPort as int);
    DecimalRoundTrip(n.httpPort as int);
  }

  /** `newLookupServers`'s loop over the `lookupdnodes` records, in response order. */
  method CollectNodeAddresses(nodes: seq<LookupNode>) returns (list: seq<string>)
    ensures |list| == |nodes|
    ensures forall i :: 0 <= i < |nodes| ==> list[i] == NodeAddress(nodes[i])
  {
    list := [];
    var i := 0;
    while i < |nodes|
      invariant 0 <= i <= |nodes|
      invariant |list| == i
      invariant forall j :: 0 <= j < i ==> list[j] == NodeAddress(nodes[j])
    {
      list := list + [NodeAddress(nodes[i])];
      i := i + 1;
    }
  }

  // ---------------------------------------------------------------- address list parsing

  /** One comma-separated piece, trimmed and with every space removed. */
  function Clean(piece: string): (r: string)
    ensures ' ' !in r
    ensures ',' !in piece ==> ',' !in r
  {
    var t := Trim(piece);
    assert forall i :: 0 <= i < |t| ==> t[i] in piece;
    assert multiset(RemoveSpaces(t))[','] == multiset(t)[','];
    RemoveSpaces(t)
  }

  /** `f` applied to every piece, in order. */
  function MapPieces(f: string -> string, pieces: seq<string>): (r: seq<string>)
    ensures |r| == |pieces|
    decreases |pieces|
  {
    if pieces == [] then [] else MapPieces(f, pieces[..|pieces| - 1]) + [f(pieces[|pieces| - 1])]
  }

  lemma {:induction false} MapPiecesAt(f: string -> string, pieces: seq<string>, k: nat)
    requires k < |pieces|
    ensures MapPieces(f, pieces)[k] == f(pieces[k])
    decreases |pieces|
  {
    var last := |pieces| - 1;
    if k < last {
      MapPiecesAt(f, pieces[..last], k);
      assert pieces[..last][k] == pieces[k];
    }
  }

  /** Every piece cleaned, in order. */
  function Cleaned(pieces: seq<string>): (r: seq<string>)
    ensures |r| == |pieces|
  {
    MapPieces(Clean, pieces)
  }

  /**
   * The String constructor's parsing: `split(",")`, then trim and remove spaces
   * from each piece, then sort. One entry per piece that `split` keeps.
   */
  method ParseAddresses(s: string) returns (list: seq<string>)
    ensures list == Sort(Cleaned(JavaSplit(s, ',')))
    ensures |list| == |JavaSplit(s, ',')|
    ensures Sorted(list)
    ensures multiset(list) == multiset(Cleaned(JavaSplit(s, ',')))
    ensures forall a <- list :: ' ' !in a && ',' !in a
  {
    var tmp := JavaSplit(s, ',');
    var tmpList: seq<string> := [];
    var i := 0;
    while i < |tmp|
      invariant 0 <= i <= |tmp|
      invariant tmpList == MapPieces(Clean, tmp[..i])
    {
      var addr := Trim(tmp[i]);
      addr := RemoveSpaces(addr);
      assert tmp[..i + 1][..i] == tmp[..i];
      tmpList := tmpList + [addr];
      i := i + 1;
    }
    assert tmp[..i] == tmp;
    list := Sort(tmpList);
    CleanedChars(tmp, list);
  }

  /** Any arrangement of the cleaned comma-free pieces has no spaces or commas. */
  lemma CleanedChars(pieces: seq<string>, list: seq<string>)
    requires forall p <- pieces :: ',' !in p
    requires multiset(list) == multiset(Cleaned(pieces))
    ensures forall a <- list :: ' ' !in a && ',' !in a
  {
    forall a <- list ensures ' ' !in a && ',' !in a {
      assert a in multiset(Cleaned(pieces));
      var k :| 0 <= k < |pieces| && Cleaned(pieces)[k] == a;
      MapPiecesAt(Clean, pieces, k);
    }
  }

  /** A string of commas alone splits into no pieces at all, leaving an empty address list. */
  lemma CommasOnly()
    ensures JavaSplit(",,", ',') == []
  {
    assert SplitAll(",,", ',') == ["", "", ""];
  }

  // ---------------------------------------------------------------- the lookup service object

  class LookupService {
    /** The nsqlookupd addresses, sorted when set by a constructor. */
    var addresses: seq<string>
    /** The round-robin offset, a Java `int`. */
    var offset: int32

    /** `setAddresses` then `init()`'s `offset = _r.nextInt(100)`, with the draw given as `seed`. */
    constructor (list: seq<string>, seed: int32)
      ensures addresses == list && offset == seed
    {
      addresses := list;
      offset := seed;
    }

    /** `LookupServiceImpl(List<String>)`: rejects a null or empty list, else stores it sorted. */
    static method FromList(list: Option<seq<string>>, seed: int32) returns (r: Result<LookupService, LookupError>)
      requires 0 <= seed < 100
      ensures r.Failure? <==> list.None? || list.value == []
      ensures r.Failure? ==> r.error == IllegalArgumentException
      ensures r.Success? ==> fresh(r.value) && r.value.offset == seed
      ensures r.Success? ==> r.value.addresses == Sort(list.value)
    {
      if list.None? || list.value == [] {
        return Failure(IllegalArgumentException);
      }
      var sorted := Sort(list.value);
      var service := new LookupService(sorted, seed);
      return Success(service);
    }

    /** `LookupServiceImpl(String)`: rejects a null or empty string, else stores the parsed, sorted pieces. */
    static method FromString(s: Option<string>, seed: int32) returns (r: Result<LookupService, LookupError>)
      requires 0 <= seed < 100
      ensures r.Failure? <==> s.None? || s.value == []
      ensures r.Failure? ==> r.error == IllegalArgumentException
      ensures r.Success? ==> fresh(r.value) && r.value.offset == seed
      ensures r.Success? ==> r.value.addresses == Sort(Cleaned(JavaSplit(s.value, ',')))
    {
      if s.None? || s.value == [] {
        return Failure(IllegalArgumentException);
      }
      var list := ParseAddresses(s.value);
      var service := new LookupService(list, seed);
      return Success(service);
    }

    /**
     * `((offset++) & Integer.MAX_VALUE) % addresses.size()` and the address at
     * that index; the increment happens even when the division by an empty
     * list's size throws.
     */
    method NextServer() returns (lookupd: Option<string>)
      modifies this
      ensures offset == Inc32(old(offset)) && addresses == old(addresses)
      ensures lookupd.None? <==> |addresses| == 0
      ensures lookupd.Some? ==> lookupd.value == addresses[SelectIndex(old(offset), |addresses|)]
    {
      var current := offset;
      offset := Inc32(offset);
      if |addresses| == 0 {
        return None;
      }
      var index := SelectIndex(current, |addresses|);
      return Some(addresses[index]);
    }

    /**
     * `lookup(topic, writable)`: a null or empty topic throws before the offset
     * moves; otherwise the chosen server's `/lookup` URL is queried and its
     * producers become the result. `response` is the parsed reply to `url`
     * (`None` when the query or its parsing fails).
     */
    method Lookup(topic: Option<string>, writable: bool, response: Option<seq<Producer>>)
      returns (url: Option<string>, result: Result<set<Address>, LookupError>)
      modifies this
      ensures addresses == old(addresses)
      ensures topic.None? || topic.value == [] ==>
        offset == old(offset) && url.None? && result == Failure(NSQLookupException)
      ensures topic.Some? && topic.value != [] ==> offset == Inc32(old(offset))
      ensures topic.Some? && topic.value != [] && |addresses| == 0 ==>
        url.None? && result == Failure(ArithmeticException)
      ensures topic.Some? && topic.value != [] && |addresses| > 0 ==>
        && url == Some(LookupUrl(addresses[SelectIndex(old(offset), |addresses|)], topic.value, writable))
        && result == (if response.Some? then Success(ProducerAddresses(response.value)) else Failure(NSQLookupException))
    {
      if topic.None? || topic.value == [] {
        return None, Failure(NSQLookupException);
      }
      var lookupd := NextServer();
      if lookupd.None? {
        return None, Failure(ArithmeticException);
      }
      url := Some(LookupUrl(lookupd.value, topic.value, writable));
      if response.None? {
        return url, Failure(NSQLookupException);
      }
      var nsqds := CollectAddresses(response.value);
      result := Success(nsqds);
    }

    /** `getAllTopics()`: the chosen server's `/topics` URL, and the non-empty names of its reply. */
    method GetAllTopics(response: Option<seq<Option<string>>>)
      returns (url: Option<string>, result: Result<set<string>, LookupError>)
      modifies this
      ensures addresses == old(addresses) && offset == Inc32(old(offset))
      ensures |addresses| == 0 ==> url.None? && result == Failure(ArithmeticException)
      ensures |addresses| > 0 ==>
        && url == Some(TopicsUrl(addresses[SelectIndex(old(offset), |addresses|)]))
        && result == (if response.Some? then Success(TopicNames(response.value)) else Failure(NSQLookupException))
    {
      var lookupd := NextServer();
      if lookupd.None? {
        return None, Failure(ArithmeticException);
      }
      url := Some(TopicsUrl(lookupd.value));
      if response.None? {
        return url, Failure(NSQLookupException);
      }
      var all := CollectTopics(response.value);
      result := Success(all);
    }

    /**
     * `newLookupServers()`: nothing when the list is empty; otherwise the
     * chosen server's `/listlookup` URL is queried and a non-empty node list
     * replaces the addresses wholesale, in response order and not re-sorted.
     * `response` is `None` when the query fails or carries no node list.
     */
    method NewLookupServers(response: Option<seq<LookupNode>>) returns (url: Option<string>)
      modifies this
      ensures old(|addresses|) == 0 ==> url.None? && addresses == old(addresses) && offset == old(offset)
      ensures old(|addresses|) > 0 ==>
        && offset == Inc32(old(offset))
        && url == Some(ListLookupUrl(old(addresses)[SelectIndex(old(offset), old(|addresses|))]))
      ensures old(|addresses|) > 0 && response.Some? && response.value != [] ==>
        && |addresses| == |response.value|
        && forall i :: 0 <= i < |addresses| ==> addresses[i] == NodeAddress(response.value[i])
      ensures old(|addresses|) > 0 && (response.None? || response.value == []) ==> addresses == old(addresses)
      ensures old(|addresses|) > 0 ==> |addresses| > 0
    {
      if |addresses| == 0 {
        return None;
      }
      var lookupd := NextServer();
      url := Some(ListLookupUrl(lookupd.value));
      if response.None? {
        return;
      }
      var newLookupds := CollectNodeAddresses(response.value);
      if |newLookupds| > 0 {
        addresses := newLookupds;
      }
    }
  }
}
