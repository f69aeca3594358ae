/**
 * The receive half of `discover` in desk_light_control.py: after the
 * `getSystemConfig` broadcast has gone out, replies are read one by one
 * with a 0.2 s receive timeout and collected in a dictionary keyed by the
 * sender's IP address.
 *
 * The socket is abstracted as the finite sequence of outcomes its
 * successive `recvfrom` calls would produce. Once that sequence is used
 * up the socket stays silent, so the next receive times out.
 */
module Discovery {
  import opened Wrappers

  newtype byte = x: int | 0 <= x < 256
  type Bytes = seq<byte>
  type Ip = string

  /** One `recvfrom` attempt: a datagram with its source address, or a timeout. */
  datatype Outcome = Datagram(ip: Ip, port: nat, payload: Bytes) | Timeout

  predicate FromIp(o: Outcome, ip: Ip) {
    o.Datagram? && o.ip == ip
  }

  /**
   * `while response` runs again only when the last receive produced a
   * non-empty payload: a timeout sets `response` to None, and `b''` is false.
   */
  predicate Continues(o: Outcome) {
    o.Datagram? && o.payload != []
  }

  /** One entry of the `responses` dictionary. */
  datatype Entry = Entry(ip: Ip, payload: Bytes)

  /** The `responses` dictionary as an association list in insertion order. */
  type Responses = seq<Entry>

  function Keys(rs: Responses): (ks: seq<Ip>)
    ensures |ks| == |rs|
    ensures forall i :: 0 <= i < |rs| ==> ks[i] == rs[i].ip
  {
    if rs == [] then [] else [rs[0].ip] + Keys(rs[1..])
  }

  predicate Distinct(ks: seq<Ip>) {
    forall i, j :: 0 <= i < j < |ks| ==> ks[i] != ks[j]
  }

  /** Position of the first occurrence of `ip` in `ks`, or `|ks|` when there is none. */
  function Find(ks: seq<Ip>, ip: Ip): (i: nat)
    ensures i <= |ks|
    ensures i < |ks| ==> ks[i] == ip
    ensures forall j :: 0 <= j < i ==> ks[j] != ip
  {
    if ks == [] then 0
    else if ks[0] == ip then 0
    else 1 + Find(ks[1..], ip)
  }

  /** `responses.get(ip)` */
  function Lookup(rs: Responses, ip: Ip): Option<Bytes> {
    var i := Find(Keys(rs), ip);
    if i < |rs| then Some(rs[i].payload) else None
  }

  /**
   * `responses[ip] = payload`: an existing key keeps its position and gets
   * the new value; a new key goes to the end.
   */
  function Put(rs: Responses, ip: Ip, payload: Bytes): (r: Responses)
    ensures ip in Keys(r)
    ensures |r| == if ip in Keys(rs) then |rs| else |rs| + 1
  {
    var i := Find(Keys(rs), ip);
    if i < |rs| then
      var replaced := rs[i := Entry(ip, payload)];
      assert Keys(replaced)[i] == ip;
      replaced
    else
      var appended := rs + [Entry(ip, payload)];
      assert Keys(appended)[|rs|] == ip;
      appended
  }

  lemma InKeysFound(ks: seq<Ip>, ip: Ip)
    ensures ip in ks <==> Find(ks, ip) < |ks|
  {
  }

  lemma KeysReplace(rs: Responses, i: nat, e: Entry)
    requires i < |rs| && e.ip == rs[i].ip
    ensures Keys(rs[i := e]) == Keys(rs)
  {
    var r := rs[i := e];
    assert forall j :: 0 <= j < |r| ==> Keys(r)[j] == Keys(rs)[j];
  }

  lemma KeysAppend(rs: Responses, e: Entry)
    ensures Keys(rs + [e]) == Keys(rs) + [e.ip]
  {
    var r := rs + [e];
    assert forall j :: 0 <= j < |rs| ==> Keys(r)[j] == Keys(rs)[j];
  }

  /** The key order after `responses[ip] = payload`. */
  lemma PutKeys(rs: Responses, ip: Ip, payload: Bytes)
    ensures Keys(Put(rs, ip, payload)) == if ip in Keys(rs) then Keys(rs) else Keys(rs) + [ip]
    ensures Distinct(Keys(rs)) ==> Distinct(Keys(Put(rs, ip, payload)))
  {
    InKeysFound(Keys(rs), ip);
    var i := Find(Keys(rs), ip);
    if i < |rs| {
      KeysReplace(rs, i, Entry(ip, payload));
    } else {
      KeysAppend(rs, Entry(ip, payload));
    }
  }

  /** After `responses[ip] = payload`, `ip` maps to `payload` and every other key is unchanged. */
  lemma PutLookup(rs: Responses, ip: Ip, payload: Bytes, k: Ip)
    ensures Lookup(Put(rs, ip, payload), k) == if k == ip then Some(payload) else Lookup(rs, k)
  {
    if ip in Keys(rs) {
      PutLookupPresent(rs, ip, payload, k);
    } else {
      PutLookupAbsent(rs, ip, payload, k);
    }
  }

  lemma PutLookupPresent(rs: Responses, ip: Ip, payload: Bytes, k: Ip)
    requires ip in Keys(rs)
    ensures Lookup(Put(rs, ip, payload), k) == if k == ip then Some(payload) else Lookup(rs, k)
  {
    InKeysFound(Keys(rs), ip);
    var i := Find(Keys(rs), ip);
    var r := rs[i := Entry(ip, payload)];
    assert Put(rs, ip, payload) == r;
    KeysReplace(rs, i, Entry(ip, payload));
    var f := Find(Keys(rs), k);
    assert k != ip ==> f != i;
  }

  lemma PutLookupAbsent(rs: Responses, ip: Ip, payload: Bytes, k: Ip)
    requires ip !in Keys(rs)
    ensures Lookup(Put(rs, ip, payload), k) == if k == ip then Some(payload) else Lookup(rs, k)
  {
    InKeysFound(Keys(rs), ip);
    var r := rs + [Entry(ip, payload)];
    assert Put(rs, ip, payload) == r;
    KeysAppend(rs, Entry(ip, payload));
    var f := Find(Keys(rs), k);
    if k == ip {
      FindFirst(Keys(r), k, |rs|);
    } else if f < |rs| {
      FindFirst(Keys(r), k, f);
    } else {
      FindFirst(Keys(r), k, |r|);
    }
  }

  /** `Find` is determined by its contract. */
  lemma FindFirst(ks: seq<Ip>, ip: Ip, i: nat)
    requires i <= |ks|
    requires i < |ks| ==> ks[i] == ip
    requires forall j :: 0 <= j < i ==> ks[j] != ip
    ensures Find(ks, ip) == i
  {
  }

  /** The dictionary update for one receive outcome. */
  function Absorb(rs: Responses, o: Outcome): Responses {
    match o
    case Timeout => rs
    case Datagram(ip, _, payload) => Put(rs, ip, payload)
  }

  /** The dictionary after absorbing every outcome of `outs` in order, starting empty. */
  function Store(outs: seq<Outcome>): Responses
    decreases |outs|
  {
    if outs == [] then [] else Absorb(Store(outs[..|outs| - 1]), outs[|outs| - 1])
  }

  /**
   * How many outcomes the loop reads: up to and including the first one
   * that is a timeout or an empty datagram, or all of them when the
   * socket goes silent first.
   */
  function Consumed(socket: seq<Outcome>): (n: nat)
    ensures n <= |socket|
    ensures socket != [] ==> 0 < n
    ensures forall i :: 0 <= i < n - 1 ==> Continues(socket[i])
    ensures n == |socket| || !Continues(socket[n - 1])
  {
    if socket == [] then 0
    else if Continues(socket[0]) then 1 + Consumed(socket[1..])
    else 1
  }

  /** The dictionary `discover` returns for this socket. */
  function Collect(socket: seq<Outcome>): Responses {
    Store(socket[..Consumed(socket)])
  }

  /**
   * The receive loop. `read` is the number of outcomes of `socket` the
   * loop reads; the final receive on a silent socket is not among them.
   */
  method Discover(socket: seq<Outcome>) returns (responses: Responses, read: nat)
    ensures read == Consumed(socket)
    ensures responses == Collect(socket)
    ensures Distinct(Keys(responses))
    ensures socket == [] || socket[0] == Timeout ==> responses == []
  {
    responses := [];
    read := 0;
    var response := true;
    while response
      invariant read <= |socket|
      invariant responses == Store(socket[..read])
      invariant response ==> read + Consumed(socket[read..]) == Consumed(socket)
      invariant !response ==> read == Consumed(socket)
      decreases |socket| - read + (if response then 1 else 0)
    {
      if read == |socket| {
        // the socket stays silent: this receive times out
        response := false;
      } else {
        var o := socket[read];
        assert socket[read..][1..] == socket[read + 1..];
        assert socket[..read + 1][..read] == socket[..read];
        read := read + 1;
        match o
        case Datagram(ip, port, payload) =>
          responses := Put(responses, ip, payload);
          response := payload != [];
        case Timeout =>
          response := false;
      }
    }
    StoreKeysDistinct(socket[..read]);
  }

  lemma {:induction false} StoreKeysDistinct(outs: seq<Outcome>)
    ensures Distinct(Keys(Store(outs)))
    decreases |outs|
  {
    if outs != [] {
      var init := outs[..|outs| - 1];
      StoreKeysDistinct(init);
      var o := outs[|outs| - 1];
      if o.Datagram? {
        PutKeys(Store(init), o.ip, o.payload);
      }
    }
  }

  /** A sender's address is a key exactly when some outcome is a datagram from it. */
  lemma {:induction false} StoreKeysAreSenders(outs: seq<Outcome>, ip: Ip)
    ensures ip in Keys(Store(outs)) <==> exists i :: 0 <= i < |outs| && FromIp(outs[i], ip)
    decreases |outs|
  {
    if outs != [] {
      var init := outs[..|outs| - 1];
      var o := outs[|outs| - 1];
      StoreKeysAreSenders(init, ip);
      if o.Datagram? {
        PutKeys(Store(init), o.ip, o.payload);
      }
      if exists i :: 0 <= i < |outs| && FromIp(outs[i], ip) {
        var i :| 0 <= i < |outs| && FromIp(outs[i], ip);
        if i < |outs| - 1 {
          assert FromIp(init[i], ip);
        }
      }
      if exists i :: 0 <= i < |init| && FromIp(init[i], ip) {
        var i :| 0 <= i < |init| && FromIp(init[i], ip);
        assert FromIp(outs[i], ip);
      }
    }
  }

  /** The value stored under an address is the payload of its last datagram. */
  lemma {:induction false} StoreLastReplyWins(outs: seq<Outcome>, i: nat)
    requires i < |outs| && outs[i].Datagram?
    requires forall j :: i < j < |outs| ==> !FromIp(outs[j], outs[i].ip)
    ensures Lookup(Store(outs), outs[i].ip) == Some(outs[i].payload)
    decreases |outs|
  {
    var init := outs[..|outs| - 1];
    var o := outs[|outs| - 1];
    var ip := outs[i].ip;
    if i == |outs| - 1 {
      PutLookup(Store(init), ip, o.payload, ip);
    } else {
      StoreLastReplyWins(init, i);
      if o.Datagram? {
        PutLookup(Store(init), o.ip, o.payload, ip);
      }
    }
  }

  /** The keys of an earlier dictionary are a prefix of the keys of every later one. */
  lemma {:induction false} StoreKeysPrefix(outs: seq<Outcome>, n: nat)
    requires n <= |outs|
    ensures Keys(Store(outs[..n])) <= Keys(Store(outs))
    decreases |outs|
  {
    if n < |outs| {
      var init := outs[..|outs| - 1];
      var o := outs[|outs| - 1];
      assert init[..n] == outs[..n];
      StoreKeysPrefix(init, n);
      if o.Datagram? {
        PutKeys(Store(init), o.ip, o.payload);
      }
    } else {
      assert outs[..n] == outs;
    }
  }

  /**
   * An address keeps the position of its first reply: it comes after
   * exactly the addresses that replied before it first did.
   */
  lemma PositionOfFirstReply(outs: seq<Outcome>, i: nat)
    requires i < |outs| && outs[i].Datagram?
    requires forall j :: 0 <= j < i ==> !FromIp(outs[j], outs[i].ip)
    ensures Find(Keys(Store(outs)), outs[i].ip) == |Store(outs[..i])|
  {
    var ip := outs[i].ip;
    var before := Store(outs[..i]);
    StoreKeysAreSenders(outs[..i], ip);
    assert ip !in Keys(before);
    StoreStep(outs, i);
    PutKeys(before, ip, outs[i].payload);
    StoreKeysPrefix(outs, i + 1);
    FindAfterPrefix(Keys(Store(outs)), Keys(before), ip);
  }

  /** One more receive absorbs one more outcome. */
  lemma StoreStep(outs: seq<Outcome>, n: nat)
    requires n < |outs|
    ensures Store(outs[..n + 1]) == Absorb(Store(outs[..n]), outs[n])
  {
    assert outs[..n + 1][..n] == outs[..n];
  }

  lemma FindAfterPrefix(ks: seq<Ip>, p: seq<Ip>, ip: Ip)
    requires p + [ip] <= ks && ip !in p
    ensures Find(ks, ip) == |p|
  {
    assert ks[|p|] == (p + [ip])[|p|];
    assert forall j :: 0 <= j < |p| ==> ks[j] == p[j];
    FindFirst(ks, ip, |p|);
  }

  /**
   * The loop stops right after the first timeout or empty datagram, and
   * nothing the socket would deliver afterwards is read or stored.
   */
  lemma NothingReadAfterStop(socket: seq<Outcome>, k: nat, rest: seq<Outcome>)
    requires k < |socket| && !Continues(socket[k])
    requires forall i :: 0 <= i < k ==> Continues(socket[i])
    ensures Consumed(socket) == k + 1
    ensures Consumed(socket[..k + 1] + rest) == k + 1
    ensures Collect(socket[..k + 1] + rest) == Collect(socket)
  {
    var s := socket[..k + 1] + rest;
    assert forall i :: 0 <= i <= k ==> s[i] == socket[i];
    assert s[..k + 1] == socket[..k + 1];
  }

  /** A reply with an empty payload is still stored, and it ends the loop. */
  lemma EmptyPayloadStoredAndEnds(socket: seq<Outcome>, k: nat)
    requires k < |socket| && socket[k].Datagram? && socket[k].payload == []
    requires forall i :: 0 <= i < k ==> Continues(socket[i])
    ensures Consumed(socket) == k + 1
    ensures Lookup(Collect(socket), socket[k].ip) == Some([])
  {
    var prefix := socket[..k + 1];
    assert Consumed(socket) == k + 1;
    StoreLastReplyWins(prefix, k);
  }

  /** For every datagram the loop read, its address maps to the payload of the last one read from there. */
  lemma CollectHoldsLastReadReply(socket: seq<Outcome>, i: nat)
    requires i < Consumed(socket) && socket[i].Datagram?
    requires forall j :: i < j < Consumed(socket) ==> !FromIp(socket[j], socket[i].ip)
    ensures Lookup(Collect(socket), socket[i].ip) == Some(socket[i].payload)
  {
    StoreLastReplyWins(socket[..Consumed(socket)], i);
  }

  /** An address is in the returned dictionary exactly when the loop read a datagram from it. */
  lemma CollectKeysAreReadSenders(socket: seq<Outcome>, ip: Ip)
    ensures ip in Keys(Collect(socket)) <==> exists i :: 0 <= i < Consumed(socket) && FromIp(socket[i], ip)
  {
    var read := socket[..Consumed(socket)];
    StoreKeysAreSenders(read, ip);
    if exists i :: 0 <= i < Consumed(socket) && FromIp(socket[i], ip) {
      var i :| 0 <= i < Consumed(socket) && FromIp(socket[i], ip);
      assert FromIp(read[i], ip);
    }
  }
}
