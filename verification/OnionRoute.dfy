/**
 Whole onion routes: a sender seals a payload for every hop and frames each layer but the outermost
 with its hop's URL; every router opens one layer and forwards or stores what is in it.
 */
module OnionRoute {
  import opened Types
  import opened Seqs
  import opened OnionForward
  import opened OnionLayers

  predicate FitsFrame(url: Bytes) {
    0 < |url| <= MAX_URL
  }

  /** The URLs of the hops after hop i fit a frame. */
  ghost predicate UrlsAfter(urls: seq<Bytes>, i: nat) {
    forall k :: i < k < |urls| ==> FitsFrame(urls[k])
  }

  /** What hop i's layer is sealed around: the payload, or a frame for the next hop. */
  ghost function Inside(c: Crypto, keys: seq<Key>, urls: seq<Bytes>, payload: Bytes, i: nat): Result
    requires i < |keys| == |urls|
    decreases |keys| - i, 0
  {
    if i == |keys| - 1 then Ok(payload)
    else match Layer(c, keys, urls, payload, i + 1)
      case Err(f) => Err(f)
      case Ok(body) => if Frameable(urls[i + 1], body) then Ok(Frame(urls[i + 1], body)) else Err(InvalidArgument)
  }

  /** The onion that hop i is sent. */
  ghost function Layer(c: Crypto, keys: seq<Key>, urls: seq<Bytes>, payload: Bytes, i: nat): Result
    requires i < |keys| == |urls|
    decreases |keys| - i, 1
  {
    match Inside(c, keys, urls, payload, i)
    case Err(f) => Err(f)
    case Ok(inner) =>
      if |inner| > MAX_CIPHERTEXT then Err(MessageSize)
      else match c.seal(keys[i], inner)
        case None => Err(IoError)
        case Some(onion) => Ok(onion)
  }

  ghost predicate Routable(keys: seq<Key>, urls: seq<Bytes>) {
    0 < |keys| <= 3 && |urls| == |keys|
  }

  /** How large the layers of a short route get: far below the limit. */
  lemma {:induction false} LayerSize(c: Crypto, keys: seq<Key>, urls: seq<Bytes>, payload: Bytes, i: nat)
    requires Sound(c) && Routable(keys, urls) && i < |keys| && |payload| <= MAX_PAYLOAD
    ensures var inside := Inside(c, keys, urls, payload, i);
            inside.Ok? ==> |inside.onion| + SEAL_BYTES <= |payload| + 310 * (|keys| - i) <= MAX_CIPHERTEXT
    ensures var layer := Layer(c, keys, urls, payload, i);
            && layer != Err(MessageSize)
            && (layer.Ok? ==> SEAL_BYTES <= |layer.onion| <= |payload| + 310 * (|keys| - i))
    decreases |keys| - i
  {
    if i == |keys| - 1 {
    } else {
      LayerSize(c, keys, urls, payload, i + 1);
    }
  }

  /**
   A route can be composed only if every URL after the first fits a frame, and sealing that never
   fails makes that enough; a URL that does not fit is the only way to an invalid argument.
   */
  lemma {:induction false} ComposesIff(c: Crypto, keys: seq<Key>, urls: seq<Bytes>, payload: Bytes, i: nat)
    requires Sound(c) && Routable(keys, urls) && i < |keys| && |payload| <= MAX_PAYLOAD
    ensures Layer(c, keys, urls, payload, i).Ok? ==> UrlsAfter(urls, i)
    ensures Layer(c, keys, urls, payload, i) == Err(InvalidArgument) ==> !UrlsAfter(urls, i)
    ensures NeverFails(c) ==> (Layer(c, keys, urls, payload, i).Ok? <==> UrlsAfter(urls, i))
    decreases |keys| - i
  {
    LayerSize(c, keys, urls, payload, i);
    if i == |keys| - 1 {
    } else {
      LayerSize(c, keys, urls, payload, i + 1);
      ComposesIff(c, keys, urls, payload, i + 1);
      assert UrlsAfter(urls, i) <==> FitsFrame(urls[i + 1]) && UrlsAfter(urls, i + 1);
    }
  }

  /** What has been composed when the hops from i on are done: the last one needs no frame. */
  ghost predicate Composed(c: Crypto, keys: seq<Key>, urls: seq<Bytes>, payload: Bytes, i: nat, current: Bytes)
    requires 0 < i <= |keys| == |urls|
  {
    Inside(c, keys, urls, payload, i - 1) == Ok(current)
  }

  /** A failure at hop i is a failure of the whole. */
  lemma {:induction false} FailureSpreads(
    c: Crypto, keys: seq<Key>, urls: seq<Bytes>, payload: Bytes, i: nat, f: Failure)
    requires i < |keys| == |urls|
    requires Inside(c, keys, urls, payload, i) == Err(f) || Layer(c, keys, urls, payload, i) == Err(f)
    ensures Layer(c, keys, urls, payload, 0) == Err(f)
    decreases i
  {
    if i == 0 {
    } else {
      FailureSpreads(c, keys, urls, payload, i - 1, f);
    }
  }

  /**
   Composes the onion from the innermost layer out. Arguments that are no route, and too large a
   payload, leave the output alone; a later failure clears it.
   */
  method ComposeOnionRoute(c: Crypto, keys: seq<Key>, urls: seq<Bytes>, payload: Bytes, onion: Buffer)
    returns (failure: Option<Failure>)
    requires Sound(c)
    modifies onion
    ensures !Routable(keys, urls) ==> failure == Some(InvalidArgument) && onion.bytes == old(onion.bytes)
    ensures Routable(keys, urls) && |payload| > 64 * 1024 ==>
              failure == Some(MessageSize) && onion.bytes == old(onion.bytes)
    ensures Routable(keys, urls) && |payload| <= 64 * 1024 ==>
              match Layer(c, keys, urls, payload, 0)
              case Ok(bytes) => failure == None && onion.bytes == bytes
              case Err(f) => failure == Some(f) && onion.bytes == []
    ensures failure.None? ==> Routable(keys, urls) && |payload| <= 64 * 1024 && UrlsAfter(urls, 0)
    ensures NeverFails(c) ==>
              (failure.None? <==> Routable(keys, urls) && |payload| <= 64 * 1024 && UrlsAfter(urls, 0))
  {
    if |keys| == 0 || |keys| != |urls| || |keys| > HOP_COUNT {
      return Some(InvalidArgument);
    }
    if |payload| > MAX_PAYLOAD {
      return Some(MessageSize);
    }
    ComposesIff(c, keys, urls, payload, 0);
    var current := payload;
    var i := |keys|;
    while true
      invariant 0 < i <= |keys| && Composed(c, keys, urls, payload, i, current)
      invariant onion.bytes == old(onion.bytes)
      decreases i
    {
      i := i - 1;
      var wrapped := WrapOnionLayer(c, keys[i], current);
      LayerSize(c, keys, urls, payload, i);
      if wrapped.Err? {
        FailureSpreads(c, keys, urls, payload, i, wrapped.failure);
        onion.bytes := [];
        return Some(wrapped.failure);
      }
      current := wrapped.onion;
      if i == 0 {
        break;
      }
      var layer := new Buffer(current);
      var framed := new Buffer([]);
      var ok := EncodeOnionForward(urls[i], layer, framed);
      if !ok {
        FailureSpreads(c, keys, urls, payload, i - 1, InvalidArgument);
        onion.bytes := [];
        return Some(InvalidArgument);
      }
      current := framed.bytes;
    }
    if |current| > MAX_CIPHERTEXT {
      assert false; // the finished onion does not come near the limit
    }
    onion.bytes := current;
    return None;
  }

  // The routers

  /** The key of a router that has none. */
  const NULL_KEY: Key := 0

  /** What a router finds in a body. */
  function PeelBody(c: Crypto, key: Key, body: Bytes): Option<Bytes> {
    if body == [] || key == NULL_KEY then None
    else match PeelOnionLayer(c, key, body)
      case Err(_) => None
      case Ok(inner) => Some(inner)
  }

  /** A router has a key and the URL of its store, which is empty if it has none. */
  datatype Router = Router(key: Key, storage: Bytes)

  /** The router at a URL, whether a router with a given store may forward to a URL, and whether the
      store at a URL takes what it is given. */
  datatype Net = Net(at: Bytes -> Option<Router>, allowed: (Bytes, Bytes) -> bool, takes: Bytes -> bool)

  predicate HasStore(net: Net, router: Router) {
    router.storage != [] && net.takes(router.storage)
  }

  /** How an onion ends: refused by some router, or stored at the last of the hops it was sent on to. */
  datatype Outcome = Rejected(hops: seq<Bytes>) | Stored(hops: seq<Bytes>, payload: Bytes)

  function Via(url: Bytes, o: Outcome): Outcome {
    match o
    case Rejected(hops) => Rejected([url] + hops)
    case Stored(hops, payload) => Stored([url] + hops, payload)
  }

  /** What a router does with an opened layer after `forwarded` hops: it forwards a frame and stores
      anything else. */
  function Handle(c: Crypto, net: Net, router: Router, inner: Bytes, forwarded: nat): Outcome
    decreases HOP_COUNT - forwarded, 0
  {
    if forwarded >= HOP_COUNT then Rejected([])
    else match Parse(inner)
      case Some((url, rest)) =>
        if forwarded + 1 >= HOP_COUNT || !net.allowed(url, router.storage) || net.at(url).None? then Rejected([])
        else Via(url, Deliver(c, net, net.at(url).value, rest, forwarded + 1))
      case None => if HasStore(net, router) then Stored([], inner) else Rejected([])
  }

  /** An onion handed to a router. */
  function Deliver(c: Crypto, net: Net, router: Router, body: Bytes, forwarded: nat): Outcome
    decreases HOP_COUNT - forwarded, 1
  {
    match PeelBody(c, router.key, body)
    case None => Rejected([])
    case Some(inner) => Handle(c, net, router, inner, forwarded)
  }

  /** Whatever a router is handed, it is sent on at most twice in all. */
  lemma {:induction false} ForwardedTwice(c: Crypto, net: Net, router: Router, body: Bytes, forwarded: nat)
    ensures |Deliver(c, net, router, body, forwarded).hops| <= if forwarded < 2 then 2 - forwarded else 0
    decreases HOP_COUNT - forwarded
  {
    match PeelBody(c, router.key, body)
    case None =>
    case Some(inner) =>
      if forwarded + 1 < HOP_COUNT && Parse(inner).Some? {
        var (url, rest) := Parse(inner).value;
        if net.at(url).Some? {
          ForwardedTwice(c, net, net.at(url).value, rest, forwarded + 1);
        }
      }
  }

  function Keys(routers: seq<Router>): (keys: seq<Key>)
    ensures |keys| == |routers|
  {
    seq(|routers|, k requires 0 <= k < |routers| => routers[k].key)
  }

  /** Every hop's router answers at its URL. */
  ghost predicate RoutersAt(net: Net, routers: seq<Router>, urls: seq<Bytes>) {
    |urls| == |routers| && forall k :: 0 < k < |urls| ==> net.at(urls[k]) == Some(routers[k])
  }

  /** From hop i on every router has a key, and may forward to the next. */
  ghost predicate Passable(net: Net, routers: seq<Router>, urls: seq<Bytes>, i: nat)
    requires |urls| == |routers|
  {
    forall k :: i <= k < |routers| ==>
      && routers[k].key != NULL_KEY
      && (k + 1 < |routers| ==> net.allowed(urls[k + 1], routers[k].storage))
  }

  function ViaAll(urls: seq<Bytes>, o: Outcome): Outcome {
    if urls == [] then o else Via(urls[0], ViaAll(urls[1..], o))
  }

  lemma {:induction false} ViaAllHops(urls: seq<Bytes>, o: Outcome)
    ensures ViaAll(urls, o) == match o
                               case Rejected(hops) => Rejected(urls + hops)
                               case Stored(hops, payload) => Stored(urls + hops, payload)
    decreases |urls|
  {
    if urls == [] {
      JoinEmpty(o.hops);
    } else {
      ViaAllHops(urls[1..], o);
      JoinAssociates([urls[0]], urls[1..], o.hops);
      assert [urls[0]] + urls[1..] == urls;
    }
  }

  lemma StoredAfterAll(urls: seq<Bytes>, o: Outcome, payload: Bytes)
    ensures ViaAll(urls, o) == Stored(urls, payload) <==> o == Stored([], payload)
  {
    ViaAllHops(urls, o);
    JoinEmpty(urls);
    assert |urls + o.hops| == |urls| + |o.hops|;
  }

  /** A router stores what it has opened, and does not send it on, if it has a store and this is no frame. */
  lemma StoresIff(c: Crypto, net: Net, router: Router, inner: Bytes, forwarded: nat)
    requires forwarded < HOP_COUNT
    ensures Handle(c, net, router, inner, forwarded) == Stored([], inner) <==>
            HasStore(net, router) && Parse(inner).None?
  {
  }

  /** A composed onion, at a router of its route. */
  ghost predicate OnItsWay(c: Crypto, net: Net, routers: seq<Router>, urls: seq<Bytes>, payload: Bytes, i: nat) {
    && Sound(c) && RoutersAt(net, routers, urls) && Routable(Keys(routers), urls) && i < |routers|
    && |payload| <= MAX_PAYLOAD && Layer(c, Keys(routers), urls, payload, i).Ok?
  }

  /** A router that has a key opens its layer. */
  lemma HopOpens(c: Crypto, net: Net, routers: seq<Router>, urls: seq<Bytes>, payload: Bytes, i: nat)
    requires OnItsWay(c, net, routers, urls, payload, i)
    ensures var keys := Keys(routers);
            && Inside(c, keys, urls, payload, i).Ok?
            && PeelBody(c, routers[i].key, Layer(c, keys, urls, payload, i).onion) ==
               if routers[i].key == NULL_KEY then None else Some(Inside(c, keys, urls, payload, i).onion)
  {
    LayerSize(c, Keys(routers), urls, payload, i);
  }

  /** A router that finds a frame sends it on to the URL in it, if it may. */
  lemma HopForwards(c: Crypto, net: Net, routers: seq<Router>, urls: seq<Bytes>, payload: Bytes, i: nat)
    requires OnItsWay(c, net, routers, urls, payload, i) && i + 1 < |routers|
    ensures OnItsWay(c, net, routers, urls, payload, i + 1)
    ensures Deliver(c, net, routers[i], Layer(c, Keys(routers), urls, payload, i).onion, i) ==
            if routers[i].key == NULL_KEY || !net.allowed(urls[i + 1], routers[i].storage) then Rejected([])
            else Via(urls[i + 1],
                     Deliver(c, net, routers[i + 1], Layer(c, Keys(routers), urls, payload, i + 1).onion, i + 1))
  {
    HopOpens(c, net, routers, urls, payload, i);
    ParseFrame(urls[i + 1], Layer(c, Keys(routers), urls, payload, i + 1).onion);
  }

  /** From hop i on, the onion passes the hops' URLs in order, and the last router gets the payload. */
  lemma {:induction false} RouteFollowed(
    c: Crypto, net: Net, routers: seq<Router>, urls: seq<Bytes>, payload: Bytes, i: nat)
    requires OnItsWay(c, net, routers, urls, payload, i) && Passable(net, routers, urls, i)
    ensures Deliver(c, net, routers[i], Layer(c, Keys(routers), urls, payload, i).onion, i) ==
            ViaAll(urls[i + 1..], Handle(c, net, routers[|routers| - 1], payload, |routers| - 1))
    decreases |routers| - i
  {
    if i == |routers| - 1 {
      HopOpens(c, net, routers, urls, payload, i);
      assert urls[i + 1..] == [];
    } else {
      HopForwards(c, net, routers, urls, payload, i);
      RouteFollowed(c, net, routers, urls, payload, i + 1);
      assert urls[i + 1..][1..] == urls[i + 2..];
    }
  }

  /** A router on the way without a key, or not allowed to forward, ends it. */
  lemma {:induction false} RouteBlocked(
    c: Crypto, net: Net, routers: seq<Router>, urls: seq<Bytes>, payload: Bytes, i: nat)
    requires OnItsWay(c, net, routers, urls, payload, i) && !Passable(net, routers, urls, i)
    ensures Deliver(c, net, routers[i], Layer(c, Keys(routers), urls, payload, i).onion, i).Rejected?
    decreases |routers| - i
  {
    if i == |routers| - 1 {
      HopOpens(c, net, routers, urls, payload, i);
    } else {
      HopForwards(c, net, routers, urls, payload, i);
      if routers[i].key != NULL_KEY && net.allowed(urls[i + 1], routers[i].storage) {
        assert !Passable(net, routers, urls, i + 1);
        RouteBlocked(c, net, routers, urls, payload, i + 1);
      }
    }
  }

  /**
   A composed onion is stored by the last hop, as the payload it was made of and after passing the
   other hops in order, exactly when every router has a key and may forward to the next, the last
   one has a working store, and the payload does not itself look like a frame.
   */
  lemma DeliveredIff(c: Crypto, net: Net, routers: seq<Router>, urls: seq<Bytes>, payload: Bytes)
    requires OnItsWay(c, net, routers, urls, payload, 0)
    ensures Deliver(c, net, routers[0], Layer(c, Keys(routers), urls, payload, 0).onion, 0)
            == Stored(urls[1..], payload)
            <==>
            && Passable(net, routers, urls, 0)
            && HasStore(net, routers[|routers| - 1])
            && Parse(payload).None?
  {
    if Passable(net, routers, urls, 0) {
      var last := routers[|routers| - 1];
      RouteFollowed(c, net, routers, urls, payload, 0);
      StoredAfterAll(urls[1..], Handle(c, net, last, payload, |routers| - 1), payload);
      StoresIff(c, net, last, payload, |routers| - 1);
    } else {
      RouteBlocked(c, net, routers, urls, payload, 0);
    }
  }

  /** The family that fails is not empty: a payload that is a frame is never stored as it is. */
  lemma FramedPayloadIsNotDelivered(c: Crypto, net: Net, router: Router, url: Bytes)
    requires Sound(c) && Layer(c, [router.key], [url], Frame([0x61], [0x62]), 0).Ok?
    ensures Deliver(c, net, router, Layer(c, [router.key], [url], Frame([0x61], [0x62]), 0).onion, 0)
            != Stored([], Frame([0x61], [0x62]))
  {
    ParseFrame([0x61], [0x62]);
    assert Keys([router]) == [router.key] && [url][1..] == [];
    DeliveredIff(c, net, [router], [url], Frame([0x61], [0x62]));
  }
}
