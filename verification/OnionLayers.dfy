/**
 Onions without forwarding: a payload sealed for one hop after the other, and the hops opening one
 layer each.
 */
module OnionLayers {
  import opened Types
  import opened OnionForward

  const HOP_COUNT: nat := 3
  const MAX_PAYLOAD: nat := 64 * 1024
  const MAX_CIPHERTEXT: nat := 96 * 1024
  const SEAL_BYTES: nat := 48

  type Key = nat

  /** The sealed boxes of the crypto library. Sealing may fail, and so may opening. */
  datatype Crypto = Crypto(seal: (Key, Bytes) -> Option<Bytes>, open: (Key, Bytes) -> Option<Bytes>)

  /** Sealing, if it works, adds 48 bytes, and the key it was sealed for opens it. */
  ghost predicate Sound(c: Crypto) {
    forall k, x :: c.seal(k, x).Some? ==>
      |c.seal(k, x).value| == |x| + SEAL_BYTES && c.open(k, c.seal(k, x).value) == Some(x)
  }

  ghost predicate NeverFails(c: Crypto) {
    forall k, x :: c.seal(k, x).Some?
  }

  datatype Failure = InvalidArgument | MessageSize | IoError | PermissionDenied

  datatype Result = Ok(onion: Bytes) | Err(failure: Failure)

  /** Opens one layer. */
  function PeelOnionLayer(c: Crypto, key: Key, outer: Bytes): Result {
    if |outer| > MAX_CIPHERTEXT then Err(MessageSize)
    else if |outer| < SEAL_BYTES then Err(InvalidArgument)
    else match c.open(key, outer)
      case None => Err(PermissionDenied)
      case Some(inner) => Ok(inner)
  }

  /** How opening fails: too long, too short to be sealed, or not sealed for that key. */
  lemma PeelFails(c: Crypto, key: Key, outer: Bytes)
    ensures PeelOnionLayer(c, key, outer) == Err(MessageSize) <==> |outer| > 96 * 1024
    ensures PeelOnionLayer(c, key, outer) == Err(InvalidArgument) <==> |outer| < 48
    ensures PeelOnionLayer(c, key, outer) == Err(PermissionDenied) <==>
            48 <= |outer| <= 96 * 1024 && c.open(key, outer).None?
  {
  }

  /** Adds a layer. The hop it is for gets the inner onion back out of it, unless the layer has grown
      over the limit on what hops take. */
  method WrapOnionLayer(c: Crypto, key: Key, inner: Bytes) returns (r: Result)
    requires Sound(c)
    ensures r.Err? <==> |inner| > 96 * 1024 || c.seal(key, inner).None?
    ensures r.Err? ==> r.failure == if |inner| > 96 * 1024 then MessageSize else IoError
    ensures r.Ok? ==> c.seal(key, inner) == Some(r.onion) && |r.onion| == |inner| + 48
    ensures r.Ok? ==> PeelOnionLayer(c, key, r.onion) ==
                      if |inner| + 48 <= 96 * 1024 then Ok(inner) else Err(MessageSize)
  {
    if |inner| > MAX_CIPHERTEXT {
      return Err(MessageSize);
    }
    var sealed := c.seal(key, inner);
    if sealed.None? {
      return Err(IoError);
    }
    return Ok(sealed.value);
  }

  /** The payload sealed for the hops from i on, the innermost layer for the last. */
  ghost function Sealed(c: Crypto, keys: seq<Key>, payload: Bytes, i: nat): Option<Bytes>
    requires i <= |keys|
    decreases |keys| - i
  {
    if i == |keys| then Some(payload)
    else match Sealed(c, keys, payload, i + 1)
      case None => None
      case Some(inner) => c.seal(keys[i], inner)
  }

  lemma {:induction false} SealedSize(c: Crypto, keys: seq<Key>, payload: Bytes, i: nat)
    requires Sound(c) && i <= |keys|
    ensures Sealed(c, keys, payload, i).Some? ==>
              |Sealed(c, keys, payload, i).value| == |payload| + SEAL_BYTES * (|keys| - i)
    ensures NeverFails(c) ==> Sealed(c, keys, payload, i).Some?
    decreases |keys| - i
  {
    if i == |keys| {
    } else {
      SealedSize(c, keys, payload, i + 1);
    }
  }

  lemma {:induction false} SealFailureSpreads(c: Crypto, keys: seq<Key>, payload: Bytes, i: nat)
    requires i <= |keys| && Sealed(c, keys, payload, i).None?
    ensures Sealed(c, keys, payload, 0).None?
    decreases i
  {
    if i == 0 {
    } else {
      SealFailureSpreads(c, keys, payload, i - 1);
    }
  }

  /** No hop, too many, or too large a payload leave the output alone; a failing seal clears it. The
      limit on layers is never met. */
  method BuildOnion(c: Crypto, keys: seq<Key>, payload: Bytes, onion: Buffer) returns (failure: Option<Failure>)
    requires Sound(c)
    modifies onion
    ensures !(0 < |keys| <= 3) ==> failure == Some(InvalidArgument) && onion.bytes == old(onion.bytes)
    ensures 0 < |keys| <= 3 && |payload| > 64 * 1024 ==>
              failure == Some(MessageSize) && onion.bytes == old(onion.bytes)
    ensures 0 < |keys| <= 3 && |payload| <= 64 * 1024 ==>
              match Sealed(c, keys, payload, 0)
              case Some(sealed) => failure == None && onion.bytes == sealed
              case None => failure == Some(IoError) && onion.bytes == []
  {
    if |keys| == 0 || |keys| > HOP_COUNT {
      return Some(InvalidArgument);
    }
    if |payload| > MAX_PAYLOAD {
      return Some(MessageSize);
    }
    onion.bytes := payload;
    var i := |keys|;
    while i > 0
      invariant 0 <= i <= |keys| && Sealed(c, keys, payload, i) == Some(onion.bytes)
    {
      SealedSize(c, keys, payload, i);
      var next := WrapOnionLayer(c, keys[i - 1], onion.bytes);
      if next.Err? {
        SealFailureSpreads(c, keys, payload, i - 1);
        onion.bytes := [];
        return Some(next.failure);
      }
      if |next.onion| > MAX_CIPHERTEXT {
        assert false; // three layers add 144 bytes
      }
      onion.bytes := next.onion;
      i := i - 1;
    }
    return None;
  }

  /** What is left after the hops up to k have opened a layer each. */
  ghost function Peeled(c: Crypto, keys: seq<Key>, onion: Bytes, k: nat): Result
    requires k <= |keys|
  {
    if k == 0 then Ok(onion)
    else match Peeled(c, keys, onion, k - 1)
      case Err(f) => Err(f)
      case Ok(outer) => PeelOnionLayer(c, keys[k - 1], outer)
  }

  lemma {:induction false} PeelFailureSpreads(c: Crypto, keys: seq<Key>, onion: Bytes, k: nat, f: Failure)
    requires k <= |keys| && Peeled(c, keys, onion, k) == Err(f)
    ensures Peeled(c, keys, onion, |keys|) == Err(f)
    decreases |keys| - k
  {
    if k == |keys| {
    } else {
      PeelFailureSpreads(c, keys, onion, k + 1, f);
    }
  }

  method PeelOnion(c: Crypto, keys: seq<Key>, onion: Bytes, payload: Buffer) returns (failure: Option<Failure>)
    modifies payload
    ensures !(0 < |keys| <= 3) ==> failure == Some(InvalidArgument) && payload.bytes == old(payload.bytes)
    ensures 0 < |keys| <= 3 && |onion| > 96 * 1024 ==>
              failure == Some(MessageSize) && payload.bytes == old(payload.bytes)
    ensures 0 < |keys| <= 3 && |onion| <= 96 * 1024 ==>
              match Peeled(c, keys, onion, |keys|)
              case Err(f) => failure == Some(f) && payload.bytes == []
              case Ok(inner) =>
                if |inner| > 64 * 1024 then failure == Some(MessageSize) && payload.bytes == []
                else failure == None && payload.bytes == inner
  {
    if |keys| == 0 || |keys| > HOP_COUNT {
      return Some(InvalidArgument);
    }
    if |onion| > MAX_CIPHERTEXT {
      return Some(MessageSize);
    }
    var current := onion;
    for k := 0 to |keys|
      invariant payload.bytes == old(payload.bytes) && Peeled(c, keys, onion, k) == Ok(current)
    {
      var next := PeelOnionLayer(c, keys[k], current);
      if next.Err? {
        PeelFailureSpreads(c, keys, onion, k + 1, next.failure);
        payload.bytes := [];
        return Some(next.failure);
      }
      current := next.onion;
    }
    if |current| > MAX_PAYLOAD {
      payload.bytes := [];
      return Some(MessageSize);
    }
    payload.bytes := current;
    return None;
  }

  /** After k hops an onion is what was sealed for the others. */
  lemma {:induction false} PeeledIsSealed(c: Crypto, keys: seq<Key>, payload: Bytes, k: nat)
    requires Sound(c) && k <= |keys| <= HOP_COUNT && |payload| <= MAX_PAYLOAD
    requires Sealed(c, keys, payload, 0).Some?
    ensures Sealed(c, keys, payload, k).Some?
    ensures Peeled(c, keys, Sealed(c, keys, payload, 0).value, k) == Ok(Sealed(c, keys, payload, k).value)
  {
    if k == 0 {
    } else {
      PeeledIsSealed(c, keys, payload, k - 1);
      SealedSize(c, keys, payload, k - 1);
    }
  }

  /** The hops, in order, get back the payload that an onion was built of. */
  lemma PeelsWhatWasBuilt(c: Crypto, keys: seq<Key>, payload: Bytes)
    requires Sound(c) && |keys| <= HOP_COUNT && |payload| <= MAX_PAYLOAD
    requires Sealed(c, keys, payload, 0).Some?
    ensures Peeled(c, keys, Sealed(c, keys, payload, 0).value, |keys|) == Ok(payload)
    ensures |Sealed(c, keys, payload, 0).value| == |payload| + 48 * |keys| <= 96 * 1024
  {
    PeeledIsSealed(c, keys, payload, |keys|);
    SealedSize(c, keys, payload, 0);
  }
}
