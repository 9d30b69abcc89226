/**
 The forward frame of the onion router: a magic, the length of the next hop's URL, the URL, and the
 onion for that hop.
 */
module OnionForward {
  import opened Types
  import opened Seqs

  const MAGIC: Bytes := [0x41, 0x52, 0x51, 0x48]
  const MAX_URL: nat := 256

  predicate Frameable(url: Bytes, inner: Bytes) {
    0 < |url| <= MAX_URL && inner != []
  }

  function Head(n: nat): (h: Bytes)
    requires n <= MAX_URL
    ensures |h| == 6
  {
    MAGIC + [n % 256, n / 256]
  }

  function Frame(url: Bytes, inner: Bytes): (raw: Bytes)
    requires Frameable(url, inner)
    ensures |raw| == 6 + |url| + |inner|
  {
    Head(|url|) + url + inner
  }

  /** How a frame is laid out, byte by byte: "ARQH", the length of the URL with its low byte first, the
      URL, the onion. */
  lemma FrameLayout(url: Bytes, inner: Bytes)
    ensures Frameable(url, inner) <==> 1 <= |url| <= 256 && |inner| >= 1
    ensures Frameable(url, inner) ==>
              var raw := Frame(url, inner);
              && |raw| == 6 + |url| + |inner|
              && raw[0] == 'A' as nat && raw[1] == 'R' as nat && raw[2] == 'Q' as nat && raw[3] == 'H' as nat
              && raw[4] == (if |url| == 256 then 0 else |url|) && raw[5] == (if |url| == 256 then 1 else 0)
              && (forall k :: 0 <= k < |url| ==> raw[6 + k] == url[k])
              && (forall k :: 0 <= k < |inner| ==> raw[6 + |url| + k] == inner[k])
  {
  }

  /** The URL and onion in a frame, read the way the router does. */
  function Parse(raw: Bytes): Option<(Bytes, Bytes)> {
    if |raw| < 8 || raw[..4] != MAGIC then None
    else
      var n := (raw[4] as int) + (raw[5] as int) * 256;
      if n == 0 || n > MAX_URL || |raw| < 6 + n + 1 then None
      else Some((raw[6..6 + n], raw[6 + n..]))
  }

  lemma ParseFrame(url: Bytes, inner: Bytes)
    requires Frameable(url, inner)
    ensures Parse(Frame(url, inner)) == Some((url, inner))
  {
    var raw, n := Frame(url, inner), |url|;
    assert raw[..4] == MAGIC && raw[4] == n % 256 && raw[5] == n / 256;
    assert raw[6..6 + n] == url && raw[6 + n..] == inner;
  }

  lemma FrameParse(raw: Bytes)
    requires Parse(raw).Some?
    ensures var (url, inner) := Parse(raw).value;
            Frameable(url, inner) && Frame(url, inner) == raw
  {
    var (url, inner) := Parse(raw).value;
    var n := |url|;
    assert raw[4] == n % 256 && raw[5] == n / 256;
    assert raw[..6] == Head(n);
    assert raw == raw[..6] + raw[6..6 + n] + raw[6 + n..];
  }

  /** The frames are exactly what encoding makes, each from one URL and one onion only. */
  lemma ParsesIff(raw: Bytes, url: Bytes, inner: Bytes)
    ensures Parse(raw) == Some((url, inner)) <==> Frameable(url, inner) && Frame(url, inner) == raw
    ensures Parse(raw) == Some((url, inner)) ==> |inner| + 7 <= |raw|
  {
    if Parse(raw).Some? {
      FrameParse(raw);
    }
    if Frameable(url, inner) {
      ParseFrame(url, inner);
    }
  }

  // The two functions on the caller's buffers

  class Buffer {
    var bytes: Bytes

    constructor (bytes: Bytes)
      ensures this.bytes == bytes
    {
      this.bytes := bytes;
    }
  }

  /** Fills `out` with the frame; leaves it alone if there is no frame to make. */
  method EncodeOnionForward(nextUrl: Bytes, inner: Buffer, out: Buffer) returns (ok: bool)
    requires out != inner
    modifies out
    ensures ok <==> Frameable(nextUrl, inner.bytes)
    ensures out.bytes == if ok then Frame(nextUrl, inner.bytes) else old(out.bytes)
  {
    if |nextUrl| == 0 || |nextUrl| > MAX_URL || |inner.bytes| == 0 {
      return false;
    }
    out.bytes := [];
    out.bytes := out.bytes + MAGIC;
    var n := |nextUrl|;
    out.bytes := out.bytes + [n % 256];
    out.bytes := out.bytes + [n / 256 % 256];
    assert out.bytes == Head(n);
    out.bytes := out.bytes + nextUrl;
    out.bytes := out.bytes + inner.bytes;
    return true;
  }

  /** Fills both outputs from a frame; leaves both alone if `raw` is none. */
  method DecodeOnionForward(raw: Bytes, nextUrl: Buffer, inner: Buffer) returns (ok: bool)
    requires nextUrl != inner
    modifies nextUrl, inner
    ensures ok <==> Parse(raw).Some?
    ensures ok ==> Parse(raw) == Some((nextUrl.bytes, inner.bytes))
    ensures !ok ==> nextUrl.bytes == old(nextUrl.bytes) && inner.bytes == old(inner.bytes)
  {
    if |raw| < 8 || raw[..4] != MAGIC {
      return false;
    }
    var n := (raw[4] as int) + (raw[5] as int) * 256;
    if n == 0 || n > MAX_URL || |raw| < 6 + n + 1 {
      return false;
    }
    nextUrl.bytes := raw[6..6 + n];
    inner.bytes := raw[6 + n..];
    return |inner.bytes| > 0 && |nextUrl.bytes| > 0;
  }

  // Frames in frames

  ghost predicate AllUrls(urls: seq<Bytes>) {
    forall k :: 0 <= k < |urls| ==> 0 < |urls[k]| <= MAX_URL
  }

  /** The payload framed for the last URL, that for the one before it, and so on. */
  ghost function Nest(urls: seq<Bytes>, payload: Bytes): (raw: Bytes)
    requires AllUrls(urls) && payload != []
    ensures raw != []
    ensures |raw| >= |payload| + 7 * |urls|
  {
    if urls == [] then payload else Frame(urls[0], Nest(urls[1..], payload))
  }

  /** Peels exactly k frames. */
  ghost function PeelTimes(raw: Bytes, k: nat): Option<(seq<Bytes>, Bytes)> {
    if k == 0 then Some(([], raw))
    else match Parse(raw)
      case None => None
      case Some((url, inner)) =>
        match PeelTimes(inner, k - 1)
        case None => None
        case Some((urls, rest)) => Some(([url] + urls, rest))
  }

  lemma PeelTimesOfFrame(url: Bytes, inner: Bytes, k: nat, urls: seq<Bytes>, rest: Bytes)
    requires Frameable(url, inner) && PeelTimes(inner, k) == Some((urls, rest))
    ensures PeelTimes(Frame(url, inner), k + 1) == Some(([url] + urls, rest))
  {
    ParseFrame(url, inner);
  }

  /** Peeling a nest once per hop gives back its URLs in order and its payload, whatever that is. */
  lemma {:induction false} PeelNestTimes(urls: seq<Bytes>, payload: Bytes)
    requires AllUrls(urls) && payload != []
    ensures PeelTimes(Nest(urls, payload), |urls|) == Some((urls, payload))
    decreases |urls|
  {
    if urls == [] {
    } else {
      PeelNestTimes(urls[1..], payload);
      PeelTimesOfFrame(urls[0], Nest(urls[1..], payload), |urls| - 1, urls[1..], payload);
      assert [urls[0]] + urls[1..] == urls;
    }
  }

  /** Peels frames for as long as there are any. */
  ghost function Peel(raw: Bytes): (seq<Bytes>, Bytes)
    decreases |raw|
  {
    match Parse(raw)
    case None => ([], raw)
    case Some((url, inner)) =>
      FrameParse(raw);
      var (urls, core) := Peel(inner);
      ([url] + urls, core)
  }

  lemma PeelOfFrame(url: Bytes, inner: Bytes)
    requires Frameable(url, inner)
    ensures Peel(Frame(url, inner)) == ([url] + Peel(inner).0, Peel(inner).1)
  {
    ParseFrame(url, inner);
  }

  /** Peeling a nest gives back its URLs in order, and goes on into the payload. */
  lemma {:induction false} PeelNest(urls: seq<Bytes>, payload: Bytes)
    requires AllUrls(urls) && payload != []
    ensures Peel(Nest(urls, payload)) == (urls + Peel(payload).0, Peel(payload).1)
    decreases |urls|
  {
    if urls == [] {
      JoinEmpty(Peel(payload).0);
    } else {
      PeelNest(urls[1..], payload);
      PeelOfFrame(urls[0], Nest(urls[1..], payload));
      JoinAssociates([urls[0]], urls[1..], Peel(payload).0);
      assert [urls[0]] + urls[1..] == urls;
    }
  }

  /** Peeling loses nothing: any bytes are the nest of their URLs around a core that is no frame. */
  lemma {:induction false} NestPeel(raw: Bytes)
    requires raw != []
    ensures var (urls, core) := Peel(raw);
            AllUrls(urls) && core != [] && Parse(core).None? && Nest(urls, core) == raw
    decreases |raw|
  {
    match Parse(raw)
    case None =>
    case Some((url, inner)) =>
      FrameParse(raw);
      NestPeel(inner);
      var (urls, core) := Peel(inner);
      assert ([url] + urls)[1..] == urls;
  }
}
