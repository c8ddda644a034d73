/** Segment addressing and the existence probe of the download worker
    (workers.py): a folder URL is normalised to end with '/', and segment
    `i` lives at `folder + "segment_" + zfill(i) + ".jpg"`. The network is
    an oracle: what a HEAD, a streamed GET and a download GET would answer. */
module Segments {
  import opened Text

  const SegmentPrefix: string := "segment_"
  const SegmentExtension: string := ".jpg"

  /** `_normalize_url`: append '/' unless the URL already ends with one. */
  function NormalizeUrl(u: string): (r: string)
    ensures EndsWith(r, "/")
    ensures EndsWith(u, "/") ==> r == u
    ensures StartsWith(r, u) && |r| <= |u| + 1
  {
    if EndsWith(u, "/") then u else u + "/"
  }

  lemma NormalizeIdempotent(u: string)
    ensures NormalizeUrl(NormalizeUrl(u)) == NormalizeUrl(u)
  {
  }

  /** The common prefix of every segment URL of a folder (`base` in `run`). */
  function SegmentBase(folder: string): string
  {
    NormalizeUrl(folder) + SegmentPrefix
  }

  /** The URL of segment `i`: `f"{base}{str(i).zfill(pad)}.jpg"`. */
  function SegmentUrl(base: string, pad: int, i: nat): string
  {
    base + ZFill(i, pad) + SegmentExtension
  }

  /** Reading the index back out of a segment URL. */
  function IndexOfUrl(base: string, url: string): (r: Option<nat>)
    ensures r.Some? ==> StartsWith(url, base) && EndsWith(url, SegmentExtension)
  {
    if |url| >= |base| + |SegmentExtension| && StartsWith(url, base) && EndsWith(url, SegmentExtension)
       && AllDigits(url[|base|..|url| - |SegmentExtension|])
    then Some(DigitsValue(url[|base|..|url| - |SegmentExtension|]))
    else None
  }

  /** The index is recoverable from the URL, so distinct indices address
      distinct URLs whatever the padding width. */
  lemma SegmentUrlRoundTrip(base: string, pad: int, i: nat)
    ensures IndexOfUrl(base, SegmentUrl(base, pad, i)) == Some(i)
  {
    var url := SegmentUrl(base, pad, i);
    var z := ZFill(i, pad);
    assert url[..|base|] == base;
    assert url[|url| - |SegmentExtension|..] == SegmentExtension;
    assert url[|base|..|url| - |SegmentExtension|] == z;
  }

  lemma SegmentUrlInjective(base: string, pad: int, i: nat, j: nat)
    requires SegmentUrl(base, pad, i) == SegmentUrl(base, pad, j)
    ensures i == j
  {
    SegmentUrlRoundTrip(base, pad, i);
    SegmentUrlRoundTrip(base, pad, j);
  }

  // ---------------------------------------------------------------------
  // The network as an oracle

  /** What one HTTP request ends in: a status code, or an exception
      (connection error, timeout). */
  datatype Reply = Answer(code: int) | Failed

  /** What a download GET of one segment ends in, per attempt: status 404, an
      HTTP error status that `raise_for_status` turns into an exception, a
      body that was read completely, or an exception raised on the way. */
  datatype Outcome = NotFound | HttpError(reason: string) | Body(bytes: seq<byte>) | Raised(reason: string)

  datatype Network = Network(
    head: string -> Reply,         // HEAD with redirects followed
    streamGet: string -> Reply,    // the probe's fallback GET
    get: (string, nat) -> Outcome  // the download GET of a URL at a given attempt number
  )

  /** `_probe_segment`: a segment exists when HEAD answers 200, or when HEAD
      answers 405 and the fallback GET answers 200. Every other status and
      every exception count as "does not exist"; the probe never fails. */
  function Probe(net: Network, url: string): (found: bool)
    ensures found <==> net.head(url) == Answer(200)
                       || (net.head(url) == Answer(405) && net.streamGet(url) == Answer(200))
  {
    match net.head(url)
    case Failed => false
    case Answer(code) =>
      if code == 200 then true
      else if code == 405 then
        match net.streamGet(url)
        case Failed => false
        case Answer(c) => c == 200
      else false
  }

  /** The existence predicate the range detection works with. */
  function Exists(net: Network, base: string, pad: int): nat -> bool
  {
    (i: nat) => Probe(net, SegmentUrl(base, pad, i))
  }
}
