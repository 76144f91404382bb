/** The distribution record, its derived ordering, and `Distro::download_iso`
    (src/distro.rs). */
module Distros {
  import opened Base

  // ---------------------------------------------------------------------------
  // Data model
  // ---------------------------------------------------------------------------

  /** The only compression scheme the catalog can name (the source spells the type
      `CompressionAlgorithim`). */
  datatype CompressionAlgorithm = Zip

  /** One catalog entry: its name, the optional compression of the image, and the
      URLs of the image's parts in download order. */
  datatype Distro = Distro(name: string, isoCompression: Option<CompressionAlgorithm>, iso: seq<string>)

  // ---------------------------------------------------------------------------
  // The derived `PartialOrd, Ord`: fields compared in declaration order
  // ---------------------------------------------------------------------------

  /** `char` ordering (code points; for `String` this agrees with byte-wise UTF-8 order). */
  function CompareChar(a: char, b: char): Ordering {
    if a < b then Less else if a == b then Equal else Greater
  }

  /** Lexicographic ordering of sequences, as `Ord` on `str` and `Vec` does it: the first
      differing position decides, and a proper prefix comes first. */
  function Lex<T>(a: seq<T>, b: seq<T>, cmp: (T, T) -> Ordering): (o: Ordering)
    ensures o == Equal ==> |a| == |b|
    ensures |a| < |b| && (forall i :: 0 <= i < |a| ==> cmp(a[i], b[i]) == Equal) ==> o == Less
    decreases |a|
  {
    if |a| == 0 then (if |b| == 0 then Equal else Less)
    else if |b| == 0 then Greater
    else
      var c := cmp(a[0], b[0]);
      if c == Equal then Lex(a[1..], b[1..], cmp) else c
  }

  /** `Ord for String`; only equal strings compare `Equal`. */
  function CompareString(a: string, b: string): (o: Ordering)
    ensures o == Equal <==> a == b
  {
    LexEqual(a, b, CompareChar);
    Lex(a, b, CompareChar)
  }

  /** `Option` orders `None` first; `CompressionAlgorithim` has a single variant. */
  function CompareCompression(a: Option<CompressionAlgorithm>, b: Option<CompressionAlgorithm>): (o: Ordering)
    ensures o == Equal <==> a == b
  {
    match (a, b)
    case (None, None) => Equal
    case (None, Some(_)) => Less
    case (Some(_), None) => Greater
    case (Some(Zip), Some(Zip)) => Equal
  }

  /** `Ord for Distro`: by `name`, then `iso_compression`, then the `iso` list. */
  function CompareDistro(a: Distro, b: Distro): (o: Ordering)
    ensures o == Equal <==> a == b
  {
    LexEqual(a.iso, b.iso, CompareString);
    var byName := CompareString(a.name, b.name);
    if byName != Equal then byName
    else
      var byCompression := CompareCompression(a.isoCompression, b.isoCompression);
      if byCompression != Equal then byCompression
      else Lex(a.iso, b.iso, CompareString)
  }

  /** `cmp` is a total order whose `Equal` is equality (what `Ord` requires together with `Eq`). */
  ghost predicate IsTotalOrder<T(!new)>(cmp: (T, T) -> Ordering) {
    && (forall x, y :: cmp(x, y) == Equal <==> x == y)
    && (forall x, y :: cmp(y, x) == cmp(x, y).Flip())
    && (forall x, y, z :: cmp(x, y) == Less && cmp(y, z) == Less ==> cmp(x, z) == Less)
  }

  lemma {:induction false} LexEqual<T>(a: seq<T>, b: seq<T>, cmp: (T, T) -> Ordering)
    requires forall x, y :: cmp(x, y) == Equal <==> x == y
    ensures Lex(a, b, cmp) == Equal <==> a == b
    decreases |a|
  {
    if |a| > 0 && |b| > 0 {
      LexEqual(a[1..], b[1..], cmp);
      assert a == [a[0]] + a[1..];
      assert b == [b[0]] + b[1..];
    }
  }

  lemma {:induction false} LexFlip<T>(a: seq<T>, b: seq<T>, cmp: (T, T) -> Ordering)
    requires forall x, y :: cmp(y, x) == cmp(x, y).Flip()
    ensures Lex(b, a, cmp) == Lex(a, b, cmp).Flip()
    decreases |a|
  {
    if |a| > 0 && |b| > 0 {
      LexFlip(a[1..], b[1..], cmp);
    }
  }

  lemma {:induction false} LexTransitive<T>(a: seq<T>, b: seq<T>, c: seq<T>, cmp: (T, T) -> Ordering)
    requires forall x, y :: cmp(x, y) == Equal <==> x == y
    requires forall x, y, z :: cmp(x, y) == Less && cmp(y, z) == Less ==> cmp(x, z) == Less
    requires Lex(a, b, cmp) == Less && Lex(b, c, cmp) == Less
    ensures Lex(a, c, cmp) == Less
    decreases |a|
  {
    if |a| > 0 {
      assert |b| > 0 && |c| > 0;
      if cmp(a[0], b[0]) == Equal && cmp(b[0], c[0]) == Equal {
        LexTransitive(a[1..], b[1..], c[1..], cmp);
      }
    }
  }

  /** Lexicographic extension preserves being a total order. */
  lemma LexTotalOrder<T(!new)>(cmp: (T, T) -> Ordering)
    requires IsTotalOrder(cmp)
    ensures IsTotalOrder((a: seq<T>, b: seq<T>) => Lex(a, b, cmp))
  {
    forall a: seq<T>, b: seq<T> ensures Lex(a, b, cmp) == Equal <==> a == b {
      LexEqual(a, b, cmp);
    }
    forall a: seq<T>, b: seq<T> ensures Lex(b, a, cmp) == Lex(a, b, cmp).Flip() {
      LexFlip(a, b, cmp);
    }
    forall a: seq<T>, b: seq<T>, c: seq<T> | Lex(a, b, cmp) == Less && Lex(b, c, cmp) == Less
      ensures Lex(a, c, cmp) == Less
    {
      LexTransitive(a, b, c, cmp);
    }
  }

  lemma CompareStringTotalOrder()
    ensures IsTotalOrder(CompareString)
  {
    assert IsTotalOrder(CompareChar);
    LexTotalOrder(CompareChar);
    assert forall a: string, b: string :: CompareString(a, b) == ((x: string, y: string) => Lex(x, y, CompareChar))(a, b);
  }

  /** The derived ordering of `Distro` is a total order consistent with `Eq`, and the
      name is compared first: distros with different names are ordered by name alone. */
  lemma {:induction false} CompareDistroTotalOrder()
    ensures IsTotalOrder(CompareDistro)
    ensures forall a: Distro, b: Distro :: a.name != b.name ==> CompareDistro(a, b) == CompareString(a.name, b.name) != Equal
  {
    CompareStringTotalOrder();
    LexTotalOrder(CompareString);
    assert forall a: seq<string>, b: seq<string> :: Lex(a, b, CompareString) == ((x: seq<string>, y: seq<string>) => Lex(x, y, CompareString))(a, b);
  }

  // ---------------------------------------------------------------------------
  // What the outside world answers to `download_iso`
  // ---------------------------------------------------------------------------

  /** One item of a response's `bytes_stream()`. */
  datatype ChunkResult = Chunk(data: seq<byte>) | ChunkError

  /** The outcome of `client.get(url).send()` for one part: the send fails, or a stream of chunks. */
  datatype Response = SendFailed | Streamed(chunks: seq<ChunkResult>)

  /** The outcome of extracting the first zip entry: the contents `download.iso` is left
      with, or a failure (the zip step is not modelled byte by byte). */
  datatype ZipOutcome = Unzipped(content: seq<byte>) | UnzipFailed

  /** Why `download_iso` returned an error. */
  datatype DownloadError =
    | FileOpen              // opening `download.iso` for appending failed
    | RequestSend(url: string) // `send()` of the request for this URL failed
    | FileWrite             // `write_all` of a chunk failed
    | Decompress            // the zip step failed

  /** The working directory as seen through the file `download.iso`. */
  class Volume {
    var isoExists: bool
    /** The bytes of `download.iso`. */
    var iso: seq<byte>
    /** Whether `download.iso` can be created and opened for writing. */
    const writable: bool
    /** How many bytes `download.iso` can hold before a write fails. */
    const capacity: nat

    constructor (isoExists: bool, iso: seq<byte>, writable: bool, capacity: nat)
      ensures this.isoExists == isoExists && this.iso == iso
      ensures this.writable == writable && this.capacity == capacity
    {
      this.isoExists, this.iso := isoExists, iso;
      this.writable, this.capacity := writable, capacity;
    }

    /** `fs::remove_file("download.iso").ok()`: any earlier file is gone, errors are ignored. */
    method RemoveIso()
      modifies this
      ensures !isoExists && iso == []
    {
      isoExists, iso := false, [];
    }

    /** `OpenOptions::new().append(true).create(true).open("download.iso")`. */
    method OpenAppend() returns (ok: bool)
      modifies this
      ensures ok == writable
      ensures isoExists == (old(isoExists) || writable) && iso == old(iso)
    {
      ok := writable;
      isoExists := isoExists || writable;
    }

    /** `write_all(data)` in append mode: fails, writing nothing, when the file would outgrow the volume. */
    method Append(data: seq<byte>) returns (ok: bool)
      modifies this
      ensures ok == (|old(iso)| + |data| <= capacity)
      ensures iso == (if ok then old(iso) + data else old(iso)) && isoExists == old(isoExists)
    {
      ok := |iso| + |data| <= capacity;
      if ok {
        iso := iso + data;
      }
    }

    /** The zip step's effect on `download.iso`. */
    method Decompress(zip: ZipOutcome) returns (ok: bool)
      modifies this
      ensures ok == zip.Unzipped?
      ensures iso == (if ok then zip.content else old(iso)) && isoExists == old(isoExists)
    {
      ok := zip.Unzipped?;
      if ok {
        iso := zip.content;
      }
    }
  }

  // ---------------------------------------------------------------------------
  // Specification of the download
  // ---------------------------------------------------------------------------

  /** The bytes one part delivers: its chunks up to the first chunk error
      (`while let Some(Ok(data))` stops there, silently). */
  function PartBytes(chunks: seq<ChunkResult>): seq<byte> {
    if chunks == [] || chunks[0].ChunkError? then []
    else chunks[0].data + PartBytes(chunks[1..])
  }

  /** The ordered concatenation of every part's delivered bytes. */
  function Received(parts: seq<Response>): seq<byte> {
    if parts == [] then []
    else
      (match parts[0] case SendFailed => [] case Streamed(cs) => PartBytes(cs)) + Received(parts[1..])
  }

  predicate AllSent(parts: seq<Response>) {
    forall i :: 0 <= i < |parts| ==> parts[i].Streamed?
  }

  /** The file after appending one part's chunks, and whether a write failed. */
  datatype Written = Written(file: seq<byte>, writeFailed: bool)

  /** Appends one part's chunks to `file` on a volume of the given capacity. */
  function AppendPart(file: seq<byte>, chunks: seq<ChunkResult>, capacity: nat): (w: Written)
    requires |file| <= capacity
    ensures w.writeFailed <==> |file| + |PartBytes(chunks)| > capacity
    ensures !w.writeFailed ==> w.file == file + PartBytes(chunks)
    ensures w.writeFailed ==> |w.file| <= |file| + |PartBytes(chunks)| && w.file == (file + PartBytes(chunks))[..|w.file|]
    ensures |file| <= |w.file| <= capacity
    decreases |chunks|
  {
    if chunks == [] || chunks[0].ChunkError? then Written(file, false)
    else if |file| + |chunks[0].data| > capacity then Written(file, true)
    else
      var w := AppendPart(file + chunks[0].data, chunks[1..], capacity);
      assert file + PartBytes(chunks) == (file + chunks[0].data) + PartBytes(chunks[1..]);
      w
  }

  /** The file, the number of requests sent, and the failure of appending parts in order. */
  datatype Fetched = Fetched(file: seq<byte>, sent: nat, failure: Option<DownloadError>)

  /** The `for url in &self.iso` loop, starting from `file`. */
  function AppendParts(file: seq<byte>, urls: seq<string>, parts: seq<Response>, capacity: nat): (f: Fetched)
    requires |urls| == |parts| && |file| <= capacity
    ensures f.sent <= |parts| && |file| <= |f.file| <= capacity
    ensures f.failure.None? ==> f.sent == |parts| && AllSent(parts) && f.file == file + Received(parts)
    ensures f.failure.Some? ==> 1 <= f.sent && AllSent(parts[..f.sent - 1])
    ensures f.failure.Some? && f.failure.value.RequestSend? ==>
              parts[f.sent - 1].SendFailed? && f.failure.value.url == urls[f.sent - 1]
    ensures f.failure.Some? ==> f.failure.value.RequestSend? || f.failure.value.FileWrite?
    decreases |parts|
  {
    if parts == [] then Fetched(file, 0, None)
    else match parts[0]
      case SendFailed => Fetched(file, 1, Some(RequestSend(urls[0])))
      case Streamed(chunks) =>
        var w := AppendPart(file, chunks, capacity);
        if w.writeFailed then Fetched(w.file, 1, Some(FileWrite))
        else
          var rest := AppendParts(w.file, urls[1..], parts[1..], capacity);
          assert Received(parts) == PartBytes(chunks) + Received(parts[1..]);
          assert rest.failure.Some? ==> AllSent(parts[..rest.sent]) by {
            if rest.failure.Some? {
              forall i | 0 <= i < rest.sent ensures parts[..rest.sent][i].Streamed? {
                if i > 0 { assert parts[..rest.sent][i] == parts[1..][..rest.sent - 1][i - 1]; }
              }
            }
          }
          Fetched(rest.file, rest.sent + 1, rest.failure)
  }

  /** The outcome of one whole `download_iso` call. `file` is what `download.iso` holds
      afterwards, `sent` the number of requests sent. */
  datatype Download = Download(result: Result<seq<byte>, DownloadError>, file: seq<byte>, sent: nat)

  /** What `download_iso` does for the distro `d` when the URLs answer `parts`, the zip step
      answers `zip`, and the volume is `writable` and holds `capacity` bytes. The earlier
      contents of `download.iso` are not an argument: they cannot influence the outcome. */
  function DownloadOutcome(d: Distro, parts: seq<Response>, zip: ZipOutcome, writable: bool, capacity: nat): (o: Download)
    requires |parts| == |d.iso|
    ensures o.sent <= |parts|
    ensures o.result == Err(FileOpen) <==> !writable
    ensures o.result.Ok? ==> writable && AllSent(parts) && o.sent == |parts| && o.result.value == o.file
    ensures o.result.Err? && o.result.error.RequestSend? ==>
              1 <= o.sent && parts[o.sent - 1].SendFailed? && o.result.error.url == d.iso[o.sent - 1]
    ensures o.result == Err(Decompress) ==> d.isoCompression.Some? && AllSent(parts) && o.sent == |parts|
  {
    if !writable then Download(Err(FileOpen), [], 0)
    else
      var f := AppendParts([], d.iso, parts, capacity);
      if f.failure.Some? then Download(Err(f.failure.value), f.file, f.sent)
      else match d.isoCompression
        case None => Download(Ok(f.file), f.file, f.sent)
        case Some(Zip) =>
          match zip
          case UnzipFailed => Download(Err(Decompress), f.file, f.sent)
          case Unzipped(content) => Download(Ok(content), content, f.sent)
  }

  // ---------------------------------------------------------------------------
  // The download loop
  // ---------------------------------------------------------------------------

  /** `Distro::download_iso`: remove `download.iso`, reopen it for appending, append every
      part in URL order, optionally decompress, and hand back the file's contents (the
      fresh read-only handle). Also returns how many requests were sent. */
  method DownloadIso(d: Distro, vol: Volume, parts: seq<Response>, zip: ZipOutcome)
    returns (r: Result<seq<byte>, DownloadError>, sent: nat)
    requires |parts| == |d.iso|
    modifies vol
    ensures var o := DownloadOutcome(d, parts, zip, vol.writable, vol.capacity);
      r == o.result && vol.iso == o.file && sent == o.sent
    ensures vol.isoExists == vol.writable
  {
    vol.RemoveIso();
    var isOpen := vol.OpenAppend();
    if !isOpen {
      return Err(FileOpen), 0;
    }
    ghost var whole := AppendParts([], d.iso, parts, vol.capacity);
    var i := 0;
    sent := 0;
    while i < |d.iso|
      invariant 0 <= i <= |d.iso| && sent == i && vol.isoExists && |vol.iso| <= vol.capacity
      invariant whole == Shift(AppendParts(vol.iso, d.iso[i..], parts[i..], vol.capacity), i)
    {
      sent := sent + 1;
      AppendPartsUnfold(vol.iso, d.iso[i..], parts[i..], vol.capacity);
      assert parts[i..][0] == parts[i] && parts[i..][1..] == parts[i + 1..];
      assert d.iso[i..][0] == d.iso[i] && d.iso[i..][1..] == d.iso[i + 1..];
      if parts[i].SendFailed? {
        return Err(RequestSend(d.iso[i])), sent;
      }
      var ok := AppendChunks(vol, parts[i].chunks);
      if !ok {
        return Err(FileWrite), sent;
      }
      i := i + 1;
    }
    if d.isoCompression.Some? {
      var ok := vol.Decompress(zip);
      if !ok {
        return Err(Decompress), sent;
      }
    }
    r := Ok(vol.iso);
  }

  /** `fetched` with `n` more requests counted in front of it. */
  function Shift(fetched: Fetched, n: nat): Fetched {
    fetched.(sent := fetched.sent + n)
  }

  /** One turn of the part loop, as `AppendParts` states it. */
  lemma AppendPartsUnfold(file: seq<byte>, urls: seq<string>, parts: seq<Response>, capacity: nat)
    requires |urls| == |parts| && |file| <= capacity && parts != []
    ensures parts[0].SendFailed? ==> AppendParts(file, urls, parts, capacity) == Fetched(file, 1, Some(RequestSend(urls[0])))
    ensures parts[0].Streamed? ==>
      var w := AppendPart(file, parts[0].chunks, capacity);
      AppendParts(file, urls, parts, capacity) ==
        if w.writeFailed then Fetched(w.file, 1, Some(FileWrite))
        else Shift(AppendParts(w.file, urls[1..], parts[1..], capacity), 1)
  {
  }

  /** The inner `while let Some(Ok(data)) = request.next().await` loop: appends the part's
      chunks up to the first chunk error, and stops with `false` when a write fails. */
  method AppendChunks(vol: Volume, chunks: seq<ChunkResult>) returns (ok: bool)
    requires |vol.iso| <= vol.capacity
    modifies vol
    ensures var w := AppendPart(old(vol.iso), chunks, vol.capacity);
      vol.iso == w.file && ok == !w.writeFailed
    ensures vol.isoExists == old(vol.isoExists)
  {
    var j := 0;
    while j < |chunks| && chunks[j].Chunk?
      invariant 0 <= j <= |chunks| && vol.isoExists == old(vol.isoExists) && |vol.iso| <= vol.capacity
      invariant AppendPart(old(vol.iso), chunks, vol.capacity) == AppendPart(vol.iso, chunks[j..], vol.capacity)
    {
      assert chunks[j..][1..] == chunks[j + 1..];
      ok := vol.Append(chunks[j].data);
      if !ok {
        return;
      }
      j := j + 1;
    }
    ok := true;
  }

  // ---------------------------------------------------------------------------
  // Properties of the download
  // ---------------------------------------------------------------------------

  /** A chunk error ends its part without an error: nothing after it is delivered. */
  lemma {:induction false} ChunkErrorEndsPart(before: seq<ChunkResult>, after: seq<ChunkResult>)
    ensures PartBytes(before + [ChunkError] + after) == PartBytes(before)
    decreases |before|
  {
    if before == [] {
      assert (before + [ChunkError] + after)[0] == ChunkError;
    } else {
      assert (before + [ChunkError] + after)[1..] == before[1..] + [ChunkError] + after;
      if before[0].Chunk? {
        ChunkErrorEndsPart(before[1..], after);
      }
    }
  }

  /** With every request sent and no write failing, the download (without compression)
      succeeds, and the file and the returned contents are exactly the in-order
      concatenation of the bytes every part delivered — whatever the file held before. */
  lemma DownloadIsConcatenation(d: Distro, parts: seq<Response>, zip: ZipOutcome, capacity: nat)
    requires |parts| == |d.iso| && d.isoCompression.None?
    requires AllSent(parts) && |Received(parts)| <= capacity
    ensures DownloadOutcome(d, parts, zip, true, capacity) == Download(Ok(Received(parts)), Received(parts), |parts|)
  {
    AllSentFits([], d.iso, parts, capacity);
    assert [] + Received(parts) == Received(parts);
  }

  lemma {:induction false} AllSentFits(file: seq<byte>, urls: seq<string>, parts: seq<Response>, capacity: nat)
    requires |urls| == |parts| && AllSent(parts) && |file| + |Received(parts)| <= capacity
    ensures AppendParts(file, urls, parts, capacity).failure.None?
    decreases |parts|
  {
    if parts != [] {
      var w := AppendPart(file, parts[0].chunks, capacity);
      assert Received(parts) == PartBytes(parts[0].chunks) + Received(parts[1..]);
      assert AllSent(parts[1..]) by {
        forall i | 0 <= i < |parts[1..]| ensures parts[1..][i].Streamed? { assert parts[1..][i] == parts[i + 1]; }
      }
      AllSentFits(w.file, urls[1..], parts[1..], capacity);
    }
  }

  /** When the delivered bytes do not fit, the download fails with a write error. */
  lemma {:induction false} OverflowIsWriteFailure(file: seq<byte>, urls: seq<string>, parts: seq<Response>, capacity: nat)
    requires |urls| == |parts| && |file| <= capacity && AllSent(parts) && |file| + |Received(parts)| > capacity
    ensures AppendParts(file, urls, parts, capacity).failure == Some(FileWrite)
    decreases |parts|
  {
    assert parts != [];
    var w := AppendPart(file, parts[0].chunks, capacity);
    assert Received(parts) == PartBytes(parts[0].chunks) + Received(parts[1..]);
    if !w.writeFailed {
      assert AllSent(parts[1..]) by {
        forall i | 0 <= i < |parts[1..]| ensures parts[1..][i].Streamed? { assert parts[1..][i] == parts[i + 1]; }
      }
      OverflowIsWriteFailure(w.file, urls[1..], parts[1..], capacity);
    }
  }

  /** A failed send aborts the download with that URL's error, and no later URL is
      requested: at most `k + 1` requests go out when request `k` fails. */
  lemma {:induction false} SendFailureStopsDownload(file: seq<byte>, urls: seq<string>, parts: seq<Response>, capacity: nat, k: nat)
    requires |urls| == |parts| && |file| <= capacity && k < |parts| && parts[k].SendFailed?
    ensures var f := AppendParts(file, urls, parts, capacity);
      f.sent <= k + 1 && f.failure.Some? &&
      (f.sent == k + 1 ==> f.failure == Some(RequestSend(urls[k])))
    decreases k
  {
    if k > 0 && parts[0].Streamed? {
      var w := AppendPart(file, parts[0].chunks, capacity);
      if !w.writeFailed {
        assert parts[1..][k - 1] == parts[k] && urls[1..][k - 1] == urls[k];
        SendFailureStopsDownload(w.file, urls[1..], parts[1..], capacity, k - 1);
      }
    }
  }

  /** A write failure comes from the last part requested, which answered with a stream:
      the parts before it all fitted on the volume, and that part's bytes did not. */
  lemma {:induction false} WriteFailureStopsDownload(file: seq<byte>, urls: seq<string>, parts: seq<Response>, capacity: nat)
    requires |urls| == |parts| && |file| <= capacity
    ensures var f := AppendParts(file, urls, parts, capacity);
      f.failure == Some(FileWrite) ==>
        parts[f.sent - 1].Streamed? &&
        |file| + |Received(parts[..f.sent - 1])| <= capacity <
          |file| + |Received(parts[..f.sent - 1])| + |PartBytes(parts[f.sent - 1].chunks)|
    decreases |parts|
  {
    if parts != [] && parts[0].Streamed? {
      var w := AppendPart(file, parts[0].chunks, capacity);
      if w.writeFailed {
        assert parts[..0] == [];
      } else {
        var rest := AppendParts(w.file, urls[1..], parts[1..], capacity);
        WriteFailureStopsDownload(w.file, urls[1..], parts[1..], capacity);
        if rest.failure == Some(FileWrite) {
          var n := rest.sent;
          assert parts[..n][0] == parts[0] && parts[..n][1..] == parts[1..][..n - 1];
          assert parts[n] == parts[1..][n - 1];
          assert Received(parts[..n]) == PartBytes(parts[0].chunks) + Received(parts[1..][..n - 1]);
        }
      }
    }
  }

  /** Without compression a successful download returns what `download.iso` holds. */
  lemma UncompressedReturnsFile(d: Distro, parts: seq<Response>, zip: ZipOutcome, writable: bool, capacity: nat)
    requires |parts| == |d.iso| && d.isoCompression.None?
    ensures var o := DownloadOutcome(d, parts, zip, writable, capacity);
      o.result.Ok? ==> o.result.value == o.file && o.file == Received(parts) && writable
  {
  }
}
