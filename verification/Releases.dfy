/** Releases found by a search, and the order in which they are preferred. */
module Releases {
  import opened Basics
  import Requests
  import Sorting

  datatype ContentType = Audiobook | Ebook

  /** What a Soulseek release says of the peer holding it. */
  datatype Peer = Peer(freeSlot: bool, queueLength: int, uploadSpeed: int)

  /** Formats, source names and peer names are held trimmed, formats in lower case. */
  datatype Release = Release(
    source: string,
    sourceId: string,
    format: string,
    m4bInTitle: bool,
    downloads: int,
    seeders: Option<int>,
    peer: Option<Peer>,
    peerName: string,
    sizeBytes: Option<int>,
    author: Option<string>)

  function KeyOf(r: Release): Requests.ReleaseKey {
    Requests.ReleaseKey(r.source, r.sourceId)
  }

  const AUDIOBOOK_FORMATS := {"m4b", "mp3", "m4a", "mp4", "flac", "ogg", "wma", "aac", "wav", "opus"}

  function AudiobookFormat(r: Release): string {
    if r.format !in AUDIOBOOK_FORMATS && r.m4bInTitle then "m4b" else r.format
  }

  function FormatRank(r: Release, content: ContentType): int {
    if content == Audiobook then
      var f := AudiobookFormat(r);
      if f == "m4b" then 4 else if f == "m4a" then 3 else if f == "mp3" then 2
      else if f in AUDIOBOOK_FORMATS then 1 else 0
    else
      var f := r.format;
      if f == "epub" then 4 else if f in {"kepub", "azw3"} then 3 else if f in {"mobi", "azw"} then 2
      else if f in {"fb2", "pdf"} then 1 else 0
  }

  /** Format, then what others chose, then how well the peer can serve it, then size. */
  function SortKey(r: Release, content: ContentType): (key: seq<int>)
    ensures |key| == 7
  {
    [FormatRank(r, content), r.downloads, if r.seeders.Some? then r.seeders.value else 0]
    + (if r.peer.None? then [0, 0, 0]
       else [if r.peer.value.freeSlot then 1 else 0, -r.peer.value.queueLength, r.peer.value.uploadSpeed])
    + [if r.sizeBytes.Some? then r.sizeBytes.value else 0]
  }

  /** Tuple comparison. */
  predicate LexLess(a: seq<int>, b: seq<int>)
    requires |a| == |b|
  {
    a != [] && (a[0] < b[0] || (a[0] == b[0] && LexLess(a[1..], b[1..])))
  }

  /** Sorting by key, best first. */
  function Better(content: ContentType): (Release, Release) -> bool {
    (a: Release, b: Release) => LexLess(SortKey(b, content), SortKey(a, content))
  }

  lemma {:induction false} LexIrreflexive(a: seq<int>)
    ensures !LexLess(a, a)
  {
    if a != [] {
      LexIrreflexive(a[1..]);
    }
  }

  lemma {:induction false} LexBetween(a: seq<int>, b: seq<int>, c: seq<int>)
    requires |a| == |b| == |c| && LexLess(a, c)
    ensures LexLess(a, b) || LexLess(b, c)
  {
    if a[0] == b[0] == c[0] {
      LexBetween(a[1..], b[1..], c[1..]);
    }
  }

  lemma {:induction false} LexAsymmetric(a: seq<int>, b: seq<int>)
    requires |a| == |b| && LexLess(a, b)
    ensures !LexLess(b, a)
  {
    if a[0] == b[0] {
      LexAsymmetric(a[1..], b[1..]);
    }
  }

  lemma BetterIsOrder(content: ContentType)
    ensures Sorting.StrictWeakOrder(Better(content))
  {
    hide SortKey, LexLess;
    var before := Better(content);
    forall x ensures !before(x, x) {
      LexIrreflexive(SortKey(x, content));
    }
    forall x, y, z | before(x, z) ensures before(x, y) || before(y, z) {
      LexBetween(SortKey(z, content), SortKey(y, content), SortKey(x, content));
    }
    forall x, y | before(x, y) ensures !before(y, x) {
      LexAsymmetric(SortKey(y, content), SortKey(x, content));
    }
  }

  // ----- What the order means -----

  const RECOGNISED_AUDIO := {"m4b", "m4a", "mp3", "mp4", "flac", "ogg", "wma", "aac", "wav", "opus"}

  /** An m4b by its format, or by its title when the format is none the program knows. */
  predicate CountsAsM4b(r: Release) {
    r.format == "m4b" || (r.m4bInTitle && r.format !in RECOGNISED_AUDIO)
  }

  predicate KnownAudio(r: Release) {
    r.format in RECOGNISED_AUDIO || CountsAsM4b(r)
  }

  /** Audiobooks: m4b before m4a before mp3 before the other formats it can process, those before the rest. */
  predicate AudioNoWorse(a: Release, b: Release) {
    && (CountsAsM4b(b) ==> CountsAsM4b(a))
    && (b.format == "m4a" ==> CountsAsM4b(a) || a.format == "m4a")
    && (b.format == "mp3" ==> CountsAsM4b(a) || a.format in {"m4a", "mp3"})
    && (KnownAudio(b) ==> KnownAudio(a))
  }

  /** Ebooks: epub before kepub and azw3, those before mobi and azw, those before fb2 and pdf, those before the rest. */
  predicate EbookNoWorse(a: Release, b: Release) {
    && (b.format == "epub" ==> a.format == "epub")
    && (b.format in {"kepub", "azw3"} ==> a.format in {"epub", "kepub", "azw3"})
    && (b.format in {"mobi", "azw"} ==> a.format in {"epub", "kepub", "azw3", "mobi", "azw"})
    && (b.format in {"fb2", "pdf"} ==> a.format in {"epub", "kepub", "azw3", "mobi", "azw", "fb2", "pdf"})
  }

  predicate FormatNoWorse(content: ContentType, a: Release, b: Release) {
    if content == Audiobook then AudioNoWorse(a, b) else EbookNoWorse(a, b)
  }

  function SeedersOf(r: Release): int {
    if r.seeders.Some? then r.seeders.value else 0
  }

  function SizeOf(r: Release): int {
    if r.sizeBytes.Some? then r.sizeBytes.value else 0
  }

  /** A peer that says nothing of itself counts as busy, without a queue and of no speed. */
  function PeerOf(r: Release): Peer {
    if r.peer.Some? then r.peer.value else Peer(false, 0, 0)
  }

  /** `a` may stand before `b`: the better format, then more downloads, more seeders, a free slot, a shorter
      queue, a faster peer, the larger size, each deciding only between releases the former leave even. */
  predicate NoWorse(content: ContentType, a: Release, b: Release) {
    var p, q := PeerOf(a), PeerOf(b);
    && FormatNoWorse(content, a, b)
    && (FormatNoWorse(content, b, a) ==>
      && a.downloads >= b.downloads
      && (a.downloads == b.downloads ==>
        && SeedersOf(a) >= SeedersOf(b)
        && (SeedersOf(a) == SeedersOf(b) ==>
          && (q.freeSlot ==> p.freeSlot)
          && (p.freeSlot == q.freeSlot ==>
            && p.queueLength <= q.queueLength
            && (p.queueLength == q.queueLength ==>
              && p.uploadSpeed >= q.uploadSpeed
              && (p.uploadSpeed == q.uploadSpeed ==> SizeOf(a) >= SizeOf(b)))))))
  }

  lemma FormatRankMeans(content: ContentType, a: Release, b: Release)
    ensures FormatRank(a, content) >= FormatRank(b, content) <==> FormatNoWorse(content, a, b)
  {
  }

  /** The order of the keys is exactly that. */
  lemma BetterMeans(content: ContentType, a: Release, b: Release)
    ensures !Better(content)(b, a) <==> NoWorse(content, a, b)
  {
    hide FormatRank, FormatNoWorse;
    FormatRankMeans(content, a, b);
    FormatRankMeans(content, b, a);
    LexSeven(SortKey(a, content), SortKey(b, content));
  }

  lemma LexSeven(a: seq<int>, b: seq<int>)
    requires |a| == |b| == 7
    ensures LexLess(a, b) <==>
      a[0] < b[0] || (a[0] == b[0] && (a[1] < b[1] || (a[1] == b[1] && (a[2] < b[2] || (a[2] == b[2] &&
        (a[3] < b[3] || (a[3] == b[3] && (a[4] < b[4] || (a[4] == b[4] && (a[5] < b[5] || (a[5] == b[5] &&
          a[6] < b[6])))))))))))
  {
    assert a[0..] == a && b[0..] == b;
    LexFrom(a, b, 0);
    LexFrom(a, b, 1);
    LexFrom(a, b, 2);
    LexFrom(a, b, 3);
    LexFrom(a, b, 4);
    LexFrom(a, b, 5);
    LexFrom(a, b, 6);
  }

  lemma LexFrom(a: seq<int>, b: seq<int>, k: nat)
    requires k < |a| == |b|
    ensures LexLess(a[k..], b[k..]) <==> a[k] < b[k] || (a[k] == b[k] && LexLess(a[k + 1..], b[k + 1..]))
  {
    assert a[k..][1..] == a[k + 1..] && b[k..][1..] == b[k + 1..];
  }
}
