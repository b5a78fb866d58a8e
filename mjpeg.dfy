// The motion-JPEG frame extractor of MJPEGStreamer: every network chunk is
// appended to a byte buffer, complete JPEG images are cut out of the buffer
// between a start-of-image and an end-of-image marker, and the buffer is
// dropped whenever it grows past a fixed ceiling.

module Mjpeg {
  import opened Wrappers
  import opened Bytes
  import Endpoints

  /** First byte of every JPEG marker (ITU-T T.81, section B.1.1.2). */
  const MARKER_PREFIX: Byte := 0xFF
  /** Second byte of the start-of-image marker SOI (ITU-T T.81, Table B.1). */
  const SOI: Byte := 0xD8
  /** Second byte of the end-of-image marker EOI (ITU-T T.81, Table B.1). */
  const EOI: Byte := 0xD9
  /** A buffer longer than this after extraction is emptied. */
  const MAX_BUFFER: nat := 5_000_000

  type Frame = seq<Byte>

  /** One frame cut from the buffer, with the bytes before its start marker that were removed with it. */
  datatype Piece = Piece(skipped: seq<Byte>, frame: Frame)

  /** The two-byte marker FF `code` begins at index `k` of `s`. */
  predicate MarkerAt(s: seq<Byte>, k: int, code: Byte)
  {
    0 <= k && k + 1 < |s| && s[k] == MARKER_PREFIX && s[k + 1] == code
  }

  /** `Data.range(of:)` for a marker: the first index at or after `from` where it begins. */
  function FindMarker(s: seq<Byte>, code: Byte, from: nat): (r: Option<nat>)
    decreases |s| - from
    ensures r.Some? ==> from <= r.value && MarkerAt(s, r.value, code)
  {
    if from + 1 >= |s| then None
    else if MarkerAt(s, from, code) then Some(from)
    else FindMarker(s, code, from + 1)
  }

  /** The search finds the first occurrence, and fails only when there is none. */
  lemma {:induction false} FindMarkerFirst(s: seq<Byte>, code: Byte, from: nat)
    decreases |s| - from
    ensures FindMarker(s, code, from).Some? ==>
      forall k :: from <= k < FindMarker(s, code, from).value ==> !MarkerAt(s, k, code)
    ensures FindMarker(s, code, from).None? ==> forall k :: from <= k ==> !MarkerAt(s, k, code)
  {
    if from + 1 < |s| && !MarkerAt(s, from, code) {
      FindMarkerFirst(s, code, from + 1);
    }
  }

  /** A marker with none before it (from `from` on) is what the search returns. */
  lemma FindMarkerIs(s: seq<Byte>, code: Byte, from: nat, i: nat)
    requires from <= i && MarkerAt(s, i, code)
    requires forall k :: from <= k < i ==> !MarkerAt(s, k, code)
    ensures FindMarker(s, code, from) == Some(i)
  {
    FindMarkerFirst(s, code, from);
  }

  /** With no marker from `from` on, the search fails. */
  lemma FindMarkerNone(s: seq<Byte>, code: Byte, from: nat)
    requires forall k :: from <= k ==> !MarkerAt(s, k, code)
    ensures FindMarker(s, code, from) == None
  {
  }

  /**
   * The byte range [start, end) of the first complete frame: the first start
   * marker, through the first end marker that begins after that start marker.
   */
  function NextFrame(s: seq<Byte>): (r: Option<(nat, nat)>)
    ensures r.Some? ==> r.value.0 + 4 <= r.value.1 <= |s|
  {
    match FindMarker(s, SOI, 0)
    case None => None
    case Some(i) =>
      match FindMarker(s, EOI, i + 2)
      case None => None
      case Some(j) => Some((i, j + 2))
  }

  /** A JPEG frame as the extractor cuts it: SOI first, EOI last, and no earlier EOI. */
  predicate IsFrame(f: Frame)
  {
    && |f| >= 4
    && MarkerAt(f, 0, SOI)
    && MarkerAt(f, |f| - 2, EOI)
    && forall k :: 0 <= k < |f| - 2 ==> !MarkerAt(f, k, EOI)
  }

  /** The frame is well formed and the bytes discarded before it hold no start marker. */
  predicate ValidPiece(p: Piece)
  {
    && IsFrame(p.frame)
    && forall k :: 0 <= k < |p.skipped| ==> !MarkerAt(p.skipped + p.frame, k, SOI)
  }

  /** The stream bytes that a list of pieces took out of the buffer, in order. */
  function Flatten(ps: seq<Piece>): seq<Byte>
  {
    if ps == [] then [] else ps[0].skipped + ps[0].frame + Flatten(ps[1..])
  }

  /** The frames of a list of pieces, in order. */
  function FramesOf(ps: seq<Piece>): seq<Frame>
  {
    if ps == [] then [] else FramesOf(ps[..|ps| - 1]) + [ps[|ps| - 1].frame]
  }

  /** The frames for which the image decoder succeeds, in order. */
  function Decodable(fs: seq<Frame>, decodes: Frame -> bool): seq<Frame>
  {
    if fs == [] then []
    else Decodable(fs[..|fs| - 1], decodes) + (if decodes(fs[|fs| - 1]) then [fs[|fs| - 1]] else [])
  }

  /** Appending a piece appends its frame. */
  lemma FramesOfSnoc(ps: seq<Piece>, p: Piece)
    ensures FramesOf(ps + [p]) == FramesOf(ps) + [p.frame]
  {
    assert (ps + [p])[..|ps|] == ps;
  }

  /** Appending a frame appends it to the decodable ones exactly when it decodes. */
  lemma DecodableSnoc(fs: seq<Frame>, f: Frame, decodes: Frame -> bool)
    ensures Decodable(fs + [f], decodes) == Decodable(fs, decodes) + (if decodes(f) then [f] else [])
  {
    assert (fs + [f])[..|fs|] == fs;
  }

  /** A marker inside a slice is the same marker in the whole sequence. */
  lemma MarkerInSlice(s: seq<Byte>, lo: nat, hi: nat, k: nat, code: Byte)
    requires lo <= hi <= |s| && lo + k + 1 < hi
    ensures MarkerAt(s[lo..hi], k, code) == MarkerAt(s, lo + k, code)
  {
  }

  /** From a start marker through the first end marker two or more bytes later is a frame. */
  lemma CutIsFrame(s: seq<Byte>, i: nat, j: nat)
    requires MarkerAt(s, i, SOI) && FindMarker(s, EOI, i + 2) == Some(j)
    ensures IsFrame(s[i..j + 2])
  {
    FindMarkerFirst(s, EOI, i + 2);
    var f := s[i..j + 2];
    MarkerInSlice(s, i, j + 2, 0, SOI);
    MarkerInSlice(s, i, j + 2, j - i, EOI);
    forall k | 0 <= k < |f| - 2 ensures !MarkerAt(f, k, EOI) {
      MarkerInSlice(s, i, j + 2, k, EOI);
      if k >= 2 {
        assert !MarkerAt(s, i + k, EOI);
      }
    }
  }

  /** The bytes before the first start marker, followed by anything cut after them, hold no start marker. */
  lemma SkippedHasNoStart(s: seq<Byte>, i: nat, e: nat)
    requires FindMarker(s, SOI, 0) == Some(i) && i <= e <= |s|
    ensures forall k :: 0 <= k < i ==> !MarkerAt(s[..i] + s[i..e], k, SOI)
  {
    FindMarkerFirst(s, SOI, 0);
    var g := s[..i] + s[i..e];
    assert g == s[0..e];
    forall k | 0 <= k < i ensures !MarkerAt(g, k, SOI) {
      if k + 1 < e {
        MarkerInSlice(s, 0, e, k, SOI);
      }
    }
  }

  /** The piece cut between the first start marker and the first end marker after it is well formed. */
  lemma NextPieceValid(s: seq<Byte>, i: nat, j: nat)
    requires FindMarker(s, SOI, 0) == Some(i) && FindMarker(s, EOI, i + 2) == Some(j)
    ensures ValidPiece(Piece(s[..i], s[i..j + 2]))
  {
    CutIsFrame(s, i, j);
    SkippedHasNoStart(s, i, j + 2);
  }

  /** Flattening distributes over a leading piece. */
  lemma FlattenCons(p: Piece, ps: seq<Piece>)
    ensures Flatten([p] + ps) == p.skipped + p.frame + Flatten(ps)
  {
    assert ([p] + ps)[1..] == ps;
  }

  /**
   * The extraction loop: take the first complete frame off the front of `s`
   * (with the bytes before it) until none is left. Returns the pieces taken
   * and what stays buffered.
   */
  function Extract(s: seq<Byte>): (r: (seq<Piece>, seq<Byte>))
    decreases |s|
  {
    match NextFrame(s)
    case None => ([], s)
    case Some((i, e)) =>
      var tail := Extract(s[e..]);
      ([Piece(s[..i], s[i..e])] + tail.0, tail.1)
  }

  /** `NextFrame` is the two searches of the loop body, one after the other. */
  lemma NextFrameIsSearches(s: seq<Byte>, i: nat, j: nat)
    ensures NextFrame(s) == Some((i, j + 2))
        <==> FindMarker(s, SOI, 0) == Some(i) && FindMarker(s, EOI, i + 2) == Some(j)
  {
  }

  /**
   * The next frame spans [i, e) exactly when `FF D8` begins at i with none
   * before it, and `FF D9` begins at e - 2, at least two bytes after i, with
   * none between the end of the start marker and it.
   */
  lemma NextFrameAt(s: seq<Byte>, i: nat, e: nat)
    ensures NextFrame(s) == Some((i, e))
        <==> && MarkerAt(s, i, SOI) && (forall k :: 0 <= k < i ==> !MarkerAt(s, k, SOI))
             && i + 2 <= e - 2 && MarkerAt(s, e - 2, EOI)
             && (forall k :: i + 2 <= k < e - 2 ==> !MarkerAt(s, k, EOI))
  {
    if NextFrame(s) == Some((i, e)) {
      FindMarkerFirst(s, SOI, 0);
      FindMarkerFirst(s, EOI, i + 2);
    }
    if && MarkerAt(s, i, SOI) && (forall k :: 0 <= k < i ==> !MarkerAt(s, k, SOI))
       && i + 2 <= e - 2 && MarkerAt(s, e - 2, EOI)
       && (forall k :: i + 2 <= k < e - 2 ==> !MarkerAt(s, k, EOI))
    {
      FindMarkerIs(s, SOI, 0, i);
      FindMarkerIs(s, EOI, i + 2, e - 2);
    }
  }

  /** No frame comes out exactly when no start marker has an end marker two or more bytes after it. */
  lemma NoNextFrameIff(s: seq<Byte>)
    ensures NextFrame(s).None?
        <==> forall i, j :: MarkerAt(s, i, SOI) && MarkerAt(s, j, EOI) ==> j < i + 2
  {
    FindMarkerFirst(s, SOI, 0);
    match FindMarker(s, SOI, 0)
    case None =>
    case Some(i0) =>
      FindMarkerFirst(s, EOI, i0 + 2);
      if FindMarker(s, EOI, i0 + 2).None? {
        forall i, j | MarkerAt(s, i, SOI) && MarkerAt(s, j, EOI) ensures j < i + 2 {
          assert i0 <= i;
        }
      }
  }

  /** One turn of the extraction loop. */
  lemma ExtractStep(s: seq<Byte>, i: nat, e: nat)
    requires NextFrame(s) == Some((i, e))
    ensures Extract(s) == ([Piece(s[..i], s[i..e])] + Extract(s[e..]).0, Extract(s[e..]).1)
  {
  }

  /** Appending one piece and then the rest is appending both at once. */
  lemma SnocThenAppend(taken: seq<Piece>, p: Piece, more: seq<Piece>)
    ensures (taken + [p]) + more == taken + ([p] + more)
  {
  }

  /** The frame loop's invariant survives taking one more piece. */
  lemma ExtractTakes(input: seq<Byte>, taken: seq<Piece>, s: seq<Byte>, i: nat, e: nat)
    requires Extract(input) == (taken + Extract(s).0, Extract(s).1)
    requires NextFrame(s) == Some((i, e))
    ensures Extract(input) == ((taken + [Piece(s[..i], s[i..e])]) + Extract(s[e..]).0, Extract(s[e..]).1)
  {
    ExtractStep(s, i, e);
    SnocThenAppend(taken, Piece(s[..i], s[i..e]), Extract(s[e..]).0);
  }

  /** `Ingest` is extraction over the appended buffer, then the ceiling. */
  lemma IngestFromDrain(buffer: seq<Byte>, chunk: seq<Byte>)
    ensures Ingest(buffer, chunk).0 == Extract(buffer + chunk).0
    ensures var rest := Extract(buffer + chunk).1;
      Ingest(buffer, chunk).1 == if |rest| > MAX_BUFFER then [] else rest
  {
  }

  /** Concatenation regroups. */
  lemma Regroup(a: seq<Byte>, b: seq<Byte>, c: seq<Byte>, d: seq<Byte>)
    ensures (a + b + c) + d == (a + b) + (c + d)
  {
  }

  /** A sequence is its three consecutive slices. */
  lemma SplitThree(s: seq<Byte>, i: nat, e: nat)
    requires i <= e <= |s|
    ensures (s[..i] + s[i..e]) + s[e..] == s
  {
  }

  /** Extraction loses, reorders and invents nothing: the pieces and the rest spell out the input. */
  lemma {:induction false} ExtractReassembles(s: seq<Byte>)
    decreases |s|
    ensures Flatten(Extract(s).0) + Extract(s).1 == s
  {
    if NextFrame(s).Some? {
      var (i, e) := NextFrame(s).value;
      var tail := Extract(s[e..]);
      var p := Piece(s[..i], s[i..e]);
      ExtractStep(s, i, e);
      FlattenCons(p, tail.0);
      ExtractReassembles(s[e..]);
      Regroup(s[..i], s[i..e], Flatten(tail.0), tail.1);
      SplitThree(s, i, e);
    }
  }

  /** Every piece extraction takes is a well-formed frame preceded by marker-free bytes. */
  lemma {:induction false} ExtractedPiecesValid(s: seq<Byte>)
    decreases |s|
    ensures forall i :: 0 <= i < |Extract(s).0| ==> ValidPiece(Extract(s).0[i])
  {
    if NextFrame(s).Some? {
      var (i, e) := NextFrame(s).value;
      NextFrameIsSearches(s, i, e - 2);
      NextPieceValid(s, i, e - 2);
      ExtractStep(s, i, e);
      ExtractedPiecesValid(s[e..]);
    }
  }

  /** What one chunk does to the buffer: extraction, then the size ceiling. */
  function Ingest(buffer: seq<Byte>, chunk: seq<Byte>): (r: (seq<Piece>, seq<Byte>))
    ensures |r.1| <= MAX_BUFFER
  {
    var (ps, rest) := Extract(buffer + chunk);
    (ps, if |rest| > MAX_BUFFER then [] else rest)
  }

  /** Unless the ceiling emptied the buffer, the pieces taken and the bytes kept spell out buffer and chunk. */
  lemma IngestReassembles(buffer: seq<Byte>, chunk: seq<Byte>)
    ensures var r := Ingest(buffer, chunk);
      r.1 == [] || Flatten(r.0) + r.1 == buffer + chunk
  {
    ExtractReassembles(buffer + chunk);
  }

  /** Extraction stops only when no complete frame is left. */
  lemma {:induction false} ExtractLeavesNoFrame(s: seq<Byte>)
    decreases |s|
    ensures NextFrame(Extract(s).1) == None
  {
    if NextFrame(s).Some? {
      var (i, e) := NextFrame(s).value;
      ExtractStep(s, i, e);
      ExtractLeavesNoFrame(s[e..]);
    }
  }

  /** After extraction, every end marker still buffered lies before every start marker. */
  lemma LeftoverHasNoCompleteFrame(s: seq<Byte>)
    ensures var rest := Extract(s).1;
      forall i, j :: MarkerAt(rest, i, SOI) && MarkerAt(rest, j, EOI) ==> j < i
  {
    var rest := Extract(s).1;
    ExtractLeavesNoFrame(s);
    FindMarkerFirst(rest, SOI, 0);
    forall i, j | MarkerAt(rest, i, SOI) && MarkerAt(rest, j, EOI) ensures j < i {
      var i0 := FindMarker(rest, SOI, 0).value;
      assert FindMarker(rest, EOI, i0 + 2).None?;
      FindMarkerFirst(rest, EOI, i0 + 2);
    }
  }

  /** A well-formed frame at the front of the buffer is the next frame, from byte 0. */
  lemma FrameComesFirst(f: Frame, t: seq<Byte>)
    requires IsFrame(f)
    ensures NextFrame(f + t) == Some((0, |f|))
  {
    var s := f + t;
    assert MarkerAt(s, 0, SOI);
    assert MarkerAt(s, |f| - 2, EOI);
    forall k | 2 <= k < |f| - 2 ensures !MarkerAt(s, k, EOI) {
      assert !MarkerAt(f, k, EOI);
    }
    FindMarkerIs(s, SOI, 0, 0);
    FindMarkerIs(s, EOI, 2, |f| - 2);
  }

  /** A well-formed frame at the front of the buffer is taken whole, with nothing skipped. */
  lemma ExtractFrameFirst(f: Frame, t: seq<Byte>)
    requires IsFrame(f)
    ensures Extract(f + t) == ([Piece([], f)] + Extract(t).0, Extract(t).1)
  {
    var s := f + t;
    FrameComesFirst(f, t);
    ExtractStep(s, 0, |f|);
    assert s[..0] == [] && s[0..|f|] == f && s[|f|..] == t;
  }

  /** Extraction on an empty buffer takes nothing. */
  lemma ExtractEmpty()
    ensures Extract([]) == ([], [])
  {
    assert NextFrame([]) == None;
  }

  /** Extraction of a lone well-formed frame yields exactly that frame and an empty buffer. */
  lemma SingleFrame(f: Frame)
    requires IsFrame(f)
    ensures Extract(f) == ([Piece([], f)], [])
  {
    ExtractFrameFirst(f, []);
    ExtractEmpty();
    assert f + [] == f;
    assert [Piece([], f)] + [] == [Piece([], f)];
  }

  /** Two back-to-back frames in one chunk on an empty buffer: both, in order, and nothing left. */
  lemma BackToBackFrames(f1: Frame, f2: Frame)
    requires IsFrame(f1) && IsFrame(f2)
    ensures Ingest([], f1 + f2) == ([Piece([], f1), Piece([], f2)], [])
  {
    IngestFromDrain([], f1 + f2);
    assert [] + (f1 + f2) == f1 + f2;
    TwoFrames(f1, f2);
  }

  /** Extraction of two well-formed frames, back to back. */
  lemma TwoFrames(f1: Frame, f2: Frame)
    requires IsFrame(f1) && IsFrame(f2)
    ensures Extract(f1 + f2) == ([Piece([], f1), Piece([], f2)], [])
  {
    ExtractFrameFirst(f1, f2);
    SingleFrame(f2);
    assert [Piece([], f1)] + [Piece([], f2)] == [Piece([], f1), Piece([], f2)];
  }

  /** Every proper prefix of a frame is kept whole, waiting for more bytes. */
  lemma PartialFrameWaits(f: Frame, k: nat)
    requires IsFrame(f) && k < |f|
    ensures Extract(f[..k]) == ([], f[..k])
  {
    var p := f[..k];
    var i := FindMarker(p, SOI, 0);
    if i.Some? {
      forall j | i.value + 2 <= j ensures !MarkerAt(p, j, EOI) {
        if j + 2 <= k {
          assert !MarkerAt(f, j, EOI);
        }
      }
      FindMarkerNone(p, EOI, i.value + 2);
    }
  }

  /**
   * A frame split across two chunks: the first chunk yields nothing and is kept,
   * the second completes the frame, which is then taken and the buffer emptied.
   */
  lemma FrameAcrossChunks(f: Frame, k: nat)
    requires IsFrame(f) && k < |f| <= MAX_BUFFER
    ensures Ingest([], f[..k]) == ([], f[..k])
    ensures Ingest(f[..k], f[k..]) == ([Piece([], f)], [])
  {
    assert [] + f[..k] == f[..k];
    PartialFrameWaits(f, k);
    assert f[..k] + f[k..] == f;
    SingleFrame(f);
  }

  /** A buffer past the ceiling with no start marker in it is dropped, and no frame comes out. */
  lemma GarbageIsDropped(buffer: seq<Byte>, chunk: seq<Byte>)
    requires |buffer + chunk| > MAX_BUFFER
    requires forall k :: !MarkerAt(buffer + chunk, k, SOI)
    ensures Ingest(buffer, chunk) == ([], [])
  {
    FindMarkerNone(buffer + chunk, SOI, 0);
    IngestFromDrain(buffer, chunk);
  }

  /** The image on screen after showing `shown` in order, starting from `image`. */
  function OnScreen(image: Option<Frame>, shown: seq<Frame>): Option<Frame>
  {
    if shown == [] then image else Some(shown[|shown| - 1])
  }

  /**
   * The frame loop of one chunk: take every complete frame from the front of
   * `buffer`, showing each that decodes. Returns the bytes left, the frames
   * shown in order and the image on screen afterwards.
   */
  method DrainFrames(buffer: seq<Byte>, image: Option<Frame>, decodes: Frame -> bool)
    returns (rest: seq<Byte>, shown: seq<Frame>, onScreen: Option<Frame>)
    ensures rest == Extract(buffer).1
    ensures shown == Decodable(FramesOf(Extract(buffer).0), decodes)
    ensures onScreen == OnScreen(image, shown)
  {
    rest, shown, onScreen := buffer, [], image;
    ghost var taken: seq<Piece> := [];
    assert taken + Extract(rest).0 == Extract(rest).0;
    while true
      invariant Extract(buffer) == (taken + Extract(rest).0, Extract(rest).1)
      invariant shown == Decodable(FramesOf(taken), decodes)
      invariant onScreen == OnScreen(image, shown)
      decreases |rest|
    {
      var next := NextFrame(rest);
      if next.None? {
        break;
      }
      var (start, end) := next.value;
      var frame := rest[start..end];
      if decodes(frame) {
        onScreen := Some(frame);
        shown := shown + [frame];
      }
      var piece := Piece(rest[..start], frame);
      ExtractTakes(buffer, taken, rest, start, end);
      FramesOfSnoc(taken, piece);
      DecodableSnoc(FramesOf(taken), frame, decodes);
      taken := taken + [piece];
      rest := rest[end..];
    }
    assert taken + [] == taken;
  }

  /**
   * The stream client. `uiImage` is the frame whose decoded image is on
   * screen; `receivedData` is the byte buffer; `isRunning` gates chunk handling.
   */
  class Streamer {
    var uiImage: Option<Frame>
    var receivedData: seq<Byte>
    var isRunning: bool

    /** The buffer never exceeds the ceiling between calls. */
    ghost predicate Valid()
      reads this
    {
      |receivedData| <= MAX_BUFFER
    }

    constructor ()
      ensures Valid()
      ensures uiImage == None && receivedData == [] && !isRunning
    {
      uiImage := None;
      receivedData := [];
      isRunning := false;
    }

    /**
     * Start streaming from `host`. Returns the request to open, or None when
     * already running or when the URL does not parse; either way the streamer
     * is running afterwards. `urlParses` stands for `URL(string:)`.
     */
    method Start(host: string, urlParses: string -> bool) returns (request: Option<Endpoints.Request>)
      requires Valid()
      modifies this
      ensures Valid() && isRunning
      ensures receivedData == old(receivedData) && uiImage == old(uiImage)
      ensures request == (if !old(isRunning) && urlParses(Endpoints.StreamUrl(host))
                          then Some(Endpoints.Request(Endpoints.StreamUrl(host), Some(Endpoints.HomeUrl(host))))
                          else None)
    {
      request := None;
      if isRunning {
        return;
      }
      isRunning := true;
      var url := Endpoints.StreamUrl(host);
      if !urlParses(url) {
        return;
      }
      request := Some(Endpoints.Request(url, Some(Endpoints.HomeUrl(host))));
    }

    /** Stop: chunk handling is switched off and the image cleared; the buffer is kept. */
    method Stop()
      requires Valid()
      modifies this
      ensures Valid() && !isRunning && uiImage == None
      ensures receivedData == old(receivedData)
    {
      isRunning := false;
      uiImage := None;
    }

    /**
     * Handle one network chunk. Returns the frames whose image was shown, in
     * order; `decodes` stands for `UIImage(data:)` succeeding on a frame.
     */
    method Feed(data: seq<Byte>, decodes: Frame -> bool) returns (shown: seq<Frame>)
      requires Valid()
      modifies this
      ensures Valid() && isRunning == old(isRunning)
      ensures !old(isRunning) ==>
        shown == [] && receivedData == old(receivedData) && uiImage == old(uiImage)
      ensures old(isRunning) ==>
        var r := Ingest(old(receivedData), data);
        && receivedData == r.1
        && shown == Decodable(FramesOf(r.0), decodes)
        && uiImage == OnScreen(old(uiImage), shown)
    {
      shown := [];
      if !isRunning {
        return;
      }
      var rest, image;
      rest, shown, image := DrainFrames(receivedData + data, uiImage, decodes);
      IngestFromDrain(receivedData, data);
      uiImage := image;
      receivedData := if |rest| > MAX_BUFFER then [] else rest;
    }
  }
}
