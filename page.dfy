/** The client page's file queue: the files the user selected, a loading flag per file,
    the converted results, a `converting` flag, and the object URLs the page has created
    and not yet revoked. Object URLs are modelled as tokens handed out by a counter; the
    conversion request is an oracle from (file, format, quality) to the response body,
    or None for a non-ok response or a network error. */
module Page {
  import opened Common
  import Route

  /** An object URL; `URL.createObjectURL` hands out the next unused one. */
  type Url = nat

  /** A file as the drop zone delivers it. */
  datatype DroppedFile = DroppedFile(name: string, mime: string, bytes: seq<byte>)

  /** A queued file and the preview URL attached to it, if it is an image. */
  datatype Selected = Selected(file: DroppedFile, preview: Option<Url>)

  /** One converted result, as `convertFile` builds it. */
  datatype ConvertedFile = ConvertedFile(
    originalName: string, convertedName: string, blob: seq<byte>, url: Url,
    format: string, size: nat, originalSize: nat)

  /** The `fetch('/api/convert')` round trip: the body of an ok response, or None. */
  type Server = (DroppedFile, string, int) -> Option<seq<byte>>

  predicate IsImage(f: DroppedFile)
  {
    StartsWith(f.mime, "image/")
  }

  /** `${name.split('.')[0]}.${format}`: the display name of a converted file, a
      dot-free prefix of the original name, then a dot and the format. */
  function ConvertedName(name: string, format: string): (r: string)
    ensures |r| > |format| && r[|r| - |format| - 1..] == "." + format
    ensures StartsWith(name, r[..|r| - |format| - 1])
    ensures '.' !in r[..|r| - |format| - 1]
  {
    var stem := Split(name, '.')[0];
    SplitFirstIsPrefix(name, '.');
    assert (stem + "." + format)[..|stem|] == stem;
    assert (stem + "." + format)[|stem|..] == "." + format;
    stem + "." + format
  }

  /** The name keeps only what precedes its first dot, then the chosen format. */
  lemma ConvertedNameKeepsStem(stem: string, rest: string, format: string)
    requires '.' !in stem
    ensures ConvertedName(stem + "." + rest, format) == stem + "." + format
  {
    SplitFirstPiece(stem, '.', rest);
  }

  /** A name without a dot is kept whole. */
  lemma ConvertedNameWithoutDot(name: string, format: string)
    requires '.' !in name
    ensures ConvertedName(name, format) == name + "." + format
  {
    SplitWithoutSeparator(name, '.');
  }

  function CountImages(accepted: seq<DroppedFile>): nat
  {
    if accepted == [] then 0
    else (if IsImage(accepted[0]) then 1 else 0) + CountImages(accepted[1..])
  }

  /** What `onDrop` appends: the accepted files in order, each image with a preview URL
      minted in turn starting from `next`. */
  function WithPreviews(accepted: seq<DroppedFile>, next: Url): (r: seq<Selected>)
    ensures |r| == |accepted|
  {
    if accepted == [] then []
    else if IsImage(accepted[0]) then
      [Selected(accepted[0], Some(next))] + WithPreviews(accepted[1..], next + 1)
    else
      [Selected(accepted[0], None)] + WithPreviews(accepted[1..], next)
  }

  /** `onDrop` keeps the dropped files and their order, and attaches a preview exactly to
      the files whose MIME type starts with `image/`. */
  lemma {:induction false} WithPreviewsKeepsFiles(accepted: seq<DroppedFile>, next: Url)
    ensures var r := WithPreviews(accepted, next);
      && |r| == |accepted|
      && forall i :: 0 <= i < |r| ==>
           r[i].file == accepted[i] && (r[i].preview.Some? <==> IsImage(accepted[i]))
    decreases |accepted|
  {
    if accepted != [] {
      WithPreviewsKeepsFiles(accepted[1..], if IsImage(accepted[0]) then next + 1 else next);
    }
  }

  /** The preview URLs `onDrop` mints are fresh: all at least `next`, below the counter's
      new value, and increasing along the list, so no two files share one. */
  lemma {:induction false} WithPreviewsMintsFresh(accepted: seq<DroppedFile>, next: Url)
    ensures var r := WithPreviews(accepted, next);
      && |r| == |accepted|
      && (forall i :: 0 <= i < |r| && r[i].preview.Some? ==>
            next <= r[i].preview.value < next + CountImages(accepted))
      && (forall i, j :: 0 <= i < j < |r| && r[i].preview.Some? && r[j].preview.Some? ==>
            r[i].preview.value < r[j].preview.value)
    decreases |accepted|
  {
    if accepted != [] {
      var n' := if IsImage(accepted[0]) then next + 1 else next;
      WithPreviewsMintsFresh(accepted[1..], n');
      var r := WithPreviews(accepted, next);
      assert r[1..] == WithPreviews(accepted[1..], n');
    }
  }

  /** One step of `onDrop`'s map: the file at i, then the rest. */
  lemma WithPreviewsStep(accepted: seq<DroppedFile>, i: nat, next: Url)
    requires i < |accepted|
    ensures var img := IsImage(accepted[i]);
      && WithPreviews(accepted[i..], next) ==
           [Selected(accepted[i], if img then Some(next) else None)]
           + WithPreviews(accepted[i + 1..], if img then next + 1 else next)
      && CountImages(accepted[i..]) == (if img then 1 else 0) + CountImages(accepted[i + 1..])
  {
    assert accepted[i..][1..] == accepted[i + 1..];
  }

  /** The loop of `onDrop` advances by one file: the file, with its preview when it
      is an image, joins the finished prefix. */
  lemma PreviewLoopStep(accepted: seq<DroppedFile>, i: nat, added: seq<Selected>, start: Url, next: Url)
    requires i < |accepted|
    requires added + WithPreviews(accepted[i..], next) == WithPreviews(accepted, start)
    requires next + CountImages(accepted[i..]) == start + CountImages(accepted)
    ensures var img := IsImage(accepted[i]);
      var next' := if img then next + 1 else next;
      && (added + [Selected(accepted[i], if img then Some(next) else None)])
           + WithPreviews(accepted[i + 1..], next') == WithPreviews(accepted, start)
      && next' + CountImages(accepted[i + 1..]) == start + CountImages(accepted)
  {
    WithPreviewsStep(accepted, i, next);
    var img := IsImage(accepted[i]);
    var next' := if img then next + 1 else next;
    var s := Selected(accepted[i], if img then Some(next) else None);
    assert (added + [s]) + WithPreviews(accepted[i + 1..], next')
        == added + ([s] + WithPreviews(accepted[i + 1..], next'));
  }

  /** One `convertFile` outcome: None when the request fails; otherwise the result,
      named after the original, holding the new object URL. */
  function Attempt(f: DroppedFile, format: string, quality: int, server: Server, url: Url): (r: Option<ConvertedFile>)
    ensures r.Some? <==> server(f, format, quality).Some?
    ensures r.Some? ==>
              && Some(r.value.blob) == server(f, format, quality)
              && r.value.url == url && r.value.format == format
              && r.value.originalName == f.name
              && r.value.size == |r.value.blob| && r.value.originalSize == |f.bytes|
  {
    match server(f, format, quality)
    case None => None
    case Some(blob) =>
      Some(ConvertedFile(f.name, ConvertedName(f.name, format), blob, url, format, |blob|, |f.bytes|))
  }

  /** What `convertAllFiles` stores: the successful conversions, in file order, each
      holding the next object URL. */
  function ConvertAll(fs: seq<Selected>, format: string, quality: int, server: Server, next: Url): (r: seq<ConvertedFile>)
    ensures |r| <= |fs|
  {
    if fs == [] then []
    else
      match Attempt(fs[0].file, format, quality, server, next)
      case Some(c) => [c] + ConvertAll(fs[1..], format, quality, server, next + 1)
      case None => ConvertAll(fs[1..], format, quality, server, next)
  }

  /** The loop of `convertAllFiles` advances by one file: its result, when there is
      one, joins the results so far. */
  lemma ConvertLoopStep(fs: seq<Selected>, i: nat, format: string, quality: int, server: Server,
                        results: seq<ConvertedFile>, start: Url, next: Url)
    requires i < |fs|
    requires results + ConvertAll(fs[i..], format, quality, server, next)
             == ConvertAll(fs, format, quality, server, start)
    ensures var a := Attempt(fs[i].file, format, quality, server, next);
      var results' := if a.Some? then results + [a.value] else results;
      var next' := if a.Some? then next + 1 else next;
      results' + ConvertAll(fs[i + 1..], format, quality, server, next')
      == ConvertAll(fs, format, quality, server, start)
  {
    assert fs[i..][1..] == fs[i + 1..];
    var a := Attempt(fs[i].file, format, quality, server, next);
    if a.Some? {
      var rest := ConvertAll(fs[i + 1..], format, quality, server, next + 1);
      assert (results + [a.value]) + rest == results + ([a.value] + rest);
    }
  }

  /** The k-th result holds the k-th URL handed out during the run. */
  lemma {:induction false} ConvertAllUrls(fs: seq<Selected>, format: string, quality: int, server: Server, next: Url)
    ensures var r := ConvertAll(fs, format, quality, server, next);
      |r| <= |fs| && forall k :: 0 <= k < |r| ==> r[k].url == next + k
    decreases |fs|
  {
    if fs != [] {
      var ok := Attempt(fs[0].file, format, quality, server, next).Some?;
      ConvertAllUrls(fs[1..], format, quality, server, if ok then next + 1 else next);
    }
  }

  /** Strictly increasing indices below a bound. */
  ghost predicate Increasing(idx: seq<nat>, bound: nat)
  {
    && (forall k :: 0 <= k < |idx| ==> idx[k] < bound)
    && (forall k, l :: 0 <= k < l < |idx| ==> idx[k] < idx[l])
  }

  /** idx lists where each of r's entries came from: the k-th entry is the conversion of
      file idx[k] holding URL next + k, the indices increase, and every file whose request
      succeeded is listed. */
  ghost predicate Origins(fs: seq<Selected>, format: string, quality: int, server: Server, next: Url,
                          r: seq<ConvertedFile>, idx: seq<nat>)
  {
    && |idx| == |r|
    && Increasing(idx, |fs|)
    && (forall k :: 0 <= k < |idx| ==>
          idx[k] < |fs| && Attempt(fs[idx[k]].file, format, quality, server, next + k) == Some(r[k]))
    && (forall i :: 0 <= i < |fs| && server(fs[i].file, format, quality).Some? ==> i in idx)
  }

  function Shift(idx: seq<nat>): (r: seq<nat>)
    ensures |r| == |idx| && forall k :: 0 <= k < |idx| ==> r[k] == idx[k] + 1
  {
    seq(|idx|, k requires 0 <= k < |idx| => idx[k] + 1)
  }

  /** Shifting increasing indices by one keeps them increasing, with or without a 0 in front. */
  lemma ShiftIncreasing(tail: seq<nat>, bound: nat)
    requires Increasing(tail, bound)
    ensures Increasing(Shift(tail), bound + 1)
    ensures Increasing([0] + Shift(tail), bound + 1)
  {
    var idx := [0] + Shift(tail);
    forall k, l | 0 <= k < l < |idx|
      ensures idx[k] < idx[l]
    {
      if k > 0 {
        assert idx[k] == tail[k - 1] + 1 && idx[l] == tail[l - 1] + 1;
      }
    }
  }

  /** Every index listed in tail is listed, one higher, after shifting. */
  lemma ShiftListed(tail: seq<nat>, i: nat)
    requires i in tail
    ensures i + 1 in Shift(tail) && i + 1 in [0] + Shift(tail)
  {
    var k :| 0 <= k < |tail| && tail[k] == i;
    assert Shift(tail)[k] == i + 1;
    assert ([0] + Shift(tail))[k + 1] == i + 1;
  }

  /** The first file's request succeeded: its result heads the list. */
  lemma OriginsKeep(fs: seq<Selected>, format: string, quality: int, server: Server, next: Url, tail: seq<nat>)
    requires fs != [] && Attempt(fs[0].file, format, quality, server, next).Some?
    requires Origins(fs[1..], format, quality, server, next + 1,
                     ConvertAll(fs[1..], format, quality, server, next + 1), tail)
    ensures Origins(fs, format, quality, server, next, ConvertAll(fs, format, quality, server, next),
                    [0] + Shift(tail))
  {
    ShiftIncreasing(tail, |fs| - 1);
    var first := Attempt(fs[0].file, format, quality, server, next).value;
    var rt := ConvertAll(fs[1..], format, quality, server, next + 1);
    assert ConvertAll(fs, format, quality, server, next) == [first] + rt;
    KeepEntries(fs, format, quality, server, next, tail, first, rt);
    forall i | 1 <= i < |fs| && server(fs[i].file, format, quality).Some?
      ensures i in [0] + Shift(tail)
    {
      assert fs[1..][i - 1] == fs[i];
      ShiftListed(tail, i - 1);
    }
  }

  /** The entries half of OriginsKeep: entry k > 0 is entry k - 1 of the rest's list. */
  lemma KeepEntries(fs: seq<Selected>, format: string, quality: int, server: Server, next: Url,
                    tail: seq<nat>, first: ConvertedFile, rt: seq<ConvertedFile>)
    requires fs != [] && Attempt(fs[0].file, format, quality, server, next) == Some(first)
    requires |tail| == |rt|
    requires forall k :: 0 <= k < |tail| ==>
               tail[k] < |fs| - 1 && Attempt(fs[1..][tail[k]].file, format, quality, server, next + 1 + k) == Some(rt[k])
    ensures var r := [first] + rt;
      var idx := [0] + Shift(tail);
      && |idx| == |r|
      && forall k :: 0 <= k < |idx| ==>
           idx[k] < |fs| && Attempt(fs[idx[k]].file, format, quality, server, next + k) == Some(r[k])
  {
    var r := [first] + rt;
    var idx := [0] + Shift(tail);
    forall k | 0 <= k < |idx|
      ensures idx[k] < |fs| && Attempt(fs[idx[k]].file, format, quality, server, next + k) == Some(r[k])
    {
      if k > 0 {
        assert idx[k] == tail[k - 1] + 1 && r[k] == rt[k - 1];
        assert fs[idx[k]] == fs[1..][tail[k - 1]];
      }
    }
  }


  /** The first file's request failed: the list is the rest's. */
  lemma OriginsSkip(fs: seq<Selected>, format: string, quality: int, server: Server, next: Url, tail: seq<nat>)
    requires fs != [] && Attempt(fs[0].file, format, quality, server, next).None?
    requires Origins(fs[1..], format, quality, server, next,
                     ConvertAll(fs[1..], format, quality, server, next), tail)
    ensures Origins(fs, format, quality, server, next, ConvertAll(fs, format, quality, server, next),
                    Shift(tail))
  {
    var r := ConvertAll(fs, format, quality, server, next);
    var idx := Shift(tail);
    assert r == ConvertAll(fs[1..], format, quality, server, next);
    ShiftIncreasing(tail, |fs| - 1);
    SkipEntries(fs, format, quality, server, next, tail, r);
    forall i | 0 <= i < |fs| && server(fs[i].file, format, quality).Some?
      ensures i in idx
    {
      assert i != 0;
      assert fs[1..][i - 1] == fs[i];
      ShiftListed(tail, i - 1);
    }
  }

  /** The entries half of OriginsSkip: each listed index moves up by one. */
  lemma SkipEntries(fs: seq<Selected>, format: string, quality: int, server: Server, next: Url,
                    tail: seq<nat>, r: seq<ConvertedFile>)
    requires fs != []
    requires |tail| == |r|
    requires forall k :: 0 <= k < |tail| ==>
               tail[k] < |fs| - 1 && Attempt(fs[1..][tail[k]].file, format, quality, server, next + k) == Some(r[k])
    ensures forall k :: 0 <= k < |tail| ==>
              Shift(tail)[k] < |fs| && Attempt(fs[Shift(tail)[k]].file, format, quality, server, next + k) == Some(r[k])
  {
    forall k | 0 <= k < |tail|
      ensures Shift(tail)[k] < |fs| && Attempt(fs[Shift(tail)[k]].file, format, quality, server, next + k) == Some(r[k])
    {
      assert fs[Shift(tail)[k]] == fs[1..][tail[k]];
    }
  }


  /** `convertAllFiles` keeps exactly the non-null results, in order, each from its file. */
  lemma {:induction false} ConvertAllOrigins(fs: seq<Selected>, format: string, quality: int, server: Server, next: Url)
    returns (idx: seq<nat>)
    ensures Origins(fs, format, quality, server, next, ConvertAll(fs, format, quality, server, next), idx)
    decreases |fs|
  {
    if fs == [] {
      idx := [];
    } else if Attempt(fs[0].file, format, quality, server, next).Some? {
      var tail := ConvertAllOrigins(fs[1..], format, quality, server, next + 1);
      OriginsKeep(fs, format, quality, server, next, tail);
      idx := [0] + Shift(tail);
    } else {
      var tail := ConvertAllOrigins(fs[1..], format, quality, server, next);
      OriginsSkip(fs, format, quality, server, next, tail);
      idx := Shift(tail);
    }
  }

  /** The URLs handed out while the counter went from lo to hi. */
  function Span(lo: Url, hi: Url): (r: set<Url>)
    ensures forall u :: u in r <==> lo <= u < hi
    decreases hi - lo
  {
    if lo >= hi then {} else {lo} + Span(lo + 1, hi)
  }

  lemma SpanGrows(lo: Url, hi: Url)
    requires lo <= hi
    ensures Span(lo, hi + 1) == Span(lo, hi) + {hi}
  {
  }

  /** The object URLs held by the previews of these files. */
  function PreviewUrls(fs: seq<Selected>): set<Url>
  {
    set f | f in fs && f.preview.Some? :: f.preview.value
  }

  /** The object URLs held by these converted results. */
  function ResultUrls(cs: seq<ConvertedFile>): set<Url>
  {
    set c | c in cs :: c.url
  }

  /** No object URL is held twice: not by two previews, not by two results, and not by a
      preview and a result. */
  ghost predicate UrlsDistinct(fs: seq<Selected>, cs: seq<ConvertedFile>)
  {
    && (forall i, j :: 0 <= i < j < |fs| && fs[i].preview.Some? && fs[j].preview.Some? ==>
          fs[i].preview.value != fs[j].preview.value)
    && (forall k, l :: 0 <= k < l < |cs| ==> cs[k].url != cs[l].url)
    && (forall i, k :: 0 <= i < |fs| && 0 <= k < |cs| && fs[i].preview.Some? ==>
          fs[i].preview.value != cs[k].url)
  }

  /** Every URL the page holds is live and held once, and every live URL was handed
      out before `next`. */
  ghost predicate UrlsHeld(fs: seq<Selected>, cs: seq<ConvertedFile>, live: set<Url>, next: Url)
  {
    && (forall u :: u in live ==> u < next)
    && (forall i :: 0 <= i < |fs| && fs[i].preview.Some? ==> fs[i].preview.value in live)
    && (forall k :: 0 <= k < |cs| ==> cs[k].url in live)
    && UrlsDistinct(fs, cs)
  }

  /** Dropping files keeps the URL invariant: the new previews are live, fresh and
      distinct. */
  lemma DropKeepsUrlsHeld(fs: seq<Selected>, cs: seq<ConvertedFile>, live: set<Url>, next: Url,
                          accepted: seq<DroppedFile>)
    requires UrlsHeld(fs, cs, live, next)
    ensures var next' := next + CountImages(accepted);
      UrlsHeld(fs + WithPreviews(accepted, next), cs, live + Span(next, next'), next')
  {
    var added := WithPreviews(accepted, next);
    var next' := next + CountImages(accepted);
    WithPreviewsMintsFresh(accepted, next);
    DistinctAfterAppend(fs, cs, added, next);
    var all := fs + added;
    forall i | 0 <= i < |all| && all[i].preview.Some?
      ensures all[i].preview.value in live + Span(next, next')
    {
      if i >= |fs| {
        assert all[i] == added[i - |fs|];
      }
    }
  }

  class HomePage {
    var files: seq<Selected>
    var converting: bool
    var convertedFiles: seq<ConvertedFile>
    var format: string
    var quality: int
    var loadingItems: seq<bool>
    /** Object URLs created and not yet revoked. */
    var live: set<Url>
    /** The URL the next `URL.createObjectURL` returns. */
    var nextUrl: Url

    /** The page between handlers: one idle loading flag per file, every URL the page
        holds is live and held once, and every live URL was handed out already. */
    ghost predicate Valid()
      reads this
    {
      && |loadingItems| == |files|
      && (forall i :: 0 <= i < |loadingItems| ==> !loadingItems[i])
      && UrlsHeld(files, convertedFiles, live, nextUrl)
    }

    constructor ()
      ensures Valid()
      ensures files == [] && convertedFiles == [] && loadingItems == [] && !converting
      ensures format == "jpg" && quality == 90
      ensures live == {}
    {
      files := [];
      converting := false;
      convertedFiles := [];
      format := "jpg";
      quality := 90;
      loadingItems := [];
      live := {};
      nextUrl := 0;
    }

    /** `URL.createObjectURL`: the next unused URL, which becomes live. */
    method CreateObjectUrl() returns (u: Url)
      modifies this`nextUrl, this`live
      ensures u == old(nextUrl) && nextUrl == u + 1
      ensures live == old(live) + {u}
    {
      u := nextUrl;
      nextUrl := nextUrl + 1;
      live := live + {u};
    }

    /** `URL.revokeObjectURL`. */
    method RevokeObjectUrl(u: Url)
      modifies this`live
      ensures live == old(live) - {u}
    {
      live := live - {u};
    }

    method SetFormat(f: string)
      modifies this`format
      ensures format == f
    {
      format := f;
    }

    method SetQuality(q: int)
      modifies this`quality
      ensures quality == q
    {
      quality := q;
    }

    /** The effect that runs whenever `files` changes: one idle flag per file. */
    method ResetLoading()
      modifies this`loadingItems
      ensures |loadingItems| == |files|
      ensures forall i :: 0 <= i < |loadingItems| ==> !loadingItems[i]
    {
      loadingItems := seq(|files|, _ => false);
    }

    /** The `acceptedFiles.map(...)` inside `onDrop`: give each image a preview URL. */
    method AttachPreviews(accepted: seq<DroppedFile>) returns (added: seq<Selected>)
      modifies this`nextUrl, this`live
      ensures added == WithPreviews(accepted, old(nextUrl))
      ensures nextUrl == old(nextUrl) + CountImages(accepted)
      ensures live == old(live) + Span(old(nextUrl), nextUrl)
    {
      added := [];
      var i := 0;
      while i < |accepted|
        invariant 0 <= i <= |accepted|
        invariant added + WithPreviews(accepted[i..], nextUrl) == WithPreviews(accepted, old(nextUrl))
        invariant nextUrl + CountImages(accepted[i..]) == old(nextUrl) + CountImages(accepted)
        invariant old(nextUrl) <= nextUrl
        invariant live == old(live) + Span(old(nextUrl), nextUrl)
      {
        PreviewLoopStep(accepted, i, added, old(nextUrl), nextUrl);
        SpanGrows(old(nextUrl), nextUrl);
        var s := AttachPreview(accepted[i]);
        added := added + [s];
        i := i + 1;
      }
      assert accepted[i..] == [];
    }

    /** The body of the `map` in `onDrop`: a preview URL for an image, none otherwise. */
    method AttachPreview(f: DroppedFile) returns (s: Selected)
      modifies this`nextUrl, this`live
      ensures s == Selected(f, if IsImage(f) then Some(old(nextUrl)) else None)
      ensures nextUrl == old(nextUrl) + (if IsImage(f) then 1 else 0)
      ensures live == if IsImage(f) then old(live) + {old(nextUrl)} else old(live)
    {
      if IsImage(f) {
        var u := CreateObjectUrl();
        s := Selected(f, Some(u));
      } else {
        s := Selected(f, None);
      }
    }

    /** `onDrop`: append the accepted files, with previews for images. */
    method OnDrop(accepted: seq<DroppedFile>)
      requires Valid()
      modifies this
      ensures Valid()
      ensures files == old(files) + WithPreviews(accepted, old(nextUrl))
      ensures nextUrl == old(nextUrl) + CountImages(accepted)
      ensures live == old(live) + Span(old(nextUrl), nextUrl)
      ensures convertedFiles == old(convertedFiles) && converting == old(converting)
      ensures format == old(format) && quality == old(quality)
    {
      var added := AttachPreviews(accepted);
      DropKeepsUrlsHeld(files, convertedFiles, old(live), old(nextUrl), accepted);
      files := files + added;
      ResetLoading();
    }

    /** `removeFile(index)`: revoke the file's preview, if any, and splice it out. */
    method RemoveFile(index: nat)
      requires Valid()
      requires index < |files|
      modifies this
      ensures Valid()
      ensures files == old(files[..index] + files[index + 1..])
      ensures live == if old(files[index].preview).Some?
                      then old(live) - {old(files[index].preview.value)}
                      else old(live)
      ensures convertedFiles == old(convertedFiles) && nextUrl == old(nextUrl)
      ensures converting == old(converting) && format == old(format) && quality == old(quality)
    {
      var removed := files[index];
      if removed.preview.Some? {
        RevokeObjectUrl(removed.preview.value);
      }
      files := files[..index] + files[index + 1..];
      ResetLoading();
      DistinctAfterRemove(old(files), convertedFiles, index);
      forall i | 0 <= i < |files| && files[i].preview.Some?
        ensures files[i].preview.value in live
      {
        var j := if i < index then i else i + 1;
        assert files[i] == old(files)[j];
      }
    }

    /** The request itself, which is only sent while the file's flag is set. */
    method Send(file: DroppedFile, index: nat, server: Server) returns (reply: Option<seq<byte>>)
      requires index < |loadingItems| && loadingItems[index]
      ensures reply == server(file, format, quality)
    {
      reply := server(file, format, quality);
    }

    /** `convertFile(file, index)`: flag the file, send the request, build the result on
        success, and clear the flag whatever happened. */
    method ConvertFile(file: DroppedFile, index: nat, server: Server) returns (result: Option<ConvertedFile>)
      requires Valid()
      requires index < |files|
      modifies this
      ensures Valid()
      ensures result == Attempt(file, format, quality, server, old(nextUrl))
      ensures loadingItems == old(loadingItems)[index := false]
      ensures nextUrl == old(nextUrl) + (if result.Some? then 1 else 0)
      ensures live == old(live) + (if result.Some? then {old(nextUrl)} else {})
      ensures files == old(files) && convertedFiles == old(convertedFiles)
      ensures converting == old(converting) && format == old(format) && quality == old(quality)
    {
      loadingItems := loadingItems[index := true];
      var reply := Send(file, index, server);
      if reply.Some? {
        var url := CreateObjectUrl();
        var blob := reply.value;
        result := Some(ConvertedFile(file.name, ConvertedName(file.name, format), blob, url,
                                     format, |blob|, |file.bytes|));
      } else {
        result := None;
      }
      loadingItems := loadingItems[index := false];
    }

    /** One turn of the `convertAllFiles` loop: convert file i and keep its result if
        there is one. */
    method ConvertNext(i: nat, server: Server, results: seq<ConvertedFile>, ghost start: Url, ghost live0: set<Url>)
      returns (results': seq<ConvertedFile>)
      requires Valid()
      requires i < |files|
      requires results + ConvertAll(files[i..], format, quality, server, nextUrl)
               == ConvertAll(files, format, quality, server, start)
      requires nextUrl == start + |results|
      requires live == live0 + Span(start, nextUrl)
      modifies this
      ensures files == old(files) && loadingItems == old(loadingItems)
      ensures convertedFiles == old(convertedFiles) && converting == old(converting)
      ensures format == old(format) && quality == old(quality)
      ensures Valid()
      ensures results' + ConvertAll(files[i + 1..], format, quality, server, nextUrl)
              == ConvertAll(files, format, quality, server, start)
      ensures nextUrl == start + |results'|
      ensures live == live0 + Span(start, nextUrl)
    {
      ConvertLoopStep(files, i, format, quality, server, results, start, nextUrl);
      SpanGrows(start, nextUrl);
      var r := ConvertFile(files[i].file, i, server);
      results' := if r.Some? then results + [r.value] else results;
    }

    /** The `for` loop of `convertAllFiles`: convert each file in turn, awaiting each
        request, and collect the non-null results. */
    method ConvertEach(server: Server) returns (results: seq<ConvertedFile>)
      requires Valid()
      modifies this
      ensures Valid()
      ensures results == ConvertAll(files, format, quality, server, old(nextUrl))
      ensures nextUrl == old(nextUrl) + |results|
      ensures live == old(live) + Span(old(nextUrl), nextUrl)
      ensures files == old(files) && loadingItems == old(loadingItems)
      ensures convertedFiles == old(convertedFiles) && converting == old(converting)
      ensures format == old(format) && quality == old(quality)
    {
      results := [];
      for i := 0 to |files|
        invariant Valid()
        invariant files == old(files) && loadingItems == old(loadingItems)
        invariant convertedFiles == old(convertedFiles) && converting == old(converting)
        invariant format == old(format) && quality == old(quality)
        invariant results + ConvertAll(files[i..], format, quality, server, nextUrl)
               == ConvertAll(files, format, quality, server, old(nextUrl))
        invariant nextUrl == old(nextUrl) + |results|
        invariant live == old(live) + Span(old(nextUrl), nextUrl)
      {
        results := ConvertNext(i, server, results, old(nextUrl), old(live));
      }
      assert files[|files|..] == [];
    }

    /** `convertAllFiles`: nothing for an empty list; otherwise convert the files one at
        a time, in order, and keep the successes. */
    method ConvertAllFiles(server: Server)
      requires Valid()
      modifies this
      ensures Valid()
      ensures |old(files)| == 0 ==>
                convertedFiles == old(convertedFiles) && converting == old(converting)
                && live == old(live) && nextUrl == old(nextUrl)
      ensures |old(files)| > 0 ==>
                && convertedFiles == ConvertAll(old(files), format, quality, server, old(nextUrl))
                && !converting
                && nextUrl == old(nextUrl) + |convertedFiles|
                && live == old(live) + Span(old(nextUrl), nextUrl)
      ensures files == old(files) && loadingItems == old(loadingItems)
      ensures format == old(format) && quality == old(quality)
    {
      if |files| == 0 {
        return;
      }
      converting := true;
      var results := ConvertEach(server);
      ConvertAllUrls(files, format, quality, server, old(nextUrl));
      DistinctAfterConvertAll(files, convertedFiles, results, old(nextUrl));
      convertedFiles := results;
      converting := false;
    }

    /** `clearAllFiles`: revoke every preview and every result URL, then empty both lists. */
    method ClearAllFiles()
      requires Valid()
      modifies this
      ensures Valid()
      ensures files == [] && convertedFiles == [] && loadingItems == []
      ensures live == old(live) - PreviewUrls(old(files)) - ResultUrls(old(convertedFiles))
      ensures nextUrl == old(nextUrl) && converting == old(converting)
      ensures format == old(format) && quality == old(quality)
    {
      for i := 0 to |files|
        invariant files == old(files) && convertedFiles == old(convertedFiles)
        invariant loadingItems == old(loadingItems) && nextUrl == old(nextUrl)
        invariant converting == old(converting) && format == old(format) && quality == old(quality)
        invariant live == old(live) - PreviewUrls(files[..i])
      {
        assert files[..i + 1] == files[..i] + [files[i]];
        if files[i].preview.Some? {
          RevokeObjectUrl(files[i].preview.value);
        }
      }
      assert files[..|files|] == files;
      for k := 0 to |convertedFiles|
        invariant files == old(files) && convertedFiles == old(convertedFiles)
        invariant loadingItems == old(loadingItems) && nextUrl == old(nextUrl)
        invariant converting == old(converting) && format == old(format) && quality == old(quality)
        invariant live == old(live) - PreviewUrls(files) - ResultUrls(convertedFiles[..k])
      {
        assert convertedFiles[..k + 1] == convertedFiles[..k] + [convertedFiles[k]];
        RevokeObjectUrl(convertedFiles[k].url);
      }
      assert convertedFiles[..|convertedFiles|] == convertedFiles;
      files := [];
      convertedFiles := [];
      ResetLoading();
    }

    /** `clearConverted`: revoke every result URL and empty the results; the queue stays. */
    method ClearConverted()
      requires Valid()
      modifies this
      ensures Valid()
      ensures convertedFiles == []
      ensures live == old(live) - ResultUrls(old(convertedFiles))
      ensures files == old(files) && loadingItems == old(loadingItems)
      ensures nextUrl == old(nextUrl) && converting == old(converting)
      ensures format == old(format) && quality == old(quality)
    {
      for k := 0 to |convertedFiles|
        invariant files == old(files) && convertedFiles == old(convertedFiles)
        invariant loadingItems == old(loadingItems) && nextUrl == old(nextUrl)
        invariant converting == old(converting) && format == old(format) && quality == old(quality)
        invariant live == old(live) - ResultUrls(convertedFiles[..k])
      {
        assert convertedFiles[..k + 1] == convertedFiles[..k] + [convertedFiles[k]];
        RevokeObjectUrl(convertedFiles[k].url);
      }
      assert convertedFiles[..|convertedFiles|] == convertedFiles;
      PreviewsOutsideResults(files, convertedFiles);
      convertedFiles := [];
    }
  }

  /** Appending freshly minted previews keeps every URL held once. */
  lemma DistinctAfterAppend(fs: seq<Selected>, cs: seq<ConvertedFile>, added: seq<Selected>, next: Url)
    requires UrlsDistinct(fs, cs)
    requires forall i :: 0 <= i < |fs| && fs[i].preview.Some? ==> fs[i].preview.value < next
    requires forall k :: 0 <= k < |cs| ==> cs[k].url < next
    requires forall i :: 0 <= i < |added| && added[i].preview.Some? ==> next <= added[i].preview.value
    requires forall i, j :: 0 <= i < j < |added| && added[i].preview.Some? && added[j].preview.Some? ==>
               added[i].preview.value < added[j].preview.value
    ensures UrlsDistinct(fs + added, cs)
  {
    var all := fs + added;
    forall i, j | 0 <= i < j < |all| && all[i].preview.Some? && all[j].preview.Some?
      ensures all[i].preview.value != all[j].preview.value
    {
      if j >= |fs| && i >= |fs| {
        assert all[i] == added[i - |fs|] && all[j] == added[j - |fs|];
      } else if j >= |fs| {
        assert all[j] == added[j - |fs|];
      }
    }
    forall i, k | 0 <= i < |all| && 0 <= k < |cs| && all[i].preview.Some?
      ensures all[i].preview.value != cs[k].url
    {
      if i >= |fs| {
        assert all[i] == added[i - |fs|];
      }
    }
  }

  /** Replacing the results by a run's results, whose URLs were all handed out during
      the run, keeps every URL held once. */
  lemma DistinctAfterConvertAll(fs: seq<Selected>, cs: seq<ConvertedFile>, results: seq<ConvertedFile>, next: Url)
    requires UrlsDistinct(fs, cs)
    requires forall i :: 0 <= i < |fs| && fs[i].preview.Some? ==> fs[i].preview.value < next
    requires forall k :: 0 <= k < |results| ==> results[k].url == next + k
    ensures UrlsDistinct(fs, results)
  {
  }

  /** Splicing one file out keeps every URL held once. */
  lemma DistinctAfterRemove(fs: seq<Selected>, cs: seq<ConvertedFile>, index: nat)
    requires UrlsDistinct(fs, cs)
    requires index < |fs|
    ensures UrlsDistinct(fs[..index] + fs[index + 1..], cs)
  {
    var rest := fs[..index] + fs[index + 1..];
    forall i | 0 <= i < |rest|
      ensures rest[i] == fs[if i < index then i else i + 1]
    {
    }
  }

  /** No preview URL is a result URL, so revoking the results leaves the previews live. */
  lemma PreviewsOutsideResults(fs: seq<Selected>, cs: seq<ConvertedFile>)
    requires UrlsDistinct(fs, cs)
    ensures forall i :: 0 <= i < |fs| && fs[i].preview.Some? ==> fs[i].preview.value !in ResultUrls(cs)
  {
  }

  /** The request `convertFile` sends, answered by the conversion endpoint itself with
      the given decoder and encoder: ok exactly when the endpoint answers 200. */
  function Serve(decode: Route.Codec, encode: Route.Codec): (server: Server)
    ensures forall f: DroppedFile, format: string, quality: int ::
              server(f, format, quality).Some? <==>
                Route.StatusOf(Route.Post(Route.Parsed(Route.Form(Route.Blob(f.name, f.bytes), Some(format), Some(quality))),
                                          decode, encode).response) == 200
  {
    (f: DroppedFile, format: string, quality: int) =>
      var x := Route.Post(Route.Parsed(Route.Form(Route.Blob(f.name, f.bytes), Some(format), Some(quality))),
                          decode, encode);
      if x.response.Success? then Some(x.response.body) else None
  }

  /** A non-HEIC file reaches the encoder on its own bytes, under the normalised key and
      the resolved quality (an empty format is `jpeg`, a zero quality is 90). */
  lemma ServeDirect(f: DroppedFile, format: string, quality: int, decode: Route.Codec, encode: Route.Codec)
    requires !Route.IsHeif(Route.Extension(f.name))
    ensures Serve(decode, encode)(f, format, quality) ==
              encode(f.bytes, Route.EncoderKey(Route.ResolveFormat(Some(format))),
                     Route.ResolveQuality(Some(quality)))
  {
    var request := Route.Parsed(Route.Form(Route.Blob(f.name, f.bytes), Some(format), Some(quality)));
    assert Route.Post(request, decode, encode) ==
             Route.ConvertDirect(f.bytes, Route.ResolveFormat(Some(format)), Route.ResolveQuality(Some(quality)), encode);
  }

  /** A HEIC or HEIF file is decoded first, and then its JPEG is encoded. */
  lemma ServeHeif(f: DroppedFile, format: string, quality: int, decode: Route.Codec, encode: Route.Codec)
    requires Route.IsHeif(Route.Extension(f.name))
    ensures Serve(decode, encode)(f, format, quality) ==
              match decode(f.bytes, "JPEG", 1)
              case None => None
              case Some(jpeg) =>
                encode(jpeg, Route.EncoderKey(Route.ResolveFormat(Some(format))), Route.ResolveQuality(Some(quality)))
  {
    var request := Route.Parsed(Route.Form(Route.Blob(f.name, f.bytes), Some(format), Some(quality)));
    assert Route.Post(request, decode, encode) ==
             Route.ConvertHeif(f.bytes, Route.ResolveFormat(Some(format)), Route.ResolveQuality(Some(quality)),
                               decode, encode);
  }
}
