/**
 * The subtitle tool `get_subtitles(url)`: derive a video id from a YouTube
 * URL, fetch the transcript for that id, join its caption fragments in order
 * and report the text, or an error when there is none, as a tagged result.
 *
 * The transcript fetch is a network call; here it is the parameter `fetch`,
 * a function from video id to what the transcript service answers.
 */
module YoutubeScriptTool {
  import opened PyStr

  /** The short-link form `https://youtu.be/<id>`. */
  const ShortLinkPrefix := "https://youtu.be/"

  const NoSubtitlesMessage := "No subtitles found"

  /** What `get_subtitles` returns: `{"status": "success", "subtitles": ...}` or `{"status": "error", "message": ...}`. */
  datatype SubtitleResult = Success(subtitles: string) | Error(message: string)

  /** What the transcript service answers for one video id: the caption texts in order, or an exception. */
  datatype Fetched = Transcript(texts: seq<string>) | FetchFailed(reason: string)

  /** How a call of `get_subtitles` ends: it returns a result, or the fetch's exception escapes it. */
  datatype Call = Returned(result: SubtitleResult) | Raised(reason: string)

  // ---------------------------------------------------------------------------
  // Video id extraction

  /**
   * `url.split("/")[-1]` for a short link, otherwise
   * `url.split("v=")[-1].split("&")[0]`.
   */
  function VideoId(url: string): string
  {
    if StartsWith(url, ShortLinkPrefix) then Last(Split(url, "/"))
    else Split(Last(Split(url, "v=")), "&")[0]
  }

  lemma SeparatorsDoNotOverlap()
    ensures NonSelfOverlapping("/") && NonSelfOverlapping("&") && NonSelfOverlapping("v=")
  {
    assert "v="[1..] == "=";
    assert "v="[..1] == "v";
  }

  /**
   * A short link yields exactly the text after the last `/` of the URL; that
   * `/` is at the end of the prefix or later, so the id lies within what
   * follows the prefix, and it holds no `/`.
   */
  lemma ShortLinkId(url: string)
    requires StartsWith(url, ShortLinkPrefix)
    ensures RFind(url, "/").Some?
    ensures |ShortLinkPrefix| - 1 <= RFind(url, "/").value
    ensures VideoId(url) == url[RFind(url, "/").value + 1..]
    ensures !Contains(VideoId(url), "/")
  {
    SeparatorsDoNotOverlap();
    assert OccursAt(url, "/", |ShortLinkPrefix| - 1) by {
      assert url[16..17] == url[..17][16..17] == "/";
    }
    RFindIsLast(url, "/");
    SplitLastIsAfterLast(url, "/");
    SplitPartsAvoidSeparator(url, "/");
  }

  /**
   * Any other URL yields the text after its last `v=` (all of it when there
   * is none), cut before the first `&` that follows; the id holds no `&`.
   */
  lemma LongLinkId(url: string)
    requires !StartsWith(url, ShortLinkPrefix)
    ensures VideoId(url) == BeforeFirst(AfterLast(url, "v="), "&")
    ensures !Contains(VideoId(url), "&")
  {
    SeparatorsDoNotOverlap();
    SplitLastIsAfterLast(url, "v=");
    var tail := AfterLast(url, "v=");
    SplitFirstIsBeforeFirst(tail, "&");
    SplitPartsAvoidSeparator(tail, "&");
  }

  /**
   * The same, taken apart: when the URL holds `v=`, its last one is followed
   * by the id and then by `&` or the end of the URL.
   */
  lemma LongLinkIdInPlace(url: string, j: nat)
    requires !StartsWith(url, ShortLinkPrefix)
    requires RFind(url, "v=") == Some(j)
    ensures var id := VideoId(url);
      && j + 2 + |id| <= |url|
      && url[j..j + 2] == "v="
      && url[j + 2..j + 2 + |id|] == id
      && (j + 2 + |id| == |url| || url[j + 2 + |id|] == '&')
      && !Contains(id, "&")
  {
    LongLinkId(url);
    var tail := url[j + 2..];
    assert AfterLast(url, "v=") == tail;
    var id := VideoId(url);
    match Find(tail, "&")
    case None =>
    case Some(a) =>
      assert id == tail[..a];
      assert tail[a..a + 1] == "&";
      assert url[j + 2 + a] == tail[a];
  }

  /**
   * A URL that is no short link and holds no `v=` yields its text up to the
   * first `&`, or the whole URL when it has no `&`.
   */
  lemma NoMarkerId(url: string)
    requires !StartsWith(url, ShortLinkPrefix)
    requires !Contains(url, "v=")
    ensures VideoId(url) == BeforeFirst(url, "&")
    ensures Find(url, "&").Some? ==> VideoId(url) == url[..Find(url, "&").value]
    ensures !Contains(url, "&") ==> VideoId(url) == url
  {
    LongLinkId(url);
    RFindIsLast(url, "v=");
    FindIsFirst(url, "&");
  }

  /** The id never holds the separator that ended it. */
  lemma IdHasNoSeparator(url: string)
    ensures StartsWith(url, ShortLinkPrefix) ==> !Contains(VideoId(url), "/")
    ensures !StartsWith(url, ShortLinkPrefix) ==> !Contains(VideoId(url), "&")
  {
    if StartsWith(url, ShortLinkPrefix) {
      ShortLinkId(url);
    } else {
      LongLinkId(url);
    }
  }

  /** A short link that ends in `/<id>`, with no `/` in `id`, yields `id`. */
  lemma ShortLinkEndingIn(url: string, pre: string, id: string)
    requires StartsWith(url, ShortLinkPrefix)
    requires url == pre + "/" + id && '/' !in id
    ensures VideoId(url) == id
  {
    SeparatorsDoNotOverlap();
    MissingCharMeansAbsent(id, "/", 0);
    SplitLastIsAfterLast(url, "/");
    AfterLastOfJoin(pre, "/", id);
  }

  /**
   * Any other URL that ends in `v=<id>`, with no `v=` and no `&` in `id`,
   * yields `id`.
   */
  lemma WatchLinkEndingIn(url: string, pre: string, id: string)
    requires !StartsWith(url, ShortLinkPrefix)
    requires url == pre + "v=" + id && !Contains(id, "v=") && '&' !in id
    ensures VideoId(url) == id
  {
    SeparatorsDoNotOverlap();
    AfterLastOfJoin(pre, "v=", id);
    MissingCharMeansAbsent(id, "&", 0);
    FindIsFirst(id, "&");
    LongLinkId(url);
  }

  /**
   * Any other URL that ends in `v=<id>&<more>`, with no `&` in `id` and no
   * `v=` after the `v=`, yields `id`.
   */
  lemma WatchLinkWithMoreParameters(url: string, pre: string, id: string, more: string)
    requires !StartsWith(url, ShortLinkPrefix)
    requires url == pre + "v=" + (id + "&" + more)
    requires !Contains(id + "&" + more, "v=") && '&' !in id
    ensures VideoId(url) == id
  {
    SeparatorsDoNotOverlap();
    AfterLastOfJoin(pre, "v=", id + "&" + more);
    MissingCharMeansAbsent(id, "&", 0);
    BeforeFirstOfJoin(id, "&", more);
    LongLinkId(url);
  }

  // ---------------------------------------------------------------------------
  // Caption concatenation and the tagged result

  /** The caption texts joined in order, as `result += snippet.text` builds them. */
  function Concat(texts: seq<string>): string
  {
    if texts == [] then "" else Concat(texts[..|texts| - 1]) + texts[|texts| - 1]
  }

  /** The sum of the lengths of the caption texts. */
  function TotalLength(texts: seq<string>): nat
  {
    if texts == [] then 0 else |texts[0]| + TotalLength(texts[1..])
  }

  /** Joining two runs of captions is joining each and putting them side by side. */
  lemma {:induction false} ConcatAppend(a: seq<string>, b: seq<string>)
    ensures Concat(a + b) == Concat(a) + Concat(b)
    decreases |b|
  {
    if b != [] {
      var b' := b[..|b| - 1];
      assert (a + b)[..|a + b| - 1] == a + b';
      ConcatAppend(a, b');
    } else {
      assert a + b == a;
    }
  }

  /** Every caption appears in the joined text, in its place: after all earlier ones and before all later ones. */
  lemma ConcatInOrder(texts: seq<string>, i: nat)
    requires i < |texts|
    ensures Concat(texts) == Concat(texts[..i]) + texts[i] + Concat(texts[i + 1..])
  {
    var front, back := texts[..i + 1], texts[i + 1..];
    assert texts == front + back;
    ConcatAppend(front, back);
    assert front[..i] == texts[..i];
  }

  /** The joined text is as long as all the captions together. */
  lemma {:induction false} ConcatLength(texts: seq<string>)
    ensures |Concat(texts)| == TotalLength(texts)
    decreases |texts|
  {
    if texts != [] {
      ConcatInOrder(texts, 0);
      assert texts[..0] == [];
      ConcatLength(texts[1..]);
    }
  }

  /** The joined text is empty exactly when every caption is empty. */
  lemma {:induction false} ConcatEmptyIff(texts: seq<string>)
    ensures Concat(texts) == "" <==> forall i :: 0 <= i < |texts| ==> texts[i] == ""
    decreases |texts|
  {
    if texts != [] {
      var init := texts[..|texts| - 1];
      ConcatEmptyIff(init);
      assert forall i :: 0 <= i < |init| ==> init[i] == texts[i];
    }
  }

  /** The closing `if not result` of `get_subtitles`: an empty join is the error "No subtitles found", any other is a success carrying it. */
  function ResultFor(joined: string): (r: SubtitleResult)
    ensures r.Error? <==> joined == ""
    ensures r.Error? ==> r.message == NoSubtitlesMessage
    ensures r.Success? ==> r.subtitles == joined && r.subtitles != ""
  {
    if joined == "" then Error(NoSubtitlesMessage) else Success(joined)
  }

  /**
   * For a fetched transcript: the result is the error exactly when every
   * caption is empty, and otherwise a success whose text is all the captions
   * in order, as long as they are together.
   */
  lemma TranscriptResult(texts: seq<string>)
    ensures ResultFor(Concat(texts)).Error? <==> forall i :: 0 <= i < |texts| ==> texts[i] == ""
    ensures ResultFor(Concat(texts)).Success? ==>
      |ResultFor(Concat(texts)).subtitles| == TotalLength(texts) > 0
  {
    ConcatEmptyIff(texts);
    ConcatLength(texts);
  }

  /** The result as the Python dictionary it is returned as. */
  function AsDict(r: SubtitleResult): (m: map<string, string>)
    ensures "status" in m
    ensures m["status"] == "success" <==> r.Success?
    ensures m["status"] == "error" <==> r.Error?
    ensures r.Success? ==> m.Keys == {"status", "subtitles"} && m["subtitles"] == r.subtitles
    ensures r.Error? ==> m.Keys == {"status", "message"} && m["message"] == r.message
  {
    match r
    case Success(text) => map["status" := "success", "subtitles" := text]
    case Error(msg) => map["status" := "error", "message" := msg]
  }

  /** No two results are returned as the same dictionary. */
  lemma AsDictInjective(a: SubtitleResult, b: SubtitleResult)
    requires AsDict(a) == AsDict(b)
    ensures a == b
  {
  }

  /**
   * The `for snippet in fetched_transcript` loop of `get_subtitles`, which
   * appends each caption text, and its closing `if not result` branch.
   */
  method AssembleTranscript(texts: seq<string>) returns (r: SubtitleResult)
    ensures r == ResultFor(Concat(texts))
  {
    var result := "";
    for i := 0 to |texts|
      invariant result == Concat(texts[..i])
    {
      assert texts[..i + 1][..i] == texts[..i];
      result := result + texts[i];
    }
    assert texts[..|texts|] == texts;
    if result == "" {
      return Error(NoSubtitlesMessage);
    }
    return Success(result);
  }

  /**
   * `get_subtitles(url)`: fetch the transcript of the id the URL names. An
   * exception from the fetch escapes; otherwise the captions are joined and
   * reported.
   */
  method GetSubtitles(url: string, fetch: string -> Fetched) returns (c: Call)
    ensures fetch(VideoId(url)).FetchFailed? ==> c == Raised(fetch(VideoId(url)).reason)
    ensures fetch(VideoId(url)).Transcript? ==>
      c == Returned(ResultFor(Concat(fetch(VideoId(url)).texts)))
  {
    var vidId := VideoId(url);
    var fetched := fetch(vidId);
    match fetched
    case FetchFailed(reason) =>
      return Raised(reason);
    case Transcript(texts) =>
      var r := AssembleTranscript(texts);
      return Returned(r);
  }

  /** Whatever it returns carries status "success" or "error", and nothing else. */
  lemma StatusIsSuccessOrError(r: SubtitleResult)
    ensures AsDict(r)["status"] in {"success", "error"}
  {
  }

  // ---------------------------------------------------------------------------
  // Concrete URLs

  /** The short link of the module's demo. */
  lemma ExampleShortLink(url: string)
    requires url == "https://youtu.be/eC8mZceIy5k"
    ensures VideoId(url) == "eC8mZceIy5k"
  {
    var pre, id := "https://youtu.be", "eC8mZceIy5k";
    assert StartsWith(url, ShortLinkPrefix);
    assert url == pre + "/" + id && '/' !in id;
    ShortLinkEndingIn(url, pre, id);
  }

  /** The watch link of the docstring. */
  lemma ExampleWatchLink(url: string)
    requires url == "https://www.youtube.com/watch?v=CKS1glzmDVc"
    ensures VideoId(url) == "CKS1glzmDVc"
  {
    var pre, id := "https://www.youtube.com/watch?", "CKS1glzmDVc";
    assert !StartsWith(url, ShortLinkPrefix) by {
      assert url[8] != ShortLinkPrefix[8];
    }
    assert url == pre + "v=" + id;
    assert 'v' !in id && '&' !in id;
    MissingCharMeansAbsent(id, "v=", 0);
    WatchLinkEndingIn(url, pre, id);
  }

  /** A watch-link id may itself contain `v`: only a later `v=` would move its start. */
  lemma ExampleWatchLinkIdWithV(url: string)
    requires url == "https://www.youtube.com/watch?v=abvcd"
    ensures VideoId(url) == "abvcd"
  {
    var pre, id := "https://www.youtube.com/watch?", "abvcd";
    assert !StartsWith(url, ShortLinkPrefix) by {
      assert url[8] != ShortLinkPrefix[8];
    }
    assert url == pre + "v=" + id;
    assert '=' !in id && '&' !in id;
    MissingCharMeansAbsent(id, "v=", 1);
    WatchLinkEndingIn(url, pre, id);
  }

  /** A watch link with a further query parameter after the id gives the same id as the short link. */
  lemma ExampleWatchLinkWithTime(url: string)
    requires url == "https://www.youtube.com/watch?v=eC8mZceIy5k&t=5"
    ensures VideoId(url) == "eC8mZceIy5k"
  {
    var pre, id, more := "https://www.youtube.com/watch?", "eC8mZceIy5k", "t=5";
    assert !StartsWith(url, ShortLinkPrefix) by {
      assert url[8] != ShortLinkPrefix[8];
    }
    assert url == pre + "v=" + (id + "&" + more);
    assert 'v' !in id + "&" + more && '&' !in id;
    MissingCharMeansAbsent(id + "&" + more, "v=", 0);
    WatchLinkWithMoreParameters(url, pre, id, more);
  }

  /** A short link keeps its query string: only `/` ends the id there. */
  lemma ExampleShortLinkKeepsQuery(url: string)
    requires url == "https://youtu.be/eC8mZceIy5k?si=x"
    ensures VideoId(url) == "eC8mZceIy5k?si=x"
  {
    var pre, id := "https://youtu.be", "eC8mZceIy5k?si=x";
    assert StartsWith(url, ShortLinkPrefix);
    assert url == pre + "/" + id && '/' !in id;
    ShortLinkEndingIn(url, pre, id);
  }
}
