# Subtitle fetch tool, modelled in Dafny

The repository builds content-writing agent pipelines on top of an agent
library. Its one piece of self-contained logic is the tool
`get_subtitles(url)`, which the YouTube script agents call. It does three
things:

1. It takes a video id from the URL. A short link `https://youtu.be/<id>` gives
   `url.split("/")[-1]`. Any other URL gives `url.split("v=")[-1].split("&")[0]`.
2. It fetches the transcript for that id, and appends the caption texts one by
   one into a single string.
3. It returns `{"status": "error", "message": "No subtitles found"}` when that
   string is empty. Otherwise it returns `{"status": "success", "subtitles": <text>}`.

The model has two modules:

- `PyStr` (pystr.dfy) gives Python's `str.startswith`, `find`, `rfind`,
  `split` (with a separator) and `join`, with Python's semantics. It proves how
  the first and last pieces of a split relate to the first and last occurrence
  of the separator.
- `YoutubeScriptTool` (youtube_script_tool.dfy) has the id extraction
  (`VideoId`), the concatenation loop (`AssembleTranscript`) and the whole tool
  (`GetSubtitles`). It also has the result dictionary (`AsDict`) and the
  lemmas about all of these.

The transcript fetch is a network call. In the model it is the parameter
`fetch` of `GetSubtitles`. `fetch` maps a video id to the caption texts in
order, or to the exception the service raised. The Python code does not catch
that exception, so the model passes it through as `Raised`.

Python's `split` with a separator of several characters scans from left to
right and never reuses characters, so occurrences never overlap. The text after
the last occurrence is the last piece only when the separator cannot
overlap itself: `"aaa".split("aa")` is `["", "a"]`. `SplitLastIsAfterLast`
therefore requires `NonSelfOverlapping`. `SeparatorsDoNotOverlap` shows that
`"/"`, `"&"` and `"v="` all meet that condition.

A short link keeps anything after the id that is not a `/`. So
`https://youtu.be/<id>?si=x` yields `<id>?si=x` (`ExampleShortLinkKeepsQuery`).
That is how the code is written, and the model follows it.

## Model

| member | source | states |
|---|---|---|
| PyStr.StartsWith | test/youtube_script_tool.py:17 | `url.startswith(p)`: `p` is no longer than the string and equals its first `|p|` characters; used by `ShortLinkId` and the other id lemmas to pick the branch |
| PyStr.Find | test/youtube_script_tool.py:20 | `s.find(d)`: any index it gives is an occurrence of `d`; `FindIsFirst` shows it is the first one, and that it gives none exactly when `d` is absent |
| PyStr.RFind | test/youtube_script_tool.py:18-20 | `s.rfind(d)`: any index it gives is an occurrence of `d`; `RFindIsLast` shows it is the last one, and that it gives none exactly when `d` is absent |
| PyStr.Join | test/youtube_script_tool.py:18-20 | `d.join(parts)`: the pieces in order with `d` between neighbours; `JoinSplit` shows it undoes `split` |
| PyStr.FindIsFirst | test/youtube_script_tool.py:20 | `str.find` gives the least index where the separator occurs, and gives -1 (None) exactly when the string does not contain the separator |
| PyStr.RFindIsLast | test/youtube_script_tool.py:18-20 | `str.rfind` gives the greatest index where the separator occurs, and gives -1 (None) exactly when the string does not contain the separator |
| PyStr.Split | test/youtube_script_tool.py:18-20 | `str.split` with a non-empty separator always returns at least one piece, so `[0]` and `[-1]` are always defined |
| PyStr.SplitFirstIsBeforeFirst | test/youtube_script_tool.py:20 | `s.split(d)[0]` is the text before the first occurrence of `d` (all of `s` when there is none), and when `d` occurs it occurs right after that piece |
| PyStr.SplitLastIsAfterLast | test/youtube_script_tool.py:18-20 | for a separator that cannot overlap itself, `s.split(d)[-1]` is the text after the last occurrence of `d`, or all of `s` when there is none |
| PyStr.SplitPartsAvoidSeparator | test/youtube_script_tool.py:18-20 | no piece of `s.split(d)` contains `d` |
| PyStr.JoinSplit | test/youtube_script_tool.py:18-20 | `d.join(s.split(d)) == s`: splitting keeps every character, in order |
| PyStr.AfterLastOfJoin | test/youtube_script_tool.py:18-20 | when `t` does not contain the non-overlapping `d`, the text after the last `d` in `p + d + t` is `t` |
| PyStr.BeforeFirstOfJoin | test/youtube_script_tool.py:20 | when `t` does not contain the non-overlapping `d`, the text before the first `d` in `t + d + u` is `t` |
| YoutubeScriptTool.VideoId | test/youtube_script_tool.py:17-20 | lines 17-20 as written: `url.split("/")[-1]` for a short link, else `url.split("v=")[-1].split("&")[0]`; characterised by `ShortLinkId`, `LongLinkId`, `LongLinkIdInPlace`, `NoMarkerId` and `IdHasNoSeparator` |
| YoutubeScriptTool.SeparatorsDoNotOverlap | test/youtube_script_tool.py:18-20 | no occurrence of `/`, `&` or `v=` can overlap another occurrence of the same separator |
| YoutubeScriptTool.ShortLinkId | test/youtube_script_tool.py:17-18 | a URL that starts with `https://youtu.be/` has a last `/`, at the prefix's own `/` or later; its id is exactly the text after that `/`, and the id has no `/` |
| YoutubeScriptTool.LongLinkId | test/youtube_script_tool.py:19-20 | any other URL yields the text after its last `v=` (all of it when there is none), cut before the first `&`; the id has no `&` |
| YoutubeScriptTool.LongLinkIdInPlace | test/youtube_script_tool.py:19-20 | when the last `v=` of such a URL is at index `j`, the id starts right after it and ends at an `&` or at the end of the URL |
| YoutubeScriptTool.NoMarkerId | test/youtube_script_tool.py:19-20 | a URL that is not a short link and has no `v=` yields its text up to the first `&`, or the whole URL when it has no `&` |
| YoutubeScriptTool.IdHasNoSeparator | test/youtube_script_tool.py:17-20 | a short-link id never contains `/`, and a long-form id never contains `&` |
| YoutubeScriptTool.ShortLinkEndingIn | test/youtube_script_tool.py:17-18 | a short link of the form `pre + "/" + id` with no `/` in `id` yields `id` |
| YoutubeScriptTool.WatchLinkEndingIn | test/youtube_script_tool.py:19-20 | any other URL of the form `pre + "v=" + id`, with no `v=` and no `&` in `id`, yields `id` (the id may itself contain `v`) |
| YoutubeScriptTool.WatchLinkWithMoreParameters | test/youtube_script_tool.py:19-20 | any other URL of the form `pre + "v=" + id + "&" + more`, with no `&` in `id` and no `v=` anywhere in `id + "&" + more`, yields `id` |
| YoutubeScriptTool.ExampleShortLink | test/youtube_script_tool.py:39 | `https://youtu.be/eC8mZceIy5k` yields `eC8mZceIy5k` |
| YoutubeScriptTool.ExampleWatchLink | test/youtube_script_tool.py:9 | `https://www.youtube.com/watch?v=CKS1glzmDVc` yields `CKS1glzmDVc` |
| YoutubeScriptTool.ExampleWatchLinkIdWithV | test/youtube_script_tool.py:20 | `https://www.youtube.com/watch?v=abvcd` yields `abvcd`: a `v` inside the id does not move its start |
| YoutubeScriptTool.ExampleWatchLinkWithTime | test/youtube_script_tool.py:20 | `https://www.youtube.com/watch?v=eC8mZceIy5k&t=5` yields `eC8mZceIy5k`, the same id as the short link |
| YoutubeScriptTool.ExampleShortLinkKeepsQuery | test/youtube_script_tool.py:17-18 | `https://youtu.be/eC8mZceIy5k?si=x` yields `eC8mZceIy5k?si=x`: a short link's id ends only at a `/` |
| YoutubeScriptTool.Concat | test/youtube_script_tool.py:27-31 | the string `result += snippet.text` builds, one caption after another; `AssembleTranscript`'s loop is proved to equal it, and `ConcatAppend`, `ConcatInOrder`, `ConcatLength` and `ConcatEmptyIff` characterise it |
| YoutubeScriptTool.ConcatAppend | test/youtube_script_tool.py:27-31 | joining two runs of captions gives the join of the first followed by the join of the second |
| YoutubeScriptTool.ConcatInOrder | test/youtube_script_tool.py:27-31 | every caption appears in the joined text at its own place, after all earlier captions and before all later ones |
| YoutubeScriptTool.ConcatLength | test/youtube_script_tool.py:27-31 | the joined text is as long as the sum of the caption lengths |
| YoutubeScriptTool.ConcatEmptyIff | test/youtube_script_tool.py:27-33 | the joined text is empty if and only if every caption is empty |
| YoutubeScriptTool.ResultFor | test/youtube_script_tool.py:33-35 | the result is an error exactly when the joined text is empty, and its message is then `No subtitles found`; otherwise it is a success carrying the joined text, which is non-empty |
| YoutubeScriptTool.TranscriptResult | test/youtube_script_tool.py:27-35 | for a fetched transcript, the result is the error if and only if every caption is empty; a success carries text as long as all the captions together, and that length is positive |
| YoutubeScriptTool.AsDict | test/youtube_script_tool.py:11-13 | the returned dictionary always has `status`; `status` is `success` exactly for a success, which also has only the key `subtitles`, and `error` exactly for an error, which also has only the key `message` |
| YoutubeScriptTool.AsDictInjective | test/youtube_script_tool.py:33-35 | two different results are never returned as the same dictionary |
| YoutubeScriptTool.StatusIsSuccessOrError | test/youtube_script_tool.py:11-13 | the status value is always `success` or `error` |
| YoutubeScriptTool.AssembleTranscript | test/youtube_script_tool.py:27-35 | the loop builds exactly the in-order join of the captions, and the branch turns it into the error or success result |
| YoutubeScriptTool.GetSubtitles | test/youtube_script_tool.py:3-35 | the transcript is fetched for the id taken from the URL; an exception from the fetch escapes unchanged; otherwise the call returns the result for the in-order join of the fetched captions |

## Left out

- The transcript service `YouTubeTranscriptApi().fetch` (test/youtube_script_tool.py:1, 23-25) is a network call. It is the parameter `fetch`, a function from video id to captions or exception. The model does not describe the service's own behaviour or exception types.
- The caption objects' other fields (start time, duration) are not used by the tool. The model keeps only each snippet's `text`, as a string.
- The `__main__` demo and its `print` (test/youtube_script_tool.py:38-41) are console I/O. The model keeps only the demo's URL, as `ExampleShortLink`.
- The agent definitions and pipelines (youtube_script_writer/agent.py, youtube_script_writer/agent_lite.py, blog_writer/agent.py, moral_story_writer/agent.py, test/agent.py) only configure objects of the agent library. The sequential hand-off, the bounded loop and the output-key state writes all happen inside that library, so its behaviour is not part of this model.
- The HTTP retry settings (youtube_script_writer/agent.py:13-18, blog_writer/agent.py:6-11, moral_story_writer/agent.py:7-12) are data passed to the generation client. The repository has no retry algorithm to model.
- `exit_loop` (youtube_script_writer/agent.py:21-23, youtube_script_writer/agent_lite.py:8-10) returns a constant. Its effect on the loop belongs to the library's tool-calling runtime.
- Instruction texts and the `print` status messages in blog_writer/agent.py are content and console output.
- Strings are sequences of characters. Python's code-point strings and Dafny's `char` agree on every character the URLs and rules use. The model does not cover Unicode normalisation.
- PyStr.SplitLastIsAfterLast: it is stated only for separators that cannot overlap themselves, because for other separators Python's last piece is not the text after the last occurrence. The three separators the tool uses can never overlap themselves.
