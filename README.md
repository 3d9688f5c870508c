# YouTube video summarizer: string helpers

A Dafny model of the pure string logic in the Streamlit app `app.py`. A user pastes a YouTube URL. The app pulls a video ID out of it, fetches the transcript, joins the transcript segments into one text and shows a placeholder "summary". Three pieces are modelled:

- **`VideoId`**: `extract_video_id`. Python's `re.search` with the pattern `(?:v=|\/)([0-9A-Za-z_-]{11}).*` is written as a hand-coded scanner. `TryAt` tries the pattern at one index (`v=` first, then `/`). `SearchFrom` tries each index from left to right. `ExtractVideoId` starts the search at index 0. The specification beside it is quantifier-based: `MatchAt` and `IsLeftmostMatch`. The lemmas prove that the scanner returns the capture group of the leftmost match, and returns `None` exactly when the pattern matches nowhere. The trailing `.*` can match the empty string, so it puts no condition on the rest of the URL.
- **`Summary`**: `summarize_video`, which keeps the first 1000 characters of the text and appends `"..."`.
- **`Transcript`**: the `" ".join([t["text"] for t in transcript])` step of `get_transcript`. The join is a function over the sequence of segment texts. Its partner is Python's `str.split(" ")`.
- **`Wrappers`**: the `Option` type that stands for Python's `None` return.

Strings are Dafny `string` values (sequences of characters), as Python slices treat them.

## Model

| member | source | states |
|---|---|---|
| VideoId.AllIdChars | app.py:22 | true exactly when every character is in the class `[0-9A-Za-z_-]` |
| VideoId.GroupAt | app.py:22 | the group `([0-9A-Za-z_-]{11})` matches at index j iff 11 alphabet characters start there, and it captures exactly those characters |
| VideoId.TryAt | app.py:22 | the pattern (`v=` or `/`, then the group) matches at index i iff `v=` or `/` is there and an ID follows; the capture is that ID |
| VideoId.SearchFrom | app.py:23 | anything the search returns is an 11-character string over the ID alphabet |
| VideoId.ExtractVideoId | app.py:21-24 | a returned ID has exactly 11 characters, each in `[0-9A-Za-z_-]` |
| VideoId.SearchFromIsFirstMatch | app.py:23 | searching from index i returns the capture of the first matching index at or after i, and returns None iff no index from i on matches |
| VideoId.ExtractIsLeftmostMatch | app.py:21-24 | `re.search` semantics: the result is the capture of the leftmost match in the URL, and None iff the pattern matches at no index |
| VideoId.ExtractedIdFollowsMarker | app.py:22-24 | a returned ID occurs in the URL directly after the two characters `v=` or directly after a `/` |
| VideoId.NoMarkerNoId | app.py:22-24 | a URL with no `/` and no `v=` always yields None |
| VideoId.ExtractIgnoresTail | app.py:22-24 | cutting the URL right after the 11th ID character and appending any tail gives the same ID: the ID need not end its run, and later characters do not matter |
| VideoId.ExtractStableUnderAppend | app.py:22-24 | appending anything to a URL that yields an ID leaves the ID unchanged |
| Summary.SummarizeVideo | app.py:39-44 | the summary has length min(len(text), 1000) + 3 (so at most 1003), starts with a prefix of the text and ends with `"..."` |
| Summary.ShortTextKeptWhole | app.py:44 | a text of at most 1000 characters comes back whole, followed by `"..."` |
| Summary.LongTextCut | app.py:44 | a longer text becomes exactly its first 1000 characters plus `"..."`, 1003 characters in all |
| Summary.SummaryIgnoresTail | app.py:44 | characters after position 1000 never influence the summary |
| Transcript.Join | app.py:30 | `" ".join`: no segments give the empty text and one segment gives its own text; its full meaning is stated by JoinLength, JoinPlacesParts and LastPartEndsJoin |
| Transcript.JoinLength | app.py:30 | the joined text has the total length of the segments plus n - 1 separators |
| Transcript.JoinPlacesParts | app.py:30 | each segment text appears in order at its offset (the earlier segments plus one space each), and exactly one space follows every segment but the last |
| Transcript.OffsetIsPrefixSum | app.py:30 | segment i starts after the total length of the earlier segments plus one space for each of them |
| Transcript.LastPartEndsJoin | app.py:30 | the last segment ends exactly at the end of the joined text, so nothing else is in it |
| Transcript.JoinAppend | app.py:30 | joining two non-empty lists means joining each one and putting a single space between them |
| Transcript.SplitJoinRoundTrip | app.py:30 | when no segment text contains a space, `split(" ")` of the joined text gives the segment texts back |

## Left out

- The Streamlit page: configuration, title, inputs, buttons, spinners, error messages and the "Ask" chat placeholder (app.py:9-16, 50-81). These are UI side effects with no logic.
- `YouTubeTranscriptApi.get_transcript` and its `TranscriptsDisabled` path, which returns None (app.py:29, 32-33). This is a network call to an external service. Its result enters the model as the sequence of segment texts.
- The segment records' other fields and the `t["text"]` dictionary lookup (app.py:30). Only the texts take part in the join.
- The retrieval-augmented / language-model pipeline named in comments (app.py:40-42, 80). It is not implemented in the source.
- General regular-expression semantics. Only this one pattern is modelled, as an explicit scanner.
- Unicode details of Python strings. Characters are Dafny `char` values, and no code-point or normalisation subtleties are modelled.
