# mpc-lookup: the designation-to-redirect rule

The mpc-lookup service answers `GET /search?designation=...` with a redirect
to the Minor Planet Center's object page. The handler works in two steps:

1. it deletes every occurrence of `"2011 "` from the designation, using
   Python's `str.replace(old, "")`. This is a single left-to-right pass that
   removes non-overlapping matches wherever they stand;
2. it appends the result, character for character, to
   `https://www.minorplanetcenter.net/db_search/show_object?object_id=` and
   returns that string, which the framework's `RedirectResponse` then puts
   into the `Location` header.

This project models both steps as total Dafny functions over `string`
(`seq<char>`) and proves what the rule guarantees.

- `pystr.dfy`, module `PyStr`: the Python string behaviour the handler relies
  on. `RemoveAll(s, pat)` is `s.replace(pat, "")`, written as a scan from the
  left that skips each match whole. `MatchCount` counts the matches the scan
  deletes. `RemoveByFind` is an independent definition of the same removal
  built on `Find` (Python's `str.find`, for `0 <= from <= len(s)`): find the leftmost match, keep the
  text before it, skip it, repeat. The two definitions are proved equal.
  Further lemmas cover the length change, when the string stays unchanged,
  that removal only deletes characters (the result is a subsequence), and
  that a match is removed wherever it occurs.
- `external.dfy`, module `External`: the constant `DesignationPrepend`, the
  stripped designation `StripDesignation`, and the redirect target
  `SearchUrl`. `ObjectId` returns the text after the lookup prefix of a URL
  of that shape; it is not a query-string parser, which would read a value
  holding `&`, `#` or `+` differently. The lemmas state the properties for `"2011 "` itself and check
  the concrete cases, including the example in the handler's docstring.

Both functions are total: neither has a precondition, so every string has a
result, the empty string included. As Dafny functions they are also
deterministic and hold no state between calls.

The handler has no special case for designations without a space or of any
other shape: every designation leads to the Minor Planet Center lookup URL.
The handler itself does not escape `fd` before splicing it into the URL
(`src/mpclookup/handlers/external.py:78`); `SearchUrl` is the string the
handler returns.

## Model

| member | source | states |
|---|---|---|
| `PyStr.RemoveAll` | src/mpclookup/handlers/external.py:75 | `s.replace(pat, "")` as a left-to-right scan; the result is never longer than the input |
| `PyStr.MatchCount` | src/mpclookup/handlers/external.py:75 | the matches deleted by the scan, never more than fit in the input (`n * \|pat\| <= \|s\|`) |
| `PyStr.MatchAtIff` | src/mpclookup/handlers/external.py:75 | the character-by-character match test is the same as comparing the slice `s[i..i + \|pat\|]` with `pat` |
| `PyStr.Find` | src/mpclookup/handlers/external.py:75 | like `str.find` for a start `0 <= from <= len(s)`, returns `-1` when no match starts at or after `from`, and otherwise the leftmost match position at or after `from` |
| `PyStr.RemoveFromIsRemoveByFind` | src/mpclookup/handlers/external.py:75 | from any start position, the scan equals the find-leftmost-match, keep-what-precedes, skip-the-match definition |
| `PyStr.RemoveAllIsRemoveByFind` | src/mpclookup/handlers/external.py:75 | for a non-empty pattern, `RemoveAll` equals the find-and-skip definition on the whole string |
| `PyStr.ScanUntil` | src/mpclookup/handlers/external.py:75 | while no match starts in `[from, i)`, the scan copies `s[from..i]` unchanged and then continues from `i` |
| `PyStr.RemoveAfterPrefix` | src/mpclookup/handlers/external.py:75 | when no match starts inside `x`, removing from `x + pat + y` gives `x` followed by the removal of `y` |
| `PyStr.RemovedLength` | src/mpclookup/handlers/external.py:75 | from any start `i`, the kept text plus `\|pat\|` per deleted match accounts for all of `s[i..]` |
| `PyStr.RemoveAllLength` | src/mpclookup/handlers/external.py:75 | the result is exactly `\|pat\|` characters shorter per deleted match |
| `PyStr.CountFromZeroIff` | src/mpclookup/handlers/external.py:75 | for a non-empty pattern, the scan from `i` deletes nothing if and only if no match starts at or after `i` |
| `PyStr.MatchCountPositiveIff` | src/mpclookup/handlers/external.py:75 | for a non-empty pattern, something is deleted if and only if the pattern occurs |
| `PyStr.RemoveAllUnchangedIff` | src/mpclookup/handlers/external.py:75 | for a non-empty pattern, the string is unchanged if and only if the pattern does not occur in it |
| `PyStr.RemoveFromIsSubsequence` | src/mpclookup/handlers/external.py:75 | what the scan from `i` keeps is a subsequence of `s[i..]` |
| `PyStr.RemoveAllIsSubsequence` | src/mpclookup/handlers/external.py:75 | removal only deletes: the result is a subsequence of the input, so what remains keeps its order |
| `External.StripDesignation` | src/mpclookup/handlers/external.py:75 | `fd` is the designation with `"2011 "` (`DesignationPrepend`, the constant at line 56) removed; it is never longer than the designation and is a subsequence of it |
| `External.SearchUrl` | src/mpclookup/handlers/external.py:76-79 | the returned URL starts with the lookup prefix `MpcObjectUrl` (the literal at lines 77-78), and the text after that prefix is exactly `fd` |
| `External.ObjectId` | src/mpclookup/handlers/external.py:78 | the text after `object_id=` is returned exactly when the URL has the lookup prefix, and prefix plus text rebuilds the URL |
| `External.SearchUrlStartsWithLookup` | src/mpclookup/handlers/external.py:76-79 | every URL the handler returns begins with the literal `https://www.minorplanetcenter.net/db_search/show_object?object_id=`; the empty designation gives exactly that literal |
| `External.SearchUrlInjective` | src/mpclookup/handlers/external.py:78 | two designations give the same URL if and only if they strip to the same `fd`: the URL and `fd` determine each other |
| `External.StrippedLength` | src/mpclookup/handlers/external.py:75 | `\|fd\| = \|designation\| - 5k` for the k matches of `"2011 "`, so the difference is a multiple of 5 |
| `External.StripUnchangedIff` | src/mpclookup/handlers/external.py:75 | `fd == designation` if and only if `"2011 "` does not occur in the designation |
| `External.StripRemovesAnywhere` | src/mpclookup/handlers/external.py:75 | a `"2011 "` is removed wherever it stands, not only at the front |
| `External.StripDocumentedExample` | src/mpclookup/handlers/external.py:71-79 | the docstring's `2011 1001 T-2` strips to `1001 T-2` and redirects to the prefix followed by `1001 T-2` |
| `External.StripInnerExample` | src/mpclookup/handlers/external.py:75 | `X2011 Y` strips to `XY`: a match in the middle is removed |
| `External.StripAbsentExample` | src/mpclookup/handlers/external.py:75 | `1998 QE2` passes through unchanged |
| `External.StripPrependAlone` | src/mpclookup/handlers/external.py:75 | `"2011 "` on its own contains the pattern and strips to `""` |
| `External.StripIsSinglePass` | src/mpclookup/handlers/external.py:75 | the strip runs once: `202011 11 ` strips to `2011 `, which still contains the pattern, and stripping it again would give `""` |

## Left out

- `get_index` (the metadata endpoint) is not modelled. It only wraps a library metadata call and a response model that is not part of this model.
- FastAPI routing, `Query`/`Depends` injection and the `RedirectResponse` (`src/mpclookup/handlers/external.py:59`) are not modelled: neither its status code nor the percent-quoting it applies when it writes the returned URL into the `Location` header, so `2011 1001 T-2` reaches the client as `...object_id=1001%20T-2`. These are web framework behaviour; `SearchUrl` is the handler's return value, not the header.
- The two structlog `logger.info` calls are not modelled. They are side effects on an external logger and do not change the result.
- `src/mpclookup/config.py` (settings loaded from the environment) and `src/mpclookup/__init__.py` (package version lookup) are not modelled. They hold no logic.
- PyStr.RemoveAll: models `str.replace` only with an empty replacement and no `count` argument, the only form the handler uses. With an empty pattern it returns the string unchanged, as Python does for `s.replace("", "")`.
