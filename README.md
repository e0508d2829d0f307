# Topic request → filename (book generation agent)

The book generation agent takes a free-text topic request, has an external model write a
markdown book about it, and saves the book as `books/<slug>.md`. The only logic in the
agent that is its own is how the filename is derived from the request
(`make_filename_from_topic`, nested inside `main` in `agent.py`):

1. `topic.strip().lower()`: remove surrounding whitespace, then lower-case;
2. `re.sub(r"[^a-z0-9]+", "_", base)`: replace every maximal run of characters outside
   `[a-z0-9]` by a single `_`;
3. `slug.strip("_") or "output"`: remove `_` at both ends and fall back to `output` when
   nothing is left;
4. `f"{slug}.md"`: append the extension.

This project models that derivation in Dafny as pure functions and proves what the
filename looks like, what it keeps of the request, and that the derivation is stable.

- `py_str.dfy`, module `PyStr`: the Python string primitives involved. `Strip`/`LStrip`/`RStrip`
  model `str.strip()` (the `Whitespace` argument, the exact `str.isspace()` character set) and
  `str.strip(chars)` (the `Chars(cs)` argument). `Lower` models `str.lower()` on ASCII letters.
- `topic_filename.dfy`, module `TopicFilename`: the substitution, written two ways.
  `SubstituteRuns` follows the regular-expression engine: at each non-matching character
  it matches the greedy run and emits `_`. `CollapseRuns` is a one-pass scan with an
  "inside a run" flag. A lemma shows the two are equal. The module also holds `Normalize`,
  `Slug`, `Filename` and the properties below.

A *slug* (`IsSlug`) is a non-empty string over `[a-z0-9_]` with no `_` at either end and
no two `_` in a row.

## Model

| member | source | states |
|---|---|---|
| `PyStr.IsSpace` | agent.py:66 | exactly the characters `str.isspace()` accepts (29 code points), i.e. what `strip()` without arguments removes |
| `PyStr.Lower` | agent.py:66 | the lower-cased text has the request's length and maps each character on its own: `A-Z` to `a-z`, everything else unchanged |
| `PyStr.LowerChar` | agent.py:66 | no result is an upper-case ASCII letter; an upper-case letter becomes the lower-case letter at the same alphabet position; any other character is kept |
| `PyStr.LStrip` | agent.py:66 | the result of left-stripping is no longer than the input and does not start with a character that the strip argument removes |
| `PyStr.RStrip` | agent.py:66 | the result of right-stripping is no longer than the input, does not end with a character that the strip argument removes, and starts where the input starts |
| `PyStr.Strip` | agent.py:66 | `strip()` / `strip(chars)` never leaves a removable character at either end of its result |
| `PyStr.LStripParts` | agent.py:66 | left-stripping cuts off a prefix made only of removable characters and keeps the rest unchanged |
| `PyStr.RStripParts` | agent.py:66 | right-stripping cuts off a suffix made only of removable characters and keeps the rest unchanged |
| `PyStr.StripParts` | agent.py:66 | stripping removes only removable characters, all of them at the two ends: the input is removable prefix, result, removable suffix |
| `PyStr.StripKeepsClean` | agent.py:66 | a text with no removable character at either end is returned unchanged by `strip` |
| `PyStr.StripIgnoresDroppedEdges` | agent.py:68 | adding removable characters on either side of a text does not change what `strip` returns |
| `TopicFilename.RunLength` | agent.py:67 | the greedy match of `[^a-z0-9]+` at the start of a text covers only non-`[a-z0-9]` characters and stops at the first `[a-z0-9]` character or at the end |
| `TopicFilename.SubstituteRuns` | agent.py:67 | the substitution as the regular-expression engine performs it: each `[a-z0-9]` character is copied and each greedy `[^a-z0-9]+` match (its length given by `RunLength`) becomes one `_`; the result is over `[a-z0-9_]` and no longer than the input |
| `TopicFilename.CollapseRuns` | agent.py:67 | the substituted text has only `[a-z0-9_]` characters and never two `_` in a row; a pass that starts inside a run does not emit a leading `_` |
| `TopicFilename.CollapseRunsIsSubstitution` | agent.py:67 | the one-pass scan equals the regular-expression substitution: `[a-z0-9]` characters are copied and each maximal run of other characters, original `_` included, becomes exactly one `_` |
| `TopicFilename.CollapseRunsKeepsAlnums` | agent.py:67 | the substitution neither loses nor adds a `[a-z0-9]` character, and keeps their order |
| `TopicFilename.CollapseRunsAppend` | agent.py:67 | substituting a concatenation gives the two parts substituted one after the other, the second part knowing whether the first ended inside a run |
| `TopicFilename.CollapseRunsOfJunk` | agent.py:67 | a text without `[a-z0-9]` characters is substituted by underscores only |
| `TopicFilename.TrimmedCollapseIgnoresFlag` | agent.py:67-68 | once `_` is trimmed, it does not matter whether the substitution began inside a run |
| `TopicFilename.StripUnderscoreKeepsAlnums` | agent.py:68 | `strip("_")` keeps every `[a-z0-9]` character |
| `TopicFilename.StripKeepsSlugText` | agent.py:68 | `strip("_")` on substituted text keeps it over `[a-z0-9_]` and free of doubled `_` |
| `TopicFilename.Normalize` | agent.py:66-68 | lower-case, substitute and trim give either the empty string or a slug |
| `TopicFilename.Slug` | agent.py:65-68 | the slug of any request, punctuation-only or whitespace-only included, is a well-formed slug: non-empty, `[a-z0-9_]+`, no edge `_`, no `__` |
| `TopicFilename.Filename` | agent.py:65-69 | the filename is the request's slug followed by `.md`, and the part before `.md` is a well-formed slug |
| `TopicFilename.SlugKeepsAlnums` | agent.py:66-68 | deleting `_` from the slug gives exactly the `[a-z0-9]` characters of the lower-cased request, in order; when the request has none, the slug is `output` |
| `TopicFilename.SlugFallback` | agent.py:68 | a request whose characters all lower-case to something outside `[a-z0-9]` gets the slug `output` and the filename `output.md` |
| `TopicFilename.NormalizeIgnoresJunkEdges` | agent.py:66-68 | characters outside `[a-z0-9]` (after lower-casing) added at either end of a text do not change the lower-cased, substituted and trimmed text |
| `TopicFilename.SlugIgnoresStrip` | agent.py:66-68 | the initial `strip()` is redundant: the slug is the same when the whitespace is left to the substitution and the `_` trimming |
| `TopicFilename.SlugIgnoresSurroundingSpace` | agent.py:66 | leading or trailing whitespace in the request does not change its slug |
| `TopicFilename.CollapseRunsFixesSlugText` | agent.py:67 | a text over `[a-z0-9_]` without doubled `_` is left unchanged by the substitution |
| `TopicFilename.LowerFixesSlugText` | agent.py:66 | lower-casing leaves text over `[a-z0-9_]` unchanged |
| `TopicFilename.SlugFixesSlugs` | agent.py:66-68 | a well-formed slug is its own slug |
| `TopicFilename.SlugIdempotent` | agent.py:65-69 | deriving the slug of a slug changes nothing, so a slug used as a request yields the same filename |

## Left out

- `PyStr.Lower`: models `str.lower()` on ASCII letters only. Python's full Unicode lower-casing turns a few non-ASCII characters into ASCII letters: U+212A KELVIN SIGN becomes `k`, and U+0130 becomes `i` followed by U+0307. Python keeps such a letter in the slug; the model replaces it by `_`. For every other character, the two agree on whether the lower-cased character is in `[a-z0-9]`, and that is all the slug depends on.
- Lone surrogate code points, which a Python `str` may hold, are not Dafny characters and cannot be given to the model.
- system_prompt.py is a single string constant (system_prompt.py:6-336). Its rules on structure and markup (single H1, fenced code with language tags, no bare angle brackets, stage ratios) are natural-language instructions to the external model. No code in the repository checks them, so there is no behaviour to model.
- The generation call `Agent(...)` / `Runner.run(...)` (agent.py:56-58) is a network call into an external library and is not part of this model.
- Directory creation and file writing (agent.py:61-62, 71-75) are I/O. That includes silently overwriting an existing file with the same slug.
- Command-line and environment glue is not modelled (agent.py:17, 31-53): the `OPENAI_API_KEY` check, `argparse`, the interactive `input()` and the empty-request guard. A positional argument of only spaces is not stripped before that guard, so it passes; the model shows that its slug is `output` (`SlugFallback`).
- Exit codes and exception handling (agent.py:35, 49, 53, 79-85), the encoding fallback of `print_utf8` (agent.py:20-26) and `asyncio.run` (agent.py:89) are process plumbing.
