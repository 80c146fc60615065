# VibeFix rule-block patcher

VibeFix asks a vision model to critique a web page. The model answers with a JSON object holding a
`diagnosis`, a `css_selector` and a `full_fixed_css_block`. Both scripts, the agent
`vibefix_agent.py` and the earlier `vibefix_test.py`, then patch the HTML file. They compile
`re.escape(selector) + r"\s*\{.*?\}"` with `re.DOTALL`, run `pattern.search` on the file's text,
and only when it succeeds they overwrite the file with `pattern.sub(block, text)`. The agent then
reloads the page and takes an "after" screenshot.

This project models that core in three modules:

- `RuleBlock` (`rule_block.dfy`): the pattern, `search` and `sub` as pure functions on strings.
  - `MatchAt` is the match the backtracking engine returns at one position: the selector taken
    literally, the longest run of whitespace, `{`, then everything up to the first `}`. `\s` is the
    full set of characters for which Python's `str.isspace()` holds.
  - `MatchAtSpec` proves that this match is the shortest word of the regular language
    `selector \s* \{ .* \}` starting there. It also proves there is none exactly when no word of the
    language starts there.
  - `FindMatch` is the leftmost-first search. `SubAll` is `sub`: it visits every non-overlapping match
    from left to right and resumes after each one.
  - `Spans` and `Rebuild` describe the same result independently: the list of replaced spans, and the
    text rebuilt from the gaps between them.
- `PatchGate` (`patch_gate.dfy`): the reply as a datatype and the decision both scripts take.
  - The outcomes are: request failed, not JSON, not an object, missing key (in lookup order),
    no match, or patched with the substituted text.
- `Workflow` (`workflow.dfy`): a `Workspace` class holding the file's contents and a trace of
  observable events (screenshots, printed fields, the write, the reload, warnings, and which
  `except` clause reports). `RunAgent` and `RunTestScript` are the two scripts as step sequences.
  Each is proved to produce exactly the outcome, file contents and trace given by the functions
  `Decide`, `AgentEvents` and `TestEvents`.

Three points of the code's behaviour that the model makes explicit:

- `sub` is called without `count`, so every match is replaced, not only the first one
  (`ReplacesEveryMatch` shows two blocks both replaced).
- In `vibefix_test.py` all three keys are read by the `print` calls at lines 77-80. That is outside the
  inner `try` that begins at line 83, and `except json.JSONDecodeError` does not catch KeyError.
  So a missing key is reported by the outer `except Exception` at line 112. The `except KeyError`
  clause at line 106 can never report a missing key (`TestKeyErrorHandlerUnreachable`).
- Patching again with the same reply leaves the file unchanged when the new block is itself
  one complete rule block for the selector (`IsRuleBlock`). Otherwise, for example when the block
  has no `}`, a second run can change the text again. `SubstituteIdempotent` and
  `DecideIdempotent` are proved under that hypothesis.

## Model

| member | source | states |
|---|---|---|
| RuleBlock.IsSpace | vibefix_agent.py:95 | `\s` is the set of characters for which `str.isspace()` holds; `SkipSpace` and `SkipSpaceSpaces` state the run of them that `\s*` consumes |
| RuleBlock.LiteralAt | vibefix_agent.py:95 | `re.escape(selector)` matches the selector's characters one for one; `LiteralAtSlice` states that this is the selector verbatim |
| RuleBlock.SkipSpace | vibefix_agent.py:95 | the greedy `\s*` ends at the first non-whitespace character or at the end of the text |
| RuleBlock.SkipSpaceSpaces | vibefix_agent.py:95 | every character the greedy `\s*` consumes is whitespace |
| RuleBlock.FirstClose | vibefix_agent.py:95 | the lazy `.*?\}` stops on a `}` at or after its start |
| RuleBlock.FirstCloseFirst | vibefix_agent.py:95 | no `}` comes before the one the lazy `.*?\}` stops on; with none found, none exists (newlines included) |
| RuleBlock.LiteralAtSlice | vibefix_agent.py:95 | the escaped selector matches at i exactly when the text from i starts with the selector verbatim |
| RuleBlock.BlockAfter | vibefix_agent.py:95 | when `\s*\{.*?\}` matches, it spans at least `{}` and ends on `}` |
| RuleBlock.MatchAt | vibefix_agent.py:95 | a match at i has the selector literally at i, is at least selector + `{}` long and ends with `}` |
| RuleBlock.MatchAtSpec | vibefix_agent.py:95 | the match at i is the shortest word of `sel \s* \{ .* \}` starting at i, and there is none iff no such word starts at i |
| RuleBlock.FindMatch | vibefix_agent.py:97 | a search result starts at or after the search start and is a non-empty span inside the text |
| RuleBlock.FindMatchSpec | vibefix_agent.py:97 | the search result is the engine's match at the position it reports, and no match starts between the search start and it; with no result, no match starts anywhere |
| RuleBlock.HasMatch | vibefix_agent.py:97 | the truth value of `pattern.search`; `HasMatchIff` states it holds iff some word of the pattern's language occurs in the text |
| RuleBlock.HasMatchIff | vibefix_agent.py:97 | `pattern.search` succeeds iff some word of the pattern's language occurs in the text; the test script does the same at vibefix_test.py:94 |
| RuleBlock.FindMatchLeftmostShortest | vibefix_agent.py:97 | the search returns the leftmost start and the shortest word there, or nothing when no word occurs |
| RuleBlock.FindMatchIs | vibefix_agent.py:97 | a match at s with none before it is exactly what the search returns |
| RuleBlock.MetacharactersAreLiteral | vibefix_agent.py:95 | `.`, `#` and `*` in the selector are literal: ".a#b*" does not match "xa#bb{}" but matches ".a#b* {}"; the test script does the same at vibefix_test.py:90-92 |
| RuleBlock.NoMatchUnchanged | vibefix_agent.py:97-98 | with no word of the language in the text, search fails and `sub` returns the text unchanged |
| RuleBlock.FirstMatchPrefix | vibefix_agent.py:98 | the text before the first match is kept as the output's prefix; with a single match the output is prefix + block + suffix |
| RuleBlock.ReplacesEveryMatch | vibefix_agent.py:98 | `sub` without `count` replaces both of two successive rule blocks |
| RuleBlock.Spans | vibefix_agent.py:98 | the spans `sub` replaces are ordered, do not overlap, and each is the engine's match at its start |
| RuleBlock.SpansFirstGap | vibefix_agent.py:98 | no match starts before the first replaced span |
| RuleBlock.SpansGap | vibefix_agent.py:98 | no match starts in the gap after a given replaced span |
| RuleBlock.SpansGaps | vibefix_agent.py:98 | no match starts in any gap between or around the replaced spans, so they are every match the scan meets |
| RuleBlock.SubAll | vibefix_agent.py:98 | `pattern.sub` without `count`; `SubAllShape` and `SpansGaps` state that it is the rebuild of the text with the block in every match the left-to-right scan meets |
| RuleBlock.Substitute | vibefix_agent.py:98 | `pattern.sub(new_code, code_content)` for a block with no backslash; `SubstitutedHasMatch` and `SubstituteIdempotent` state what it leaves in the text |
| RuleBlock.SubAllShape | vibefix_agent.py:98 | `sub` puts the block in each replaced span and copies every other character unchanged; the test script does the same at vibefix_test.py:95 |
| RuleBlock.MatchAtShift | vibefix_agent.py:95 | the pattern looks only forward: equal text from two positions gives matches shifted by the same amount |
| RuleBlock.BlockAfterShift | vibefix_agent.py:95 | equal text from two positions gives the same `\s*\{.*?\}` match, shifted |
| RuleBlock.FindMatchShift | vibefix_agent.py:97 | the search over equal suffixes finds the same match, shifted |
| RuleBlock.SubAllShift | vibefix_agent.py:98 | `sub` from two positions where the remaining text is the same produces the same output |
| RuleBlock.SubAllSuffix | vibefix_agent.py:98 | what `sub` produces from a position on depends only on the text from there on |
| RuleBlock.SubAllFirst | vibefix_agent.py:98 | `sub` on a text with first match (s, e) is the text before s, the block, then `sub` of the text after e |
| RuleBlock.MatchAtExtend | vibefix_agent.py:95 | a match depends only on the text up to its end |
| RuleBlock.MatchBeforeBlockIsOld | vibefix_agent.py:95 | when the old text already matched at s, writing a rule block at s (the text before s unchanged) creates no new match starting before s |
| RuleBlock.BlockMatchesInPlace | vibefix_agent.py:95 | a complete rule block inside a text is matched there exactly, whatever follows |
| RuleBlock.BlockIsFirstMatch | vibefix_agent.py:97 | when doc's first match starts at s, a text that agrees with doc before s and holds a rule block at s has that block as its first match |
| RuleBlock.PatchedFirstMatch | vibefix_agent.py:97-98 | after the first match is replaced by a rule block, the first match of the result is that block |
| RuleBlock.SubstitutedHasMatch | vibefix_agent.py:97-98 | after substituting a rule block, `search` still succeeds on the result |
| RuleBlock.SubAllIdempotent | vibefix_agent.py:98 | `sub` with a rule block applied twice gives the same text as once |
| RuleBlock.SubstituteIdempotent | vibefix_agent.py:98 | patching an already patched text with the same complete rule block changes nothing |
| PatchGate.Decide | vibefix_agent.py:87-98 | a run goes on to search exactly for a complete reply, using its selector; a missing key is one of the three the object lacks |
| PatchGate.DecideParseErrors | vibefix_agent.py:87 | a failed request, text that is not JSON, and JSON that is not an object each end the run before any key is read |
| PatchGate.DecideMissingKey | vibefix_agent.py:88-92 | the key reported missing is the first of diagnosis, css_selector, full_fixed_css_block that the object lacks, and only then; the test script does the same at vibefix_test.py:77-80 |
| PatchGate.DecidePatchedIff | vibefix_agent.py:97-98 | the file is patched iff the reply is complete and a rule block of its selector occurs; the text is the substitution of every match; the test script does the same at vibefix_test.py:94-95 |
| PatchGate.DecideNoMatchIff | vibefix_agent.py:111-112 | a complete reply whose selector has no rule block in the text ends with the warning and no patch |
| PatchGate.DecideIdempotent | vibefix_agent.py:95-101 | when the block is itself a complete rule block for the selector (`IsRuleBlock`), a second run with the same reply, on the patched file, patches again with the same text |
| Workflow.AgentShown | vibefix_agent.py:88 | the agent prints the diagnosis and no other field; `RunAgent` states it is part of the agent's trace |
| Workflow.AgentEvents | vibefix_agent.py:38-118 | the agent's trace; `AgentWritesOnce` and `AgentScreenshotAfterWrite` state its write and its "after" screenshot |
| Workflow.TestShown | vibefix_test.py:77-80 | the test script's three prints; `TestShownPrefix` states they follow lookup order up to the first missing key |
| Workflow.TestEvents | vibefix_test.py:74-113 | the test script's trace; `TestWritesOnce`, `TestMissingKeyReport` and `TestKeyErrorHandlerUnreachable` state its write, its success line and which handler reports |
| Workflow.TestShownPrefix | vibefix_test.py:77-80 | the prints are the reply's fields in lookup order, stopping right before the first missing key |
| Workflow.AgentWritesOnce | vibefix_agent.py:97-101 | the agent writes the file at most once, exactly when it patches, and only the substitution of the reply's block |
| Workflow.AgentScreenshotAfterWrite | vibefix_agent.py:100-108 | the "after" screenshot is taken exactly when the agent patches, right after the write and the reload |
| Workflow.TestWritesOnce | vibefix_test.py:94-100 | the test script writes the file at most once, exactly when it patches, with the substitution, and reports success exactly then |
| Workflow.TestMissingKeyReport | vibefix_test.py:74-113 | a missing key prints the keys before it and is reported by the outer `except Exception`, not by `except KeyError` |
| Workflow.TestKeyErrorHandlerUnreachable | vibefix_test.py:83-107 | the `except KeyError` clause of the patch step never reports |
| Workflow.Workspace.RunAgent | vibefix_agent.py:38-118 | the agent's steps: outcome = `Decide` on the file read at the start, the file changes only by the patch, and the trace is `AgentEvents` |
| Workflow.Workspace.RunTestScript | vibefix_test.py:57-113 | the test script's steps: outcome = `Decide` on the file re-read before patching, the file changes only by the patch, and the trace is `TestEvents` |

## Left out

- The call to the vision model and the prompt text (vibefix_agent.py:44-84, vibefix_test.py:33-68) are not modelled: the reply is a parameter of the run.
- `json.loads` is not modelled itself. Only its outcome is: not JSON, a non-object value, or an object. A reply with no text also raises (TypeError, not JSONDecodeError), and is folded into `RequestFailed`.
- JSON values that are not strings are not modelled: `Object` maps keys to strings. A non-string selector makes `re.escape` raise, and the generic handler then reports.
- Playwright launch and navigation (vibefix_agent.py:38), `time.sleep` (vibefix_agent.py:107) and the browser's own state are not modelled at all. The screenshots, the reload and the browser close are events in the trace only. A failure of one of these calls, or of the file write, is not modelled.
- Loading secrets (`load_dotenv`, `os.getenv`, the start-up `ValueError`) and `get_file_url` are left out: they are configuration and a path helper.
- The test script's first read of the file (vibefix_test.py:23-24) and its screenshot-existence check (vibefix_test.py:27-31) happen before the modelled steps and are left out. The patch uses the contents re-read at lines 87-88, which is the workspace's `html` at that step.
- Replies whose selector or block contains a lone surrogate (possible in a Python `str` from `json.loads`) are not modelled: a Dafny `char` is a Unicode scalar value.
- File I/O is modelled as the `html` field of `Workspace`, which holds the decoded text.
- Text mode is not modelled. Both scripts open the file in text mode (vibefix_agent.py:47,100; vibefix_test.py:87,97). Reading decodes with the locale's encoding and turns `\r\n` and `\r` into `\n`, and writing emits the platform's line separator. So `SubAllShape`'s "every other character unchanged" holds for the decoded text, not for the bytes on disk: writing back a file with `\r\n` line ends on Linux changes bytes outside the replaced spans.
- Status messages other than the printed reply fields, the warning and the test script's success line are not traced.
- RuleBlock.Substitute: requires a replacement with no backslash. `re.sub` expands backslash escapes and group references in the replacement, and rejects bad ones. That template step is not modelled.
- PatchGate.Decide: requires `Admissible`, that is a block with no backslash, for the same reason. So do `AgentEvents`, `TestEvents`, `RunAgent` and `RunTestScript`.
