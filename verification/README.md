# Multimodal AI Concierge — tool adapter, memory bridge and environment check in Dafny

This project models the three parts of the concierge's Python backend that carry its
logic:

- **The MCP tool adapter** (`backend/mcp_handler.py`). Each tool an MCP server reports is
  turned into a locally callable wrapper. The model covers:
  - the wrapper's sanitised, index-suffixed local name;
  - its parameter list, taken from the declared argument schema or inferred from the
    tool's name by a priority-ordered chain of substring rules;
  - its all-optional signature;
  - the per-call argument pipeline: drop `None`s, convert calendar times to UTC, rename
    arguments to what the upstream tool expects;
  - the result contract: the wrapper answers with text, never an `Exception`;
  - the assembly of the registry by `load_and_convert_mcp_tools`.
- **The memory bridge** (`backend/memory_handler.py`). At start, the memories fetched from
  the memory service become at most one assistant "seed" turn. At shutdown, the
  conversation's user and assistant turns are filtered into a single batch. The batch is
  written once, only when it is non-empty.
- **The environment check** `validate_environment` (`backend/config.py`).

Everything is pure functions over immutable datatypes. Each call into something the
project cannot see becomes a parameter:
- the memory service;
- the MCP session (its tool listing and invocation);
- the JSON rendering of a tool's structured result;
- the ISO-8601 time converter;
- the process environment.

A failure of such a call is a value: `Outcomes.CallOutcome` is `Returned(v)` or
`Raised(message)`. The time converter is a parameter of the call pipeline.
`IsoTime.IsoToUtc` is a concrete instance of it for timestamps with an explicit
`±HH:MM` offset, and it is used by the worked calendar example.

Modules, one per file:

| file | module | what it holds |
|---|---|---|
| `outcomes.dfy` | `Outcomes` | `Option`, `CallOutcome` |
| `text.dfy` | `Text` | the Python string operations the core uses: ASCII `lower`, substring `in`, `strip`, `startswith`, `str(n)` on naturals and its inverse, a reader of plain decimal digit strings (used for the timestamp fields) |
| `tool_adapter.dfy` | `ToolAdapter` | local names, parameter lists, signatures, the registry |
| `tool_call.dfy` | `ToolCall` | the argument pipeline and the wrapper's reply |
| `iso_time.dfy` | `IsoTime` | a UTC converter for offset-aware timestamps |
| `json.dfy` | `Json` | `json.dumps` of the memory list (`ensure_ascii`, default separators), and a reader of that text back into entries |
| `memory_bridge.dfy` | `MemoryBridge` | loading memories and the shutdown save |
| `env_config.dfy` | `EnvConfig` | `validate_environment` |
| `scenarios.dfy` | `Scenarios` | worked examples over whole families of tool names |

Points where the code's behaviour is easy to misread:

- **Seed exclusion.** A turn is left out of the save when its text *contains* a
  non-empty `memory_str` (memory_handler.py:74), not only when it equals the seed text.
  `MemoryBridge.Excluded` is this substring test. Any turn quoting the whole memory list
  is therefore dropped as well.
- **Naming order.** Separators are replaced first and the result is lower-cased after
  (mcp_handler.py:62-68). Because the separators are not letters, the other order would
  give the same name. `ToolAdapter.SafeName` follows the code's order.
- **Time conversion failures.** Only `ValueError` is caught (mcp_handler.py:121), and
  then the value is left unchanged. Any other exception from the conversion ends the whole
  call with `MCP tool error: …`. An example is the `OverflowError` "date value out of
  range" raised when the UTC time falls outside the years 1–9999.
  `ToolCall.Conversion` keeps the two cases apart: `Unparsable` keeps the value,
  `ConversionError` raises.
- **Offsets.** The parser reads the offset's hours and minutes as plain two-digit
  numbers. `+05:60` therefore means six hours. Only an offset of a whole day or more is
  rejected, and that rejection is a `ValueError`.
- **Empty schemas.** A declared schema with no fields gives an empty parameter list.
  The name-based rules are used only when there is no schema exposing `__fields__`
  (mcp_handler.py:77).
- **Servers.** Only the `composio` server is connected. The second server is commented
  out in the source (mcp_handler.py:33, 45-50, 147-150).

## Model

| member | source | states |
|---|---|---|
| ToolAdapter.LocalNameShape | backend/mcp_handler.py:62-69 | the local name is the original name with each of `- . /` and space turned into `_` and each ASCII capital lower-cased, then `_` and the decimal index; no separator or capital remains |
| ToolAdapter.LocalNameIndexRoundTrip | backend/mcp_handler.py:69 | the positional index is recovered from the local name by reading the digits after its last `_` |
| ToolAdapter.LocalNamesDistinct | backend/mcp_handler.py:69 | tools at different positions get different local names, even when their original names are identical |
| ToolAdapter.DeclaredParamsFollowSchema | backend/mcp_handler.py:77-84 | a declared schema gives one parameter per field, same names, same order; exactly the `int`, `bool` and `float` annotations keep their type, everything else is `str` |
| ToolAdapter.SelectRuleIsFirstApplicable | backend/mcp_handler.py:88-99 | the inference rule chosen for a name is the one whose substring condition holds while no earlier rule's does (first match wins), in both directions |
| ToolAdapter.InferredParamsWellFormed | backend/mcp_handler.py:86-99 | an inferred parameter list is never empty, is all `str`, and repeats no name |
| ToolAdapter.EmptyParamsOnlyFromEmptySchema | backend/mcp_handler.py:74-99 | a tool's parameter list is empty exactly when it declares a schema with no fields |
| ToolAdapter.SignatureAllOptional | backend/mcp_handler.py:174-186 | the signature lists every parameter with its name and type, in order, each optional with default `None` |
| ToolAdapter.ConvertFrom | backend/mcp_handler.py:209-216 | every wrapper is the one built for the tool at the position its name records, every tool whose construction succeeded is present, and recorded positions strictly increase |
| ToolAdapter.RegistryWellFormed | backend/mcp_handler.py:198-223 | the registry is empty without a server URL or when discovery raises; otherwise it is complete, in discovery order, and its local names are pairwise distinct |
| ToolCall.DropNullsExact | backend/mcp_handler.py:109 | dropping nulls removes exactly the `None`-valued arguments and keeps every other value |
| ToolCall.NormalizeTimesScope | backend/mcp_handler.py:112-122 | time conversion touches only calendar tools and only string `start_time`/`end_time`; each becomes its UTC text, or stays as it was when the converter rejects it; the key set never changes |
| ToolCall.NormalizeTimesFailure | backend/mcp_handler.py:112-122 | the pipeline fails at conversion exactly when a calendar tool has a string time value whose conversion raises something other than `ValueError` |
| ToolCall.ActiveRenamesIndependent | backend/mcp_handler.py:125-143 | the renames that apply to a tool never share a key and never rename a key to itself |
| ToolCall.RenamesEffect | backend/mcp_handler.py:125-143 | each applicable rename moves its value when its source is present and its target absent, and otherwise leaves both keys as they were |
| ToolCall.RemapNeverOverwrites | backend/mcp_handler.py:125-143 | a key present both before and after remapping keeps its value, so no supplied argument is overwritten |
| ToolCall.RemapOnlyRuleKeys | backend/mcp_handler.py:125-143 | a key no rename rule names is present after remapping exactly when it was before, with the same value |
| ToolCall.RemapKeepsCount | backend/mcp_handler.py:125-143 | remapping neither adds nor loses arguments |
| ToolCall.RemapIdempotent | backend/mcp_handler.py:125-143 | remapping a second time changes nothing |
| ToolCall.RemapMovesValue | backend/mcp_handler.py:125-143 | for each rename that applies to the tool: with source present and target absent the value moves to the target and the source disappears; otherwise neither key's presence changes |
| ToolCall.RemapValueOrigin | backend/mcp_handler.py:125-143 | every value after remapping was an argument value before it |
| ToolCall.PrepareArgsShape | backend/mcp_handler.py:108-146 | the prepared arguments hold no `None`, have as many keys as the non-`None` arguments, and agree with them on every key that neither the conversion nor a rename names |
| ToolCall.FindTool | backend/mcp_handler.py:154 | the live tool found is the first with exactly the original name, and none is found exactly when no live tool has that name |
| ToolCall.InvokeToolReplies | backend/mcp_handler.py:102-171 | the wrapper replies with text whenever the failure is an `Exception`: "not initialized", the error prefix plus the exception's message, the not-found message, or the rendered result of the first matching live tool |
| ToolCall.InvokeFailureIsReported | backend/mcp_handler.py:161-171 | an upstream invocation that raises yields a reply starting with `MCP tool error: ` |
| ToolCall.MissingToolIsReported | backend/mcp_handler.py:152-159 | a tool absent from the freshly listed catalogue yields a reply saying "not found" |
| IsoTime.ShiftRoundTrip | backend/mcp_handler.py:118 | moving a time by an offset and back by the same offset restores it |
| IsoTime.ShiftMovesInstant | backend/mcp_handler.py:118 | moving a time by `delta` minutes moves its instant, counted from a fixed day 0 of the proleptic Gregorian calendar, by exactly `delta` minutes, whatever day, month or year boundary it crosses |
| IsoTime.OrdinalNextDay | backend/mcp_handler.py:118 | the next calendar day is the next day count, including across month ends, 29 February and 31 December |
| IsoTime.AbsMinutesInjective | backend/mcp_handler.py:118 | two valid times with the same instant agree on year, month, day, hour and minute |
| IsoTime.IsoToUtc | backend/mcp_handler.py:117-121 | text the parser rejects is `Unparsable` (the value is kept); a parsed time whose UTC instant falls outside the years 1–9999 is a `ConversionError`; otherwise the output text reads back as the UTC time, whose instant is the local instant minus the offset (east positive), with the seconds kept, and moving it by the offset gives the local time |
| IsoTime.ConvertedIsInstant | backend/mcp_handler.py:117-119 | the converted text is the rendering of the one valid time whose instant is the local instant minus the offset |
| IsoTime.FormatUtcReadsBack | backend/mcp_handler.py:118 | every field of the written UTC text reads back as the field of the time it was written from |
| IsoTime.ParseUtcFormats | backend/mcp_handler.py:118 | every text of the UTC form is the rendering of the time it denotes, so writing and reading are inverse |
| IsoTime.ParseEastFields | backend/mcp_handler.py:117 | a well-shaped timestamp with `+HH:MM` parses to its time and the offset `HH*60+MM` |
| IsoTime.ParseWestFields | backend/mcp_handler.py:117 | a well-shaped timestamp with `-HH:MM` parses to its time and the offset `-(HH*60+MM)` |
| IsoTime.SixtyMinuteOffset | backend/mcp_handler.py:117 | the offset `+05:60` is accepted and means 360 minutes east |
| IsoTime.IndiaMorningToUtc | backend/mcp_handler.py:117-119 | `2024-03-01T10:00:00+05:30` becomes `2024-03-01T04:30:00Z` |
| IsoTime.IndiaSmallHoursToUtc | backend/mcp_handler.py:117-119 | `2024-03-01T02:00:00+05:30` becomes `2024-02-29T20:30:00Z`: the previous day, which in 2024 is 29 February |
| IsoTime.NewYorkEveToUtc | backend/mcp_handler.py:117-119 | `2024-12-31T22:00:00-05:00` becomes `2025-01-01T03:00:00Z`: a west offset moves the time forward, here into the next year |
| Scenarios.GmailSendParams | backend/mcp_handler.py:88-91 | a schemaless tool named for sending Gmail is exposed with `to`, `subject`, `body`, unless its name also mentions search or crawl |
| Scenarios.RemapSingle | backend/mcp_handler.py:124-143 | a call whose one argument an applicable rename names reaches the tool with that argument under its new name only |
| Scenarios.SearchInputBecomesQuery | backend/mcp_handler.py:108-128 | a search or crawl tool called with `input` is invoked with `query`, whatever the converter |
| Scenarios.NoneOnlyCallSendsNothing | backend/mcp_handler.py:109 | a call whose only argument is `None` sends no arguments |
| Scenarios.CalendarNormalize | backend/mcp_handler.py:112-121 | on a calendar tool, a `start_time` that the converter turns into UTC text is replaced by that text |
| Scenarios.CalendarStartRenamed | backend/mcp_handler.py:108-133 | on any calendar tool and for any converter, `start_time` is converted first and reaches the tool as `start_datetime` carrying the UTC text |
| Scenarios.CalendarStartBecomesUtc | backend/mcp_handler.py:108-133 | on any calendar tool, `start_time` at 10:00 India time reaches the tool as `start_datetime` at 04:30 UTC: conversion runs before the rename |
| MemoryBridge.ProjectKeepsOrderAndFields | backend/memory_handler.py:25-31 | the memory list keeps the records' order and exactly their `memory` and `updated_at` values, and exists exactly when every record has both |
| MemoryBridge.LoadSeedShape | backend/memory_handler.py:9-45 | loading yields the default user and at most one turn: nothing (and an empty `memory_str`), or one assistant seed turn that embeds the user name and the serialised memory list of the fetched records, which reads back as exactly their projected entries |
| MemoryBridge.SeedTextEmbeds | backend/memory_handler.py:34-37 | the seed text contains both the user name and `memory_str` |
| MemoryBridge.LoadSeedsFoundMemories | backend/memory_handler.py:15-45 | when a key is set and the fetch returns a non-empty list of complete records, the context is exactly the seed turn carrying the serialised list, which is also `memory_str`; the context is seeded only then; a record missing a field gives the fallback |
| MemoryBridge.LoadFallbacks | backend/memory_handler.py:11-45 | without an API key, when fetching raises, or when there are no results, loading gives an empty context, empty `memory_str` and the default user |
| Json.EncodeMemoriesShape | backend/memory_handler.py:32 | the serialised memory list is bracketed, non-empty, and pure printable ASCII whatever the memories hold |
| Json.DecodeEncodeMemories | backend/memory_handler.py:32 | reading the serialised list back as JSON gives exactly the entries, in order, with every memory and timestamp intact, including quotes, backslashes, control characters and characters outside ASCII |
| Json.EncodeMemoriesInjective | backend/memory_handler.py:32 | different memory lists never serialise to the same text |
| Json.EscapeCharReadsBack | backend/memory_handler.py:32 | every escape `ensure_ascii` writes, including surrogate pairs above the Basic Multilingual Plane, reads back as its character |
| Text.StripIsTrimmedInfix | backend/memory_handler.py:74-79 | the stripped text is an infix of the original, only white space was removed from each side, and it neither starts nor ends with white space |
| Text.StripEmptyIffBlank | backend/memory_handler.py:74 | stripping yields the empty string exactly when the text is all white space |
| Text.StripIdempotent | backend/memory_handler.py:79 | stripping twice is stripping once |
| Text.ContainsInStripped | backend/memory_handler.py:74-79 | whatever the stripped text contains, the original contains too |
| MemoryBridge.FirstContentPicksFirst | backend/memory_handler.py:63-72 | the content is read from the first of `content`, `text`, `message`, `text_content` that is present and not `None` |
| MemoryBridge.FirstContentNone | backend/memory_handler.py:63-72 | without any such attribute the content is empty |
| MemoryBridge.KeepItemAdmissible | backend/memory_handler.py:57-80 | every message a turn contributes has a user or assistant role and stripped, non-empty content not holding a non-empty `memory_str` |
| MemoryBridge.SaveBatch | backend/memory_handler.py:55-84 | the batch holds every message any turn contributes, only admissible messages, and at most one message per turn |
| MemoryBridge.SaveBatchKeepsEveryTurn | backend/memory_handler.py:55-84 | every readable user or assistant turn whose text is not excluded has its role and stripped text in the batch |
| MemoryBridge.KeepReadableTurn | backend/memory_handler.py:57-80 | a user or assistant turn whose content reads to a text that is not excluded contributes its role and stripped text, whatever attribute and kind of value held it |
| MemoryBridge.KeepListTurn | backend/memory_handler.py:63-80 | a turn whose content is a list of parts contributes the joined, stripped parts unless the joined text is excluded |
| MemoryBridge.SaveBatchConcat | backend/memory_handler.py:55-84 | turns are judged one by one: the batch of a concatenation is the concatenation of the batches |
| MemoryBridge.SaveBatchMembers | backend/memory_handler.py:55-84 | a message is in the batch exactly when some turn contributes it |
| MemoryBridge.CollectMessages | backend/memory_handler.py:51-84 | the loop over the turns, skipping any turn whose processing raises, computes the batch |
| MemoryBridge.ShutdownWritesOnce | backend/memory_handler.py:86-99 | at most one write, keyed by the user name, carrying the whole batch, issued exactly when the batch is non-empty |
| MemoryBridge.SeedNeverSavedBack | backend/memory_handler.py:74-75 | the seed turn from loading never reaches the batch: whatever follows the loaded context, the batch is that of the new turns alone |
| MemoryBridge.SeedOnlyContextWritesNothing | backend/memory_handler.py:86-99 | a context holding only what loading put there causes no write |
| MemoryBridge.EmptyMemoryExcludesNothing | backend/memory_handler.py:74-80 | with an empty `memory_str` every readable, non-blank user or assistant turn contributes its stripped content |
| MemoryBridge.OtherRolesSkipped | backend/memory_handler.py:58-60 | turns with a role other than user or assistant contribute nothing |
| MemoryBridge.KeepPlainTurn | backend/memory_handler.py:63-80 | a plain-text user or assistant turn that is not excluded contributes its role and stripped text |
| MemoryBridge.TwoTurnsBatch | backend/memory_handler.py:55-84 | a user turn and an assistant turn whose contents read to non-excluded texts are saved as two messages, in order |
| MemoryBridge.TwoNewTurnsOneWrite | backend/memory_handler.py:48-99 | after loading, one new user turn and one new assistant turn whose contents read to non-excluded texts give exactly one write of two messages, in order, for the loaded user |
| MemoryBridge.TwoEngineTurnsOneWrite | backend/memory_handler.py:48-99 | the same for turns stored with list content, as the conversation engine stores them |
| EnvConfig.MissingFrom | backend/config.py:20 | the missing list holds exactly the keys that are unset or empty, in their order, and is empty exactly when every key is set |
| EnvConfig.MissingExact | backend/config.py:11-20 | the missing required keys are named exactly, in declared order, each once |
| EnvConfig.MissingReportedFirst | backend/config.py:20-22 | missing variables are reported before the URL is looked at, with the list in the message |
| EnvConfig.UrlChecked | backend/config.py:24-27 | with every variable set, validation succeeds exactly when the URL starts with `http://` or `https://` |
| EnvConfig.ValidIff | backend/config.py:18-27 | validation succeeds exactly when all four required variables are non-empty and the URL has an `http://` or `https://` prefix |

## Left out

- Transport and process wiring are not part of this model:
  - `main.py` and `agent.py` (agent start-up, the conversation engine, speech and avatar
    services);
  - the registration of the shutdown hook;
  - logging;
  - the `Config` constants other than `DEFAULT_USER`.
- The MCP client and its sessions, the memory service client, and `os.getenv` are replaced
  by parameters (`ToolCall.Session`, the `fetched` outcome of `MemoryBridge.LoadMemories`,
  `EnvConfig.Env`). Opening a session, listing tools and invoking a tool are not modelled
  beyond their outcome.
- ToolCall.InvokeTool: only `Exception` is caught (mcp_handler.py:168). Cancellation
  (`asyncio.CancelledError`) and other `BaseException`s propagate out of the wrapper, and
  the model has no outcome for them. A failure while the session closes after a
  successful `return` inside `async with` (mcp_handler.py:152-166) would replace the
  result with the error text. `ToolCall.Session` has no closing step, so that case is
  not modelled either.
- MemoryBridge.LoadMemories: constructing the memory client is assumed not to raise. The
  source constructs it outside any `try` on the no-key and error paths
  (memory_handler.py:13, 45), so a failing constructor would propagate from there.
- `initialize_mcp_client` is summarised by the `discovery` outcome of
  `ToolAdapter.LoadAndConvert`. An empty URL, or a discovery that raises, gives an empty
  registry.
- Which wrapper constructions raise is a parameter: the `rejected` positions of
  `ToolAdapter.LoadAndConvert`. The model does not derive it from Python reflection.
- The wrapper's Python machinery is described by data (`ToolAdapter.SigParam`), not built:
  `inspect.Signature`, `__annotations__`, `function_tool`.
- The JSON rendering of a tool's structured result (`json.dumps(result, indent=2)`) is
  abstract. It is carried as `RawResult.Structured`, including the possibility that it
  raises.
- `ToolCall.PrepareArgs` takes the ISO-8601 converter as a parameter. `IsoTime.IsoToUtc`
  models it only for `YYYY-MM-DDTHH:MM:SS±HH:MM`, and reports every other text as
  `Unparsable`. Python's `fromisoformat` accepts more forms: dates alone, fractions of a
  second, `Z`, and naive times, which `astimezone` reads in the host's time zone.
- IsoTime.IsoToUtc: offsets with seconds are not modelled.
- IsoTime.FormatUtc: years are always written with four digits. Some platforms' `strftime`
  writes years below 1000 without leading zeros.
- Text.Lower: lower-cases ASCII capitals only. Python's `str.lower` also maps non-ASCII
  capitals; tool names are ASCII in practice.
- MemoryBridge.Content: a list's elements are given by their `str()` text. Non-text
  content parts (images, audio) are not modelled separately.
- A record's `memory` and `updated_at` values are taken to be strings. Other JSON values in
  those fields are not modelled.
- A failed write at shutdown is swallowed by the source. `MemoryBridge.ShutdownHook`
  returns the write it issues and does not model the write's result.
- The second MCP server and the repackaging of its arguments are commented out in the
  source, and are not modelled.
