# ChatGPT export to Markdown: a Dafny model of the conversion core

This project models the pure pipeline of the ChatGPT export importer, which turns one
decoded conversation into a Markdown document. It has three stages.

- **Content parts** (`content_parts.dfy`, module `ContentParts`). A raw content part is
  a legacy bare string, a JSON null or a structured object. `Decode` gives the decoded
  record each shape becomes. `ProcessParts` maps each record to zero, one or several
  normalised `Part`s:
  - non-empty text wins;
  - an `audio_transcription` part gives one part with every field empty (its text is
    already known to be empty, cmd/gpt.go:120); it prints nothing but still counts as
    content, so its message is emitted;
  - the three asset-pointer types give the whole part as one asset;
  - a real-time audio/video part gives its audio pointer, video pointer and non-nil
    frame pointers, in that order;
  - anything else gives nothing.
- **Lineariser** (`linearizer.dfy`, module `Linearizer`). `GetConversationMessages`
  follows parent links from the current node through the node map. It skips nodes
  without a message, relabels authors, and keeps `text`/`multimodal` messages whose
  normalised parts are non-empty. It then reverses the leaf-first accumulator into
  chronological order. A missing id ends the walk, because the map lookup gives the
  zero node, whose parent is the empty id.
- **Markdown composer** (`markdown.dfy`, module `Markdown`). `Render(title, messages)`
  writes a `# title` heading, then one block per message: a bold author line, the part
  bodies (text over transcript over asset) and a `---` rule. `ComposeMarkdown` is
  `Render` applied to the lineariser's output.

Each loop of the original has a method counterpart proved equal to the functional
definition:
- `ProcessPartsLoop`, `AppendPart` and `AppendFrames`;
- `GetConversationMessagesLoop`, with the in-place swap loop `ReverseInPlace`;
- `ComposeMarkdownLoop` and `WriteBodies`.

Termination. The walk has no cycle guard. `Ends(m, id, fuel)` says the walk halts
within `fuel` iterations. The precondition `Terminates(c)` asks for `|mapping| + 1`
iterations. `TerminationBound` proves that every walk that halts at all halts within
that bound. So the precondition holds exactly when the walk halts.

Two behaviours of the code that are easy to miss:
- A `system` message whose user-system flag is false is **still emitted**, under the
  raw label `"system"`. The guard in cmd/gpt.go:176 only gates the relabelling; the
  emission at cmd/gpt.go:185-192 does not check it. See
  `Linearizer.UnflaggedSystemMessageIsEmitted`.
- Every transcript is empty. cmd/gpt.go:113 has already taken every part with
  non-empty text, so the transcript built at cmd/gpt.go:120 copies an empty string.
  The normalised part (cmd/gpt.go:27-31) then has all three fields at their zero
  value, and the renderer's `[Transcript]` branch (cmd/markdown.go:30-32) is never
  reached. See `ContentParts.TranscriptsAlwaysEmpty` and
  `Markdown.TranscriptBranchUnreachable`.

## Model

| member | source | states |
|---|---|---|
| ContentParts.Decode | cmd/gpt.go:70-89 | a bare string decodes to a record with only that text (empty content type, no pointers, no frames); a null decodes to the all-zero record; an object decodes to the record whose object shape is the input |
| ContentParts.NullPartIsSilent | cmd/gpt.go:81-88 | a JSON null part decodes like the empty object and normalises to nothing |
| ContentParts.DecodeEncode | cmd/gpt.go:70-89 | decoding the object shape of a record gives the record back, and a bare string decodes exactly like the object with that text and nothing else |
| ContentParts.NormalizePart | cmd/gpt.go:113-136 | one raw part yields exactly as many parts as the fan-out table says, and every one is a pure text part, a pure asset part or an empty part: none carries a transcript |
| ContentParts.ProcessParts | cmd/gpt.go:109-140 | the output length is the sum of the per-part fan-outs, and every output part has one of the three canonical shapes |
| ContentParts.TextTakesPrecedence | cmd/gpt.go:113-116 | a part with non-empty text yields exactly one text part with that text, whatever its content type |
| ContentParts.RealTimeOrder | cmd/gpt.go:123-134 | a real-time part with empty text yields its audio pointer, then its video pointer, then its non-nil frames, with count present(audio) + present(video) + the number of non-nil frames |
| ContentParts.FramePartsAppend | cmd/gpt.go:130-134 | the frame loop is compositional: frames of a concatenation yield the parts of each half, in order |
| ContentParts.FramesSkipNil | cmd/gpt.go:130-134 | frames `[A, nil, B]` yield exactly two asset parts, for A then B |
| ContentParts.ProcessPartsAppend | cmd/gpt.go:112-137 | output order follows input order: normalising a concatenation concatenates the results |
| ContentParts.ProcessPartsEmpty | cmd/gpt.go:109-140 | a content list normalises to nothing exactly when every part in it fans out to nothing |
| ContentParts.TranscriptPartIsSilent | cmd/gpt.go:119-120 | an `audio_transcription` part with empty text yields exactly one part with every field empty, so the content list is non-empty yet prints nothing |
| ContentParts.TranscriptsAlwaysEmpty | cmd/gpt.go:113-120 | every normalised part has an empty transcript |
| ContentParts.LegacyStringPart | cmd/gpt.go:72-78 | a bare string `s` normalises to one text part `s` when non-empty and to nothing when empty |
| ContentParts.ProcessPartsLoop | cmd/gpt.go:109-140 | the append loop over the raw parts computes `ProcessParts` |
| ContentParts.AppendPart | cmd/gpt.go:113-136 | one iteration of the loop appends exactly the parts of that raw part |
| ContentParts.AppendFrames | cmd/gpt.go:130-134 | the frame loop appends one asset part per non-nil frame |
| Linearizer.AuthorLabel | cmd/gpt.go:172-182 | for a message with raw parts the guarded relabelling equals the pure role/flag table (assistant and tool become CHATGPT, a flagged system message becomes Custom User Info, anything else is unchanged); without raw parts the role is kept |
| Linearizer.Emit | cmd/gpt.go:170-193 | a node emits at most one message; it emits one exactly when it has a message of type text or multimodal whose normalised parts are non-empty; the emitted message carries those parts under the relabelled author |
| Linearizer.UnflaggedSystemMessageIsEmitted | cmd/gpt.go:176-192 | a system text message without the user flag is emitted under the raw label "system"; with the flag it is emitted as "Custom User Info" |
| Linearizer.IneligibleTypeIsDropped | cmd/gpt.go:185-193 | a message whose type is neither text nor multimodal emits nothing, whatever its parts |
| Linearizer.Ancestry | cmd/gpt.go:169-196 | the ids visited that are present in the map form a parent-linked path that starts at the current node and ends at a node whose parent is empty or missing |
| Linearizer.WalkIsEmitAll | cmd/gpt.go:169-196 | the messages accumulated by the walk are those emitted along the ancestry path, leaf first; message-less nodes are followed but contribute nothing |
| Linearizer.WalkFuel | cmd/gpt.go:169-196 | the accumulated messages do not depend on the iteration bound, once it is large enough |
| Linearizer.AncestryDistinct | cmd/gpt.go:169-196 | a walk that halts never visits the same node twice |
| Linearizer.TerminationBound | cmd/gpt.go:169-196 | a walk that halts at all halts within one more iteration than the map has nodes |
| Linearizer.Reverse | cmd/gpt.go:198-201 | element k of the reverse is element n-1-k of the input |
| Linearizer.ReverseInPlace | cmd/gpt.go:198-201 | the two-index swap loop computes exactly the reverse |
| Linearizer.EmitAllReverse | cmd/gpt.go:198-201 | since each node emits at most one message, reversing node order reverses message order |
| Linearizer.EmptyStart | cmd/gpt.go:167-170 | an empty current node, or one missing from the map, yields no messages (and the walk halts) |
| Linearizer.ChronologicalOrder | cmd/gpt.go:169-201 | the result equals emitting along the root-to-leaf path: reversing the leaf-to-root walk is the same as walking forward from the root |
| Linearizer.EmittedMessagesWellFormed | cmd/gpt.go:170-192 | every returned message comes from a node on the ancestry path that has a text/multimodal message; it carries that message's non-empty normalised parts under the relabelled author |
| Linearizer.GetConversationMessagesLoop | cmd/gpt.go:165-204 | the walk loop with its zero-value lookup, followed by the swap loop, computes `GetConversationMessages` |
| Markdown.Render | cmd/markdown.go:18-42 | with no messages the document is exactly the heading |
| Markdown.HeadingPrefix | cmd/markdown.go:20 | every document starts with `"# " + title + "\n\n"` |
| Markdown.RenderAppend | cmd/markdown.go:23-39 | appending a message appends exactly the author line, its part bodies in order, and the separator `"\n---\n\n"` |
| Markdown.TextBody | cmd/markdown.go:27-29 | a part with non-empty text prints the text verbatim plus a blank line, whatever else it carries |
| Markdown.AssetBodyIgnoresAsset | cmd/markdown.go:33-35 | every asset-only part prints the same fixed placeholder, whatever its asset |
| Markdown.SilentPartIsInvisible | cmd/markdown.go:27-36 | a part with no text, no transcript and no asset prints nothing |
| Markdown.TitleRoundTrip | cmd/markdown.go:20 | a title without line breaks is read back from the document's first line |
| Markdown.TranscriptBranchUnreachable | cmd/markdown.go:30-32 | every part the lineariser produces has an empty transcript, so its body is its text, the asset placeholder or nothing |
| Markdown.ExampleRender | cmd/markdown.go:20-38 | the user "Hi" / CHATGPT "Hello!" messages under title "Test" render to the exact expected document |
| Markdown.WorkedExample | cmd/markdown.go:18-42 | the two-node conversation (user "Hi" as parent of assistant "Hello!") composes to the exact expected document |
| Markdown.ComposeMarkdownLoop | cmd/markdown.go:18-42 | the string-builder loop computes `ComposeMarkdown` |
| Markdown.WriteBodies | cmd/markdown.go:26-37 | the inner loop appends the part bodies in order |

## Left out

- Reading the export file and the JSON library decoding (cmd/gpt.go:146-158 and the `json.Unmarshal` calls in cmd/gpt.go:70-89) are not modelled. Conversations are given as already-decoded datatypes. `RawPart` records only which JSON shape a part had.
- ContentParts.Decode: a part that is a JSON number, boolean or array, or an object with a wrongly typed field, is a decoding error in the original. Such input is not representable here. A JSON null is not an error: it decodes to the all-zero record, modelled by `RawPart.Null`.
- Strings are modelled as sequences of characters, while Go strings are byte sequences. The core only concatenates and compares strings, so nothing here depends on the difference.
- Writing the document (cmd/markdown.go:48-61) is not modelled. It names the file from the wall clock, creates directories and writes the file.
- The command-line layer in cmd/root.go is not modelled. It covers flag parsing, the limit clamp, title sanitising, the batch loop and printing.
- The contents of an asset pointer are not modelled; its record has no fields. A pointer is an opaque handle, and the untyped asset field is `Option<Asset>`.
- Linearizer.GetConversationMessages: a cyclic parent chain makes the original loop forever. The model requires `Terminates`, and `TerminationBound` shows that this excludes exactly the non-halting walks.
