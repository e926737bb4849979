# Verified models of the XMPP drivers and of the call manager

Five components are modelled, and properties of them proved for all inputs and all runs:

- **The stringprep normaliser** (`exmpp_stringprep.c`). `CanonicalOrdering`, `UnicodeTables`,
  `Composition`, `Utf8`, `Mapping` and `Stringprep` follow the driver's loops on arrays and
  growing buffers. Each in-place loop is proved equal to a short specification: D109, D115 and
  D117 of section 3.11 of the Unicode Standard, section 3.12 for Hangul, section 3 of RFC 3629,
  sections 3 to 6 of RFC 3454. The generated tables stay abstract; `UnicodeTables.Sound` and
  `Composition.Inverts` say what is assumed of them.
- **The streaming XML builder** (`exmpp_xml.c`, `exmpp_xml_expat.c`). `Terms`, `XmlBuilder`,
  `XmlShape` and `XmlDriver` treat it as a one-pass compiler from parser events to the external
  form of Erlang terms, against a recursive encoding of the document. `XmlPort` holds the
  fields and the methods that change them, each proved equal to the step on values. `KnownNames`
  decides which names become atoms.
- **The chained hash table** (`exmpp_driver.c`). `HashTable` has the bucket array, the linked
  entries and the rehashing, as a finite map.
- **The call-control queue** (`ecallmgr_call_control.erl`). `CallControl` is the state machine
  over its messages, with outages and forced advances.
- **The AMQP worker pool** (`ecallmgr_amqp_pool.erl`, `ecallmgr_amqp_pool_worker.erl`).
  `WorkerPool` interleaves the pool, its workers and the messages between them in every order
  that keeps each sender's messages to one receiver in sequence.

The parser (expat) is an oracle that delivers the events of well-nested documents; the
environment's choices (whether publishing succeeds, what the supervisor counts, when a process
dies) are part of the events.

## What the code does not do

These are results of the proofs, each with the condition under which the code is right.

- Case folding loses characters: `ADD_DECOMP` and the loop around it share the index `j`, so a
  folded character that decomposes makes the loop jump (`Mapping.IotaLost`,
  `Mapping.MapsAsIntendedExactly`).
- An LV syllable followed by U+11A7 is composed to the syllable alone
  (`Composition.TBaseSwallowed`, `UnicodeTables.HangulFollowsStandardExactly`); so is a leading
  consonant and a vowel followed by it (`Composition.SwallowsExactly`).
- The size limit named after a stanza applies to the whole stream since the parser was created
  or reset (`XmlDriver.LimitIsOnTheStream`).
- A start tag rejected after its namespace declarations were reported leaves them behind: a
  reset does not clear them, and the first element of the next document gets them
  (`XmlDriver.ErrorLeaksNamespace`, `XmlDriver.ResetAfterError`). After accepted data a reset
  is complete (`XmlDriver.ResetBetweenCommands`).
- With a root depth below -1 no tree is ever completed (`XmlBuilder.DocumentNeverCompletes`).
- Expanding the hash table turns every search round, so of two entries with one key the older
  is found where the newer was (`HashTable.ExpansionTurnsSearch`). The callers look a key up
  before they store it, so that they never make such entries.
- A batch inserted at the tail of the command queue is queued in reverse list order, which the
  module's header (lines 14 to 21) does not lead one to expect
  (`CallControl.TailBatchInOrderExactly`).
- A command that completes during an outage leaves the queue stalled after the reconnection,
  until the next message or forced advance (`CallControl.ReconnectedButStalled`,
  `CallControl.RunStallsExactly`).
- `store` has no completion event, so it blocks the queue until a forced advance
  (`CallControl.StoreBlocks`, `CallControl.BlockedForEver`).
- A worker whose publication fails stays alive and is never used again, and so does one told to
  stop while handlers are active: it posts `stop` to itself as a plain message, which
  `gen_listener.erl` (lines 226 to 234) handles only as a cast (`WorkerPool.MessageObeyed`, `WorkerPool.NeverTakenBack`).
- The pool asks the chosen worker for its queue name before it employs it, so a worker that died
  unnoticed takes the pool down; so does a replacement that does not start, and a mean duration
  that is rounded to zero (`WorkerPool.FailsExactly`).

## Assumptions and conventions

- `exmpp_driver.c:380` clears the old bucket array where the loop after it needs the new one
  cleared. The model zeroes the new table, which is the evident intent.
- `UnicodeTables.Sound`: table values are code points, a decomposition is not empty, the
  decomposition of the j-th folded character (counted from 0) is longer than j (without which
  the folding loop would not end), a pair composes only if its first character is a starter,
  and then to a starter. `Composition.Inverts` and `MarksAtomic` relate the tables to the
  canonical decompositions and are needed only for the theorems on equivalence.
- `UnicodeTables.HangulByRule` is the one further assumption on the tables, needed where the
  place of U+11A7 decides: Hangul characters are starters and compose by the rules of section
  3.12 alone.
- `UnicodeTables.Encodes` says how composition words stand for a relation of pairs to composites.
  The theorems on pairs hold for tables that encode one; a character whose pairs are all named by
  the other character has no word of its own.
- The lists of known names belong to the driver, not to one of its ports
  (`exmpp_xml.c:22-23`). The runs of `KnownNames.Run` are what one port notices: its own commands
  and the updates of every port (`KnownNames.PortsAgree`).
- That a start tag with an unbound prefix is rejected after its declarations were reported is
  taken from the way expat works, which is not part of this model.
- A run of the pool begins when its first workers have started.
- `KnownNames.MAXATOMLEN` is 255, the value of `ei.h`, which is not part of this model's sources.
- Values in the hash table are not NULL. The load limit is the exact ceiling of 65/100 of the
  length. Hash words are unsigned numbers below 2^32.
- A default header merged into a command, and the name under which a command is validated, are
  part of the command. An immediate batch runs the commands without the merged headers, as the
  code does.
- The worker pool numbers processes and requests; a request's number also stands for the monitor
  reference created for it. Quotients in the reduction are rounded exactly, halves away from zero.

## Model

| member | source | states |
|---|---|---|
| CanonicalOrdering.Percolate | lib/exmpp-0.9.8-05-g6987a0a/c_src/exmpp_stringprep.c:332-340 | the inner loop, in place: the mark moves left exactly past the marks of greater class, everything after it is untouched, and the class the outer loop then remembers is that of the last character |
| CanonicalOrdering.CanonicalOrder | lib/exmpp-0.9.8-05-g6987a0a/c_src/exmpp_stringprep.c:324-345 | the whole pass, in place: the first `len` cells hold the sorted string, the rest are untouched |
| CanonicalOrdering.Confluence | lib/exmpp-0.9.8-05-g6987a0a/c_src/exmpp_stringprep.c:324-345 | confluence (D109): two strings are sorted to the same array if and only if some path of swaps of adjacent marks with distinct non-zero classes leads from one to the other |
| CanonicalOrdering.StableSort | lib/exmpp-0.9.8-05-g6987a0a/c_src/exmpp_stringprep.c:324-345 | an array is the sorted form of a string if and only if its classes never decrease except before a starter and, for every class, the starters and the marks of that class come in the order they had |
| CanonicalOrdering.ReorderFixpoint | lib/exmpp-0.9.8-05-g6987a0a/c_src/exmpp_stringprep.c:324-345 | a second run changes nothing; a string is left alone if and only if it is ordered |
| CanonicalOrdering.ReorderPermutes | lib/exmpp-0.9.8-05-g6987a0a/c_src/exmpp_stringprep.c:324-345 | the result is a permutation and every starter keeps its index |
| CanonicalOrdering.SwapKeepsReorder | lib/exmpp-0.9.8-05-g6987a0a/c_src/exmpp_stringprep.c:324-345 | one swap of adjacent marks with distinct classes does not change the sorted form |
| CanonicalOrdering.ReorderReachable | lib/exmpp-0.9.8-05-g6987a0a/c_src/exmpp_stringprep.c:324-345 | the sorted form is reached from the string by such swaps alone |
| UnicodeTables.HangulRoundTrip | lib/exmpp-0.9.8-05-g6987a0a/c_src/exmpp_stringprep.c:351-363 | composing the arithmetic decomposition of any Hangul syllable (section 3.12 of the Unicode Standard) gives the syllable back |
| UnicodeTables.HangulFollowsStandardExactly | lib/exmpp-0.9.8-05-g6987a0a/c_src/exmpp_stringprep.c:358-363 | on characters outside the tables, pair composition is that of section 3.12 if and only if the pair is not an LV syllable followed by U+11A7 (the inclusive lower bound) |
| UnicodeTables.ComposeExactly | lib/exmpp-0.9.8-05-g6987a0a/c_src/exmpp_stringprep.c:347-387 | with composition words that encode a relation of pairs to composites, two characters compose to what section 3.12 says (U+11A7 as above), and otherwise to what the relation says, or not at all when the pair is not in it |
| Composition.ComposedByPairs | lib/exmpp-0.9.8-05-g6987a0a/c_src/exmpp_stringprep.c:261-286 | with such words, the composed string is that of D117 on the relation itself, without the tables |
| Composition.AcuteComposed | lib/exmpp-0.9.8-05-g6987a0a/c_src/exmpp_stringprep.c:382-384 | with the generated words of U+0065 and U+0301, the two are composed to U+00E9 |
| Composition.BlockedByLast | lib/exmpp-0.9.8-05-g6987a0a/c_src/exmpp_stringprep.c:263-286 | on an ordered string the existential "blocked" test of D115 is decided by the last kept character alone |
| Composition.GuardIsMerges | lib/exmpp-0.9.8-05-g6987a0a/c_src/exmpp_stringprep.c:267-270 | the guard of the loop, which looks at `cclass_prev` only, holds if and only if D117 merges the character into the last starter |
| Composition.ComposeInPlace | lib/exmpp-0.9.8-05-g6987a0a/c_src/exmpp_stringprep.c:261-286 | the in-place loop computes D117 with the quantified test of D115, on the tables and on any relation of pairs that they encode; the result is not empty, is canonically ordered again, and is shorter than the input by the number of successful compositions |
| Composition.ComposedLength | lib/exmpp-0.9.8-05-g6987a0a/c_src/exmpp_stringprep.c:261-286 | the length of a composed string and the number of successful compositions make the length of the input |
| Composition.MergeKeepsMeaning | lib/exmpp-0.9.8-05-g6987a0a/c_src/exmpp_stringprep.c:267-273 | one merge keeps the canonical decomposition equivalent, unless it swallows U+11A7, which shortens it by one character |
| Composition.SwallowsExactly | lib/exmpp-0.9.8-05-g6987a0a/c_src/exmpp_stringprep.c:358-363 | composing a string swallows a U+11A7 if and only if the string holds one right after an LV syllable, or right after a leading consonant and a vowel |
| Composition.CompositionIsEquivalent | lib/exmpp-0.9.8-05-g6987a0a/c_src/exmpp_stringprep.c:261-286 | composition yields a canonically equivalent string if and only if the string holds no U+11A7 in such a place |
| Composition.NormalizationIsEquivalent | lib/exmpp-0.9.8-05-g6987a0a/c_src/exmpp_stringprep.c:256-286 | ordering followed by composition yields a canonically equivalent string if and only if the string, before it is ordered, holds no U+11A7 in such a place |
| Composition.NoSwallowWithoutTBase | lib/exmpp-0.9.8-05-g6987a0a/c_src/exmpp_stringprep.c:358-363 | a string without U+11A7 never has one swallowed |
| Composition.TBaseSwallowed | lib/exmpp-0.9.8-05-g6987a0a/c_src/exmpp_stringprep.c:358-363 | U+AC00 U+11A7 is composed to U+AC00, though the two are not canonically equivalent |
| Composition.CompositionInRange | lib/exmpp-0.9.8-05-g6987a0a/c_src/exmpp_stringprep.c:261-286 | composing code points gives code points |
| Utf8.EncodeThenDecode | lib/exmpp-0.9.8-05-g6987a0a/c_src/exmpp_stringprep.c:49-85 | decoding the encoding of any sequence of code points up to 0x10FFFF gives the sequence back |
| Utf8.DecodeThenEncode | lib/exmpp-0.9.8-05-g6987a0a/c_src/exmpp_stringprep.c:185-231 | re-encoding any accepted input is never longer than that input, and is the same bytes if and only if the input is well-formed in the sense of section 4 of RFC 3629, surrogates admitted |
| Utf8.Rfc3629Exactly | lib/exmpp-0.9.8-05-g6987a0a/c_src/exmpp_stringprep.c:185-231 | every string of section 4 of RFC 3629 is accepted, and those strings are exactly the accepted ones that re-encode to themselves and hold no surrogate |
| Utf8.UnitExactly | lib/exmpp-0.9.8-05-g6987a0a/c_src/exmpp_stringprep.c:185-231 | a character is decoded from the first bytes if and only if they are a lead byte 00..7F, C0..DF, E0..EF or F0..F7 with exactly 0, 1, 2 or 3 bytes 80..BF after it, and their base-64 value is at most 0x10FFFF; the character is that value |
| Utf8.DecodeExactly | lib/exmpp-0.9.8-05-g6987a0a/c_src/exmpp_stringprep.c:185-231 | a buffer is decoded as a string if and only if it splits into such units, one for each character |
| Utf8.MalformedExactly | lib/exmpp-0.9.8-05-g6987a0a/c_src/exmpp_stringprep.c:185-231 | a buffer is malformed if and only if it splits into such units for no string |
| Utf8.BadStartRejected | lib/exmpp-0.9.8-05-g6987a0a/c_src/exmpp_stringprep.c:185-231 | after any accepted text a stray tail, a lead from F8 up, or a unit cut short or interrupted makes the whole buffer malformed |
| Mapping.FoldedExactly | lib/exmpp-0.9.8-05-g6987a0a/c_src/exmpp_stringprep.c:96-108 | the folding loop, whose index the decomposition copy shares, never yields more than folding every character, and yields the same if and only if it never jumps |
| Mapping.MapsAsIntendedExactly | lib/exmpp-0.9.8-05-g6987a0a/c_src/exmpp_stringprep.c:233-251 | a whole string is mapped as its tables say if and only if no folded character other than the last decomposes into a number of characters different from its position |
| Mapping.IotaLost | lib/exmpp-0.9.8-05-g6987a0a/c_src/stringprep_uni_data.h:1080 | with the generated entries for U+1F80, U+1F00 and U+03B9, folding U+1F80 gives U+03B1 U+0313 and loses the final iota |
| Mapping.MappedInRange | lib/exmpp-0.9.8-05-g6987a0a/c_src/exmpp_stringprep.c:233-251 | mapping code points gives code points |
| Stringprep.CodePointBuffer.Add | lib/exmpp-0.9.8-05-g6987a0a/c_src/exmpp_stringprep.c:87-94 | appends one code point; a full buffer grows to 2n + 1 first, so that the write is inside it |
| Stringprep.CodePointBuffer.AddDecomp | lib/exmpp-0.9.8-05-g6987a0a/c_src/exmpp_stringprep.c:96-108 | appends a decomposition (or the character) and leaves in the caller's index the length of the decomposition, or the index itself when there is none |
| Stringprep.ByteBuffer.Append | lib/exmpp-0.9.8-05-g6987a0a/c_src/exmpp_stringprep.c:49-85 | appends the bytes of one character; when they do not fit the buffer grows to 2n plus their number first |
| Stringprep.ByteBuffer.AddChar | lib/exmpp-0.9.8-05-g6987a0a/c_src/exmpp_stringprep.c:49-85 | appends the encoding of one character |
| Stringprep.DecodeAndMap | lib/exmpp-0.9.8-05-g6987a0a/c_src/exmpp_stringprep.c:180-252 | the loop over the input: it fails if and only if the decoder rejects the bytes, and else leaves the mapping of all decoded characters |
| Stringprep.MapChar | lib/exmpp-0.9.8-05-g6987a0a/c_src/exmpp_stringprep.c:233-251 | one character: mapped to nothing, decomposed, folded by an offset, or folded to several characters |
| Stringprep.MapFolded | lib/exmpp-0.9.8-05-g6987a0a/c_src/exmpp_stringprep.c:239-244 | the folding loop with its shared index |
| Stringprep.CheckAndEncode | lib/exmpp-0.9.8-05-g6987a0a/c_src/exmpp_stringprep.c:288-315 | the final loop succeeds if and only if no code point is prohibited and the bidi rule of section 6 of RFC 3454 holds on the whole string; then the reply is byte 1 and the encoding of the string |
| Stringprep.Control | lib/exmpp-0.9.8-05-g6987a0a/c_src/exmpp_stringprep.c:113-322 | the whole command: the reply is the one specified for its input |
| Stringprep.AcceptedExactly | lib/exmpp-0.9.8-05-g6987a0a/c_src/exmpp_stringprep.c:254-315 | the reply is byte 0 on malformed input, byte 1 alone when everything is mapped to nothing, and otherwise is accepted if and only if the normalized string is acceptable; an accepted reply decodes to that string |
| Stringprep.CommandsProhibit | lib/exmpp-0.9.8-05-g6987a0a/c_src/exmpp_stringprep.c:151-170 | which characters each command prohibits: the reply is accepted if and only if the normalized string holds none of them and keeps the bidi rule, written out |
| Stringprep.CommandsFold | lib/exmpp-0.9.8-05-g6987a0a/c_src/exmpp_stringprep.c:151-170 | which commands fold case: for those the mapping is the one intended if and only if every character folds in step, and the others only map to nothing and decompose |
| Stringprep.CaseFolded | lib/exmpp-0.9.8-05-g6987a0a/c_src/exmpp_stringprep.c:151-251 | with plain entries for U+0041 and U+0061, `A` is prepared to `a` by the commands that fold and to itself by the others |
| Stringprep.MalformedRefused | lib/exmpp-0.9.8-05-g6987a0a/c_src/exmpp_stringprep.c:185-231 | input that spells no characters, or that goes on after accepted text with bytes that start none, gets byte 0, whatever the command |
| Stringprep.StrayTailRefused | lib/exmpp-0.9.8-05-g6987a0a/c_src/exmpp_stringprep.c:189-190 | an input: the bytes 80 41 get byte 0 |
| Stringprep.EquivalentInputsAgree | lib/exmpp-0.9.8-05-g6987a0a/c_src/exmpp_stringprep.c:256-315 | inputs that map to canonically equivalent strings get the same reply |
| Stringprep.AcceptedMeansEquivalent | lib/exmpp-0.9.8-05-g6987a0a/c_src/exmpp_stringprep.c:256-315 | an accepted reply is canonically equivalent to the mapped input if and only if that holds no U+11A7 in such a place |
| Terms.ReadExactly | lib/exmpp-0.9.8-05-g6987a0a/c_src/exmpp_xml.c:302-392 | a token string is read as a list of terms if and only if it is their encoding |
| Terms.OpenTails | lib/exmpp-0.9.8-05-g6987a0a/c_src/exmpp_xml.c:334-389 | a term with k open list tails is completed by k empty lists and by no other number of them |
| KnownNames.Port.UpdateList | lib/exmpp-0.9.8-05-g6987a0a/c_src/exmpp_xml.c:753-779 | adds the items up to the first that is not an atom, and succeeds if and only if all are atoms |
| KnownNames.Port.AddKnown | lib/exmpp-0.9.8-05-g6987a0a/c_src/exmpp_xml.c:781-827 | creates a missing list (a namespace list with the XML namespace in it) and updates it; a failed update keeps what it had added |
| KnownNames.Port.Select | lib/exmpp-0.9.8-05-g6987a0a/c_src/exmpp_xml.c:830-898 | `false` switches checking off, `true` on again if a list was selected before, any other name selects an existing list |
| KnownNames.Port.Control | lib/exmpp-0.9.8-05-g6987a0a/c_src/exmpp_xml.c:697-898 | each command has the effect its specification gives it on the fields of the driver |
| KnownNames.ListsAreHistory | lib/exmpp-0.9.8-05-g6987a0a/c_src/exmpp_xml.c:697-827 | over every run of commands: a list exists if and only if some update named it, and its members are exactly the names that updates put there, with the XML namespace in every namespace list |
| KnownNames.SelectionExists | lib/exmpp-0.9.8-05-g6987a0a/c_src/exmpp_xml.c:830-898 | over every run: a selected list exists, and names are checked only when a list is selected |
| KnownNames.AtomsOfExactly | lib/exmpp-0.9.8-05-g6987a0a/c_src/exmpp_xml.c:753-779 | an update adds a name if and only if some item is that atom and only atoms come before it |
| KnownNames.UpdateExactly | lib/exmpp-0.9.8-05-g6987a0a/c_src/exmpp_xml.c:781-827 | an update succeeds if and only if it names a list and gives atoms only; it changes no option and no list of the other kind |
| KnownNames.ChosenIsLast | lib/exmpp-0.9.8-05-g6987a0a/c_src/exmpp_xml.c:830-898 | over every run the selected list is the one selected last among those that existed when they were selected |
| KnownNames.CheckingExactly | lib/exmpp-0.9.8-05-g6987a0a/c_src/exmpp_xml.c:830-898 | over every run names are checked if and only if a command switched that on, by a list or by `true`, and no `false` came after it |
| KnownNames.NamesAsAtomExactly | lib/exmpp-0.9.8-05-g6987a0a/c_src/exmpp_xml.c:936-1000 | over every run atoms are on if and only if each switch off was followed by a switch on |
| KnownNames.ElementGate | lib/exmpp-0.9.8-05-g6987a0a/c_src/exmpp_xml.c:901-1000 | over every run, whatever the options: an element name becomes an atom if and only if it is short enough, atoms are on and, if checking is on, some update put it in the selected list; otherwise it is a string |
| KnownNames.PortsAgree | lib/exmpp-0.9.8-05-g6987a0a/c_src/exmpp_xml.c:22-23 | the ports of the driver share the lists: over every run of commands to any ports, each port is in the state of a run of its own commands and the updates of every port |
| KnownNames.SharedElementGate | lib/exmpp-0.9.8-05-g6987a0a/c_src/exmpp_xml.c:901-1000 | the same at every port of many, with the updates of all ports |
| KnownNames.SharedNamespaceGate | lib/exmpp-0.9.8-05-g6987a0a/c_src/exmpp_xml.c:901-970 | likewise for a namespace |
| KnownNames.NamespaceGate | lib/exmpp-0.9.8-05-g6987a0a/c_src/exmpp_xml.c:901-970 | likewise for a namespace, the XML namespace being in every list; no namespace is the atom `undefined` |
| KnownNames.SelectableExactly | lib/exmpp-0.9.8-05-g6987a0a/c_src/exmpp_xml.c:830-898 | selecting succeeds for `false`, for `true` if and only if a list was selected, and otherwise if and only if an earlier update named the list |
| XmlBuilder.SplitExactly | lib/exmpp-0.9.8-05-g6987a0a/c_src/exmpp_xml_expat.c:348-381 | a raw name is split back into namespace and local name if and only if the namespace holds no separator |
| XmlBuilder.DocumentCompiles | lib/exmpp-0.9.8-05-g6987a0a/c_src/exmpp_xml.c:302-392 | for every document and every root depth from -1 up, the tokens streamed are the encoding of the document's trees as one open list, in document order, and nothing half-finished is left |
| XmlBuilder.RunAboveAll | lib/exmpp-0.9.8-05-g6987a0a/c_src/exmpp_xml.c:302-537 | from any point at or above the root depth, a forest adds exactly its trees |
| XmlBuilder.RunBelowAll | lib/exmpp-0.9.8-05-g6987a0a/c_src/exmpp_xml.c:302-537 | below the root depth, a forest is appended to the current tree as cells of its parent's list |
| XmlBuilder.RunRoot | lib/exmpp-0.9.8-05-g6987a0a/c_src/exmpp_xml.c:496-537 | a subtree rooted at the root depth becomes one complete tree |
| XmlBuilder.DocumentNeverCompletes | lib/exmpp-0.9.8-05-g6987a0a/c_src/exmpp_xml.c:334-389 | with a root depth below -1 no tree is ever completed: the document piles up in the current tree |
| XmlShape.StepKeepsShape | lib/exmpp-0.9.8-05-g6987a0a/c_src/exmpp_xml.c:334-534 | every event keeps the shape of the state and moves the depth by one, or not at all |
| XmlShape.RunKeepsShape | lib/exmpp-0.9.8-05-g6987a0a/c_src/exmpp_xml.c:334-534 | every nested run keeps it |
| XmlShape.PrefixShape | lib/exmpp-0.9.8-05-g6987a0a/c_src/exmpp_xml.c:334-534 | at every point inside every document the current tree is empty when terms stand apart, and otherwise is completed by exactly `depth - root_depth` list ends |
| XmlDriver.ChunksAgree | lib/exmpp-0.9.8-05-g6987a0a/c_src/exmpp_xml_expat.c:160-251 | however an event stream is cut into commands, the lists in the replies join to the list one command returns, each reply is `continue` exactly when its chunk completed no tree, and the driver ends in the same state |
| XmlDriver.DocumentInChunks | lib/exmpp-0.9.8-05-g6987a0a/c_src/exmpp_xml_expat.c:160-251 | a whole document, cut anywhere and ended with the final command: the receiver reads exactly the document's trees, and the driver is as freshly started |
| XmlDriver.LimitIsOnTheStream | lib/exmpp-0.9.8-05-g6987a0a/c_src/exmpp_xml.c:280-296 | no chunk is refused if and only if all chunks together fit the limit, which is therefore one on the stream, not on a stanza |
| XmlDriver.RefusedIgnored | lib/exmpp-0.9.8-05-g6987a0a/c_src/exmpp_xml_expat.c:160-188 | a command is refused if and only if its data does not fit what the limit leaves; it changes only that there is a parser, and later commands are answered as if it had not been sent |
| XmlDriver.RejectedExactly | lib/exmpp-0.9.8-05-g6987a0a/c_src/exmpp_xml_expat.c:190-215 | rejected data leaves the context its events made, with the trees they completed, and the parser, even in a final command |
| XmlDriver.ResetInDocument | lib/exmpp-0.9.8-05-g6987a0a/c_src/exmpp_xml_expat.c:253-262 | a reset between two events restores the fresh state if and only if no namespace declaration with a URI is waiting for its element |
| XmlDriver.ResetBetweenCommands | lib/exmpp-0.9.8-05-g6987a0a/c_src/exmpp_xml_expat.c:253-262 | after any commands none of which ends between a declaration and its element, which holds of accepted data, a reset restores the fresh state |
| XmlDriver.ResetAfterError | lib/exmpp-0.9.8-05-g6987a0a/c_src/exmpp_xml_expat.c:160-262 | after rejected data and a reset, a whole document is read with the declarations the rejected data ended in on its first element, so that it is read as sent if and only if none of them has a URI |
| XmlDriver.ErrorLeaksNamespace | lib/exmpp-0.9.8-05-g6987a0a/c_src/exmpp_xml_expat.c:253-262 | an input: a start tag rejected for an unbound prefix after its declaration was reported; the next document is read with that declaration |
| XmlPort.Port.constructor | lib/exmpp-0.9.8-05-g6987a0a/c_src/exmpp_xml_expat.c:85-116 | a new instance is idle |
| XmlPort.Port.StartNamespace | lib/exmpp-0.9.8-05-g6987a0a/c_src/exmpp_xml_expat.c:320-346 | the callback changes the fields as the event step does |
| XmlPort.Port.MakeAttributes | lib/exmpp-0.9.8-05-g6987a0a/c_src/exmpp_xml_expat.c:423-460 | appends the attributes in order |
| XmlPort.Port.MakeAttribute | lib/exmpp-0.9.8-05-g6987a0a/c_src/exmpp_xml.c:432-460 | appends one attribute cell |
| XmlPort.Port.MakeHead | lib/exmpp-0.9.8-05-g6987a0a/c_src/exmpp_xml.c:302-361 | appends the record up to its children, with the declared namespaces in it |
| XmlPort.Port.EnterElement | lib/exmpp-0.9.8-05-g6987a0a/c_src/exmpp_xml.c:302-392 | the start of an element changes the fields as the event step does |
| XmlPort.Port.AddCharacterData | lib/exmpp-0.9.8-05-g6987a0a/c_src/exmpp_xml.c:462-494 | likewise for character data |
| XmlPort.Port.ExitElement | lib/exmpp-0.9.8-05-g6987a0a/c_src/exmpp_xml.c:496-537 | likewise for the end of an element |
| XmlPort.Port.CurrentTreeFinished | lib/exmpp-0.9.8-05-g6987a0a/c_src/exmpp_xml.c:1016-1040 | the current tree becomes the last of the complete trees and is emptied |
| XmlPort.Port.ResetContext | lib/exmpp-0.9.8-05-g6987a0a/c_src/exmpp_xml.c:250-259 | the context is fresh but for the declared namespaces |
| XmlPort.Port.ResetCompleteTrees | lib/exmpp-0.9.8-05-g6987a0a/c_src/exmpp_xml.c:539-546 | no tree is complete |
| XmlPort.Port.Deliver | lib/exmpp-0.9.8-05-g6987a0a/c_src/exmpp_xml_expat.c:320-421 | the callbacks of one chunk amount to the run over its events |
| XmlPort.Port.DestroyParser | lib/exmpp-0.9.8-05-g6987a0a/c_src/exmpp_xml_expat.c:499-515 | an instance with a parser becomes idle |
| XmlPort.Port.ParseCommand | lib/exmpp-0.9.8-05-g6987a0a/c_src/exmpp_xml_expat.c:160-251 | both parse commands have the effect and the reply their specification gives, rejected data and the size limit included |
| XmlPort.Port.ResetCommand | lib/exmpp-0.9.8-05-g6987a0a/c_src/exmpp_xml_expat.c:253-262 | so has the reset |
| HashTable.HashNul | lib/exmpp-0.9.8-05-g6987a0a/c_src/exmpp_driver.c:336-348 | the hash of the bytes before the first NUL, on 32 bits with signed characters |
| HashTable.HashLen | lib/exmpp-0.9.8-05-g6987a0a/c_src/exmpp_driver.c:350-362 | the hash of the given number of bytes |
| HashTable.XorExactly | lib/exmpp-0.9.8-05-g6987a0a/c_src/exmpp_driver.c:336-362 | the exclusive or, bit by bit |
| HashTable.SignExactly | lib/exmpp-0.9.8-05-g6987a0a/c_src/exmpp_driver.c:336-362 | a byte read through a signed char repeats its bit 7 above |
| HashTable.HashExactly | lib/exmpp-0.9.8-05-g6987a0a/c_src/exmpp_driver.c:336-362 | the hash starts at 5381; each byte multiplies it by 33 on 32 bits and flips the bits set in the byte read as a signed number |
| HashTable.LoadLimitExactly | lib/exmpp-0.9.8-05-g6987a0a/c_src/exmpp_driver.c:127-152 | the load limit is the least count that is 65/100 of the length or more |
| HashTable.Entry.constructor | lib/exmpp-0.9.8-05-g6987a0a/c_src/exmpp_driver.c:175-191 | a new entry holds a NUL-terminated copy of its key, its hash and its value |
| HashTable.MoveBucket | lib/exmpp-0.9.8-05-g6987a0a/c_src/exmpp_driver.c:386-393 | moves one bucket, entry by entry, to the front of the new chains: afterwards the new chains collect those entries too, each in its bucket |
| HashTable.MoveBuckets | lib/exmpp-0.9.8-05-g6987a0a/c_src/exmpp_driver.c:386-393 | moves them all |
| HashTable.Table.Expand | lib/exmpp-0.9.8-05-g6987a0a/c_src/exmpp_driver.c:364-401 | grows to the next prime, if there is one: each entry is in the bucket of its hash, and none is lost or repeated |
| HashTable.Table.CountEntry | lib/exmpp-0.9.8-05-g6987a0a/c_src/exmpp_driver.c:193-202 | counts an entry and expands if and only if the count passes the limit; afterwards it is within the limit unless the primes are used up |
| HashTable.Table.Wire | lib/exmpp-0.9.8-05-g6987a0a/c_src/exmpp_driver.c:203-209 | puts an entry in front of the chain of its hash |
| HashTable.Table.Store | lib/exmpp-0.9.8-05-g6987a0a/c_src/exmpp_driver.c:157-214 | adds exactly one entry with the key and the value, keeps all others, and keeps the table's invariant with its growth rule |
| HashTable.Table.Fetch | lib/exmpp-0.9.8-05-g6987a0a/c_src/exmpp_driver.c:216-255 | returns the value of the first match in the bucket of the key, which is NULL if and only if no entry of the whole table matches |
| HashTable.Table.constructor | lib/exmpp-0.9.8-05-g6987a0a/c_src/exmpp_driver.c:127-152 | a new table is empty and keeps the invariant |
| HashTable.Create | lib/exmpp-0.9.8-05-g6987a0a/c_src/exmpp_driver.c:110-155 | fails if and only if more than 2^30 buckets are asked for, and otherwise makes an empty map with the smallest prime of the list above that number |
| HashTable.GrowthRoom | lib/exmpp-0.9.8-05-g6987a0a/c_src/exmpp_driver.c:55-67 | the next prime's load limit has room for the entry that passed the last one |
| HashTable.BucketsKeepAll | lib/exmpp-0.9.8-05-g6987a0a/c_src/exmpp_driver.c:386-393 | redistribution preserves the multiset of entries |
| HashTable.CollectedReverses | lib/exmpp-0.9.8-05-g6987a0a/c_src/exmpp_driver.c:382-393 | of two entries of one bucket the one that was later in the table comes first after an expansion |
| HashTable.OnlyInBucket | lib/exmpp-0.9.8-05-g6987a0a/c_src/exmpp_driver.c:224-247 | searching the bucket of a key is searching the whole table |
| HashTable.PlacedByHash | lib/exmpp-0.9.8-05-g6987a0a/c_src/exmpp_driver.c:203-209 | each entry is in the bucket of its hash modulo the length, and in no other |
| HashTable.ExpansionTurnsSearch | lib/exmpp-0.9.8-05-g6987a0a/c_src/exmpp_driver.c:216-255 | what a fetch returns before and after an expansion: the value of the first match in the table before, of the last match after |
| HashTable.StoreBinds | lib/exmpp-0.9.8-05-g6987a0a/c_src/exmpp_driver.c:157-214 | storing under a new key adds one binding to the map the table represents |
| HashTable.MatchesByName | lib/exmpp-0.9.8-05-g6987a0a/c_src/exmpp_driver.c:230-250 | for keys stored with a length and without a NUL, the test of the fetch loop compares the keys, in both forms of lookup |
| HashTable.FetchIsLookup | lib/exmpp-0.9.8-05-g6987a0a/c_src/exmpp_driver.c:216-255 | what a fetch returns is the lookup in the represented map, NULL exactly when the key is absent; a NUL-terminated and a length-based lookup agree |
| HashTable.AddName | lib/exmpp-0.9.8-05-g6987a0a/c_src/exmpp_xml.c:763-776 | looks a name up and stores it when it is absent: one binding, or none |
| HashTable.UpdateList | lib/exmpp-0.9.8-05-g6987a0a/c_src/exmpp_xml.c:753-779 | after any number of names, over any number of expansions, the map holds the old bindings and the new names, once each |
| CallControl.BatchOrder | ecallmgr/src/ecallmgr_call_control.erl:530-556 | a head batch comes in list order before the old queue; a tail batch in reverse list order after it |
| CallControl.TailBatchInOrderExactly | ecallmgr/src/ecallmgr_call_control.erl:530-556 | a tail batch is queued in list order if and only if it reads the same both ways |
| CallControl.FlushExactly | ecallmgr/src/ecallmgr_call_control.erl:521-523 | a flush leaves only the new batch, in reverse list order; a message that fails to validate leaves the queue as it was |
| CallControl.ImmediateExactly | ecallmgr/src/ecallmgr_call_control.erl:490-519 | an immediate batch runs its commands in list order, up to the first that fails to validate |
| CallControl.PostHangupExactly | ecallmgr/src/ecallmgr_call_control.erl:559-570 | of the waiting commands exactly those permitted run after the hangup, each as often as it waits and in order |
| CallControl.InsertedExactly | ecallmgr/src/ecallmgr_call_control.erl:521-556 | where a message leaves its commands: in front in list order (head), behind in reverse (tail), alone in reverse (flush), or nowhere (now, or when it fails to validate) |
| CallControl.HeadComesFirst | ecallmgr/src/ecallmgr_call_control.erl:524-525 | after a head message that validates, what is dispatched followed by what waits is its commands in list order and then the old queue |
| CallControl.RunInLine | ecallmgr/src/ecallmgr_call_control.erl:348-435 | over every run, what was dispatched followed by what waits is the fold of the arrivals, head insertions and flushes included, each acting on the part that waits |
| CallControl.OnlyValid | ecallmgr/src/ecallmgr_call_control.erl:530-551 | over every run, only commands that validate are dispatched by the queue, waiting or flushed |
| CallControl.OutsideExactly | ecallmgr/src/ecallmgr_call_control.erl:333-364 | what each event runs outside the queue: an immediate message up to its first command that fails to validate, with the node up; after the hangup the waiting `store` and `set` commands, which stay; nothing else |
| CallControl.DispatchesUp | ecallmgr/src/ecallmgr_call_control.erl:348-435 | the queue dispatches only while the node is up |
| CallControl.NodeUpExactly | ecallmgr/src/ecallmgr_call_control.erl:399-420 | over every run the node is taken to be up if and only if each loss of it was followed by a probe that found it |
| CallControl.DialplanConserves | ecallmgr/src/ecallmgr_call_control.erl:348-364 | one dialplan message: what waited or entered is dispatched, waiting or flushed |
| CallControl.RunConserves | ecallmgr/src/ecallmgr_call_control.erl:348-435 | over every run, with outages and forced advances: each accepted command is in exactly one of dispatched, waiting and flushed |
| CallControl.RunInOrder | ecallmgr/src/ecallmgr_call_control.erl:348-435 | without head insertions and flushes, dispatched followed by waiting is the order of arrival |
| CallControl.DispatchWaits | ecallmgr/src/ecallmgr_call_control.erl:348-385 | over every run, what follows a dispatch is a forced advance or a completion of that command's application |
| CallControl.CompletionBetween | ecallmgr/src/ecallmgr_call_control.erl:348-385 | without forced advances two dispatches are always separated by a completion event that matches the first |
| CallControl.NeverStalled | ecallmgr/src/ecallmgr_call_control.erl:348-435 | if the node has never gone down, nothing running means nothing waiting |
| CallControl.RunStallsExactly | ecallmgr/src/ecallmgr_call_control.erl:348-435 | over every run commands wait though nothing runs if and only if the last event to move the queue on (a message with the node up or nothing running, a matching completion, a forced advance) was handled with the node down and left commands waiting |
| CallControl.Recovers | ecallmgr/src/ecallmgr_call_control.erl:348-364 | the next message or forced advance handled with the node up ends it |
| CallControl.ReconnectedButStalled | ecallmgr/src/ecallmgr_call_control.erl:399-420 | any run with a command running and another waiting, then an outage, the completion and the reconnection, ends with the node up and the queue stalled |
| CallControl.BlockedForEver | ecallmgr/src/ecallmgr_call_control.erl:365-385 | once an application runs that no switch event completes, it runs in every later state and nothing is dispatched, until a forced advance |
| CallControl.CompletesExactly | ecallmgr/src/ecallmgr.hrl:91-113 | which event completes which application: the end of a playback completes a play, tones and a hold, and nothing else |
| CallControl.StoreBlocks | ecallmgr/src/ecallmgr.hrl:91-113 | no switch event completes `store` |
| CallControl.LegsDistinct | ecallmgr/src/ecallmgr_call_control.erl:274-332 | over every run no leg is listed twice, an added leg is listed, a removed leg is not, and a call taken over is not its own leg |
| CallControl.LegsExactly | ecallmgr/src/ecallmgr_call_control.erl:274-332 | over every run, which leg each event adds or removes, and that all others stay |
| WorkerPool.RunCoherent | ecallmgr/src/ecallmgr_amqp_pool.erl:141-238 | the invariant of the protocol, over every interleaving: one token for each live worker; a dead one is out of the queue once its exit notice is taken |
| WorkerPool.OneToken | ecallmgr/src/ecallmgr_amqp_pool.erl:141-189 | in every reachable state each live worker is in exactly one of: free queue, employment or stop order on its way, busy, free notice on its way, lost by a failed publication, released |
| WorkerPool.EmployedFindsFree | ecallmgr/src/ecallmgr_amqp_pool_worker.erl:115-125 | in every reachable state a message on its way to a worker finds it free with nothing else to do: employment never reaches a busy worker |
| WorkerPool.MessageObeyed | ecallmgr/src/ecallmgr_amqp_pool_worker.erl:115-125 | so employment is taken up unless publishing fails, which takes the worker out of use without a word to the pool, and a stop order is obeyed unless a handler is active |
| WorkerPool.DeathExactly | ecallmgr/src/ecallmgr_amqp_pool.erl:180-189 | a live worker that dies in a reachable state is dead, its exit notice is its last message, and the request it served or was about to serve is dropped; nothing else changes |
| WorkerPool.QueueDistinct | ecallmgr/src/ecallmgr_amqp_pool.erl:141-189 | in every reachable state the free queue has no duplicates and its workers are idle or dead |
| WorkerPool.HeadIsIdle | ecallmgr/src/ecallmgr_amqp_pool.erl:141-152 | the worker the pool chooses is idle, or is dead with its exit notice as the pool's next message from it |
| WorkerPool.NeverTakenBack | ecallmgr/src/ecallmgr_amqp_pool.erl:164-189 | a worker whose exit notice was taken, that lost a request or that outlived a stop order is never queued, employed or reported free again, in any later run |
| WorkerPool.QuietQueue | ecallmgr/src/ecallmgr_amqp_pool.erl:141-189 | when nothing is under way for a worker, it is in the free queue once if it lives and was never lost or released, and not at all otherwise |
| WorkerPool.DismissedExactly | ecallmgr/src/ecallmgr_amqp_pool.erl:229-238 | the reduction stops exactly the oldest free workers, each once, and never leaves fewer free than the pool began with |
| WorkerPool.AsksExactly | ecallmgr/src/ecallmgr_amqp_pool.erl:191-223 | how many workers a reduction asks for, in terms of the counters alone: a tenth, rounded, of those above the need, which is one a request or what the mean duration shows; none when the pool has not grown |
| WorkerPool.TickExactly | ecallmgr/src/ecallmgr_amqp_pool.erl:191-238 | one reduction that does not end the pool, in a reachable state: of the workers asked for it stops the oldest free ones, as many as there are above the original size, starts the counters anew, and does nothing else |
| WorkerPool.IdlePoolShrinks | ecallmgr/src/ecallmgr_amqp_pool.erl:212-219 | an input: a pool of 30 over 10, all free, stops its three oldest workers after a period without requests |
| WorkerPool.RoundedNearest | ecallmgr/src/ecallmgr_amqp_pool.erl:196-216 | the rounding in the estimates: a nearest integer, and of two the one further from zero |
| WorkerPool.ExitTaken | ecallmgr/src/ecallmgr_amqp_pool.erl:180-189 | an exit notice taken in a reachable state: the worker leaves the queue wherever it was, the others keep their order, and below the original size exactly one new worker joins at the tail, unless it does not start or the supervisor does not count, which ends the pool |
| WorkerPool.RunAccounted | ecallmgr/src/ecallmgr_amqp_pool.erl:141-238 | over every run each request made is answered, dropped or with one worker, exactly once |
| WorkerPool.AnsweredOnce | ecallmgr/src/ecallmgr_amqp_pool_worker.erl:115-154 | no request is answered twice, or answered and dropped |
| WorkerPool.ServedAndReturned | ecallmgr/src/ecallmgr_amqp_pool_worker.erl:115-138 | a request, its publication, the response and the free notice: the worker answers it and is at the tail of the queue, and nothing else has changed |
| WorkerPool.RequesterGone | ecallmgr/src/ecallmgr_amqp_pool_worker.erl:150-154 | when the requester of a busy worker goes, its request is dropped and the worker is back at the tail of the queue; word of any other requester changes nothing |
| WorkerPool.FailsExactly | ecallmgr/src/ecallmgr_amqp_pool.erl:141-272 | the pool itself fails if and only if a worker it needs does not start, the chosen worker does not answer or is dead with its exit notice not yet taken, the supervisor does not give a count that is asked for, or requests took less than a microsecond on average |

## Left out

- That the generated words encode the pairs of the Unicode data; which pairs there are is a parameter.
- The contents of the Unicode tables, and full idempotence of the preparation, which depends on them.
- Rejection of overlong forms and surrogates: the decoder accepts them; `Utf8` says exactly what it accepts beyond RFC 3629 and no more is claimed.
- Allocation failure, memory freeing, locks, `COMMAND_PORT_REVISION`, and the width of sizes and positions.
- The reason given with a parse error, a parser that cannot be set up, and changing the root depth, the limit or the name lists while a parse is open. The theorems on chunks are about data without parse errors.
- HashTable.Table.Expand: is proved for a zeroed new bucket array, where line 380 zeroes the old one; see the assumptions above.
- `exmpp_xml_expat_legacy.c`, the compression and TLS drivers, and the other library wrappers.
- The order in which expat reports prefixes, and its own handling of encodings: events are given.
- Hash table keys with a NUL inside, removal of entries, and duplicate keys beyond the reversal lemma.
- KnownNames.Port.UpdateList: keeps a known list as a set of names; that the hash table behind it is such a set is `HashTable.UpdateList`, and names longer than the C buffer are not modelled.
- Messages with an unknown `Insert-At`, for which the code returns the state instead of a queue.
- Keep-alive and sanity timers, the transferer message (which stops the process), publication of events, and event field mapping in the call-control process.
- CallControl.LegsDistinct: does not say when a leg is taken for a transfer; the classification from switch headers is part of the event.
- What becomes of commands run after the channel is destroyed: the code runs them and leaves them queued, and so does the model; nothing is claimed about running them twice.
- WorkerPool.FailsExactly: is about the messages of the protocol and requests given as property lists; other messages, and the end of the pool's own supervisor, are not modelled.
- The exact value of `worker_count` (it is read again from the supervisor: a parameter of the step), and floating-point rounding in the estimate of workers needed.
- WorkerPool.AnsweredOnce: does not say that the response belongs to the current request, because the protocol has no correlation identifier.
- What happens after the pool process fails: the supervisor's restart and the release of old workers.
- WorkerPool.ExitTaken: says nothing of the state in which a failed pool leaves its workers, because nothing is modelled past a failure.
- A freshly started worker that dies before it answers the call for its queue name is covered by the event in which the chosen worker does not answer.
- Dialplan string building, CDR mapping, supervisors, scripts and the browser interface.
