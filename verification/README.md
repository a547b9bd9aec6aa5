# Verification of the TriCore assembler and its bindings

A Dafny model of the parts of the library that this repository decides itself, and proofs about them.
`dafny verify dfyconfig.toml` checks all of it.

| modules | what they model |
|---|---|
| `Fields`, `Encode` | the bit layouts of relocated instructions, on bit vectors, and the encoder that patches a byte buffer |
| `RelaxChain`, `Frags`, `Fixups`, `Passes`, `TextSection` | the back end: relax chains, frag sizes and padding, fixups and relocations as functions on the state of the section; `TextSection` is the object whose passes rewrite that state in place |
| `Options` | the option type |
| `Scanner`, `Directives`, `FrontEnd` | the front end: the three quote-aware scanners on one automaton, directives and literals as functions; `FrontEnd` has the loops |
| `LiteralLaws`, `StatementLaws`, `DirectiveLaws`, `OperandLaws` | what comments, literals, statements and directives come to, read off their text |
| `PrintParse`, `Pipeline`, `Values` | printing data and assembling it again, through the front end and through everything; what emitted numbers and alignments come to |
| `Driver`, `Guarantees`, `Outcomes`, `Disassembler` | one call of the library with its process-wide state, what callers may rely on, which calls succeed, disassembling |
| `Utf8`, `Wire`, `WireIO`, `WireLaws` | the wire format as functions, the readers and writers with their cursors, and the layout byte by byte |
| `Daemon`, `Remote`, `Connection` | the daemon's serve loop, a remote call as a whole, and client and daemon as a state machine whose bytes carry the number of the call they were sent for |
| `CAbi`, `EntryPoints` | the C ABI over a heap whose allocator may fail at every call |

Loops, buffers and objects of the source are methods and classes here, each proved against a function; the
lemmas are about those functions.

gas, libbfd and libopcodes are parameters with stated assumptions, none of which is about addresses:
`relax_segment` moves a branch along its chain only, `md_pcrel_from_section` depends on the layout only,
`md_convert_frag` only adds to the fixed part of its frag and emits fixups against the frag's own symbol with
their fields in what it added, the parser puts the field of a fixup into the fixed part of its frag, and fields
of a frag do not overlap (`Passes.Machine`, `Passes.Parsed`, `Passes.ConvertsWell`, `Fixups.FixesPlaced`,
`Driver.Sound`); bytes handed to gas end up in the section (`Pipeline.TakesBytes`), and an alignment request
makes an alignment frag (`DirectiveLaws.MadeFor`). That the fields are in place after relaxing, converting and
layout is proved (`Passes.FieldsArePlaced`). The relax table is any acyclic table. I/O is a stream of bytes;
allocation failure, timeouts and crashes are nondeterministic steps or Boolean parameters.

Findings, each with a lemma:

- `apply_text_fixups` returns silently when the image buffer cannot be allocated
  (src/nyxstone_glue.c:781-783), so bytes can be returned with unencoded fields (`Fixups.SilentWithoutBuffer`).
  A silent pass, resolution or call has encoded a field that was not right already if and only if the buffer
  was there (`Fixups.EncodedIffBuffer`, `Passes.ResolvedIffBuffer`, `Guarantees.EncodedExactlyWithBuffer`).
- 24ABS, 18ABS and 18ABS_14 do not look at the upper 32 bits of the value
  (src/nyxstone_glue.c:645-666): a wider address is cut (`Fields.AddressCodec`, `Fields.WideAddressIsCut`).
- The daemon reserves room for as many labels as a request announces before it reads any
  (bindings/rust-ipc/src/protocol.rs:257-258), so "every frame is answered" holds exactly when
  those counts can be reserved (`Daemon.OneReplyPerFrame`, `Daemon.AbortsAtFirst`).
- An error message longer than the frame limit arrives empty, and one within 4 bytes of the limit arrives as a
  protocol error instead (`Remote.OutsideLimits`); every shorter one arrives whole (`Remote.RemoteIsLocal`).
- `strip_addr_annotation` is not idempotent (`Disassembler.StrippingTwiceDiffers`); `Disassembler.IdempotentIff`
  says on which texts it is, and what libopcodes prints is among them (`Disassembler.TidyIsIdempotent`).
- The daemon's comment calls a short read fatal; the code treats it as a clean end
  (bindings/rust/src/bin/nyxstone-tcd.rs:72-79), and so does the model.

## Model

| member | source | states |
|---|---|---|
| Fields.Place24Rel | src/nyxstone_glue.c:638-644 | 24REL: accepts exactly the even values of 25 bits; sign extension of the split field gives the value back; no bit outside the field changes |
| Fields.Place24Abs | src/nyxstone_glue.c:645-651 | 24ABS: accepts exactly the addresses the form can express in 32 bits, and decodes to them; no bit outside the field changes |
| Fields.Place18Abs | src/nyxstone_glue.c:652-658 | 18ABS: accepts exactly addresses with bits 14-27 clear; the four pieces of the field decode to the address; no bit outside the field changes |
| Fields.Place18AbsPage | src/nyxstone_glue.c:659-666 | 18ABS_14: accepts exactly multiples of 16 KiB, and decodes to them; no bit outside the field changes |
| Fields.PlaceHi | src/nyxstone_glue.c:667-669 | HI: always accepted; the field is the upper half of the low 32 bits; no bit outside the field changes |
| Fields.PlaceHiAdj | src/nyxstone_glue.c:670-672 | HIADJ: always accepted; the field is the upper half after rounding for a signed low half; no bit outside the field changes |
| Fields.PlaceLo | src/nyxstone_glue.c:673-676 | LO: always accepted; the field is the low half; no bit outside the field changes |
| Fields.Place16Const | src/nyxstone_glue.c:673-676 | 16CONST: accepts exactly the signed 16-bit values, and decodes to them; no bit outside the field changes |
| Fields.PlaceLo2 | src/nyxstone_glue.c:677-683 | LO2: always accepted; the split field is the low half; no bit outside the field changes |
| Fields.Place16Off | src/nyxstone_glue.c:677-683 | 16OFF: accepts exactly the signed 16-bit values, through the split field; no bit outside the field changes |
| Fields.Place10Off | src/nyxstone_glue.c:684-688 | 10OFF: accepts exactly the signed 10-bit values, through the split field; no bit outside the field changes |
| Fields.Place15Rel | src/nyxstone_glue.c:689-693 | 15REL: accepts exactly the even values of 16 signed bits; no bit outside the field changes |
| Fields.Place8Rel | src/nyxstone_glue.c:694-699 | 8REL: accepts exactly the even values of 9 signed bits; no bit outside the field changes |
| Fields.Place4Rel | src/nyxstone_glue.c:700-705 | 4REL: accepts exactly 0, 2, ..., 30; no bit outside the field changes |
| Fields.Place4RelBack | src/nyxstone_glue.c:706-711 | 4REL2: accepts exactly -32, -30, ..., -2; no bit outside the field changes |
| Fields.Place5Rel | src/nyxstone_glue.c:712-718 | 5REL: accepts exactly 0, 2, ..., 62, with the fifth bit in its separate place; no bit outside the field changes |
| Fields.Place9SConst | src/nyxstone_glue.c:719-722 | 9SCONST: accepts exactly the signed 9-bit values; no bit outside the field changes |
| Fields.Place9ZConst | src/nyxstone_glue.c:723-726 | 9ZCONST: accepts exactly 0 to 511; no bit outside the field changes |
| Fields.Place8Const | src/nyxstone_glue.c:727-730 | 8CONST: accepts exactly 0 to 255; no bit outside the field changes |
| Fields.Place | src/nyxstone_glue.c:638-738 | for every form and every 64-bit value: placed if and only if some word decodes to the field value, then the placed word does, and every bit outside the field is unchanged |
| Fields.WholeValueCodec | src/nyxstone_glue.c:638-738 | the 12 forms that hold a whole value: accepted if and only if some word decodes to the value, and decode after encode is the identity |
| Fields.AddressCodec | src/nyxstone_glue.c:645-666 | address forms: decode after encode gives the value back if and only if it fits 32 bits |
| Fields.WideAddressIsCut | src/nyxstone_glue.c:645-651 | a 33-bit address that 24ABS accepts and that reads back as 0 |
| Fields.HighAdjustedPlusLow | src/nyxstone_glue.c:670-683 | HIADJ field shifted up plus the sign-extended LO or LO2 field is the value modulo 2^32, for every value |
| Fields.HighPlusLow | src/nyxstone_glue.c:667-683 | HI field shifted up plus the zero-extended LO or LO2 field is the value modulo 2^32 |
| Encode.ReadLe | src/nyxstone_glue.c:567-572 | the loop reads the little-endian word at the position |
| Encode.WriteLe | src/nyxstone_glue.c:573-576 | the loop writes the word there and changes nothing else |
| Encode.ReadBack | src/nyxstone_glue.c:567-576 | a word written in 1, 2 or 4 bytes reads back cut to that size |
| Encode.LowestByteFirst | src/nyxstone_glue.c:567-572 | a word is read with its lowest byte first, byte by byte |
| Encode.NamesOfForms | src/nyxstone_glue.c:604-730 | the relocation name decides the form: each of the 19 names, with or without `R_TRICORE_`, gives its own form |
| Encode.DataForms | src/nyxstone_glue.c:614-629 | the data forms, by name or by a mask of 4, 2 or 1 bytes |
| Encode.OtherForms | src/nyxstone_glue.c:731-735 | the three `SM` forms are rejected on any value, and any other name is a form the encoder does not know |
| Encode.EncodeField | src/nyxstone_glue.c:601-740 | the in-place encoder leaves the buffer and returns the code that `Encoded` specifies |
| Encode.EncodedIff | src/nyxstone_glue.c:601-740 | the return code for every howto, position and value: 0 for a nameless howto, an unknown form or a field beyond the buffer, -1 for the sm: prefixes and exactly the values that no instruction word of the form carries, 1 for data and exactly the values that some word carries |
| Encode.EncodedFrame | src/nyxstone_glue.c:604-738 | only bytes inside the field change, and on a failure none |
| Encode.EncodedHolds | src/nyxstone_glue.c:614-738 | on success the bytes at the position, read the way the processor reads them, hold the value (given that the form has the width of the instruction), and the instruction keeps its 16/32-bit marker |
| Encode.HoldsFrame | src/nyxstone_glue.c:630-635 | whether a field holds a value depends on the bytes of the field only |
| RelaxChain.ChainHead | src/nyxstone_glue.c:473-483 | the nested search loops return the function `Head` |
| RelaxChain.ChainTerminal | src/nyxstone_glue.c:486-494 | the guarded walk returns the function `Terminal` |
| RelaxChain.HeadIsHead | src/nyxstone_glue.c:469-483 | for every acyclic table the N-step guard never cuts the walk short: the head has no predecessor and reaches the subtype |
| RelaxChain.TerminalIsTerminal | src/nyxstone_glue.c:486-494 | likewise the terminal has no successor and the subtype reaches it |
| RelaxChain.ShortRuns | src/nyxstone_glue.c:473-494 | a walk in an acyclic table visits no state twice, so it is shorter than the table |
| RelaxChain.Between | src/nyxstone_glue.c:494-503 | growing from the head along the chain stays between head and terminal |
| RelaxChain.GrownFollows | src/nyxstone_glue.c:558-562 | growing follows the links of the table one by one: as many as asked for, or to the end of the chain |
| Frags.LayoutAgrees | src/nyxstone_glue.c:405-467 | `layout` after `finalize_align_org` assigns every frag the address it already has |
| Frags.AlignPadLeast | src/nyxstone_glue.c:437-447 | the pad reaches the boundary, and no smaller one does |
| Frags.AlignmentHolds | src/nyxstone_glue.c:429-467 | after the pass each alignment frag ends on its boundary with the least padding, or has none exactly when that padding exceeds max-skip |
| Frags.OrgHolds | src/nyxstone_glue.c:429-467 | after the pass each `.org` frag ends at its target, or an error is counted for it |
| Frags.NoOrgErrors | src/nyxstone_glue.c:429-467 | no error counted means no `.org` moved backwards |
| Frags.ImageAt | src/nyxstone_glue.c:942-967 | where in the image the fixed part and the padding of each frag lie |
| Frags.CopyBackExtracts | src/nyxstone_glue.c:819-831 | conservation: an image edited only in fixed parts, copied back and extracted again is exactly the edited image, padding included |
| Frags.FragTakes | src/nyxstone_glue.c:942-967 | a frag adds its fixed bytes to the image, or the live ones while it is open, and for a fill frag the pattern length times the count |
| Frags.PaddingByte | src/nyxstone_glue.c:942-967 | byte k of the padding of a frag is byte k modulo the pattern length of what stands behind its fixed part |
| TextSection.Section.DefineAbs | src/nyxstone_glue.c:261-277 | the new symbol table and error counter are those of `DefinedAbs` |
| TextSection.Section.Layout | src/nyxstone_glue.c:405-416 | every address is the sum of the sizes before it, as a loop in place |
| TextSection.Section.FinalizeAlignOrg | src/nyxstone_glue.c:429-467 | the pass in place yields the chain and the error count of `Finalized` and `OrgErrors` |
| TextSection.Section.RelaxBranches | src/nyxstone_glue.c:518-562 | the phases in place (close the tail, seed subtypes, grow until stable) yield `Relaxed` |
| TextSection.Section.ConvertFrags | src/nyxstone_glue.c:859-862 | converted frags and the fixups they emit, in chain order |
| TextSection.Section.ExtractTextBytes | src/nyxstone_glue.c:942-967 | returns the section size; fills the caller's buffer with exactly the image if it is large enough; writes nothing beyond |
| TextSection.Section.ApplyFix | src/nyxstone_glue.c:775-777 | the value handed to `md_apply_fix` and what it records: the addend, and whether the fixup is done |
| TextSection.Section.RecordAddends | src/nyxstone_glue.c:769-779 | what `md_apply_fix` records for the undefined symbols, and the count of those it leaves open |
| TextSection.Section.EncodeDefined | src/nyxstone_glue.c:786-817 | the loop over the image yields the bytes, reports and errors of `EncodeFirst` |
| TextSection.Section.CopyBack | src/nyxstone_glue.c:819-829 | the fixed parts of the image are back in the frags, nothing else changes |
| TextSection.Section.ApplyTextFixups | src/nyxstone_glue.c:762-832 | the whole pass in place yields `Applied` |
| TextSection.Section.CollectRelocs | src/nyxstone_glue.c:898-933 | the count of pending fixups, and the first `cap` entries in fixup order; the rest of the buffer is untouched |
| TextSection.Section.ResolveTextFixups | src/nyxstone_glue.c:834-867 | all phases in place yield `Resolve` |
| Fixups.EndToEnd | src/nyxstone_glue.c:762-832 | if the pass has its buffer and reports nothing, every fixup with a defined symbol carries its value in the bytes extracted afterwards, and every other byte is unchanged |
| Fixups.PlacedByFrag | src/nyxstone_glue.c:405-416 | in a laid out section, fields placed within their frags are placed in the image: in range, in a fixed part, disjoint |
| Fixups.SilentWithoutBuffer | src/nyxstone_glue.c:781-783 | a section on which a failed malloc leaves a field unencoded and reports nothing |
| Fixups.NoBufferNoReport | src/nyxstone_glue.c:781-783 | without the image buffer the pass always stays silent and leaves every frag as it is |
| Fixups.EncodedIffBuffer | src/nyxstone_glue.c:781-817 | a silent pass has encoded a field that was not right already if and only if the buffer could be allocated |
| Fixups.DisplacementReachesTarget | src/nyxstone_glue.c:800-802 | decoding a pc-relative field and adding the site address gives the target |
| Fixups.AbsoluteFieldIsTarget | src/nyxstone_glue.c:803-804 | decoding an absolute field gives the target |
| Fixups.AddressFieldIsTarget | src/nyxstone_glue.c:645-666 | decoding an address field gives the low 32 bits of the target |
| Fixups.DataFieldIsValue | src/nyxstone_glue.c:614-619 | a 4-byte data field that was encoded holds the low 32 bits of the value |
| Fixups.ResolvedReads | src/nyxstone_glue.c:796-808 | what an encoded field means to its reader: site plus displacement is the target; an absolute field is the target, or the part of it that the form takes; data is the low bytes of the target or of the displacement |
| Fixups.LabelAddress | src/nyxstone_glue.c:796-804 | the target of a reference to a label is the base, plus the bytes of all frags before the frag of the label, plus the bytes before it there, plus the offset of the reference |
| Fixups.ResolvedArrives | src/nyxstone_glue.c:796-808 | so an encoded reference, found by counting bytes, leads to the byte the label stands before, or to the value of an absolute symbol |
| Fixups.StepReports | src/nyxstone_glue.c:786-817 | one step of the encoding loop: the name it reports, and whether it counts an error |
| Fixups.LoopReports | src/nyxstone_glue.c:786-817 | the loop reports a form if and only if some reference to a defined symbol has none, and then the last such; it counts an error if and only if some value cannot be expressed in its form |
| Fixups.UnresolvedAreReported | src/nyxstone_glue.c:769-933 | the count the pass returns is the number of relocations reported afterwards |
| Fixups.FixupsArePartitioned | src/nyxstone_glue.c:769-933 | after a silent pass with its buffer each symbolic fixup is encoded in the bytes if its symbol is defined; if not, `md_apply_fix` has completed it, or it has its one entry among the relocations |
| Fixups.ReportedFrom | src/nyxstone_glue.c:898-933 | each reported relocation belongs to one pending fixup |
| Fixups.BaseInvariance | src/nyxstone_glue.c:786-817 | moving the base and any chosen absolute symbols alike leaves image and verdict unchanged if of the encoded references exactly those to moving targets are pc-relative |
| Passes.BranchesRelaxed | src/nyxstone_glue.c:518-562 | a branch out of the section ends in the longest form of its chain, one within the section between the shortest and the longest; nothing but the subtype of a prepared frag changes |
| Passes.RelaxingStarts | src/nyxstone_glue.c:542-556 | a branch into the section starts in the form without a predecessor that leads to its own, one out of it in the last form of the chain |
| Passes.CallFollows | src/nyxstone_glue.c:558-562 | one call of `relax_segment`, told where the branch leads, moves it along the links as far as it says and changes nothing else |
| Passes.RelaxingStops | src/nyxstone_glue.c:558-562 | it is called until a call changes nothing, at most 33 times |
| Passes.EmittedIsApplied | src/nyxstone_glue.c:859-862 | every fixup that `md_convert_frag` emits is applied, in the frag of its branch |
| Passes.AppliedIsEmitted | src/nyxstone_glue.c:859-862 | and every fixup that is applied is one of the parser, in its place, or one that a branch emitted |
| Passes.FragBytes | src/nyxstone_glue.c:834-867 | the bytes the fixups are applied to are those of `md_convert_frag` for the chosen form, or those of the parser |
| Passes.ReadyForFixups | src/nyxstone_glue.c:834-867 | after relaxing, converting and settling, the section is what the fixup pass relies on |
| Passes.FixupsSeeFinalLayout | src/nyxstone_glue.c:863-867 | fixups are resolved at the addresses of the final layout |
| Passes.ConvertedPlaced | src/nyxstone_glue.c:859-862 | converting branches one after the other keeps every field, old or new, within its frag and apart from the others |
| Passes.FieldsArePlaced | src/nyxstone_glue.c:834-867 | what the fixup pass relies on about fields holds of what the passes before it leave, at the addresses of the final layout; assumed of gas is only what it guarantees frag by frag |
| Passes.ResolveEndToEnd | src/nyxstone_glue.c:834-867 | the whole resolution, fixups of converted branches included: if it has the buffer and reports nothing, every fixup with a defined symbol carries its value in the bytes, computed at the addresses of the final layout |
| Passes.ResolvedIffBuffer | src/nyxstone_glue.c:781-867 | a silent resolution has encoded a field that was not right already if and only if the buffer could be allocated |
| Passes.ResolveReports | src/nyxstone_glue.c:834-867 | the whole resolution reports a missing form, and counts errors, exactly when a reference has no form, or an `.org` moves back or a value does not fit |
| Passes.ResolutionIgnoresReports | src/nyxstone_glue.c:762-867 | the resolution adds to the error counter an amount that depends neither on the counter nor on a stale `g_unsupported_reloc` |
| Passes.ResolutionIsBaseInvariant | src/nyxstone_glue.c:549-562 | the whole resolution commutes with moving the base and chosen absolute symbols, since sizing never reads an absolute value |
| Scanner.StripBlockComments | src/nyxstone.cpp:112-135 | the loop yields `Stripped` |
| Scanner.StripIsIdempotent | src/nyxstone.cpp:112-135 | stripping leaves no block comment outside a literal, and a second pass changes nothing |
| Scanner.StripComment | src/nyxstone.cpp:137-156 | the loop cuts at `CommentAt` |
| Scanner.CutOutsideLiterals | src/nyxstone.cpp:137-156 | the cut is outside every literal, at `#` or `//`, and none is before it |
| Scanner.SplitLosesNothing | src/nyxstone.cpp:510-526 | the statements and the separators between them concatenate to the text |
| Scanner.StatementsAgreeWithText | src/nyxstone.cpp:510-526 | scanning a statement from its own start sees the literals the whole text has there; both ends of a statement are outside every literal |
| LiteralLaws.NothingElseIsStripped | src/nyxstone.cpp:112-135 | text with no `/*` outside its literals is kept as it is |
| LiteralLaws.CommentBecomesSpace | src/nyxstone.cpp:112-135 | a block comment outside the literals becomes one space and the text around it stays; one that is not closed takes the rest |
| LiteralLaws.StatementsEnd | src/nyxstone.cpp:510-526 | a statement ends at the first line end or semicolon outside its literals, and what follows is read on its own |
| LiteralLaws.NumberIsRead | src/nyxstone.cpp:176-185 | a number in decimal, hexadecimal with small or capital letters, or octal, signed or not, is read as its value or the nearest 64-bit integer, up to the first character that cannot go on with it |
| LiteralLaws.PrefixAlone | src/nyxstone.cpp:176-185 | `0x` without a digit is the number 0 with a letter behind it |
| LiteralLaws.ListIsRead | src/nyxstone.cpp:194-256 | a list of integers, however each is written and wherever there are blanks, is read in order by both list readers; one operand too many is an error |
| LiteralLaws.CastIsCongruent | src/nyxstone.cpp:347-376 | the cast to `int` keeps the low 32 bits |
| LiteralLaws.EscapesAreRead | src/nyxstone.cpp:271-288 | a string with any characters escaped that have an escape reads back as itself |
| LiteralLaws.OtherEscapesAreDropped | src/nyxstone.cpp:273-283 | a backslash before any other character stands for that character |
| FrontEnd.Reader.AllIntLiterals | src/nyxstone.cpp:217-232 | true if and only if the text is a comma-separated list of numbers |
| FrontEnd.Reader.ParseIntArgs | src/nyxstone.cpp:238-256 | the loop yields `ParseOperands` |
| FrontEnd.Reader.EmitIntList | src/nyxstone.cpp:194-211 | emits the listed numbers little-endian, in order |
| FrontEnd.Reader.EmitAscii | src/nyxstone.cpp:258-300 | the literals of the list, or the first error |
| FrontEnd.Reader.SkipBytes | src/nyxstone.cpp:327-339 | the branch for `.skip` yields `Skip`, which `SkipRequests` describes |
| FrontEnd.Reader.Origin | src/nyxstone.cpp:340-349 | the branch for `.org` yields `SetOrigin`, which `OrgRequests` describes |
| FrontEnd.Reader.Exponent | src/nyxstone.cpp:365-366 | the loop finds the exponent whose power of two is the accepted value |
| FrontEnd.Reader.Alignment | src/nyxstone.cpp:350-378 | the branch for alignment yields `AlignTo`, which `AlignRequests` and `BalignRequests` describe |
| FrontEnd.Reader.Definition | src/nyxstone.cpp:379-393 | the branch for `.equ` yields `Equate`, which `EquateIsAsked` and `MalformedEquateFails` describe |
| FrontEnd.Reader.HandleDirective | src/nyxstone.cpp:303-426 | the requests and the flags of `Directive`; what the branches come to is stated by the lemmas of `DirectiveLaws`, `StatementLaws` and `OperandLaws` |
| FrontEnd.Reader.Process | src/nyxstone.cpp:466-506 | labels, then a directive or an instruction; what a statement asks for is stated by the lemmas of `StatementLaws` |
| FrontEnd.Reader.Run | src/nyxstone.cpp:510-526 | processing statements as they complete is processing the list of all statements |
| FrontEnd.Reader.Read | src/nyxstone.cpp:528-528 | the whole source, block comments first |
| PrintParse.LiteralRoundTrip | src/nyxstone.cpp:258-300 | a string with only quote and backslash escaped reads back as itself |
| PrintParse.IntsParse | src/nyxstone.cpp:194-232 | a printed list of 64-bit integers takes the fast path and comes back in order |
| PrintParse.PrintedProgramAssembles | src/nyxstone.cpp:466-528 | for all strings (with comment signs, separators, newlines, NULs) and integers, the printed program raises no error and emits exactly its bytes |
| Values.EmittedValue | src/nyxstone.cpp:188-211 | an integer emitted in w bytes, negative or too large though it may be, reads back modulo 256^w |
| Values.ExponentIsExact | src/nyxstone.cpp:359-367 | for a value `.balign` accepts, two to the exponent found is the value |
| Values.PowersAreAccepted | src/nyxstone.cpp:359-367 | every power of two is accepted, with its exponent |
| DirectiveLaws.StatementIsLocal | src/nyxstone.cpp:466-506 | a statement does the same after any others: it adds its requests, its section flag and, unless an earlier one has failed, its error |
| DirectiveLaws.FirstErrorWins | src/nyxstone.cpp:510-528 | for every source the error recorded is that of the first statement in error, and the section flag is up if and only if some statement leaves the section |
| DirectiveLaws.ViolatesIff | src/nyxstone.cpp:396-415 | a statement raises the section flag if and only if, behind its labels, it is a directive for another section |
| DirectiveLaws.OperandsParse | src/nyxstone.cpp:238-256 | printed 64-bit integers are read as operands in order, and one too many is an error |
| DirectiveLaws.SkipRequests | src/nyxstone.cpp:327-339 | `.skip n, v` emits n bytes v, 0 by default; a negative size and an operand too many are errors |
| DirectiveLaws.OrgRequests | src/nyxstone.cpp:340-349 | `.org n, v` asks for an org frag with that target and fill; a negative target is an error |
| DirectiveLaws.AlignRequests | src/nyxstone.cpp:350-378 | `.align k, v, m` asks for alignment to 2^k with that fill and max-skip, k from 0 to 30 and an error otherwise |
| DirectiveLaws.BalignRequests | src/nyxstone.cpp:350-378 | `.balign b, v, m` asks for the exponent whose power of two is b, and is an error exactly if b is no power of two |
| DirectiveLaws.BalignReachesBoundary | src/nyxstone.cpp:350-378 | from the text of `.balign b` without a max-skip to the layout: what follows the frag made for it starts at a multiple of b once padding is settled |
| StatementLaws.LayoutDoesNotCount | src/nyxstone.cpp:466-470 | blanks around a statement and a `#` or `//` comment behind it do not count |
| StatementLaws.NothingIsAsked | src/nyxstone.cpp:466-470 | blanks and a comment alone ask for nothing |
| StatementLaws.TagsAreAsked | src/nyxstone.cpp:475-493 | labels before a statement ask for themselves, one by one and in order, numbers as numbers, and then the statement counts |
| StatementLaws.InstructionIsAsked | src/nyxstone.cpp:466-506 | an instruction statement asks for exactly its labels, in order, and then for the instruction as it is written, without blanks and comment |
| StatementLaws.LastTagIsAsked | src/nyxstone.cpp:490-492 | a statement that is a label asks for that label |
| StatementLaws.SourceAsks | src/nyxstone.cpp:510-528 | over a whole source the instructions asked for are, in order, what stands behind the labels of its statements, directives excepted; none is missing |
| StatementLaws.IntegersAreEmitted | src/nyxstone.cpp:313-324 | each of the eleven data directives emits its integers one by one in its own width |
| StatementLaws.ExpressionsAreHandedOver | src/nyxstone.cpp:313-324 | an operand that starts with a name is handed over to gas as it is written |
| StatementLaws.StringsAreEmitted | src/nyxstone.cpp:325-326 | the strings of a directive are emitted in order, escapes read, each with a NUL behind it for `.asciz` and `.string` |
| StatementLaws.OthersAreAcceptedOrRejected | src/nyxstone.cpp:396-499 | of the directives without effect the listed ones are accepted, and every other name is an error |
| StatementLaws.OtherSectionsViolate | src/nyxstone.cpp:410-415 | each of the nine other section directives raises the flag and does nothing else |
| StatementLaws.SectionIsAcceptedOrViolates | src/nyxstone.cpp:397-409 | `.section` is accepted for `.text` and for names that go on with a dot behind it, and raises the flag for every other name |
| StatementLaws.EquateIsAsked | src/nyxstone.cpp:379-393 | `.equ name, value` asks for exactly that name and value; blanks around the first comma do not count |
| OperandLaws.WritingDoesNotCount | src/nyxstone.cpp:303-378 | base, sign and blanks of the integers of a directive do not count, only their values |
| OperandLaws.MixedDataIsHandedOver | src/nyxstone.cpp:217-324 | data of which one operand is no number is handed over to gas whole, and emits nothing itself; data without operands asks for nothing |
| OperandLaws.BrokenOperandsFail | src/nyxstone.cpp:327-357 | `.skip`, `.space`, `.zero`, `.org` and the alignments report an error when an operand is no number, and when there is none |
| OperandLaws.OpenStringFails | src/nyxstone.cpp:289-292 | a string that is not closed is an error, behind the strings before it |
| OperandLaws.WordIsNoString | src/nyxstone.cpp:265-299 | an operand that is no string is an error, behind the strings before it, and so is none |
| OperandLaws.MalformedEquateFails | src/nyxstone.cpp:382-390 | `.equ` without a comma, a name, a value or operands is an error |
| Pipeline.PlainBytesReturned | src/nyxstone_glue.c:834-967 | a section of plain bytes comes out of the back end unchanged, at any base |
| Pipeline.PrintedDataIsReturned | src/nyxstone.cpp:450-624 | the printed program, assembled at any address after any history, returns exactly its bytes |
| Driver.Library.Assemble | src/nyxstone.cpp:450-624 | one call on the mutable library yields the section and the result of `Assembled` |
| Driver.Library.ExtractBytes | src/nyxstone.cpp:590-593 | the size query and the read-out give the whole image |
| Driver.Library.CollectInfos | src/nyxstone.cpp:595-621 | one entry per relocation, with absolute offset and the address of the first label of that name |
| Guarantees.HistoryIndependence | src/nyxstone.cpp:450-624 | the result does not depend on the error counter, the stale relocation name or the section left by earlier calls |
| Guarantees.SessionForgets | src/nyxstone.cpp:450-624 | in any sequence of calls each result is the one a fresh library gives |
| Guarantees.SuccessIsClean | src/nyxstone.cpp:533-588 | success implies no directive error, no section switch, no parse error, no unsupported relocation, no later error, and in plain mode nothing unresolved |
| Outcomes.OutcomeIs | src/nyxstone.cpp:541-593 | every call, completely: the first error of the front end, else a section switch, else an error of parsing or of defining labels, else a form the encoder does not know, else an `.org` that moves back or a value that does not fit, else in plain mode a reference left for a linker; and success if there is none of these |
| Outcomes.UnsupportedIsLast | src/nyxstone.cpp:557-560 | the form reported is that of the last reference that has none |
| Outcomes.UndefinedAreOpen | src/nyxstone.cpp:575-588 | the labels reported as undefined are the symbols of the references left open, in order |
| Outcomes.OpenIsUndefined | src/nyxstone.cpp:575-588 | and each of them is one |
| Outcomes.LabelsStand | src/nyxstone.cpp:537-539 | in plain mode, when the fixups of a call are applied, a label definition stands for its address, and every other name where the parser has put it |
| Outcomes.RelocationModeDefinesNothing | src/nyxstone.cpp:537-539 | in relocation mode every name stands where the parser has put it |
| Outcomes.SuccessDefines | src/nyxstone.cpp:537-553 | a plain call that succeeds could define its labels: none is a symbol of the source, and no two have the same name |
| Outcomes.LabelReferencesArrive | src/nyxstone.cpp:537-593 | in the bytes of a plain call a reference to a label definition leads to its address |
| Outcomes.BytesAreGas | src/nyxstone.cpp:590-593 | outside the encoded fields the bytes a call returns are those gas has put there, and in the padding its pattern |
| Guarantees.SuccessIsResolved | src/nyxstone.cpp:533-593 | on success with the buffer every fixup with a defined symbol carries its value in the returned bytes, which are the image of the final layout |
| Guarantees.ReferencesArrive | src/nyxstone.cpp:533-593 | on success with the buffer, whoever reads a reference to a defined symbol in the returned bytes arrives at the symbol: at the base plus the number of bytes before the label, or at the value of an absolute symbol, plus the offset; through the site for pc-relative fields, cut where the field is |
| Guarantees.EncodedExactlyWithBuffer | src/nyxstone.cpp:533-593 | a call that succeeds has encoded a reference that was not right already if and only if the image buffer could be allocated |
| Guarantees.SuccessStaysInText | src/nyxstone.cpp:543-552 | a call that succeeds had no statement in error and none that asks for another section |
| Guarantees.FirstErrorIsReported | src/nyxstone.cpp:543-555 | the error reported is that of the first directive in error; a section switch is reported exactly if there is none; both come before anything gas reports |
| Guarantees.RelocationOfFixup | src/nyxstone.cpp:595-621 | each reference left open has its entry among the returned relocations, in order: at the base plus the number of bytes before the fixup, within the returned bytes, with the name of its symbol, the addend gas has recorded, the ELF type of its howto and the address of the first label of that name |
| Guarantees.FixupOfRelocation | src/nyxstone.cpp:595-621 | and each returned relocation is that entry of one reference left open |
| Guarantees.LabelsAreAccepted | src/nyxstone_glue.c:261-277 | label definitions raise no error if and only if no label names a symbol of the source and no two have the same name |
| Guarantees.LabelsTakeEffect | src/nyxstone_glue.c:261-277 | accepted labels hold their addresses, and every other name stays where it was |
| Guarantees.AssembleIsBaseInvariant | src/nyxstone.cpp:530-593 | in both modes: the same source at another base, labels moved along, gives the same bytes or the same error, with relocation sites and hints moved, if of the encoded references exactly those to the section and the labels are pc-relative |
| Guarantees.ListingIsTheBytes | src/nyxstone.cpp:682-721 | the instructions of a listing are exactly the bytes the plain call returns, cut into consecutive pieces at their addresses, each with the length and the text the decoder gives for its place |
| Disassembler.Disassemble | src/nyxstone.cpp:627-657 | the loop yields `Disassembled` |
| Disassembler.InstructionsCover | src/nyxstone.cpp:627-657 | the instructions cover the input without gap or overlap; with a count, exactly that many unless the input ends first |
| Disassembler.InstructionsDecode | src/nyxstone.cpp:635-655 | every instruction has the address, the text and as many bytes as the decoder gives for the place behind the instructions before it |
| Disassembler.FailureIsFirst | src/nyxstone.cpp:635-646 | the reported offset is the end of the instructions that decode, each what the decoder makes of its place, and nothing decodes there |
| Disassembler.DisassembleText | src/nyxstone.cpp:723-733 | the text is that of the instructions, or the error |
| Disassembler.TextOfAll | src/nyxstone.cpp:731-731 | the text is put together line by line, each instruction with a line end |
| Disassembler.StripAddrAnnotation | src/nyxstone_glue.c:1054-1066 | the two-cursor loop in place yields `Unannotated` |
| Disassembler.AnnotationGoes | src/nyxstone_glue.c:1054-1066 | from a blank and a `<` to the first `>` behind them the text goes, and what is before it, if no `<` is there, stays |
| Disassembler.TextsAreClean | src/nyxstone_glue.c:1068-1099 | if libopcodes puts a blank before every `<`, no text of a disassembly has an annotation, and one that had none is kept |
| Disassembler.IdempotentIff | src/nyxstone_glue.c:1054-1066 | a second pass changes nothing if and only if no run of dropped annotations lies between a kept blank and a kept `<` with a kept `>` later; the condition is one scan of the text |
| Disassembler.TidyIsIdempotent | src/nyxstone_glue.c:1054-1066 | in particular it changes nothing on what libopcodes prints, where every `<` stands behind a blank |
| Disassembler.TidyStripsClean | src/nyxstone_glue.c:1054-1066 | if every `<` stands behind a blank, no annotation is left |
| Disassembler.StrippingTwiceDiffers | src/nyxstone_glue.c:1054-1066 | a text on which a second pass removes more |
| Utf8.LossyIsValid | bindings/rust-ipc/src/connection.rs:257-259 | the lossy conversion always gives valid UTF-8 |
| Utf8.LossyKeepsValid | bindings/rust-ipc/src/connection.rs:257-259 | and leaves valid UTF-8 alone |
| Utf8.LossyKeepsFront | bindings/rust-ipc/src/connection.rs:257-259 | the valid text before an ill-formed piece is kept |
| Utf8.PieceIsReplaced | bindings/rust-ipc/src/connection.rs:257-259 | each ill-formed piece becomes one U+FFFD: a byte that begins no character, or the beginning of a character up to where no character goes on in that way |
| Utf8.EncodingIsValid | bindings/rust-ipc/src/protocol.rs:106-109 | valid bytes: the encoding of every sequence of Unicode scalar values is valid |
| Utf8.ValidIsEncoding | bindings/rust-ipc/src/protocol.rs:106-109 | and valid bytes are nothing else |
| Wire.BytesRoundTrip | bindings/rust-ipc/src/protocol.rs:74-109 | a length-prefixed byte string or string reads back, and nothing behind it is consumed |
| Wire.LabelCountFits | bindings/rust-ipc/src/protocol.rs:197-206 | `labels.len() as u32` cannot truncate in a body that fits a frame |
| Wire.BodyRoundTrip | bindings/rust-ipc/src/protocol.rs:186-273 | a request body that fits a frame parses back to the request |
| Wire.FrameRoundTrip | bindings/rust-ipc/src/protocol.rs:121-151 | a frame reads back and leaves the rest of the stream |
| Wire.PartialFrameIsEof | bindings/rust-ipc/src/protocol.rs:231-236 | every proper prefix of a frame reads as end of stream: frames delimit themselves |
| WireLaws.LowestByteFirst | bindings/rust-ipc/src/protocol.rs:68-97 | numbers travel with their lowest byte first |
| WireLaws.FrameLayout | bindings/rust-ipc/src/protocol.rs:121-136 | where kind, flags, length and body of a frame are |
| WireLaws.HandshakeLayout | bindings/rust-ipc/src/protocol.rs:153-157 | the bytes of the greeting |
| WireLaws.RequestLayout | bindings/rust-ipc/src/protocol.rs:186-219 | the six kinds of request, and the fields of their bodies in order |
| WireLaws.ValueLayout | bindings/rust/src/bin/nyxstone-tcd.rs:107-198 | the fields of the six kinds of answer in order |
| WireLaws.FieldLimit | bindings/rust-ipc/src/protocol.rs:74-105 | a byte string goes out with its length in front, up to 64 MiB; one announced as longer is an error before it is read, one cut short is the end of the stream |
| WireLaws.TextIsChecked | bindings/rust-ipc/src/protocol.rs:106-109 | text that is not valid UTF-8 is an error |
| WireLaws.RestIsLeft | bindings/rust-ipc/src/protocol.rs:241-273 | bytes behind the fields of a request are ignored |
| WireLaws.ShortBodyFails | bindings/rust-ipc/src/protocol.rs:241-273 | a request body that is cut short anywhere is an error |
| WireLaws.UnknownKindFails | bindings/rust-ipc/src/protocol.rs:250-251 | a kind other than the six is an error |
| Wire.RequestRoundTrip | bindings/rust-ipc/src/protocol.rs:186-225 | a request that could be written reads back as itself and leaves the rest of the stream |
| Wire.RequestsRoundTrip | bindings/rust-ipc/src/protocol.rs:186-225 | any sequence of written requests reads back in order |
| Wire.InstructionsRoundTrip | bindings/rust-ipc/src/protocol.rs:300-351 | an instruction list that fits a frame reads back, and its count is not cut |
| Wire.RelocationsRoundTrip | bindings/rust-ipc/src/protocol.rs:310-372 | likewise a relocation list, absent addends included |
| WireIO.Stream.WriteBytes | bindings/rust-ipc/src/protocol.rs:74-81 | appends the prefixed bytes, or rejects and leaves the stream unchanged |
| WireIO.Stream.WriteRequest | bindings/rust-ipc/src/protocol.rs:186-219 | appends exactly the frame, or rejects and leaves the stream unchanged |
| WireIO.Stream.ReadBytes | bindings/rust-ipc/src/protocol.rs:98-105 | the cursor reader takes what `GetBytes` takes |
| WireIO.Stream.ReadLabels | bindings/rust-ipc/src/protocol.rs:255-263 | the label loop takes what `GetLabels` takes |
| WireIO.Stream.ReadInstructions | bindings/rust-ipc/src/protocol.rs:341-351 | the record loop takes what `GetInstructions` takes |
| WireIO.Stream.ReadRelocations | bindings/rust-ipc/src/protocol.rs:353-372 | the record loop takes what `GetRelocations` takes |
| Daemon.AnswersFit | bindings/rust/src/bin/nyxstone-tcd.rs:83-94 | whatever the frame, the reply body is within the limit |
| WireLaws.ServingEnds | bindings/rust/src/bin/nyxstone-tcd.rs:72-79 | in the middle of a frame the daemon takes the client to be gone, at a frame announced as longer than 64 MiB it gives the stream up, and it writes nothing for either |
| WireLaws.AnswerStatus | bindings/rust/src/bin/nyxstone-tcd.rs:107-213 | the status of an answer says which of the seven errors the call had, or none, and its flags whether relocations follow |
| WireLaws.MalformedIsProtocolError | bindings/rust/src/bin/nyxstone-tcd.rs:83-86 | a frame that holds no request is answered with a protocol error and its message |
| WireLaws.CodeInFront | bindings/rust/src/bin/nyxstone-tcd.rs:199-213 | the message of an unknown status starts with its code in decimal, in brackets |
| Daemon.Serve | bindings/rust/src/bin/nyxstone-tcd.rs:66-99 | the loop writes the handshake and what `Served` specifies |
| Daemon.OneReplyPerFrame | bindings/rust/src/bin/nyxstone-tcd.rs:66-99 | any frames, malformed or not, get exactly one reply each, in order, as long as the label counts they announce can be reserved |
| Daemon.AbortsAtFirst | bindings/rust-ipc/src/protocol.rs:255-258 | and only as long: the daemon dies at the first frame whose announced label count cannot be reserved |
| Daemon.AnnouncedCountDecides | bindings/rust-ipc/src/protocol.rs:255-258 | whatever the operation, address, flags and following bytes: the daemon survives a body if and only if the operation does not assemble or room for the announced count can be reserved; a body too short to announce any is always survived |
| Remote.ValueRoundTrip | bindings/rust-ipc/src/connection.rs:139-224 | for each of the six operations the client decodes what the daemon encodes |
| Remote.ErrorRoundTrip | bindings/rust-ipc/src/connection.rs:256-270 | each error comes back as the same variant with the same message, unknown codes rewrapped |
| Remote.RemoteIsLocal | bindings/rust/src/bin/nyxstone-tcd.rs:107-213 | within the wire limits a remote call returns exactly the value or the error of the in-process call, for all six operations |
| Remote.RemoteNeverMisleads | bindings/rust/src/bin/nyxstone-tcd.rs:107-213 | without any size condition: a value that a remote call returns is the value of the in-process call |
| Remote.MessageTooLarge | bindings/rust/src/bin/nyxstone-tcd.rs:199-213 | an error message above the frame limit arrives as the same variant with an empty message; one that fits alone but not with its length prefix arrives as a protocol error |
| Remote.OutsideLimits | bindings/rust-ipc/src/connection.rs:234-254 | outside the limits the call fails, and for each limit with which error: count, request, value, error message too large for its frame, error message too large for any field |
| Connection.NoStaleReply | bindings/rust-ipc/src/connection.rs:98-131 | over all interleavings of partial transfers, crashes, timeouts, teardown and respawn, a returned reply is the daemon's reply to that very call; at most two connections and two sends per call, and a transport error is reported only after the retry |
| Connection.NeverRetriesAfterReply | bindings/rust-ipc/src/connection.rs:105-131 | once the reply of an attempt is complete, the call returns that reply whatever happens next, without another connection or another send |
| Connection.ReplyReturns | bindings/rust-ipc/src/connection.rs:97-111 | and the step that returns it is always possible |
| Connection.KeptConnectionIsQuiet | bindings/rust-ipc/src/connection.rs:98-131 | whenever no call is under way, a kept connection is empty in both directions and the daemon waits at a frame boundary, unless it died |
| Connection.CallsReturnOnce | bindings/rust-ipc/src/connection.rs:105-131 | calls return at most once, in order |
| Connection.NextKeeps | bindings/rust-ipc/src/connection.rs:98-131 | every single step keeps the invariant |
| Connection.CompleteIsReply | bindings/rust-ipc/src/connection.rs:97-103 | the wait ends only with the complete reply, and then nothing is left in the streams |
| Connection.ReplyIsRemoteCall | bindings/rust-ipc/src/connection.rs:105-150 | a reply that any run returns decodes to the outcome of the call over an undisturbed wire, hence to the in-process outcome |
| Connection.UndisturbedCallReturns | bindings/rust-ipc/src/connection.rs:97-111 | a call nothing disturbs returns its reply with one send and keeps the connection |
| Connection.ReconnectedCallReturns | bindings/rust-ipc/src/connection.rs:105-131 | a connection that was torn down is opened again, and the call gets through on it |
| Connection.OneFailureIsSurvived | bindings/rust-ipc/src/connection.rs:105-131 | when the first attempt of a call fails, however the daemon is, the retry on a new connection returns the reply to that very call |
| Connection.TwoFailuresAreReported | bindings/rust-ipc/src/connection.rs:119-131 | a second failure ends the call with a transport error and leaves no connection |
| CAbi.Heap.ConvertInstructions | src/nyxstone_c.cpp:100-126 | whichever allocation fails: a complete array owning exactly what was allocated, or NULL and an unchanged heap |
| CAbi.Heap.ConvertRelocations | src/nyxstone_c.cpp:129-148 | likewise for relocations |
| CAbi.Heap.FreeInstructions | src/nyxstone_c.cpp:390-397 | frees exactly what the array owns, each allocation once |
| CAbi.Heap.FreeRelocations | src/nyxstone_c.cpp:399-404 | likewise for relocations |
| CAbi.GrownThenFreed | src/nyxstone_c.cpp:387-404 | taking back what was handed over restores the heap |
| CAbi.OneMoreInsn | src/nyxstone_c.cpp:106-124 | a further record adds its own allocations to what the array owns and shares none |
| EntryPoints.Caller.Assemble | src/nyxstone_c.cpp:175-204 | all or nothing: on failure outputs empty and the heap unchanged but for the error string; on success the outputs hold the bytes and own exactly what was allocated; a value or a message is lost only if an allocation fails |
| EntryPoints.Caller.AssembleToInstructions | src/nyxstone_c.cpp:206-233 | the same for the instruction array |
| EntryPoints.Caller.AssembleWithRelocs | src/nyxstone_c.cpp:235-283 | the same for two outputs: a failure of the second undoes the first |
| EntryPoints.Caller.AssembleToInstructionsWithRelocs | src/nyxstone_c.cpp:285-326 | the same for instructions and relocations |
| EntryPoints.Caller.Disassemble | src/nyxstone_c.cpp:328-353 | the same for the text |
| EntryPoints.Caller.DisassembleToInstructions | src/nyxstone_c.cpp:355-382 | the same for disassembled instructions |
| EntryPoints.Caller.Release | src/nyxstone_c.cpp:387-404 | after any successful call the matching free helpers restore the heap, freeing nothing twice |
| EntryPoints.RelocsHandedToo | src/nyxstone_c.cpp:257-280 | ownership of the first output survives the allocation of the second |
| EntryPoints.SectionIffPhrase | src/nyxstone_c.cpp:75-83 | an error has the section status if and only if the phrase stands somewhere in its message |

## Left out

- Fields.AddressCodec: gives the identity only for values within 32 bits, because the encoder's checks stop there.
- Daemon.OneReplyPerFrame: requires the announced label counts to be reservable, because a refused reservation kills the process.
- Connection.NoStaleReply: a connection is opened in one step (spawn, socket options and handshake succeed or fail together).
- gas, libbfd and libopcodes: parsing of instructions and expressions, relaxation distances, `md_apply_fix`, `md_convert_frag` and the decoder are parameters; errors `md_convert_frag` may report are not modelled.
- Frags are records in a list and fixups refer to them and to symbols by index; heap nodes, aliasing and several frchains of one section are not modelled. Section sizes and addresses inside the section are unbounded.
- The symbol argument of `.org` frags (the glue always passes NULL).
- `parse_int` for literals beyond 64 bits is modelled as the clamp of `strtoll`; the printing results are for integers within 64 bits. Binary literals (`0b`) that newer C libraries accept are not modelled.
- The bit test `b & (b - 1)` of `.balign` is modelled as the property it tests, being a power of two.
- A `.skip` so large that the host vector cannot be built throws in the code; the model emits the bytes.
- `round_trip` takes every error of kind InvalidInput for its own validation, which an operating-system EINVAL also maps to; the model has no such system error.
- `nyxstone_glue_reset` is modelled as replacing the whole state of the section.
- The bit form of the alignment pad in `finalize_align_org` is modelled as a remainder.
- `md_apply_fix` may detach the symbol of a fixup; the model's records an addend and completion only.
- A quote inside a `#` comment opens a literal for the splitter; the model has this behaviour, and no result claims that comment text is inert.
- The wording of error messages beyond the class of the error; the daemon's and the client's own messages are parameters of bounded length.
- The stderr capture, obstacks, BFD initialisation, `nyxstone_create` and `nyxstone_destroy`.
- Strings with embedded NULs cut short by C callers; the heap model keeps the whole contents.
- Process spawning, daemon lookup and installation, the mutex around the connection (calls on one connection are sequential here), and the per-thread lock of the in-process bindings.
- The Python bindings, the in-process Rust FFI, build scripts and examples.
