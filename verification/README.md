# Verified model of the workload generator

This project models, in Dafny, the parts of the workload generator whose correctness is not
obvious from reading them, and proves what they are relied on for:

- **The bundled XML engine** (`source/ezxml.c`): text encoding and in-place decoding
  (`XmlText`, `LineEndings`) and when decoding ends (`DecodeTermination`), the entity table and
  its recursion check (`Entities`), the parser and printer (`XmlTree`, `XmlRoundTrip`, `XmlParser`,
  `XmlWriter`), the list of sub tags with its three linked views (`XmlLinks`, `XmlCut`) and how
  they can break (`LinkFailures`), the UTF-16 converter (`Bits`, `Utf8`, `Utf16`), and the bytes
  of a whole document (`XmlDocument`).
- **The storage tiering engine**: a state machine over counters, the sorted index, the band
  plan and the lists of the disks (`Tiering`), what holds in all its runs (`TieringRuns`), and
  the objects that carry it out in place (`TierEngine`, `TierWorkload`).
- **Around them**: the service start/stop handshake in every interleaving (`Service`), the
  startup barrier in every interleaving (`Barrier`), the random generator (`Random`), the biased
  choice of a file (`Descent`), the assignment of files to disks (`Config`), the way from the
  configuration over the barrier to the tiering engine (`Startup`) and the records it leaves
  (`Assembly`), path components (`PathNodes`) and number formatting (`Comma`).

Code that the program runs on shared or linked objects is modelled by classes and methods that
update them; each such method is tied to a function of the old state, and the lemmas are about
those functions. Bytes are `char` or `nat` values from 0 to 255; C strings end before the NUL.
Threads are modelled by their lock sections: one step per section, in any order.

Facts about the code that its comments do not tell:

- `ezxml_insert` never breaks the lookup by name, but in front of a head of the same name it
  leaves the old head on the chain of first tags (`LinkFailures.DisplaceHead`). After that,
  `ezxml_cut` of the new head closes the chain into a loop on which `ezxml_child` for another
  name never returns (`LinkFailures.CloseChain`); cutting the old head leaves the cut tag on the
  chain and loses what comes after it (`LinkFailures.CutOldHead`); so does cutting a tag that was
  inserted between the two (`LinkFailures.CutBetween`).
- Without a repeated name, `ezxml_cut` loses names exactly with a head whose successor is not the
  tag that the chain continues with (`XmlCut.KeepsOnce`). That also happens when the cut tag has
  no namesake: among c, a, b, a, cutting the first a and then c leaves `ezxml_child` without a
  (`LinkFailures.LoseName`). For every list on which the lookup works, `XmlCut.Cut` gives the
  exact condition under which it still works afterwards.
- Decoding ends on every text if and only if it ends on the value of every entity taken alone
  (`DecodeTermination.TerminatesExactly`). The recursion check does not ensure that:
  `DecodeTermination.OpenValuesLoop` gives two accepted declarations, the second with a reference
  left open in its value, that send the decoder in circles. Values made of whole references are
  enough, but not necessary. Where a name holds a second `;` the values alone do not decide
  (`DecodeTermination.InnerSemicolonLoops`).
- The loop over line ends goes on behind the terminator of a piece that ends with a CR and holds
  no CR LF (`LineEndings.StopsExactly`); the piece itself comes out right in every case.
- The recursion check also rejects harmless declarations: a name declared before is never
  looked up as the new entity (`Entities.CheckDecides`).
- A document that is just a byte order mark passes the length check of the parser and becomes an
  empty text behind it (`XmlDocument.MarkAlone`).
- The service handshake is safe for every handler that never signals an error, and for no other
  one: after an error the caller may free the context under the running handler
  (`Service.SafeExactlyWithoutErrors`). Repeated acknowledgements do no harm.

To check the project: `dafny verify dfyconfig.toml`.

## Model

| member | source | states |
|---|---|---|
| Entities.FindEntity | source/ezxml.c:195-196 | the search loop returns the first entry whose name starts the text, or the end of the table |
| Entities.CheckEntity | source/ezxml.c:268-279 | on a table with expansion weights the recursive check terminates, for any name and text, and returns EntOk |
| Entities.CheckFinds | source/ezxml.c:268-279 | the check accepts a value if and only if neither the value nor a declared entity it leads to uses the name |
| Entities.WeightsMakeAcyclic | source/ezxml.c:266-279 | a table in which every value is lighter than its own weight has no cyclic reference |
| Entities.AcceptedKeepsWeights | source/ezxml.c:268-279 | a declaration the check accepts leaves a table for which expansion weights still exist |
| Entities.CheckIsExact | source/ezxml.c:266-279 | for a name that no declared name starts with or starts, a declaration is accepted if and only if the reference graph stays free of cycles |
| Entities.CheckDecides | source/ezxml.c:266-279 | among names with one `;` the graph stays free of cycles if and only if the declaration is accepted or the name was declared before |
| Entities.ShadowedIsHarmless | source/ezxml.c:272-273 | an entity behind one whose name starts its own cannot close a cycle |
| Entities.PredefinedWeighted | source/ezxml.c:836-837 | the five predefined entities have expansion weights and whole values |
| Entities.DeclarationsStayAcyclic | source/ezxml.c:341-355 | over any run of accepted declarations the reference graph stays acyclic and weights exist |
| XmlText.StepIsLighter | source/ezxml.c:170-207 | every pass of the decoding loop leaves a rest with less expansion weight: the measure for termination |
| XmlText.NormalizeLines | source/ezxml.c:163-168 | the first loop of the decoder turns CR LF and CR into LF |
| LineEndings.SweptPiece | source/ezxml.c:163-168 | in the whole buffer the loop normalises the piece, fills up with NULs and arrives at its terminator, inside the inner loop exactly after a CR or CR LF at the end |
| LineEndings.StopsExactly | source/ezxml.c:163-168 | it stops at the end of the piece, whatever bytes lie behind, if and only if the piece does not end with a CR or holds a CR LF |
| LineEndings.PieceIsNormalized | source/ezxml.c:163-168 | read as a C string, the buffer then holds the normalised piece |
| LineEndings.SweepLines | source/ezxml.c:163-168 | the nested loops in place compute that sweep of the buffer |
| XmlText.Decode | source/ezxml.c:158-218 | wherever the passes over a text come to an end, the replace-and-rescan loop ends and leaves what they emit |
| XmlText.RewriteAt | source/ezxml.c:170-207 | each in-place rewrite of the buffer is one decoding step of the text from s on |
| DecodeTermination.TerminatesExactly | source/ezxml.c:170-207 | the loop ends on every text if and only if it ends on the value of every entity |
| DecodeTermination.WholeTableTerminates | source/ezxml.c:170-207 | with expansion weights and whole values it ends on every text |
| DecodeTermination.AcceptedTerminates | source/ezxml.c:341-355 | over every accepted run of declarations with simple names and whole values, decoding ends on every text |
| DecodeTermination.OpenValueTerminates | source/ezxml.c:193-204 | a value that is not whole need not keep it from ending |
| DecodeTermination.OpenValuesAccepted | source/ezxml.c:268-279 | on top of the predefined entities the check accepts two declarations; the value of the second leaves a reference open |
| DecodeTermination.OpenValuesLoop | source/ezxml.c:193-204 | with those declarations no number of passes decodes a reference to the first: the decoder does not terminate |
| DecodeTermination.InnerSemicolonLoops | source/ezxml.c:193-204 | with a second `;` in a name the decoder can end on the value and still not on the reference |
| XmlText.EncodedHasNoMarkup | source/ezxml.c:667-688 | encoded text contains no `<` or `>`, and encoded attribute text no double quote either |
| XmlText.SurvivesExactly | source/ezxml.c:158-218 | in text mode every NUL-free string survives encoding and decoding; in attribute mode exactly those without VT and FF |
| XmlText.DecodeUndoesEncode | source/ezxml.c:667-688 | decoding with the predefined entities gives an encoded string back if and only if it survives in that mode |
| XmlText.DecodePlain | source/ezxml.c:158-218 | the decoder on a table of predefined entities computes the plain decoding used by the parser model |
| XmlRoundTrip.AttrsRead | source/ezxml.c:507-547 | the printed attributes of a tag are read back: names, order and values |
| XmlRoundTrip.OpenTagRead | source/ezxml.c:498-568 | a printed start tag opens a tag with the same name and attributes |
| XmlRoundTrip.EndTagRead | source/ezxml.c:569-575 | a printed end tag closes the innermost tag of that name |
| XmlRoundTrip.ContentRead | source/ezxml.c:590-598 | printed content is appended to the innermost tag, decoded |
| XmlRoundTrip.TagRuns | source/ezxml.c:483-600 | the main loop on a printed tag followed by content adds exactly that tag and content |
| XmlRoundTrip.ParsePrint | source/ezxml.c:470-600 | parsing the printed form of any well-formed tree returns the same tree: names, attributes, text, sub tags, offsets |
| XmlWriter.Writer.Reserve | source/ezxml.c:674 | the growing loop makes room and keeps the text written so far |
| XmlWriter.Writer.AmpEncode | source/ezxml.c:667-688 | appends the encoded text without overrunning the buffer |
| XmlWriter.Writer.ToXmlR | source/ezxml.c:693-741 | the recursive printer appends the printed rest of a list of sub tags |
| XmlWriter.ToXml | source/ezxml.c:745-781 | the result is the printed form of the tree |
| XmlParser.ReadAttributes | source/ezxml.c:507-547 | the attribute loop computes ReadAttrs |
| XmlParser.ParseFrom | source/ezxml.c:483-600 | the main loop computes the run of the parser from a `<` on |
| XmlParser.ParseStr | source/ezxml.c:470-600 | returns what the document parses to, and every well-formed tree from its printed form |
| XmlDocument.ParseBytes | source/ezxml.c:478-600 | length check, conversion and parsing of the bytes of a document |
| XmlDocument.Utf16RoundTrip | source/ezxml.c:478-600 | the printed form of a well-formed tree, in UTF-16 of either byte order behind its mark, parses to that tree |
| XmlDocument.NothingConverted | source/ezxml.c:478-483 | the conversion leaves no text, and the last byte lies before it, exactly if no 16-bit unit follows the mark |
| XmlDocument.MarkAlone | source/ezxml.c:478-483 | a byte order mark alone passes the length check and converts to nothing |
| XmlLinks.Child | source/ezxml.c:60-65 | the first entry of the chain with that name; where the chain finds all, the first tag of the list filtered by name |
| XmlLinks.Idx | source/ezxml.c:69-73 | returns the idx-th tag of the rest of the list filtered by name |
| XmlLinks.LinkOrdered | source/ezxml.c:856-869 | the new tag goes behind every tag whose offset is not larger |
| XmlLinks.FindType | source/ezxml.c:871-872 | the walk ends at the chain entry of the name and its predecessor |
| XmlLinks.LinkNames | source/ezxml.c:871-887 | `next` is right afterwards, and the chain is the old one with the tag in place of its first namesake, by offset, or unchanged behind a namesake |
| XmlLinks.InsertFinds | source/ezxml.c:871-887 | the new chain finds the first tag of every name, from any chain that did |
| XmlLinks.Insert | source/ezxml.c:849-888 | the list stays sorted and stable, `next` the list filtered by name, and the lookup by name right in every case; the chain holds each name once if and only if it did and no head of the same name is displaced |
| XmlCut.UnlinkOrdered | source/ezxml.c:977-979 | the ordered list without the cut tag |
| XmlCut.UnlinkNext | source/ezxml.c:981-992 | `next` is right for the list without the cut tag, from whichever tag the search starts |
| XmlCut.CutSibling | source/ezxml.c:981-989 | the entry before the one of the tag's name leads past the tag if that entry is the tag; no other pointer changes |
| XmlCut.CutIsExact | source/ezxml.c:966-997 | after the pointer changes there is a walk that finds the first tag of every name if and only if KeepsLookup held, for every list, chain and pointers off the chain |
| XmlCut.NamesakeLoops | source/ezxml.c:971-988 | when the cut tag is the one its name is looked up at and its namesake is on the chain already, no walk from the head both ends and finds all |
| XmlCut.HeadWalk | source/ezxml.c:971-975 | what a walk from the new head visits once the head is cut, and exactly when it misses a name |
| XmlCut.Cut | source/ezxml.c:966-997 | the list and `next` stay right and every `sibling` pointer is what AfterCut says; the lookup by name still works, by some walk from the head, if and only if CutKeeps held before the call |
| XmlCut.KeepsOnce | source/ezxml.c:966-997 | for a tag at most once on the chain, its namesake not, that condition says that the new head is the tag the chain continues with |
| XmlCut.SamePointerKeeps | source/ezxml.c:971 | a namesake on the chain does no harm to a tag not looked up if both have the same pointer |
| LinkFailures.LoseName | source/ezxml.c:966-997 | insertions and two cuts lead to a tag of the list that the lookup by its name does not find |
| LinkFailures.DisplaceHead | source/ezxml.c:877-885 | an insertion in front of a head of the same name leaves the name on the chain twice |
| LinkFailures.CutOldHead | source/ezxml.c:966-997 | cutting the displaced head leaves it on the chain and loses a tag of another name |
| LinkFailures.CutBetween | source/ezxml.c:966-997 | cutting a tag inserted between the two, which is not on the chain, loses a tag of another name |
| LinkFailures.PointersMayDiffer | source/ezxml.c:971 | pointers that differ need not break the lookup, where the entries left out only repeat names |
| LinkFailures.CutRepeatedHead | source/ezxml.c:966-997 | cutting a head whose chain continues with its namesake leaves that namesake as its own sibling |
| LinkFailures.CloseChain | source/ezxml.c:60-65 | after that the search for another name, which is in the list, stays at that tag for any number of rounds |
| Utf16.PayloadBits | source/ezxml.c:444-445 | the bit count passes 7, 11, 16 and 21 exactly where a UTF-8 encoding gets longer |
| Utf16.EmitIsUtf8 | source/ezxml.c:442-449 | (bits - 2) / 5 is right for every code point and the bytes are those of section 3 of RFC 3629 |
| Utf8.HeadBitsFit | source/ezxml.c:446 | the value bits of the head byte lie in the zero bits of its marker for every value with a defined shift, so the or of the two is their sum |
| Bits.OrAdds | source/ezxml.c:446-447 | the bitwise or with a shifted value is the sum when the other one fits below the shift |
| Bits.AndMask | source/ezxml.c:447 | the bitwise and with a mask of k ones is the remainder by 2^k |
| Utf16.CountBits | source/ezxml.c:444 | the counting loop returns the number of bits |
| Utf16.PutPayload | source/ezxml.c:447 | writes the payload bytes, most significant first |
| Utf16.MakeRoom | source/ezxml.c:441 | afterwards there is room for six bytes and nothing written is lost |
| Utf16.PutChar | source/ezxml.c:442-448 | writes exactly the encoding of one character, within the room made |
| Utf16.Str2Utf8 | source/ezxml.c:422-451 | input with a byte order mark is converted character by character, other input is left alone |
| Utf16.ConvertsText | source/ezxml.c:422-451 | well-formed UTF-16 in either byte order (section 2.1 of RFC 2781) becomes exactly the UTF-8 encoding of its code points |
| Utf16.DecodesText | source/ezxml.c:442-449 | the UTF-8 bytes decode to the code points again |
| Utf16.ConversionRoundTrip | source/ezxml.c:422-451 | converting and decoding gives the text back, in either byte order |
| Tiering.BandUnique | source/workload_access.c:126-135 | each position lies in the band of exactly one disk |
| Tiering.PromoteSorts | source/workload_access.c:115-124 | moving a file up past smaller counts restores the descending order |
| Tiering.PromotePermutes | source/workload_access.c:115-124 | the sorted array stays a permutation with m_index as inverse |
| TieringRuns.CurrentIsByBand | source/workload_access.c:126-135 | a current plan binds each position of the sorted array for exactly the disk whose band holds it |
| TieringRuns.AccessSorts | source/workload_access.c:101-144 | a counted access keeps the array in descending access count |
| Tiering.SumBump | source/workload_access.c:101-112 | counting adds the same amount to the sum |
| Tiering.DroppedExactly | source/workload_file.c:168-178 | unlinking removes exactly one file from a list |
| Tiering.DeassignedPlaced | source/workload_file.c:154-185 | every list stays the set of files pointing at its disk |
| Tiering.AssignedPlaced | source/workload_file.c:279-302 | assigning keeps all lists together a partition of the assigned files |
| Tiering.RelocatedGood | source/workload_relocate.c:18-25 | relocating a file keeps the state consistent whether or not the move succeeds |
| TieringRuns.StepKeepsInv | source/workload_access.c:101-172 | every step keeps the invariant: totals, order, plan, lists |
| TieringRuns.CountsConserved | source/workload_storage.c:121-127 | in every run the totals equal the sums over files, the sums over disks never exceed them and equal them while relocation was not switched |
| TieringRuns.RelocateKeepsPlan | source/workload_relocate.c:18-25 | a relocation step keeps the plan if and only if the move succeeds or none was due |
| TieringRuns.IndexAndPlan | source/workload_access.c:101-144 | in every run the array is a permutation in descending access count and each position is bound for exactly the disk of its band while moves succeed |
| TieringRuns.PassMovesAll | source/workload_relocate.c:14-28 | a complete pass with successful moves leaves no target and every file where it was bound |
| TieringRuns.PassRealisesTiers | source/workload_relocate.c:14-28 | after such a pass every disk holds its original number of files and no file on a later disk was accessed more often than one on an earlier disk |
| TierEngine.Unlink | source/workload_file.c:168-178 | the doubly linked list without the file, count included |
| TierEngine.Link | source/workload_file.c:293-299 | the doubly linked list with the file in front |
| TierEngine.Deassign | source/workload_file.c:154-185 | lists and pointers change as Deassigned says |
| TierEngine.Assign | source/workload_file.c:279-331 | lists and pointers change as Assigned says if the move succeeds, and not at all otherwise |
| TierWorkload.Workload.StepUp | source/workload_access.c:119-123 | two neighbours change places in the array and in m_index |
| TierWorkload.Workload.RepairIndex | source/workload_access.c:115-124 | the loop leaves the order Promote describes and a correct inverse index |
| TierWorkload.Workload.CountUp | source/workload_access.c:104-112 | the counters of file, disk and workload grow as Counted says |
| TierWorkload.Workload.PlanBands | source/workload_access.c:126-135 | the nested loops leave exactly the planned targets |
| TierWorkload.Workload.CountAccess | source/workload_access.c:98-142 | the locked section carries out the step Access |
| TierWorkload.Workload.FileAccess | source/workload_access.c:27-147 | counts once if the file is assigned, not faked, opens and transfers something, else nothing |
| TierWorkload.Workload.StartupWrite | source/workload_storage.c:119-131 | the startup write carries out the step Counted |
| TierWorkload.Workload.RelocateOne | source/workload_relocate.c:19-24 | the loop body carries out the step Relocated |
| TierWorkload.Workload.Relocate | source/workload_relocate.c:14-28 | the loop relocates every file in list order |
| TierWorkload.PassOfSuccesses | source/workload_relocate.c:14-28 | with successful moves that is the pass that realises the tiers |
| TierWorkload.Workload.ResetFileAccessCount | source/workload_access.c:149-172 | all counters become zero and nothing else changes |
| TierWorkload.Workload.ResetDiskCounts | source/workload.c:531-537 | the disk counters become zero and nothing else changes |
| Service.StepKeepsInv | source/service.c:121-327 | every step of caller and worker keeps the invariant when the handler signals no error |
| Service.ErrorIsUnsafe | source/service.c:180-189 | a handler that signals an error has a run in which it uses the freed context |
| Service.SafeExactlyWithoutErrors | source/service.c:121-327 | in every interleaving: freed at most once, not used afterwards, a handle only after an acknowledgement, no stop command overwritten, no handle lost before the worker has finished; if and only if the handler never signals an error |
| Service.CloseEnds | source/service.c:293-309 | once the handler has finished, close frees the context at its next poll, once |
| Service.Context.Enter | source/service.c:125-127 | the first lock section of the worker is its first step |
| Service.Context.Leave | source/service.c:131-133 | the last lock section of the worker is its last step |
| Service.Context.AckService | source/service.c:169-178 | acknowledging is the step Ack |
| Service.Context.ErrorService | source/service.c:180-189 | signalling an error is the step Error |
| Service.Context.OpenPoll | source/service.c:238-243 | the lock section in the loop of open carries out the step Poll |
| Service.Context.ClosePollOnce | source/service.c:294-299 | the lock section in the loop of close carries out the step ClosePoll |
| Barrier.StepKeepsInv | source/workload_storage.c:82-136 | every step of services and main thread keeps the counting invariant |
| Barrier.PassedMeansCounted | source/workload_config.c:680-723 | past the barrier, in every interleaving, each file is counted once, each disk as often as it has files, the workload as often as there are files |
| Barrier.BarrierIsExact | source/workload_config.c:706-721 | a look of the main thread passes the barrier if and only if there was no error and every service is through its list |
| Barrier.SortedPastBarrier | source/workload_file.c:121-126 | past the barrier the initial sorted array is in descending access count |
| Startup.SpreadStarts | source/workload_config.c:590-667 | what the loops of the configuration leave is an initial state of the tiering engine |
| Assembly.UpdateFileArray | source/workload_file.c:121-126 | the loop leaves the files in their order in both arrays and each file its position |
| Assembly.Assemble | source/workload_config.c:525-667 | creation, arrays, assignment and bands end in records that represent the initial state of the engine for what was spread |
| Startup.RunRefines | source/workload_storage.c:119-131 | every interleaving at the barrier is a legal run of startup steps of the engine |
| Startup.PassedIsLoaded | source/workload_config.c:706-721 | past the barrier the engine has counted every file |
| Startup.ConfiguredTiers | source/workload_relocate.c:14-28 | from the configuration on, a complete pass with successful moves leaves every disk as many files as the configuration gave it, more often used files on earlier disks |
| Random.SeriesDivides | source/random.c:17-18 | the distance covered by n updates is divisible by exactly the powers of two that divide n |
| Random.FullPeriod | source/random.c:17-18 | n updates return to the seed if and only if 2^32 divides n |
| Random.SeedComesUp | source/random.c:17-18 | every 32-bit seed comes up within one period |
| Random.OutputOf | source/random.c:59-60 | exactly two seeds give each 31-bit result |
| Random.EachResultTwice | source/random.c:55-63 | over any full period each 31-bit result is drawn exactly twice |
| Random.Generator.Rand | source/random.c:55-63 | one update, then the halves rotated and shifted |
| Random.Generator.Srand | source/random.c:35-46 | seed and uptime are added modulo 2^32, then one update |
| Random.Generator.NextRand | source/random.c:65-76 | the first call seeds with the time and the uptime; then the result of one update |
| Random.Generator.FillRand | source/random.c:78-100 | fills exactly `size` bytes, two per draw, low byte first, seeding on the first call; with no bytes to fill nothing is seeded or drawn |
| Descent.DepthIsLog | source/workload.c:934-939 | the number of draws is the binary logarithm of n, rounded up |
| Descent.AccessRandomIndex | source/workload.c:928-942 | returns an index below n after exactly that many calls of the generator, as their results lead, whatever other threads draw in between |
| Descent.IndexFrequency | source/workload.c:934-939 | of all draw vectors, Ways of them lead to an index |
| Descent.WaysInside | source/workload.c:934-939 | with positive ratios every index below n can come up, and no other |
| Descent.WaysSum | source/workload.c:934-939 | the ways to all indices add up to (left + right)^draws |
| Descent.WaysMirrored | source/workload.c:934-939 | swapping the ratios mirrors the distribution |
| Descent.WaysScaled | source/math.c:37-58 | a common factor of the ratios only scales the distribution |
| Descent.Gcm | source/math.c:15-35 | the greatest common divisor, 0 when an argument is 0 |
| Descent.AspectRatio | source/math.c:37-58 | the ratio in lowest terms, 1:1 when an argument is 0 |
| Config.StepsOf | source/workload_config.c:616 | the steps going to disk d form one interval |
| Config.ShareOf | source/workload_config.c:616 | that interval is N/D long, rounded down or up |
| Config.EvenShares | source/workload_config.c:616 | after all steps every disk has the rounded-down or rounded-up share |
| Config.ShuffledPermutes | source/workload_config.c:607-614 | whatever is drawn, the shuffle is a permutation |
| Config.EachOrderOnce | source/workload_config.c:607-614 | every order of the files comes from exactly one vector of reduced draws |
| Config.PickEven | source/workload_config.c:607-614 | one in-place exchange, and the file chosen |
| Config.AssignFiles | source/workload_config.c:590-650 | each method assigns every file record exactly once, to the disk of its step, and keeps the linked lists and counts of the disks; no assignment can fail |
| Config.NextFileIndex | source/workload_config.c:659-667 | the prefix sums are bands as wide as the file counts and end at their total |
| Config.SpreadIsReady | source/workload_config.c:590-667 | the loops leave every file on one list, bands as wide as the lists, and even shares under the ordered and even methods |
| PathNodes.StepRefines | source/string.c:190-226 | one check of the flags is one step of walking the path |
| PathNodes.MarksRefineWalk | source/string.c:190-226 | the components not ignored are those a stack walk leaves |
| PathNodes.ResolvingTwice | source/string.c:190-226 | resolving a resolved path changes nothing |
| PathNodes.RootStays | source/string.c:206-218 | ".." never leaves the root |
| PathNodes.AppendWalks | source/string.c:356-400 | an appended path goes on from where the first one leads |
| PathNodes.SplitPrinted | source/string.c:228-354 | splitting what was printed gives the components back |
| PathNodes.StrippingTwice | source/string.c:283-354 | stripping twice changes nothing more when a component survives |
| PathNodes.NodeList.CheckIgnore | source/string.c:190-226 | sets the flags of one check |
| PathNodes.NodeList.Parse | source/string.c:228-276 | builds the components of a string and their flags; without separators a single component |
| PathNodes.NodeList.Append | source/string.c:356-400 | joins the lists, or replaces the first by an absolute second one, and recomputes all flags or keeps them |
| PathNodes.ShownIsKept | source/string.c:301-308 | the components printed when stripping are those not ignored |
| PathNodes.AllocSize | source/string.c:294-314 | the first pass computes the exact size |
| PathNodes.NodeToString | source/string.c:283-354 | the second pass fills exactly what was allocated; with nothing to print it writes nothing, not even a terminator |
| Comma.CommaTextFits | source/string.c:509-522 | the size asked for is always enough, and exact for digit strings: n + (n - 1) / 3 |
| Comma.GroupsOfThree | source/string.c:490-503 | counted from the right every fourth character is a comma and no other |
| Comma.GroupingUndone | source/string.c:473-507 | deleting the commas gives the digits back |
| Comma.CommaStringPrivate | source/string.c:473-507 | writes the grouped text and its terminator within the buffer |
| Comma.CommaString | source/string.c:509-522 | succeeds exactly when the buffer is large enough, and writes nothing otherwise |
| Comma.ScaledIsFloor | source/string.c:552 | repeated division gives floor(value / div^k) |
| Comma.DecimalFits | source/string.c:530-534 | a 64-bit value has at most 20 digits, fewer than the temporary buffer holds |
| Comma.RoomIsExact | source/string.c:536-539 | the room beside the unit letter is within the buffer if and only if the buffer is not empty or no letter is wanted; otherwise it wraps and every number passes for short enough |
| Comma.FitsExactly | source/string.c:524-555 | a try passes exactly if its text fits; with an empty buffer exactly from the first unit letter on |
| Comma.PrintableCommaString | source/string.c:524-555 | uses the least unit that passes, and fails only if none does |

## Left out

- XmlParser.ParseStr: a document with a DTD or a processing instruction is reported as not modelled; of a failed parse only the kind of error is modelled, not the partial tree.
- XmlText.Decode: the table is fixed while a text is decoded. The modes for parameter entities and for non-CDATA attributes occur only with a DTD and are not modelled.
- XmlText.RewriteAt: the buffer is a sequence spliced in place; its aliasing with the document, `malloc`ed copies and the adjustment of pointers after `realloc` are not modelled. Character references whose value makes a shift count negative, or that decode to a multiple of 256 below zero, are undefined in C.
- XmlText.NormalizeLines: works on the piece alone; what the loop does to the bytes behind it is the subject of LineEndings, for buffers with a NUL to stop at.
- Entities.DeclarationsStayAcyclic: the text of the internal DTD subset is not parsed; declarations are taken as name and value pairs whose names end in `;`.
- XmlWriter.ToXml: attributes printed twice are told apart by name, not by pointer; ATTLIST defaults and processing instructions are not printed.
- XmlLinks.LinkNames: as for XmlLinks.Insert.
- XmlLinks.Insert: nothing is claimed for a list on which a cut has broken the lookup by name. Memory ownership flags, `ezxml_free`, `ezxml_set_attr` and moving a tag between parents are not modelled.
- Tiering.Access: counters are unbounded; their wrap-around at 64 bits, time stamps, the database update and the open, read and write calls are not modelled. Whether a transfer or a move succeeds is a parameter.
- TierEngine.Assign: claims about lists are for serialised runs, because the program splices lists under the lock of the file only; deletion of the old copy and the created flag are not modelled. In C a failed move of an assigned file leaves it assigned, as here.
- TierWorkload.Workload.Relocate: concurrent accesses between the moves of one pass are not interleaved.
- Service.SafeExactlyWithoutErrors: a handler is any finite sequence of actions, whatever it reads; thread creation, sleeping and timers are nondeterministic; that open or close eventually return is not claimed for handlers that never end.
- Barrier.PassedMeansCounted: writing the contents of a file is one step that succeeds or fails; an unfinished write still counts, as in the program.
- Descent.IndexFrequency: the counts are over vectors of draws below the sum of the ratios and do not account for the small bias of reducing a 31-bit result.
- Config.AssignFiles: products are unbounded instead of 64 bits wide; an interruption by the user ends the program's loop early and is not modelled.
- Random.Generator.FillRand: 16-bit stores are taken to be little-endian.
- PathNodes.NodeList.Parse: failed allocations are not modelled.
- Comma.PrintableCommaString: the memory behind an empty buffer is taken to hold the 28 bytes that the call then writes.
- Database layers, terminal, log, UDP commands, option parsing, XML lookup of the configuration, wall-clock timers and the pattern matcher: plumbing or irregular code that would add only easy members.
