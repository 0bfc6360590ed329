# Verified models of four algorithmic cores

This project models four components of the repository in Dafny and proves what they are for.

* **Unicode sequences** (`GSeq.h` of gnustep-base): in-place normalisation of 16-bit strings, comparison of
  composed character sequences, and substring search. Modules `UnicodeTables`, `Decomposition`, `SkippedHeads`,
  `CanonicalOrder`, `GSeq`, `NormalForms`, `StringCompare`, `StringSearch`, `BackwardSearch`,
  `SearchExtent`, `SearchComplete`, `CaselessSearch`.
* **The gdomap name server** (`gdomap.c`): the sorted table of names, the list of peers, the queue of datagrams,
  probing, the list-of-names reply and its reader, and the server itself as a state machine over descriptors.
  Modules `PortMap`, `NameService`, `PeerList`, `UdpQueue`, `NamesReply`, `BitOps`, `Interfaces`, `Probes`,
  `ListedHosts`, `Slots`, `Channels`, `GdomapServer`, `Handling`, `Runs`.
* **The Mach-O rewriter** (`markgc.cpp`): disabling initialiser sections in thin and fat files, for both pointer
  widths and byte orders. Modules `MachO`, `MarkGC`, `MarkGCSquare`, `FatFiles`, `FatTable`.
* **The firehose tracepoint reader** (`firehose_buffer_private.h`). Module `Firehose`.

`Bytes`, `Shifting` and `Wrappers` are shared. `dafny verify dfyconfig.toml` checks everything.

Code that changes state is modelled as methods over arrays, linked objects or class fields; each is proved against a
specification function, and the theorems are lemmas about those functions. What the system calls return is a parameter.

## Findings

Places where the code does something other than one would expect. The code is modelled as it is; the exact condition
is proved.

* *Normalisation does not always decompose fully.* After a pass of the expansion loop, the scan restarts behind the
  first unit it decomposed (`GSeq.h:133-136`), so the head of that unit's decomposition is not looked at again. The
  table in `Source/Additions/unicode/decomp.h` has 245 entries whose decomposition starts with a unit that is itself
  decomposable (line 188: U+01D5 into U+00DC U+0304; line 39: U+00DC into U+0055 U+0308), so U+01D5 alone becomes
  U+00DC U+0304. `Decomposition.ExpandIsFullIff` states exactly which inputs are affected,
  `SkippedHeads.ExpandIsFullIffRecords` reads that condition for tables in which only heads decompose deeply (in the
  shipped table only U+0390 and U+03B0, lines 261 and 268, have a decomposable later unit, U+0344, line 249, and it
  does so once), and `SkippedHeads.ExpandAlwaysFullIff` says which tables are never affected. Normalising twice
  changes a string under exactly the same condition (`NormalForms.IdempotentIff`), and so does the raw-equality fast
  path disagree with the slow path when a normal form meets an unmarked copy of itself
  (`NormalForms.FastPathAgreesIff`). Two canonically equivalent strings of which one is affected never compare the same
  (`NormalForms.SafeNeverEqualsUnsafe`, with an example in `NormalForms.EquivalentButDifferent`).
* *The counted NUL.* A pass of the expansion copies the terminator and counts it (`GSeq.h:119-141`), so a string with
  a unit of 0xC0 or more never compares equal to one without, even if they are canonically equivalent
  (`NormalForms.MixedNormalFormsDiffer`). The Kelvin sign U+212A, which the table turns into U+004B (`decomp.h` line
  869), is such a case: it does not compare the same as K (`NormalForms.KelvinIsNotK`). When normal forms are equal is
  characterised for all pairs of composed sequences (`NormalForms.EqualNormalFormsAlways`), and in terms of full
  decompositions for unaffected ones (`NormalForms.EqualNormalFormsIff`).
* *Composed search can raise.* If nothing matches, the target has no base unit and the range ends with the string, the
  forward loop reads at the end of the string and `rangeOfComposedCharacterSequenceAtIndex:` raises; otherwise it never
  does (`StringSearch.ForwardOutcome`, `StringSearch.BaseLengthZeroIff`, `StringSearch.SearchRunsOffTheEnd`). The
  backward loop raises for every such target and range, whether or not there is a match
  (`BackwardSearch.BackwardOutcome`).
* *A composed search can report a range outside the one searched, or other text.* A caller expects what
  `SearchExtent.Sound` says: the range found lies in the range searched, and its text, taken alone, compares Same with
  the target. With U+0304 a mark and letters bases, three inputs fail: forward for b U+0304 in the first two units of
  a b U+0304, found past the end of the range (`SearchExtent.PastTheRange`); backward for a U+0304 in the whole of
  x a U+0304, found past the end of the string (`SearchExtent.PastTheString`); forward for a U+0304 in the last two
  units of a U+0304 b, which finds U+0304 b (`SearchExtent.WrongText`). A backward search can also find a match before
  the range (`BackwardSearch.MatchBeforeRange`). Exactly when a search is sound is `SearchExtent.ForwardSoundIff` and
  `SearchExtent.BackwardSoundIff`: the match begins at a boundary inside the range, and the range ends at a boundary or
  some sequence that begins in it is not part of the match; `SearchExtent.ForwardUnsoundIff` and
  `SearchExtent.BackwardUnsoundIff` say the same of the string, target and range alone. By direction and defect: a
  search runs past the end of the range under `SearchExtent.ForwardOverrunsIff` and
  `SearchExtent.BackwardOverrunsIff`; a backward search leaves the beginning under
  `BackwardSearch.BackwardLeavesStartIff`, and reports a match that begins inside a sequence under
  `BackwardSearch.BackwardUnalignedIff`. Whole families fail: a forward search that begins inside a matching sequence
  (`SearchExtent.ForwardFromInside`), and a backward search for a base with marks that stands at the end of the range
  (`SearchExtent.MarkedAtRangeEnd`). Between boundaries a forward search for a target with a base unit is always sound
  (`SearchExtent.ForwardSound`), and so is a backward one whose first position is a boundary
  (`SearchExtent.BackwardSound`).
* *A composed search can miss an occurrence.* Three inputs: nothing is looked for if the target has more units than
  the range (`GSeq.h:670-673`), so U+0055 U+0308 is not found in U+00DC, with which it compares Same
  (`SearchComplete.LongerThanTheRange`); anchored backward, the one position tested is as many units before the end as
  the target has base units, so a U+0304 b U+0304 is not found in itself (`SearchComplete.NotFoundInItself`); forward
  from inside a sequence, the walk jumps over the next boundary, so b is not found in the last four units of
  a U+0304 U+0304 b c (`SearchComplete.JumpedOver`). Exactly what is lost: leaving out the last positions loses nothing
  (`SearchComplete.CutoffLosesNothing`), so an unanchored forward search from a boundary misses a match iff the target
  is longer than the range (`SearchComplete.ForwardMissesIff`), and a backward one, from anywhere, iff it is longer or
  the exception is raised (`SearchComplete.BackwardMissesIff`). The forward walk visits every boundary iff it begins at
  one or its first sequence goes on behind the last position (`SearchComplete.ForwardVisitsAllIff`). Anchored at the
  beginning nothing but the length is lost (`SearchComplete.AnchoredForwardIff`); anchored at the end an occurrence is
  found iff moreover it has no mark behind its first unit and the target does not begin with one
  (`SearchComplete.AnchoredBackwardIff`, `SearchComplete.FindsItselfIff`). Together with soundness: between boundaries a
  target with a base unit is found iff it occurs and is no longer than the range (`SearchComplete.ForwardFindsIff`,
  `SearchComplete.BackwardFindsIff`).
* *Caseless search and caseless comparison disagree.* The search lowers the first sequence before it normalises it, the
  comparison lowers every sequence afterwards (`GSeq.h:605-614`). What is found compares Same iff the first sequences
  have the same key in the comparison (`StringSearch.FoundComparesSameIff`), and what compares Same is found iff they
  have the same key in the search (`SearchComplete.TextMatchesIff`); both hold where lowering commutes with
  normalisation (`CaselessSearch.FoundIsSame`, `CaselessSearch.SameIsFound`). Of the single units that the shipped
  tables change, it does not for U+0130, U+1FBE, U+212A and U+212B. The search for k finds the Kelvin sign, which
  compares different (`CaselessSearch.KelvinFound`; `caseconv.h` line 2385), and the one for i U+0307 misses U+0130,
  which compares the same (`CaselessSearch.DottedMissed`).
* *Local networks.* `is_local_net` combines mask and address with `&&` (`gdomap.c:422`). On a host whose interfaces have
  nonzero addresses and masks it accepts every address but 0 (`PeerList.OnLocalNetConfigured`), for example 8.8.8.8 on
  192.168.0.1/24 (`PeerList.FarAddressPasses`). `PeerList.OnLocalNetIff` gives the set accepted, and
  `PeerList.OnLocalNetRightIff` exactly when the answer is that of the bitwise test: on such a host, for a nonzero
  address, iff the address is on a local network (`PeerList.ConfiguredRightIff`).
* *Register.* `gdomap.h` promises a reply of zero if the name is already registered; the code replies with the port if
  it is the same port, and rebinds, even to port 0, if the old port can be bound. The promise is kept iff the name is
  new, the port is 0, or the port differs and the old one cannot be bound (`NameService.RegisterPromiseIff`, failing in
  `NameService.RegisteredTwice`); the reply is exact in `NameService.RegisterRepliesIff`. A reply of zero leaves the
  bindings alone unless a name is rebound to port 0 (`NameService.RefusedRegistrationIff`,
  `NameService.ReboundToZero`). After a reply other than zero a lookup of the registered name and type finds the port
  unless the name had that port under another type, which it keeps (`NameService.RegisteredIsFoundIff`,
  `NameService.KeepsItsOldType`).
* *Lookup and unregister.* `gdomap.h` promises a reply of zero if the name is not registered, or could not be
  unregistered. Both hold except for a name that was rebound to port 0: a lookup of it answers zero
  (`NameService.LookupPromiseIff`), and unregistering it removes it and answers zero
  (`NameService.UnregisterPromiseIff`); an example is `NameService.BoundToNothing`.
* *Names lists.* More than 65535 names are reported to the client as none, more than 10,000,000 bytes as a failure
  (`NamesReply.TransferNames`). The client trusts the reply: it stays inside the bytes received iff the last record
  ends where they do (`NamesReply.WalkableIff`), and on the single byte 5 it does not (`NamesReply.CutShort`).
* *Fat files.* All fields are read as big-endian although a byte-swapped magic number is accepted, and a hidden 64-bit
  ARM entry is processed but not counted in the size of the table (`markgc.cpp:471-516`). Nevertheless no run can
  change the header, the table or the hidden entry (`FatFiles.FatFrame`).

## Model

| member | source | states |
|---|---|---|
| Decomposition.ExpandIsFullIff | sdk/gnustep-base-1.26.0/Source/GSeq.h:113-152 | the expansion loop yields the full recursive decomposition exactly on the inputs that settle, a condition on the table and the input alone |
| Decomposition.SplitAtFirstComposite | sdk/gnustep-base-1.26.0/Source/GSeq.h:113-152 | how the settling of a string depends on its first decomposable unit and on what the next pass starts from |
| Decomposition.ExpandLowersRank | sdk/gnustep-base-1.26.0/Source/GSeq.h:113-152 | expanding anything that can be decomposed strictly lowers the largest rank, the measure by which the loop ends |
| Decomposition.PassLowersRank | sdk/gnustep-base-1.26.0/Source/GSeq.h:119-151 | the part still to be scanned after a pass has a smaller largest rank, although the string may have grown |
| SkippedHeads.ExpandIsFullIffRecords | sdk/gnustep-base-1.26.0/Source/GSeq.h:133-136 | for tables with shallow tails, full decomposition happens iff each unit's heads are no deeper than one more than what stands to its left |
| SkippedHeads.ExpandAlwaysFullIff | sdk/gnustep-base-1.26.0/Source/GSeq.h:133-136 | a table is safe for all inputs iff no decomposition starts with a decomposable unit |
| SkippedHeads.SkippedHeadExample | sdk/gnustep-base-1.26.0/Source/GSeq.h:133-136 | two entries of the shipped table: U+01D5 alone is not decomposed fully, behind U+00DC it is |
| SkippedHeads.FullOfExpand | sdk/gnustep-base-1.26.0/Source/GSeq.h:113-152 | whatever is left undecomposed still has the same full decomposition as the input |
| SkippedHeads.ExpandLength | sdk/gnustep-base-1.26.0/Source/GSeq.h:71-73 | if no unit stands for MAXDEC or more final units, the expansion fits the buffer that GSEQ_MAKE declares |
| CanonicalOrder.InversionsOfSwap | sdk/gnustep-base-1.26.0/Source/GSeq.h:171-193 | each swap of the reorder loop removes exactly one inversion, so the loop ends |
| CanonicalOrder.ReorderIs | sdk/gnustep-base-1.26.0/Source/GSeq.h:158-199 | the result is the one that permutes marks only inside runs, into ascending order of class, and of code unit inside a class |
| CanonicalOrder.ReorderSorts | sdk/gnustep-base-1.26.0/Source/GSeq.h:171-193 | no mark of the result stands behind one of a higher class, or behind one of its class with a greater code unit |
| CanonicalOrder.ReorderEqualIff | sdk/gnustep-base-1.26.0/Source/GSeq.h:158-199 | two strings reorder to the same iff they differ only by permuting marks inside runs |
| GSeq.ExpandPass | sdk/gnustep-base-1.26.0/Source/GSeq.h:115-141 | one do/while scan writes the one-level decomposition of the stretch up to the NUL and the NUL, and reports where the next pass starts |
| GSeq.ExpandOnce | sdk/gnustep-base-1.26.0/Source/GSeq.h:115-143 | a scan and the copy back, with the terminator, inside both buffers |
| GSeq.ExpandFrom | sdk/gnustep-base-1.26.0/Source/GSeq.h:113-153 | the expansion loop ends, stays inside its buffers and leaves the expansion with the counted NUL |
| GSeq.ReorderMarks | sdk/gnustep-base-1.26.0/Source/GSeq.h:158-199 | the bubble sort over combining marks ends and leaves the reordered string |
| GSeq.GSeqStruct.Normalize | sdk/gnustep-base-1.26.0/Source/GSeq.h:80-203 | the structure holds the normal form of what it held, in the same buffer, and is marked as normalised |
| GSeq.GSeqStruct.Lowercase | sdk/gnustep-base-1.26.0/Source/GSeq.h:258-266 | every unit is replaced by its lower-case unit |
| GSeq.LowerAt | sdk/gnustep-base-1.26.0/Source/GSeq.h:258-266 | each unit through the lower-case table |
| GSeq.Compare | sdk/gnustep-base-1.26.0/Source/GSeq.h:209-256 | the verdict on what the two structures hold, and what each holds afterwards: unchanged on the fast path, normal form otherwise |
| NormalForms.NormalFormShape | sdk/gnustep-base-1.26.0/Source/GSeq.h:90-201 | units before the first one of 0xC0 or more stay, the rest is expanded and reordered, and one NUL is counted |
| NormalForms.NormalFormSorted | sdk/gnustep-base-1.26.0/Source/GSeq.h:158-199 | the same of the whole normal form of a scanned string |
| NormalForms.EqualNormalFormsAlways | sdk/gnustep-base-1.26.0/Source/GSeq.h:80-203 | for all strings with NUL at most at the beginning, as in every composed sequence: equal normal forms iff the expansions differ only by permuting marks inside runs and both or neither contain a unit of 0xC0 or more |
| NormalForms.EqualNormalFormsIff | sdk/gnustep-base-1.26.0/Source/GSeq.h:80-203 | for safe NUL-free strings: equal normal forms iff the full decompositions differ only inside runs and both or neither contain a unit of 0xC0 or more |
| NormalForms.MixedNormalFormsDiffer | sdk/gnustep-base-1.26.0/Source/GSeq.h:119-141 | a string that is scanned never has the normal form of one that is not and has NUL at most at the beginning |
| NormalForms.EquivalentButDifferent | sdk/gnustep-base-1.26.0/Source/GSeq.h:209-256 | U+01D5 and U+0055 U+0308 U+0304 have the same full decomposition but do not compare the same |
| NormalForms.KelvinIsNotK | sdk/gnustep-base-1.26.0/Source/GSeq.h:119-141 | U+212A and U+004B have the same full decomposition but do not compare the same |
| NormalForms.IdempotentIff | sdk/gnustep-base-1.26.0/Source/GSeq.h:80-203 | normalising twice is normalising once iff the string is not scanned or is safe |
| NormalForms.LexIs | sdk/gnustep-base-1.26.0/Source/GSeq.h:239-254 | a sequence comes first if it is a proper prefix, or has the smaller unit where the two first differ, and only then |
| NormalForms.ComparisonIs | sdk/gnustep-base-1.26.0/Source/GSeq.h:209-256 | sequences compare in that order of their normal forms |
| NormalForms.StartComesFirst | sdk/gnustep-base-1.26.0/Source/GSeq.h:239-254 | what begins with narrow units comes before anything that goes on behind them, as a bare letter before the letter with marks |
| NormalForms.DotBelowFirst | sdk/gnustep-base-1.26.0/Source/GSeq.h:171-193 | q with U+0307 U+0323 has U+0323 first in its normal form, and so comes after q with U+0310 |
| NormalForms.ComparisonIsTotalPreorder | sdk/gnustep-base-1.26.0/Source/GSeq.h:209-256 | comparison is reflexive, sign-antisymmetric, transitive, and Same iff the normal forms are equal, on all strings |
| NormalForms.VerdictIgnoresHistory | sdk/gnustep-base-1.26.0/Source/GSeq.h:209-256 | for strings with NUL at most at the beginning, the verdict is the same whether or not either argument was normalised before |
| NormalForms.FastPathAgreesIff | sdk/gnustep-base-1.26.0/Source/GSeq.h:220-237 | for a normal form and an unmarked copy of it, raw equality agrees with the full comparison iff the string it came from is not scanned or is safe |
| StringCompare.RangeOfSequence | sdk/gnustep-base-1.26.0/Source/GSString.m:3373-3390 | the composed sequence around an index, backwards to its base and forwards over its marks |
| StringCompare.SequencesPartition | sdk/gnustep-base-1.26.0/Source/GSString.m:3373-3390 | sequences partition a string: they run from boundary to boundary, and all their indices have the same range |
| SearchComplete.SequencesCover | sdk/gnustep-base-1.26.0/Source/GSString.m:3373-3390 | between boundaries the sequences put together are the text |
| StringCompare.CompareSequences | sdk/gnustep-base-1.26.0/Source/GSeq.h:593-617 | two sequences compare by their normal forms, after lowering those if caseless |
| StringCompare.CompareComposed | sdk/gnustep-base-1.26.0/Source/GSeq.h:541-626 | a range and a string compare lexicographically by their composed sequences |
| StringCompare.CompareLiteral | sdk/gnustep-base-1.26.0/Source/GSeq.h:455-540 | with the literal option: lexicographically by units, through the lower-case table if caseless; a proper prefix comes first |
| StringCompare.SameSequencesIff | sdk/gnustep-base-1.26.0/Source/GSeq.h:579-625 | the composed comparison says Same iff there are as many sequences and they agree one by one |
| StringCompare.SequencesOrder | sdk/gnustep-base-1.26.0/Source/GSeq.h:579-625 | a string comes first if it runs out first, or has the smaller key in the sequence where the two first differ, and only then |
| StringCompare.FoldedAt | sdk/gnustep-base-1.26.0/Source/GSeq.h:496-540 | what the literal comparison compares: each unit, through the lower-case table if caseless |
| StringCompare.StringOrderIsTotalPreorder | sdk/gnustep-base-1.26.0/Source/GSeq.h:541-626 | on whole strings and in both case modes the composed comparison is reflexive, sign-antisymmetric and transitive |
| StringSearch.FindLiteralForward | sdk/gnustep-base-1.26.0/Source/GSeq.h:670-807 | the leftmost literal or caseless occurrence inside the range, only the one at its start if anchored, NotFound iff there is none |
| StringSearch.FindLiteralBackward | sdk/gnustep-base-1.26.0/Source/GSeq.h:738-842 | the rightmost occurrence inside the range, only the one at its end if anchored, NotFound iff there is none |
| StringSearch.OccursIff | sdk/gnustep-base-1.26.0/Source/GSeq.h:670-842 | the literal search looks for what the literal comparison calls the same, in both case modes |
| StringSearch.FindComposedForward | sdk/gnustep-base-1.26.0/Source/GSeq.h:670-1123 | not found if the target is empty or has more units than the range; otherwise the leftmost visited position from which successive sequences match the whole target, with the extent of the match |
| StringSearch.CountBase | sdk/gnustep-base-1.26.0/Source/GSString.m:4468-4477 | the number of base units of the target |
| StringSearch.PathIsBoundaries | sdk/gnustep-base-1.26.0/Source/GSeq.h:1079-1120 | from a sequence boundary, the positions the loop visits are exactly the boundaries |
| StringSearch.ForwardOutcome | sdk/gnustep-base-1.26.0/Source/GSeq.h:1079-1122 | from a boundary, once the target is looked for: the leftmost matching boundary up to the last start and where its match ends, nothing found iff none matches up to there, and the exception iff moreover the last start is the end of the string |
| StringSearch.ForwardOutcomeAnywhere | sdk/gnustep-base-1.26.0/Source/GSeq.h:1079-1122 | the same from any start, for the positions that the walk visits, which need not be all boundaries |
| StringSearch.BaseLengthZeroIff | sdk/gnustep-base-1.26.0/Source/GSString.m:4468-4477 | the last start is the end of the range iff the target consists of marks only |
| StringSearch.SearchRunsOffTheEnd | sdk/gnustep-base-1.26.0/Source/GSeq.h:1079-1120 | looking for a lone mark in a string without it raises the exception |
| BackwardSearch.FindComposedBackward | sdk/gnustep-base-1.26.0/Source/GSeq.h:670-1057 | not found if the target is empty or has more units than the range; otherwise the last matching position among those visited backwards from as many units before the end of the range as the target has base units, with the extent of the match |
| BackwardSearch.PathBackIsTested | sdk/gnustep-base-1.26.0/Source/GSeq.h:1047-1053 | from any start, the positions visited backwards are exactly the start and the boundaries before it down to that of the sequence in which the range begins |
| BackwardSearch.BackwardOutcome | sdk/gnustep-base-1.26.0/Source/GSeq.h:1009-1056 | from any start, once the target is looked for: the rightmost tested position that matches and where its match ends, NotFound iff no tested position matches, and the exception iff the first position is the end of the string |
| BackwardSearch.BackwardLeavesStartIff | sdk/gnustep-base-1.26.0/Source/GSeq.h:1047-1053 | a match before the range is reported iff the range begins inside a sequence, that sequence matches, and no tested position in the range does |
| BackwardSearch.BackwardUnalignedIff | sdk/gnustep-base-1.26.0/Source/GSeq.h:1009-1056 | a match that begins inside a sequence is reported iff the search begins inside one and matches there |
| BackwardSearch.MatchBeforeRange | sdk/gnustep-base-1.26.0/Source/GSeq.h:1047-1053 | a match reported before the beginning of the range |
| StringSearch.FoundComparesSame | sdk/gnustep-base-1.26.0/Source/GSeq.h:541-626 | what a case-sensitive match covers, if it ends in the string, compares Same with the target in a composed comparison of that range |
| StringSearch.FoundComparesSameIff | sdk/gnustep-base-1.26.0/Source/GSeq.h:844-1123 | in both case modes, what a match covers compares Same with the target iff the first sequences have the same key in the comparison |
| SearchExtent.MatchEndIff | sdk/gnustep-base-1.26.0/Source/GSeq.h:1079-1122 | a match runs past the end of the range iff it begins there or takes the sequence in which the range ends; from a boundary it never leaves the string |
| SearchExtent.FoundTextIff | sdk/gnustep-base-1.26.0/Source/GSeq.h:844-1123 | a match that ends in the string covers the text looked for iff it begins at a boundary |
| SearchExtent.SoundIff | sdk/gnustep-base-1.26.0/Source/GSeq.h:844-1123 | a match lies in the range and is the text looked for iff it begins at a boundary inside the range, and the range ends at a boundary or a sequence is left over |
| SearchExtent.ForwardOverrunsIff | sdk/gnustep-base-1.26.0/Source/GSeq.h:1079-1122 | when a forward search from a boundary reports a match that ends past the range |
| SearchExtent.ForwardSoundIff | sdk/gnustep-base-1.26.0/Source/GSeq.h:1079-1122 | exactly when what a forward search reports lies in the range and is the text looked for |
| SearchExtent.ForwardUnsoundIff | sdk/gnustep-base-1.26.0/Source/GSeq.h:1079-1122 | a forward search, from anywhere, reports a wrong range iff the first match on its way begins inside a sequence or at the end of the range, or takes the sequence in which the range ends |
| SearchExtent.ForwardSound | sdk/gnustep-base-1.26.0/Source/GSeq.h:1079-1122 | between boundaries, a forward search for a target with a base unit reports only ranges inside the one searched, with the text looked for |
| SearchExtent.ForwardFromInside | sdk/gnustep-base-1.26.0/Source/GSeq.h:1079-1122 | a forward search that begins inside a matching sequence reports other text |
| SearchExtent.BackwardOverrunsIff | sdk/gnustep-base-1.26.0/Source/GSeq.h:1009-1056 | when a backward search reports a match that ends past the range |
| SearchExtent.BackwardSoundIff | sdk/gnustep-base-1.26.0/Source/GSeq.h:1009-1056 | exactly when what a backward search reports lies in the range and is the text looked for |
| SearchExtent.BackwardUnsoundIff | sdk/gnustep-base-1.26.0/Source/GSeq.h:1009-1056 | a backward search reports a wrong range iff the last tested match begins inside a sequence or outside the range, or takes the sequence in which the range ends |
| SearchExtent.BackwardSound | sdk/gnustep-base-1.26.0/Source/GSeq.h:1009-1056 | between boundaries and from one, a backward search reports only ranges inside the one searched, with the text looked for |
| SearchExtent.MarkedAtRangeEnd | sdk/gnustep-base-1.26.0/Source/GSeq.h:1009-1056 | looking backwards for one base with marks that stands at the end of the range always reports a match past that end |
| SearchExtent.PastTheRange | sdk/gnustep-base-1.26.0/Source/GSeq.h:1079-1122 | a forward match that ends past the range |
| SearchExtent.PastTheString | sdk/gnustep-base-1.26.0/Source/GSeq.h:1009-1056 | a backward match that ends past the string |
| SearchExtent.WrongText | sdk/gnustep-base-1.26.0/Source/GSeq.h:1079-1122 | a forward match that is not the text looked for |
| SearchComplete.CutoffLosesNothing | sdk/gnustep-base-1.26.0/Source/GSeq.h:1066-1067 | a match that begins in the range begins at least as many units before its end as the target has base units, in both case modes |
| SearchComplete.SequenceCount | sdk/gnustep-base-1.26.0/Source/GSString.m:4468-4477 | a string has as many composed sequences as base units, and one more if it begins with a mark |
| SearchComplete.ForwardMissesIff | sdk/gnustep-base-1.26.0/Source/GSeq.h:670-673 | an unanchored forward search from a boundary misses a match iff the target has more units than the range; otherwise it reports that match or an earlier one |
| SearchComplete.BackwardMissesIff | sdk/gnustep-base-1.26.0/Source/GSeq.h:670-673 | an unanchored backward search misses a match iff the target has more units than the range, or no base unit in a range that ends with the string; otherwise it reports that match or a later one |
| SearchComplete.ForwardVisitsAllIff | sdk/gnustep-base-1.26.0/Source/GSeq.h:1079-1120 | the forward walk visits every boundary iff it begins at one or the sequence it begins in goes on behind the last position |
| SearchComplete.ForwardSkipsNext | sdk/gnustep-base-1.26.0/Source/GSeq.h:1117-1119 | from inside a sequence the walk never visits the boundary behind it |
| SearchComplete.AnchoredForwardIff | sdk/gnustep-base-1.26.0/Source/GSeq.h:1066-1070 | anchored, a forward search reports a match iff the target has no more units than the range and matches at its beginning |
| SearchComplete.EndsAtBaseLengthIff | sdk/gnustep-base-1.26.0/Source/GSeq.h:996-1000 | an occurrence that ends with the range begins where the anchored backward search tests iff it has no mark behind its first unit and the target does not begin with one |
| SearchComplete.AnchoredBackwardIff | sdk/gnustep-base-1.26.0/Source/GSeq.h:996-1000 | anchored, a backward search reports an occurrence that ends with the range iff those conditions hold and the target has no more units than the range |
| SearchComplete.FindsItselfIff | sdk/gnustep-base-1.26.0/Source/GSeq.h:996-1000 | a string is found in itself, backward and anchored, iff it has no marks |
| SearchComplete.TextMatchesIff | sdk/gnustep-base-1.26.0/Source/GSeq.h:844-1123 | in both case modes, text between boundaries that compares Same with the target is a match iff the first sequences have the same key in the search |
| SearchComplete.TextMatches | sdk/gnustep-base-1.26.0/Source/GSeq.h:1079-1122 | text between boundaries that compares Same with the target is a match |
| SearchComplete.ForwardFindsIff | sdk/gnustep-base-1.26.0/Source/GSeq.h:670-1123 | between boundaries a target with a base unit is found forward iff it occurs and has no more units than the range, and what is found is it |
| SearchComplete.BackwardFindsIff | sdk/gnustep-base-1.26.0/Source/GSeq.h:670-1057 | the same backward, if the first position is a boundary |
| SearchComplete.LongerThanTheRange | sdk/gnustep-base-1.26.0/Source/GSeq.h:670-673 | text that compares Same with the target and is not found in either direction, because the target has more units |
| SearchComplete.NotFoundInItself | sdk/gnustep-base-1.26.0/Source/GSeq.h:996-1000 | an occurrence at the end of the range that the anchored backward search does not find |
| SearchComplete.JumpedOver | sdk/gnustep-base-1.26.0/Source/GSeq.h:1117-1119 | a match in the range that a forward search from inside a sequence does not find |
| CaselessSearch.FoundIsSame | sdk/gnustep-base-1.26.0/Source/GSeq.h:844-915 | where lowering commutes with normalisation on the first sequences, what the caseless search finds at a boundary compares caselessly the same |
| CaselessSearch.SameIsFound | sdk/gnustep-base-1.26.0/Source/GSeq.h:844-915 | and text between boundaries that compares caselessly the same is found |
| CaselessSearch.KelvinFound | sdk/gnustep-base-1.26.0/Source/GSeq.h:844-915 | a caseless match that caselessly compares different, with entries of the shipped tables |
| CaselessSearch.DottedMissed | sdk/gnustep-base-1.26.0/Source/GSeq.h:844-915 | text that caselessly compares the same and is not found, with entries of the shipped tables |
| PortMap.CompareTransitive | sdk/gnustep-base-1.26.0/Tools/gdomap.c:694-711 | the order of names by length, then bytes, is transitive |
| PortMap.CompareNamesIff | sdk/gnustep-base-1.26.0/Tools/gdomap.c:694-711 | shorter names come first, and of one length the one with the smaller byte where they first differ |
| PortMap.SortedIs | sdk/gnustep-base-1.26.0/Tools/gdomap.c:713-779 | what order the table is kept in |
| Shifting.OpenGap | sdk/gnustep-base-1.26.0/Tools/gdomap.c:740-750 | moving entries up one by one from the end makes room for one at a place and changes nothing else |
| Shifting.CloseGap | sdk/gnustep-base-1.26.0/Tools/gdomap.c:890-897 | moving entries down one by one removes one and changes nothing else |
| PortMap.Registry.MapByName | sdk/gnustep-base-1.26.0/Tools/gdomap.c:782-831 | bisection finds an entry iff there is one with that name |
| PortMap.Registry.MapAdd | sdk/gnustep-base-1.26.0/Tools/gdomap.c:713-779 | a new name goes where the order puts it, after growing the array if it is full |
| PortMap.Registry.DeletePort | sdk/gnustep-base-1.26.0/Tools/gdomap.c:3087-3096 | the loop of unregister-by-port ends, removes exactly the entries with that port and type, keeps the others in order, and tells whether there were any |
| NameService.DoRegister | sdk/gnustep-base-1.26.0/Tools/gdomap.c:2787-2930 | registering refines the abstract map, for the same port, a rebind, a refused bind, port 0 and a new name |
| NameService.DoLookup | sdk/gnustep-base-1.26.0/Tools/gdomap.c:2931-3044 | looking up refines the abstract map, including the removal of an entry whose port can be bound |
| NameService.DoUnregister | sdk/gnustep-base-1.26.0/Tools/gdomap.c:3045-3097 | unregistering by name or by port refines the abstract map |
| NameService.Serve | sdk/gnustep-base-1.26.0/Tools/gdomap.c:2787-3097 | any sequence of these requests, with any outcomes of the binds, gives the bindings and replies of the abstract map |
| NameService.ViewOfWithoutPort | sdk/gnustep-base-1.26.0/Tools/gdomap.c:833-902 | removing the entries of a port and type removes exactly those names from the abstract map |
| NameService.RegisterPromiseIff | sdk/gnustep-base-1.26.0/Tools/gdomap.c:2822-2900 | when a registered name is refused, as promised |
| NameService.RegisterRepliesIff | sdk/gnustep-base-1.26.0/Tools/gdomap.c:2822-2900 | when the reply is not zero; then it is the port, and the name is bound to it |
| NameService.RefusedRegistrationIff | sdk/gnustep-base-1.26.0/Tools/gdomap.c:2822-2900 | when a reply of zero means that nothing changed |
| NameService.RegisteredIsFoundIff | sdk/gnustep-base-1.26.0/Tools/gdomap.c:2822-2900 | when a lookup finds what was just registered |
| NameService.LookupPromiseIff | sdk/gnustep-base-1.26.0/Tools/gdomap.c:2931-3044 | when a lookup answers zero exactly for names that are not registered or whose owner is gone |
| NameService.UnregisterPromiseIff | sdk/gnustep-base-1.26.0/Tools/gdomap.c:3068-3096 | when an unregister request answers zero exactly if it removes nothing |
| NameService.RegisteredTwice | sdk/gnustep-base-1.26.0/Tools/gdomap.c:2822-2900 | a registered name answered with its port instead of zero |
| NameService.ReboundToZero | sdk/gnustep-base-1.26.0/Tools/gdomap.c:2822-2900 | a reply of zero that changes a binding |
| NameService.KeepsItsOldType | sdk/gnustep-base-1.26.0/Tools/gdomap.c:2822-2900 | a successful registration that a lookup does not find |
| NameService.BoundToNothing | sdk/gnustep-base-1.26.0/Tools/gdomap.c:2931-3097 | a name rebound to port 0: a lookup answers zero, and so does the request that removes it |
| PeerList.OnLocalNetIff | sdk/gnustep-base-1.26.0/Tools/gdomap.c:415-428 | which addresses count as local, given the logical operator in the code |
| PeerList.OnLocalNetRightIff | sdk/gnustep-base-1.26.0/Tools/gdomap.c:415-428 | when the test agrees with the bitwise test of networks |
| PeerList.OnLocalNetConfigured | sdk/gnustep-base-1.26.0/Tools/gdomap.c:415-428 | with nonzero addresses and masks, every address but 0 is accepted |
| PeerList.ConfiguredRightIff | sdk/gnustep-base-1.26.0/Tools/gdomap.c:415-428 | on a configured host the test is right about a nonzero address iff that is on a local network |
| PeerList.FarAddressPasses | sdk/gnustep-base-1.26.0/Tools/gdomap.c:415-428 | an address of another network that is accepted |
| PeerList.Peers.Add | sdk/gnustep-base-1.26.0/Tools/gdomap.c:923-989 | contact moves an address to the end of the list; addresses stay distinct and in order of contact |
| PeerList.ContactedIs | sdk/gnustep-base-1.26.0/Tools/gdomap.c:923-989 | another host on a local network is listed last, once, with the time; the others keep their places; any other address changes nothing |
| PeerList.Peers.Expire | sdk/gnustep-base-1.26.0/Tools/gdomap.c:1019-1032 | the backward scan deletes exactly the stale entries and keeps the rest in order |
| PeerList.FreshIff | sdk/gnustep-base-1.26.0/Tools/gdomap.c:1019-1032 | a peer is forgotten iff nothing has come from it for more than half an hour although a probe was sent since, and `noprobe` is 0 |
| PeerList.Peers.ServersReply | sdk/gnustep-base-1.26.0/Tools/gdomap.c:3098-3121 | the reply is a count, the requester, and the peers latest first |
| PeerList.LatestFirst | sdk/gnustep-base-1.26.0/Tools/gdomap.c:3110-3119 | every peer is listed once, in reverse order of contact |
| PeerList.AddressesAt | sdk/gnustep-base-1.26.0/Tools/gdomap.c:3098-3121 | a reader of the reply recovers each address at its place |
| UdpQueue.Queue.Enqueue | sdk/gnustep-base-1.26.0/Tools/gdomap.c:637-663 | a message is appended to the linked list, whose length is the pending count |
| UdpQueue.Queue.HandleSend | sdk/gnustep-base-1.26.0/Tools/gdomap.c:3361-3422 | only the first message advances; it leaves when complete or on an error other than blocking |
| UdpQueue.SendOutcome | sdk/gnustep-base-1.26.0/Tools/gdomap.c:3361-3422 | a message leaves if the rest of it was taken or the call did not block, and otherwise waits without what was taken |
| NamesReply.MakeReply | sdk/gnustep-base-1.26.0/Tools/gdomap.c:3122-3152 | the reply is the byte count and, name by name, length, type and characters |
| NamesReply.FetchNames | sdk/gnustep-base-1.26.0/Tools/gdomap.c:3852-3954 | what the client accepts, and how many names it counts |
| NamesReply.ListNames | sdk/gnustep-base-1.26.0/Tools/gdomap.c:4371-4386 | the client's walk over the records, where it ends, and whether it stays inside the bytes received |
| NamesReply.WalkableIff | sdk/gnustep-base-1.26.0/Tools/gdomap.c:4371-4386 | the walk stays inside the bytes received iff the last record that begins in them ends exactly at their end |
| NamesReply.CutShort | sdk/gnustep-base-1.26.0/Tools/gdomap.c:4371-4386 | a reply whose walk leaves the bytes received |
| NamesReply.WalkOfNames | sdk/gnustep-base-1.26.0/Tools/gdomap.c:3938-3944 | on the server's bytes the count is the number of names and the walk recovers all names in order |
| NamesReply.TransferNames | sdk/gnustep-base-1.26.0/Tools/gdomap.c:3122-3152 | server to client: the names of the table in order, within the two limits |
| Probes.ProbeTarget | sdk/gnustep-base-1.26.0/Tools/gdomap.c:2219-2231 | the loop that cuts the extra addresses into packets |
| Probes.ChunksPartition | sdk/gnustep-base-1.26.0/Tools/gdomap.c:2219-2231 | the packets partition the extra addresses, are max(1, ceil(n/61)) in number, and have nsize at most 252 |
| Probes.OtherAddressesOnNet | sdk/gnustep-base-1.26.0/Tools/gdomap.c:2014-2055 | the other addresses of this host on a network, in order |
| Probes.OthersExact | sdk/gnustep-base-1.26.0/Tools/gdomap.c:2014-2055 | an address is sent along iff it is one of another interface and on the network |
| Probes.StrictlyInside | sdk/gnustep-base-1.26.0/Tools/gdomap.c:2206-2216 | for a contiguous mask the bounds of the loop are the network and broadcast addresses of the subnet |
| Probes.SubnetProbesExact | sdk/gnustep-base-1.26.0/Tools/gdomap.c:2206-2232 | every other host strictly inside the subnet gets exactly one set of packets, everyone else none |
| Probes.NetsExact | sdk/gnustep-base-1.26.0/Tools/gdomap.c:2085-2120 | each network of an interface other than loopback is probed once |
| Probes.FirstOnIsLeast | sdk/gnustep-base-1.26.0/Tools/gdomap.c:2118-2165 | the interface that stands for a network is on it, and none before it is |
| ListedHosts.InitProbe | sdk/gnustep-base-1.26.0/Tools/gdomap.c:2063-2300 | nothing if probing is off; with a configured list, what each network and then the first interface sends to its hosts, and the new marks; otherwise one probe to a broadcast address, or probes to the hosts of the subnet, network by network |
| Probes.WhoIsProbed | sdk/gnustep-base-1.26.0/Tools/gdomap.c:2063-2300 | without a list: what is sent to an address by all the loops together; and it is sent something iff the interface with the least index on the network of some interface other than loopback reaches it |
| ListedHosts.ListedApart | sdk/gnustep-base-1.26.0/Tools/gdomap.c:2168-2298 | with a list: an address is sent exactly what it would be sent if nothing else were listed |
| ListedHosts.WhoIsListed | sdk/gnustep-base-1.26.0/Tools/gdomap.c:2168-2298 | with a list: an address is sent something iff it is listed and not one of this host, and marked iff the interface with the least index on one of the networks is on its network |
| ListedHosts.ListedFrom | sdk/gnustep-base-1.26.0/Tools/gdomap.c:2168-2298 | with a list: an address on one of the networks is probed from such an interface, any other from the first |
| ListedHosts.ListedCarries | sdk/gnustep-base-1.26.0/Tools/gdomap.c:2168-2195 | what is sent along with the probe of a listed host: the other addresses on the network, or none from an interface that can broadcast |
| Slots.AsMapRemove | sdk/gnustep-base-1.26.0/Tools/gdomap.c:474-502 | deleting a record and moving the later ones down removes that descriptor only |
| Slots.Get | sdk/gnustep-base-1.26.0/Tools/gdomap.c:506-546 | the search finds the record of a descriptor iff there is one |
| Channels.ChannelSafety | sdk/gnustep-base-1.26.0/Tools/gdomap.c:474-620 | in a safe state listeners are watched for reading only, a client is in exactly one set iff it has an RInfo, has a WInfo iff it is write-watched, and positions are within bounds |
| Channels.SafeCleared | sdk/gnustep-base-1.26.0/Tools/gdomap.c:1040-1084 | clearing a channel keeps a state safe |
| Channels.SafeAccepted | sdk/gnustep-base-1.26.0/Tools/gdomap.c:2307-2379 | accepting a connection keeps a state safe, also if it must be closed at once |
| Channels.SafeGot | sdk/gnustep-base-1.26.0/Tools/gdomap.c:2610-2631 | reading keeps a state safe until a whole request is there, which is then ready to be handled |
| Channels.SafeAnswered | sdk/gnustep-base-1.26.0/Tools/gdomap.c:2731-2785 | handling a ready request once and answering it keeps a state safe |
| Channels.SafeRefused | sdk/gnustep-base-1.26.0/Tools/gdomap.c:2763-2777 | handling a ready request and clearing the channel keeps a state safe |
| Channels.SafeWritten | sdk/gnustep-base-1.26.0/Tools/gdomap.c:3448-3488 | writing part of a reply keeps a state safe; writing the rest completes the connection |
| Channels.TakenOfPieces | sdk/gnustep-base-1.26.0/Tools/gdomap.c:2610-2625 | what is read depends on the bytes alone, however they are split over reads and calls |
| Channels.StreamStops | sdk/gnustep-base-1.26.0/Tools/gdomap.c:2608-2625 | a read that yields nothing is the last one that counts |
| Channels.OverwrittenIs | sdk/gnustep-base-1.26.0/Tools/gdomap.c:2667-2672 | what the record is known to hold after a datagram has been received into it |
| Channels.ClearedOutcome | sdk/gnustep-base-1.26.0/Tools/gdomap.c:1040-1084 | clearing ends a client's connection and keeps its history; a listener goes on listening with nothing to write |
| Channels.AcceptedOutcome | sdk/gnustep-base-1.26.0/Tools/gdomap.c:2307-2379 | a new client is watched for reading with nothing read, or ended at once; no other descriptor is affected |
| Channels.WriteOutcome | sdk/gnustep-base-1.26.0/Tools/gdomap.c:3448-3488 | what a write takes has been sent; the connection ends complete when all is, and as it stands on an error; no other descriptor is affected |
| Channels.Watch.ClearChan | sdk/gnustep-base-1.26.0/Tools/gdomap.c:1040-1084 | the sets and records after clear_chan, for listeners, clients and unknown descriptors |
| Channels.Watch.Accept | sdk/gnustep-base-1.26.0/Tools/gdomap.c:2325-2379 | the sets and records after a connection is taken |
| Channels.Watch.Fill | sdk/gnustep-base-1.26.0/Tools/gdomap.c:2608-2625 | the read loop appends what is offered, up to the size of a request, and tells whether anything came |
| Channels.Watch.HandleWrite | sdk/gnustep-base-1.26.0/Tools/gdomap.c:3434-3489 | a write advances, completes or closes the connection; the bytes sent stay a prefix of the reply |
| GdomapServer.Server.Respond | sdk/gnustep-base-1.26.0/Tools/gdomap.c:2763-3340 | reply, table and peers for each kind of request, the refusals for port type, operation and origin included |
| GdomapServer.Server.HandleRequest | sdk/gnustep-base-1.26.0/Tools/gdomap.c:2706-3348 | the outcome of a request, what is queued for UDP, and the channel afterwards |
| Handling.DecodeOfRequest | sdk/gnustep-base-1.26.0/Tools/gdomap.h:204-211 | the server reads type, length, port type, port and name of a request from where a client puts them |
| Handling.PortTypes | sdk/gnustep-base-1.26.0/Tools/gdomap.h:178-198 | which port types are accepted |
| Handling.RegisterHandled | sdk/gnustep-base-1.26.0/Tools/gdomap.c:2787-2930 | from the bytes of a registration to the bindings and the bytes of the reply, for a new name, the same port, a free and a busy old port, and port 0 |
| Handling.LookupHandled | sdk/gnustep-base-1.26.0/Tools/gdomap.c:2931-3044 | the same for a lookup: the port, or zero, and the removal of a name whose owner is gone |
| Handling.UnregisterHandled | sdk/gnustep-base-1.26.0/Tools/gdomap.c:3045-3086 | the same for unregistering a name |
| Handling.UnregisterPortHandled | sdk/gnustep-base-1.26.0/Tools/gdomap.c:3087-3097 | the same for unregistering all names of a port |
| Handling.StrangersRefused | sdk/gnustep-base-1.26.0/Tools/gdomap.c:2792-2804 | only local processes may register and unregister; others get no reply |
| Handling.IllegalRefused | sdk/gnustep-base-1.26.0/Tools/gdomap.c:2763-2777 | a request with another port type or of an unknown kind changes nothing and gets no reply |
| Handling.ServersHandled | sdk/gnustep-base-1.26.0/Tools/gdomap.c:3098-3121 | the bytes of the list of servers |
| Handling.NamesHandled | sdk/gnustep-base-1.26.0/Tools/gdomap.c:3122-3152 | the bytes of the list of names |
| Handling.ProbeHandled | sdk/gnustep-base-1.26.0/Tools/gdomap.c:3153-3338 | whom a probe or its reply makes known, and what is replied |
| GdomapServer.Server.HandleAccept | sdk/gnustep-base-1.26.0/Tools/gdomap.c:2307-2387 | a new client, with everything else in order |
| GdomapServer.Server.HandleRead | sdk/gnustep-base-1.26.0/Tools/gdomap.c:2588-2641 | however reads are split, the first GDO_REQ_SIZE bytes are handled as one request; end of file or an error closes |
| Runs.ReadOutcome | sdk/gnustep-base-1.26.0/Tools/gdomap.c:2588-2641 | 264 bytes, in however many pieces, are handled as one request, whose reply is then written; fewer wait if more may come, and otherwise the connection ends; no other descriptor is affected |
| GdomapServer.Server.HandleRecv | sdk/gnustep-base-1.26.0/Tools/gdomap.c:2647-2699 | a datagram of the right size from another host is handled as a request; any other is dropped, and one of the wrong size leaves its sender in the record and overwrites as much of the last request there as it covers |
| Runs.RecvOutcome | sdk/gnustep-base-1.26.0/Tools/gdomap.c:2647-2699 | a datagram of 264 bytes from another host is handled and its reply queued for the sender; any other is dropped |
| GdomapServer.Server.HandleWrite | sdk/gnustep-base-1.26.0/Tools/gdomap.c:3434-3489 | the write step of a client, with everything else in order |
| GdomapServer.Server.Visit | sdk/gnustep-base-1.26.0/Tools/gdomap.c:2541-2579 | one descriptor in the sweep: if readable then accept, recv or read, then, if writable and still watched, send or write, with exactly their effects |
| GdomapServer.Server.Sweep | sdk/gnustep-base-1.26.0/Tools/gdomap.c:2541-2579 | the sweep is a chain of such visits, one for each descriptor in order, and every state in between is safe |
| GdomapServer.VisitKeeps | sdk/gnustep-base-1.26.0/Tools/gdomap.c:2541-2579 | a visit leaves no other descriptor unwatched for reading, so the snapshot that the sweep works from stays right for those to come |
| Runs.VisitIsLocal | sdk/gnustep-base-1.26.0/Tools/gdomap.c:2541-2579 | whatever happens on one descriptor, nothing changes about any other, except about a client that is accepted |
| GdomapServer.Server.Purge | sdk/gnustep-base-1.26.0/Tools/gdomap.c:2429-2462 | watched bad descriptors are cleared in order, up to a listener, which is fatal |
| Runs.PurgedOutcome | sdk/gnustep-base-1.26.0/Tools/gdomap.c:2429-2462 | bad descriptors are fatal iff a watched listener is among them; otherwise all watched bad ones are cleared, and only those |
| GdomapServer.Server.Timeout | sdk/gnustep-base-1.26.0/Tools/gdomap.c:2482-2500 | stale peers are dropped; if nothing is pending and the interval has passed, then unless probing is off probes are queued and the time noted |
| Runs.QuietOutcome | sdk/gnustep-base-1.26.0/Tools/gdomap.c:2482-2500 | who is forgotten, and when which probes are queued; connections and names stay |
| GdomapServer.Server.HandleIo | sdk/gnustep-base-1.26.0/Tools/gdomap.c:2394-2582 | every run, over any wake-ups and any results of the calls, is a chain of these steps in which channels, connection histories, table and peers are always in order; it ends early only when a listener has gone bad |
| GdomapServer.StaysEncodable | sdk/gnustep-base-1.26.0/Tools/gdomap.c:2787-3097 | no request makes the table one that cannot be listed |
| MachO.StrnEqualIff | sdk/objc4-818.2/markgc.cpp:360-374 | what the bounded comparison of names compares |
| MachO.NewNameIs | sdk/objc4-818.2/markgc.cpp:377-410 | which segment and section names are disabled, and the names they get, as text |
| MachO.RewriteSectionIs | sdk/objc4-818.2/markgc.cpp:386-409 | a disabled section gets its new name and type 0 and keeps its attributes and everything else |
| MachO.RenamedIsDone | sdk/objc4-818.2/markgc.cpp:377-410 | a renamed section matches none of the three tests |
| MachO.RewriteIdempotent | sdk/objc4-818.2/markgc.cpp:377-438 | rewriting an image twice is rewriting it once, and leaves no section to disable |
| MarkGC.DoSectInPlace | sdk/objc4-818.2/markgc.cpp:377-410 | the three tests on one section, each on the outcome of the one before, in place |
| MarkGC.DoSegInPlace | sdk/objc4-818.2/markgc.cpp:412-421 | the loop over the sections of a segment changes those records and nothing else |
| MarkGC.ParseCommands | sdk/objc4-818.2/markgc.cpp:424-438 | the walk over the load commands, which rereads their number and sizes from the buffer it changes |
| MarkGC.ParseMacho | sdk/objc4-818.2/markgc.cpp:441-458 | the magic number selects width and byte order for the host; any other is refused |
| MarkGC.ParseFat | sdk/objc4-818.2/markgc.cpp:461-558 | the result on a whole file, thin or fat, and the bytes it leaves, with all refusals |
| MarkGCSquare.SectionSquare | sdk/objc4-818.2/markgc.cpp:377-410 | dosect on the encoding of a section is the encoding of the rewritten section |
| MarkGCSquare.SectionFrame | sdk/objc4-818.2/markgc.cpp:386-409 | of a section only the name and the flags change, of the flags only the type, and only if it is to be disabled |
| MarkGCSquare.CommandsSquare | sdk/objc4-818.2/markgc.cpp:424-438 | the walk over encoded commands yields the encoded rewritten commands |
| MarkGCSquare.ImageSquare | sdk/objc4-818.2/markgc.cpp:424-458 | for every width, byte order, host and position, the bytes of an image become the bytes of its rewrite and nothing around it changes |
| MarkGCSquare.ThinFile | sdk/objc4-818.2/markgc.cpp:461-474 | a well-formed thin file becomes its rewrite, and a second run changes nothing |
| MarkGCSquare.ImageFrame | sdk/objc4-818.2/markgc.cpp:386-409 | a byte of an image that the rewrite changes lies in the name or flags of a section that is to be disabled |
| MarkGCSquare.ThinFrame | sdk/objc4-818.2/markgc.cpp:461-474 | a byte of a thin file that differs after a run lies in such a field |
| FatFiles.SlicesFrame | sdk/objc4-818.2/markgc.cpp:522-555 | whatever the slices hold, header and table survive the loop; it succeeds only if every slice fits |
| FatFiles.FatFrame | sdk/objc4-818.2/markgc.cpp:474-557 | for any fat file: header, table and hidden entry stay, and success means all slices lie between the table and the end (on bytes in FatTable.TableFrame) |
| FatFiles.FatSquare | sdk/objc4-818.2/markgc.cpp:461-558 | a fat file with disjoint slices: every slice is rewritten, no byte outside the slices changes, a second run changes nothing (on bytes in FatTable.TableSquare) |
| FatFiles.FatBytesFrame | sdk/objc4-818.2/markgc.cpp:461-558 | a byte of a fat file that differs after a run lies in such a field of an image in one of the slices |
| FatTable.IsFatIff | sdk/objc4-818.2/markgc.cpp:470-474 | a file is a fat one iff it begins with the magic number in either byte order, on any host |
| FatTable.TableSquare | sdk/objc4-818.2/markgc.cpp:461-558 | told by the bytes of header and entries, a hidden one included: every image that an entry places is rewritten, nothing else changes, a second run changes nothing |
| FatTable.TableFrame | sdk/objc4-818.2/markgc.cpp:474-557 | told by the bytes: header, table and hidden entry stay, and success means that the offset and size in every entry lie between the table and the end |
| Firehose.Reader.Next | sdk/libdispatch-1173.40.5/os/firehose_buffer_private.h:108-136 | the next finished tracepoint, and the cursor behind it; the loop ends |
| Firehose.ForEach | sdk/libdispatch-1173.40.5/os/firehose_buffer_private.h:95-141 | iteration yields exactly the tracepoints found from the start of the data, wherever in the chunk that is |
| Firehose.FoundInBounds | sdk/libdispatch-1173.40.5/os/firehose_buffer_private.h:108-136 | the tracepoints are finished, aligned, in order, disjoint and wholly before the end |
| Firehose.FoundAll | sdk/libdispatch-1173.40.5/os/firehose_buffer_private.h:108-136 | on back-to-back records exactly those with an identifier are found, in order |
| Firehose.FoundUntil | sdk/libdispatch-1173.40.5/os/firehose_buffer_private.h:112-131 | where the next length is zero or too large, or there is no room for a header, nothing more is found |

## Left out

- The 8-bit string instantiations of the comparison and search macros, and class dispatch: one 16-bit instantiation is modelled.
- The lookup in the Unicode tables themselves: their contents are a parameter with stated properties. The data of the non-base set (NSCharacterSetData.h) is not part of this model; of it only that NUL is not a mark is assumed.
- Sockets, select, fork, options, configuration, logging and statistics of gdomap: only what calls return is modelled. Reads and writes return no more than they were asked for, and time does not run backwards.
- The byte image of probe and probe-reply packets, and the reading of the list of hosts: probes are values, and the reply and its extra packets enter the server as inputs.
- GdomapServer.Server.HandleAccept: a descriptor that accept returns is taken to be one that is not in use and smaller than FD_SETSIZE; the code adds a larger one to the set without a check.
- GdomapServer.Server.HandleRecv: the bytes of a short datagram behind the recorded position are not modelled; nothing reads them.
- C heap ownership: records and messages are values or objects, not blocks that are allocated and freed.
- NamesReply.MakeReply: does not model the overflow of the C integer that counts the bytes of all names; only the four-byte count wraps.
- MarkGC.ParseFat: the two overflow checks on the size of the table are omitted, because with 64-bit sizes they cannot fire; requires, like ParseMacho, that the walk over each slice stays inside the buffer.
- MarkGC.ParseMacho: requires the walk to stay inside the buffer, which the code takes for granted.
- MarkGC.DoSegInPlace: requires the section headers of the segment to lie inside the buffer, which the code takes for granted.
- MarkGC.ParseCommands: requires the walk to stay inside the buffer, which the code takes for granted.
- Firehose.Reader.Next: the size of the tracepoint header and the position of its fields are constants, and where a chunk's data begins is a parameter; their definition is not part of the repository.
- The field layout of Mach-O headers, load commands and sections, and the numeric constants of that format, come from system headers that are not part of the repository.
- The debugging output of markgc, and the file handling around it.
- `firehose_buffer_range_validate`, the rest of libdispatch, and all demonstration programs: declarations, or nothing to prove.
